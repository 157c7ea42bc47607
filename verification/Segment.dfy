/** Memory segments: the bump allocator of lib_mem.c in wrapping word arithmetic, and the exact
    unbounded-integer allocator it stands for. */
module Segment {
  import opened Arith
  import opened Machine

  const ALIGN_SIZE: Word := 4   // sizeof(CPU_ALIGN)
  const PADDING_NONE: Word := 1 // LIB_MEM_PADDING_ALIGN_NONE

  /** MEM_SEG without its list link; `next` is the machine value of AddrNext. */
  datatype Seg = Seg(base: Word, end: Word, next: Word, pad: Word) {

    /** First address past the segment. */
    function Limit(): nat { end + 1 }

    /** AddrNext as an unbounded address: a full segment ending at the top of the address space
        has wrapped to 0. */
    function Next(): nat { if next < base then next + WORD else next }

    ghost predicate Wf() {
      && base <= end && end - base + 1 < WORD
      && IsPow2(pad)
      && base <= Next() <= Limit()
    }

    /** Where an exact allocator places a block and where its padded footprint ends. */
    function BlkAt(align: Word, padding: Word): nat
      requires align > 0 && padding > 0
    {
      RoundUp(Next(), Max(align, padding))
    }

    function FootEnd(size: Word, align: Word, padding: Word): nat
      requires align > 0 && padding > 0
    {
      RoundUp(BlkAt(align, padding) + size, padding)
    }

    /** The padded request, gap included, is representable in a word. */
    predicate Fits(size: Word, align: Word, padding: Word)
      requires align > 0 && padding > 0
    {
      FootEnd(size, align, padding) - Next() < WORD
    }
  }

  datatype AllocResult =
    | Granted(addr: Word)
    | SegOvf(missing: nat)
    | InvalidSize
    | InvalidAlign

  /** Second half of Mem_SegAllocExtCritical: compare what remains with what is needed. */
  function Commit(s: Seg, blkAddr: Word, addrNext: Word): (Seg, AllocResult) {
    var sizeRem := (s.end - s.next + 1) % WORD;
    var sizeTot := (addrNext - s.next) % WORD;
    if sizeRem < sizeTot then (s, SegOvf(sizeTot - sizeRem))
    else (s.(next := addrNext), Granted(blkAddr))
  }

  /** Mem_SegAllocExtCritical. */
  function AllocExtCritical(s: Seg, size: Word, align: Word, padding: Word): (Seg, AllocResult)
    requires align > 0 && padding > 0
  {
    var blkAddr := MathRoundIncUpPwr2(s.next, Max(align, padding));
    var addrNext := MathRoundIncUpPwr2((blkAddr + size) % WORD, padding);
    Commit(s, blkAddr, addrNext)
  }

  /** Mem_SegAllocInternal with argument checks on. */
  function AllocInternal(s: Seg, size: Word, align: Word, padding: Word): (Seg, AllocResult)
    requires padding > 0
  {
    if size < 1 then (s, InvalidSize)
    else if !MathIsPwr2(align) then (s, InvalidAlign)
    else AllocExtCritical(s, size, align, padding)
  }

  lemma MaxPow2(a: Word, b: Word)
    requires IsPow2(a) && IsPow2(b)
    ensures a > 0 && b > 0
    ensures IsPow2(Max(a, b)) && Max(a, b) % a == 0 && Max(a, b) % b == 0
  {
    Pow2Divides(a, Max(a, b));
    Pow2Divides(b, Max(a, b));
  }

  lemma NextWraps(s: Seg)
    requires s.Wf()
    ensures s.Next() % WORD == s.next
  {
  }

  lemma RoundWraps(n: nat, m: Word, p: Word)
    requires m == n % WORD && IsPow2(p)
    ensures p > 0 && MathRoundIncUpPwr2(m, p) == RoundUp(n, p) % WORD
  {
    RoundCommutesWithWrap(n, p);
  }

  lemma BlkWraps(s: Seg, align: Word, padding: Word)
    requires s.Wf() && IsPow2(align) && IsPow2(padding)
    ensures align > 0 && padding > 0
    ensures MathRoundIncUpPwr2(s.next, Max(align, padding)) == s.BlkAt(align, padding) % WORD
  {
    MaxPow2(align, padding);
    NextWraps(s);
    RoundWraps(s.Next(), s.next, Max(align, padding));
  }

  /** Every intermediate word of the machine allocator is the exact quantity modulo the word. */
  lemma MachineWords(s: Seg, size: Word, align: Word, padding: Word)
    requires s.Wf() && IsPow2(align) && IsPow2(padding)
    ensures align > 0 && padding > 0
    ensures AllocExtCritical(s, size, align, padding)
            == Commit(s, s.BlkAt(align, padding) % WORD, s.FootEnd(size, align, padding) % WORD)
  {
    MaxPow2(align, padding);
    var blk := s.BlkAt(align, padding);
    BlkWraps(s, align, padding);
    WrapSum(blk, size);
    RoundWraps(blk + size, (blk % WORD + size) % WORD, padding);
    AllocCommits(s, size, align, padding, blk % WORD, s.FootEnd(size, align, padding) % WORD);
  }

  lemma AllocCommits(s: Seg, size: Word, align: Word, padding: Word, blkAddr: Word, addrNext: Word)
    requires align > 0 && padding > 0 && blkAddr == MathRoundIncUpPwr2(s.next, Max(align, padding))
    requires addrNext == MathRoundIncUpPwr2((blkAddr + size) % WORD, padding)
    ensures AllocExtCritical(s, size, align, padding) == Commit(s, blkAddr, addrNext)
  {
  }

  lemma WrapSum(a: nat, b: nat)
    ensures (a % WORD + b) % WORD == (a + b) % WORD
  {
  }

  /** The comparison of wrapped sizes, in exact terms. */
  lemma CommitWords(s: Seg, blk: nat, fin: nat)
    requires s.Wf() && s.Next() <= fin
    ensures var r := Commit(s, blk % WORD, fin % WORD);
            var rem, tot := s.Limit() - s.Next(), (fin - s.Next()) % WORD;
            && (rem < tot ==> r == (s, SegOvf(tot - rem)))
            && (rem >= tot ==> r == (s.(next := fin % WORD), Granted(blk % WORD)))
  {
    RemWraps(s);
    NextWraps(s);
    WrapDiff(fin, s.Next());
  }

  lemma RemWraps(s: Seg)
    requires s.Wf()
    ensures (s.end - s.next + 1) % WORD == s.Limit() - s.Next()
  {
  }

  lemma WrapDiff(a: nat, b: nat)
    ensures (a % WORD - b % WORD) % WORD == (a - b) % WORD
  {
  }

  /** The answer depends on the wrapped size of the padded request and on the room that is left. */
  lemma AnswerBySize(s: Seg, size: Word, align: Word, padding: Word, room: nat, tot: nat)
    requires s.Wf() && IsPow2(align) && IsPow2(padding) && align > 0 && padding > 0
    requires room == s.Limit() - s.Next() && tot == (s.FootEnd(size, align, padding) - s.Next()) % WORD
    ensures AllocExtCritical(s, size, align, padding).1 ==
            if room < tot then SegOvf(tot - room) else Granted(s.BlkAt(align, padding) % WORD)
  {
    MachineWords(s, size, align, padding);
    CommitWords(s, s.BlkAt(align, padding), s.FootEnd(size, align, padding));
  }

  /** What the exact allocator answers for a block at `blk` whose footprint ends at `fin`. */
  ghost predicate Exactly(s: Seg, blk: nat, fin: nat, r: (Seg, AllocResult)) {
    if fin <= s.Limit() then
      && blk < WORD && r.1 == Granted(blk)
      && r.0 == s.(next := r.0.next) && r.0.Wf() && r.0.Next() == fin
    else r == (s, SegOvf(fin - s.Limit()))
  }

  lemma CommitRefines(s: Seg, blk: nat, fin: nat)
    requires s.Wf() && s.Next() <= blk < fin && fin - s.Next() < WORD
    ensures Exactly(s, blk, fin, Commit(s, blk % WORD, fin % WORD))
  {
    CommitWords(s, blk, fin);
    SmallMod(fin - s.Next());
    if fin <= s.Limit() {
      NextAdvances(s, fin);
    }
  }

  lemma NextAdvances(s: Seg, fin: nat)
    requires s.Wf() && s.Next() < fin <= s.Limit()
    ensures var s' := s.(next := fin % WORD);
            s'.Wf() && s'.Next() == fin
  {
  }

  /** REFINEMENT: when the padded request fits in a word the machine allocator is the exact one,
      also for a segment that ends at the top of the address space. */
  lemma AllocRefinesExact(s: Seg, size: Word, align: Word, padding: Word)
    requires s.Wf() && IsPow2(align) && IsPow2(padding) && size > 0
    requires align > 0 && padding > 0 && s.Fits(size, align, padding)
    ensures Exactly(s, s.BlkAt(align, padding), s.FootEnd(size, align, padding),
                    AllocExtCritical(s, size, align, padding))
  {
    MachineWords(s, size, align, padding);
    CommitRefines(s, s.BlkAt(align, padding), s.FootEnd(size, align, padding));
  }

  /** The causes of the two argument errors. */
  lemma AllocErrors(s: Seg, size: Word, align: Word, padding: Word)
    requires padding > 0
    ensures AllocInternal(s, size, align, padding).1 == InvalidSize <==> size == 0
    ensures AllocInternal(s, size, align, padding).1 == InvalidAlign <==> size > 0 && !IsPow2(align)
    ensures !AllocInternal(s, size, align, padding).1.Granted? ==> AllocInternal(s, size, align, padding).0 == s
  {
    MathIsPwr2Exact(align);
  }

  /** A block is placed at the least address that is free and aligned both ways, and its footprint is
      the least that covers it in whole lines. */
  lemma PlacementLeast(s: Seg, size: Word, align: Word, padding: Word, m: nat)
    requires IsPow2(align) && IsPow2(padding) && align > 0 && padding > 0
    ensures s.Next() <= m && m % align == 0 && m % padding == 0 ==> s.BlkAt(align, padding) <= m
    ensures s.BlkAt(align, padding) + size <= m && m % padding == 0 ==> s.FootEnd(size, align, padding) <= m
  {
    if s.Next() <= m && m % align == 0 && m % padding == 0 {
      RoundUpLeast(s.Next(), Max(align, padding), m);
    }
    if s.BlkAt(align, padding) + size <= m && m % padding == 0 {
      RoundUpLeast(s.BlkAt(align, padding) + size, padding, m);
    }
  }

  /** Where a granted block lies. */
  lemma BlockPlacement(s: Seg, size: Word, align: Word, padding: Word)
    requires s.Wf() && IsPow2(align) && IsPow2(padding) && size > 0
    requires align > 0 && padding > 0
    ensures var blk, fin := s.BlkAt(align, padding), s.FootEnd(size, align, padding);
            && s.base <= s.Next() <= blk && blk + size <= fin
            && blk % align == 0 && blk % padding == 0 && fin % padding == 0
  {
    MaxPow2(align, padding);
    var blk := s.BlkAt(align, padding);
    ModTrans(blk, Max(align, padding), align);
    ModTrans(blk, Max(align, padding), padding);
  }

  /** The machine allocator grants what the exact one grants if and only if the padded request
      fits in a word or its wrapped size is still too big for what remains. */
  lemma AllocAgreesIff(s: Seg, size: Word, align: Word, padding: Word)
    requires s.Wf() && IsPow2(align) && IsPow2(padding) && size > 0
    ensures align > 0 && padding > 0
    ensures var fin := s.FootEnd(size, align, padding);
            var granted := AllocExtCritical(s, size, align, padding).1.Granted?;
            (granted == (fin <= s.Limit()))
            <==> (s.Fits(size, align, padding) || (fin - s.Next()) % WORD > s.Limit() - s.Next())
  {
    MaxPow2(align, padding);
    var n := s.FootEnd(size, align, padding) - s.Next();
    AnswerBySize(s, size, align, padding, s.Limit() - s.Next(), n % WORD);
    SmallMod(n);
  }

  /** The request is not granted on the strength of a size that wrapped. */
  ghost predicate GrantFits(s: Seg, size: Word, align: Word, padding: Word)
    requires align > 0 && padding > 0
  {
    AllocExtCritical(s, size, align, padding).1.Granted? ==> s.Fits(size, align, padding)
  }

  /** That is exactly the requests that the machine allocator answers as the exact one does. */
  lemma GrantFitsIff(s: Seg, size: Word, align: Word, padding: Word)
    requires s.Wf() && IsPow2(align) && IsPow2(padding) && size > 0
    ensures align > 0 && padding > 0
    ensures GrantFits(s, size, align, padding)
            <==> AllocExtCritical(s, size, align, padding).1.Granted? == (s.FootEnd(size, align, padding) <= s.Limit())
  {
    AllocAgreesIff(s, size, align, padding);
    MachineWords(s, size, align, padding);
    CommitWords(s, s.BlkAt(align, padding), s.FootEnd(size, align, padding));
  }

  /** The whole answer to a request that is not granted on a wrapped size. */
  lemma AllocAnswer(s: Seg, size: Word, align: Word, padding: Word)
    requires s.Wf() && IsPow2(align) && IsPow2(padding) && size > 0 && align > 0 && padding > 0
    requires GrantFits(s, size, align, padding)
    ensures var blk, fin := s.BlkAt(align, padding), s.FootEnd(size, align, padding);
            var (s', r) := AllocInternal(s, size, align, padding);
            if fin <= s.Limit()
            then blk < WORD && r == Granted(blk) && s' == s.(next := s'.next) && s'.Next() == fin
            else r.SegOvf? && s' == s
  {
    MathIsPwr2Exact(align);
    GrantFitsIff(s, size, align, padding);
    if AllocExtCritical(s, size, align, padding).1.Granted? {
      AllocRefinesExact(s, size, align, padding);
    }
  }

  lemma SmallMod(n: nat)
    ensures n < WORD ==> n % WORD == n
  {
  }

  /** A 2 GB request from a segment of 2 GB less one byte is granted, outside the segment. */
  lemma AllocWrapExample()
    ensures var s := Seg(1, 0x7FFF_FFFF, 1, 1);
            && s.Wf() && IsPow2(0x8000_0000)
            && AllocExtCritical(s, 0x8000_0001, 0x8000_0000, 1).1 == Granted(0x8000_0000)
  {
    var s := Seg(1, 0x7FFF_FFFF, 1, 1);
    TwoGigIsPow2();
    assert s.BlkAt(0x8000_0000, 1) == 0x8000_0000;
    assert s.FootEnd(0x8000_0001, 0x8000_0000, 1) == 0x1_0000_0001;
    MachineWords(s, 0x8000_0001, 0x8000_0000, 1);
    CommitWords(s, 0x8000_0000, 0x1_0000_0001);
  }

  lemma TwoGigIsPow2()
    ensures IsPow2(1) && IsPow2(0x8000_0000)
  {
    assert Pow2(0) == 1;
    WordIsPow2();
    assert Pow2(31) == 0x8000_0000;
  }

  /** The segment with `ext` more bytes at its end. */
  function Extended(s: Seg, ext: nat): Seg
    requires s.end + ext < WORD
  {
    s.(end := s.end + ext)
  }

  /** An extension changes the room that is left and nothing about where a block belongs. */
  lemma ExtendedPlaces(s: Seg, size: Word, align: Word, padding: Word, ext: nat)
    requires s.Wf() && align > 0 && padding > 0 && s.end + ext < WORD && s.end + ext - s.base + 1 < WORD
    ensures var t := Extended(s, ext);
            && t.Wf() && t.Next() == s.Next() && t.Limit() == s.Limit() + ext
            && t.FootEnd(size, align, padding) == s.FootEnd(size, align, padding)
  {
  }

  /** The reported shortage is the least extension of the segment that satisfies the request, for
      every request that is refused. */
  lemma MissingIsLeastExtension(s: Seg, size: Word, align: Word, padding: Word, ext: nat)
    requires s.Wf() && IsPow2(align) && IsPow2(padding) && size > 0 && align > 0 && padding > 0
    requires AllocExtCritical(s, size, align, padding).1.SegOvf?
    requires s.end + ext < WORD && s.end + ext - s.base + 1 < WORD
    ensures AllocExtCritical(Extended(s, ext), size, align, padding).1.Granted?
            <==> ext >= AllocExtCritical(s, size, align, padding).1.missing
  {
    var room, tot := s.Limit() - s.Next(), (s.FootEnd(size, align, padding) - s.Next()) % WORD;
    ExtendedPlaces(s, size, align, padding, ext);
    AnswerBySize(s, size, align, padding, room, tot);
    AnswerBySize(Extended(s, ext), size, align, padding, room + ext, tot);
  }

  /** That extension also makes room for the block if and only if the request fits in a word. */
  lemma MissingMakesRoomIff(s: Seg, size: Word, align: Word, padding: Word)
    requires s.Wf() && IsPow2(align) && IsPow2(padding) && size > 0 && align > 0 && padding > 0
    requires AllocExtCritical(s, size, align, padding).1.SegOvf?
    ensures s.FootEnd(size, align, padding) <= s.Limit() + AllocExtCritical(s, size, align, padding).1.missing
            <==> s.Fits(size, align, padding)
  {
    var blk, fin := s.BlkAt(align, padding), s.FootEnd(size, align, padding);
    MachineWords(s, size, align, padding);
    CommitWords(s, blk, fin);
    SmallMod(fin - s.Next());
    WrapLess(fin - s.Next());
  }

  lemma WrapLess(n: nat)
    ensures n >= WORD ==> n % WORD < n
  {
  }

  /** The two tests of Mem_SegOverlapChkCritical against one registered segment. */
  predicate SameRange(s: Seg, base: Word, end: Word) {
    base == s.base && end == s.end
  }

  predicate Meets(s: Seg, base: Word, end: Word) {
    (base >= s.base && base <= s.end) || (base <= s.base && end >= s.base)
  }

  predicate Within(a: nat, base: Word, end: Word) {
    base <= a <= end
  }

  ghost predicate Shares(s: Seg, base: Word, end: Word) {
    exists a: nat :: Within(a, s.base, s.end) && Within(a, base, end)
  }

  /** The second test is exactly that the two ranges have an address in common. */
  lemma MeetsIffShares(s: Seg, base: Word, end: Word)
    requires s.base <= s.end && base <= end
    ensures Meets(s, base, end) <==> Shares(s, base, end)
  {
    if Meets(s, base, end) {
      var a := Max(base, s.base);
      assert Within(a, s.base, s.end) && Within(a, base, end);
    }
  }

  /** Total size less used size, in word arithmetic, when the next block would start at `next`. */
  function RemFrom(s: Seg, next: Word): Word {
    var totalSize := (s.end - s.base + 1) % WORD;
    var usedSize := (next - s.base) % WORD;
    (totalSize - usedSize) % WORD
  }

  /** Mem_SegRemSizeGet. */
  function SegRemSize(s: Seg, align: Word): Word
    requires align > 0
  {
    RemFrom(s, MathRoundIncUpPwr2(s.next, align))
  }

  lemma SegRemSizeWraps(s: Seg, align: Word)
    requires s.Wf() && IsPow2(align)
    ensures align > 0
    ensures SegRemSize(s, align) == (s.Limit() - RoundUp(s.Next(), align)) % WORD
  {
    NextWraps(s);
    RoundCommutesWithWrap(s.Next(), align);
    RemFromWraps(s, RoundUp(s.Next(), align));
  }

  lemma RemFromWraps(s: Seg, next: nat)
    requires s.Wf()
    ensures RemFrom(s, next % WORD) == (s.Limit() - next) % WORD
  {
    SmallMod(s.end - s.base + 1);
    WrapDiffs(s.end - s.base + 1, next, s.base);
  }

  lemma WrapDiffs(t: nat, r: nat, b: nat)
    ensures (t % WORD - (r % WORD - b) % WORD) % WORD == (t - r + b) % WORD
  {
  }

  lemma AllocExtGrants(s: Seg, size: Word, align: Word)
    requires s.Wf() && IsPow2(align) && size > 0
    requires align > 0 && s.Fits(size, align, PADDING_NONE)
    ensures AllocInternal(s, size, align, PADDING_NONE).1.Granted?
            <==> RoundUp(s.Next(), align) + size <= s.Limit()
  {
    assert Pow2(0) == PADDING_NONE;
    MathIsPwr2Exact(align);
    RoundUpOne(RoundUp(s.Next(), align) + size);
    AllocRefinesExact(s, size, align, PADDING_NONE);
  }

  ghost predicate Predicted(s: Seg, align: Word, size: Word)
    requires align > 0
  {
    AllocInternal(s, size, align, PADDING_NONE).1.Granted? <==> size <= SegRemSize(s, align)
  }

  lemma RemSizeWithin(s: Seg, align: Word, size: Word)
    requires s.Wf() && IsPow2(align) && size > 0
    requires align > 0 && s.Fits(size, align, PADDING_NONE) && RoundUp(s.Next(), align) <= s.Limit()
    ensures Predicted(s, align, size)
  {
    SegRemSizeWraps(s, align);
    SmallMod(s.Limit() - RoundUp(s.Next(), align));
    AllocExtGrants(s, size, align);
  }

  lemma WrapNegative(n: int)
    requires n < 0 < n + WORD
    ensures n % WORD == n + WORD
  {
  }

  /** Past the end the remainder has wrapped: it promises one byte that is not there. */
  lemma RemSizePast(s: Seg, align: Word)
    requires s.Wf() && IsPow2(align)
    requires align > 0 && RoundUp(s.Next(), align) > s.Limit()
    ensures s.Fits(1, align, PADDING_NONE) && !Predicted(s, align, 1)
  {
    var blk := RoundUp(s.Next(), align);
    RoundUpOne(blk + 1);
    assert s.FootEnd(1, align, PADDING_NONE) == blk + 1;
    SegRemSizeWraps(s, align);
    WrapNegative(s.Limit() - blk);
    AllocExtGrants(s, 1, align);
  }

  /** The footprint of an unpadded request. */
  lemma PlainFoot(s: Seg, size: Word, align: Word)
    requires align > 0
    ensures s.BlkAt(align, PADDING_NONE) == RoundUp(s.Next(), align)
    ensures s.FootEnd(size, align, PADDING_NONE) == RoundUp(s.Next(), align) + size
  {
    RoundUpOne(RoundUp(s.Next(), align) + size);
  }

  /** A request whose size, gap included, wraps a word is granted: what is left of it after the wrap
      is less than the gap. */
  lemma WrappedIsGranted(s: Seg, align: Word, size: Word)
    requires s.Wf() && IsPow2(align) && size > 0
    requires align > 0 && !s.Fits(size, align, PADDING_NONE) && RoundUp(s.Next(), align) <= s.Limit()
    ensures AllocInternal(s, size, align, PADDING_NONE).1.Granted?
    ensures size > s.Limit() - RoundUp(s.Next(), align)
  {
    assert Pow2(0) == PADDING_NONE;
    MathIsPwr2Exact(align);
    PlainFoot(s, size, align);
    var fin := s.FootEnd(size, align, PADDING_NONE);
    MachineWords(s, size, align, PADDING_NONE);
    CommitWords(s, s.BlkAt(align, PADDING_NONE), fin);
    WrapsOnce(fin - s.Next());
  }

  lemma WrapsOnce(n: nat)
    requires WORD <= n < 2 * WORD
    ensures n % WORD == n - WORD
  {
  }

  /** PREDICTION, size by size: when the aligned next address is within the end, the remainder
      predicts Mem_SegAllocExt for exactly the sizes whose aligned request fits in a word. */
  lemma RemSizePredictsIff(s: Seg, align: Word, size: Word)
    requires s.Wf() && IsPow2(align) && size > 0
    requires align > 0 && RoundUp(s.Next(), align) <= s.Limit()
    ensures Predicted(s, align, size) <==> s.Fits(size, align, PADDING_NONE)
  {
    if s.Fits(size, align, PADDING_NONE) {
      RemSizeWithin(s, align, size);
    } else {
      WrappedIsGranted(s, align, size);
      SegRemSizeWraps(s, align);
      SmallMod(s.Limit() - RoundUp(s.Next(), align));
    }
  }

  /** The same past the end: there the remainder predicts exactly the sizes that do not fit. */
  lemma RemSizePastIff(s: Seg, align: Word, size: Word)
    requires s.Wf() && IsPow2(align) && size > 0
    requires align > 0 && RoundUp(s.Next(), align) > s.Limit()
    ensures Predicted(s, align, size) <==> !s.Fits(size, align, PADDING_NONE)
  {
    assert Pow2(0) == PADDING_NONE;
    MathIsPwr2Exact(align);
    PlainFoot(s, size, align);
    var blk, fin := s.BlkAt(align, PADDING_NONE), s.FootEnd(size, align, PADDING_NONE);
    MachineWords(s, size, align, PADDING_NONE);
    CommitWords(s, blk, fin);
    SegRemSizeWraps(s, align);
    WrapNegative(s.Limit() - blk);
    if s.Fits(size, align, PADDING_NONE) {
      SmallMod(fin - s.Next());
    } else {
      WrapsOnce(fin - s.Next());
    }
  }

  /** PREDICTION, size by size, in every state: the remainder is right about a size exactly when that
      size fits in a word and the aligned next address is within the end, or neither. */
  lemma RemSizeExact(s: Seg, align: Word, size: Word)
    requires s.Wf() && IsPow2(align) && size > 0
    ensures align > 0
    ensures Predicted(s, align, size)
            <==> (s.Fits(size, align, PADDING_NONE) <==> RoundUp(s.Next(), align) <= s.Limit())
  {
    WordMod(0, align);
    if RoundUp(s.Next(), align) <= s.Limit() {
      RemSizePredictsIff(s, align, size);
    } else {
      RemSizePastIff(s, align, size);
    }
  }

  /** Of all sizes the largest fits only when there is no gap. */
  lemma LargestFits(s: Seg, align: Word)
    requires s.Wf() && align > 0
    ensures s.Fits(WORD - 1, align, PADDING_NONE) <==> s.Next() % align == 0
  {
    PlainFoot(s, WORD - 1, align);
  }

  lemma AlignedFits(s: Seg, align: Word, size: Word)
    requires s.Wf() && align > 0 && s.Next() % align == 0
    ensures s.Fits(size, align, PADDING_NONE) && RoundUp(s.Next(), align) <= s.Limit()
  {
    PlainFoot(s, size, align);
  }

  /** PREDICTION: the remainder predicts Mem_SegAllocExt with the same alignment for every positive
      size if and only if the next address is already aligned. */
  lemma RemSizePredicts(s: Seg, align: Word)
    requires s.Wf() && IsPow2(align)
    ensures align > 0
    ensures (forall size: Word :: size > 0 ==> Predicted(s, align, size)) <==> s.Next() % align == 0
  {
    WordMod(0, align);
    if s.Next() % align == 0 {
      forall size: Word | size > 0
        ensures Predicted(s, align, size)
      {
        AlignedFits(s, align, size);
        RemSizePredictsIff(s, align, size);
      }
    } else if RoundUp(s.Next(), align) <= s.Limit() {
      LargestFits(s, align);
      RemSizePredictsIff(s, align, WORD - 1);
    } else {
      RemSizePast(s, align);
    }
  }

  /** Past the end the prediction fails for sizes that fit as well: it holds for all of these if and
      only if the aligned next address is within the end. */
  lemma RemSizePredictsFitting(s: Seg, align: Word)
    requires s.Wf() && IsPow2(align)
    ensures align > 0
    ensures (forall size: Word :: size > 0 && s.Fits(size, align, PADDING_NONE) ==> Predicted(s, align, size))
            <==> RoundUp(s.Next(), align) <= s.Limit()
  {
    WordMod(0, align);
    if RoundUp(s.Next(), align) <= s.Limit() {
      forall size: Word | size > 0 && s.Fits(size, align, PADDING_NONE)
        ensures Predicted(s, align, size)
      {
        RemSizeWithin(s, align, size);
      }
    } else {
      RemSizePast(s, align);
    }
  }

  /** Next address 5, alignment 8: eight bytes remain, yet 2^32 - 1 are granted. */
  lemma RemSizeWrapExample()
    ensures var s := Seg(1, 15, 5, 1);
            && s.Wf() && IsPow2(8) && RoundUp(s.Next(), 8) <= s.Limit()
            && SegRemSize(s, 8) == 8 && AllocInternal(s, 0xFFFF_FFFF, 8, PADDING_NONE).1.Granted?
  {
    var s := Seg(1, 15, 5, 1);
    assert Pow2(0) == 1 && Pow2(3) == 8;
    assert RoundUp(5, 8) == 8;
    PlainFoot(s, 0xFFFF_FFFF, 8);
    WrappedIsGranted(s, 8, 0xFFFF_FFFF);
    SegRemSizeWraps(s, 8);
  }
}
