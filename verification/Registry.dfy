/** The registry of memory segments: a linked list of descriptors headed by Mem_SegHeadPtr. */
module Registry {
  import opened Arith
  import opened Machine
  import opened Segment

  datatype Verdict = NoOverlap | Exists | Overlaps

  /** The list walk of Mem_SegOverlapChkCritical: the first segment that is hit decides. */
  function Walk(segs: seq<Seg>, base: Word, end: Word): (r: (Verdict, nat))
    ensures r.0 == NoOverlap <==> r.1 == |segs|
    ensures r.1 <= |segs|
  {
    if segs == [] then (NoOverlap, 0)
    else if SameRange(segs[0], base, end) then (Exists, 0)
    else if Meets(segs[0], base, end) then (Overlaps, 0)
    else
      var r := Walk(segs[1..], base, end);
      (r.0, r.1 + 1)
  }

  ghost predicate Disjoint(segs: seq<Seg>) {
    && (forall i :: 0 <= i < |segs| ==> segs[i].base <= segs[i].end)
    && (forall i, j :: 0 <= i < j < |segs| ==> segs[i].end < segs[j].base || segs[j].end < segs[i].base)
  }

  /** The walk stops at the first hit. */
  lemma {:induction false} WalkStops(segs: seq<Seg>, base: Word, end: Word)
    ensures var (v, k) := Walk(segs, base, end);
            && (forall i :: 0 <= i < k ==> !SameRange(segs[i], base, end) && !Meets(segs[i], base, end))
            && (v == Exists ==> k < |segs| && SameRange(segs[k], base, end))
            && (v == Overlaps ==> k < |segs| && Meets(segs[k], base, end) && !SameRange(segs[k], base, end))
    decreases |segs|
  {
    if segs != [] && !SameRange(segs[0], base, end) && !Meets(segs[0], base, end) {
      WalkStops(segs[1..], base, end);
      var (v, k) := Walk(segs, base, end);
      forall i | 0 <= i < k
        ensures !SameRange(segs[i], base, end) && !Meets(segs[i], base, end)
      {
        if i > 0 {
          assert segs[1..][i - 1] == segs[i];
        }
      }
    }
  }

  ghost predicate SomeEqual(segs: seq<Seg>, base: Word, end: Word) {
    exists i :: 0 <= i < |segs| && SameRange(segs[i], base, end)
  }

  ghost predicate SomeShares(segs: seq<Seg>, base: Word, end: Word) {
    exists i :: 0 <= i < |segs| && Shares(segs[i], base, end)
  }

  /** EXACTNESS: on disjoint segments the verdict is NONE exactly when no address is shared, EXISTS
      exactly when a segment is the same range, OVERLAP otherwise, with a segment that does share. */
  lemma WalkExact(segs: seq<Seg>, base: Word, end: Word)
    requires Disjoint(segs) && base <= end
    ensures var (v, k) := Walk(segs, base, end);
            && (v == NoOverlap <==> !SomeShares(segs, base, end))
            && (v == Exists <==> SomeEqual(segs, base, end))
            && (v == Overlaps <==> SomeShares(segs, base, end) && !SomeEqual(segs, base, end))
            && (v != NoOverlap ==> k < |segs| && Shares(segs[k], base, end))
  {
    var (v, k) := Walk(segs, base, end);
    WalkStops(segs, base, end);
    forall i | 0 <= i < |segs|
      ensures Meets(segs[i], base, end) <==> Shares(segs[i], base, end)
      ensures SameRange(segs[i], base, end) ==> Meets(segs[i], base, end)
    {
      MeetsIffShares(segs[i], base, end);
    }
    if v == Overlaps {
      OnlyHit(segs, base, end, k);
    }
  }

  /** A segment hit by a range keeps every other disjoint segment from being that range. */
  lemma OnlyHit(segs: seq<Seg>, base: Word, end: Word, k: nat)
    requires Disjoint(segs) && k < |segs| && Meets(segs[k], base, end) && !SameRange(segs[k], base, end)
    ensures !SomeEqual(segs, base, end)
  {
    forall i | 0 <= i < |segs| && i != k
      ensures !SameRange(segs[i], base, end)
    {
      assert segs[i].end < segs[k].base || segs[k].end < segs[i].base;
    }
  }

  /** The verdict does not depend on the order of the list. */
  lemma OrderIrrelevant(segs: seq<Seg>, segs': seq<Seg>, base: Word, end: Word)
    requires Disjoint(segs) && Disjoint(segs') && base <= end
    requires forall s :: s in segs <==> s in segs'
    ensures Walk(segs, base, end).0 == Walk(segs', base, end).0
  {
    WalkExact(segs, base, end);
    WalkExact(segs', base, end);
    Transfer(segs, segs', base, end);
    Transfer(segs', segs, base, end);
  }

  lemma Transfer(segs: seq<Seg>, segs': seq<Seg>, base: Word, end: Word)
    requires forall s :: s in segs ==> s in segs'
    ensures SomeEqual(segs, base, end) ==> SomeEqual(segs', base, end)
    ensures SomeShares(segs, base, end) ==> SomeShares(segs', base, end)
  {
    forall i | 0 <= i < |segs|
      ensures exists j :: 0 <= j < |segs'| && segs'[j] == segs[i]
    {
      assert segs[i] in segs';
    }
  }

  method ChkPwr2(n: Word) returns (ok: bool)
    ensures ok <==> IsPow2(n)
    ensures ok ==> n > 0
    ensures n == 1 ==> ok
  {
    MathIsPwr2Exact(n);
    assert Pow2(0) == 1;
    ok := MathIsPwr2(n);
  }

  /** MEM_SEG. */
  class MemSeg {
    var addrBase: Word
    var addrEnd: Word
    var addrNext: Word
    var paddingAlign: Word
    var nextPtr: MemSeg?

    constructor ()
    {
      addrBase, addrEnd, addrNext, paddingAlign, nextPtr := 0, 0, 0, 1, null;
    }

    function Value(): Seg
      reads this
    {
      Seg(addrBase, addrEnd, addrNext, paddingAlign)
    }

    /** Mem_SegAllocInternal: argument checks, then the allocation in place. */
    method AllocInternal(size: Word, align: Word, padding: Word) returns (r: AllocResult)
      requires padding > 0
      modifies this`addrNext
      ensures (Value(), r) == Segment.AllocInternal(old(Value()), size, align, padding)
    {
      if size < 1 {
        return InvalidSize;
      }
      if !MathIsPwr2(align) {
        return InvalidAlign;
      }
      r := AllocExtCritical(size, align, padding);
    }

    /** Mem_SegAllocExtCritical: place the block, then advance AddrNext if there is room. */
    method AllocExtCritical(size: Word, align: Word, padding: Word) returns (r: AllocResult)
      requires align > 0 && padding > 0
      modifies this`addrNext
      ensures (Value(), r) == Segment.AllocExtCritical(old(Value()), size, align, padding)
    {
      var blkAddr := MathRoundIncUpPwr2(addrNext, Max(align, padding));
      var next := MathRoundIncUpPwr2((blkAddr + size) % WORD, padding);
      r := Advance(blkAddr, next);
    }

    /** Its second half. */
    method Advance(blkAddr: Word, next: Word) returns (r: AllocResult)
      modifies this`addrNext
      ensures (Value(), r) == Segment.Commit(old(Value()), blkAddr, next)
    {
      var sizeRem := (addrEnd - addrNext + 1) % WORD;
      var sizeTot := (next - addrNext) % WORD;
      if sizeRem < sizeTot {
        return SegOvf(sizeTot - sizeRem);
      }
      addrNext := next;
      return Granted(blkAddr);
    }

    /** Mem_SegRemSizeGet. */
    method RemSizeGet(align: Word) returns (rem: Word, err: AllocResult)
      ensures !IsPow2(align) ==> rem == 0 && err == InvalidAlign
      ensures IsPow2(align) ==> align > 0 && rem == SegRemSize(Value(), align) && err.Granted?
    {
      var ok := ChkPwr2(align);
      if !ok {
        return 0, InvalidAlign;
      }
      var nextAddrAlign := MathRoundIncUpPwr2(addrNext, align);
      return RemFrom(Value(), nextAddrAlign), Granted(nextAddrAlign);
    }
  }

  datatype CreateErr = None | NullPtr | InvalidSegSize | InvalidMemAlign | SegExists | SegOverlap

  /** Mem_SegHeadPtr and everything reachable from it. */
  class SegList {
    var head: MemSeg?
    ghost var list: seq<MemSeg>

    ghost predicate Linked()
      reads this, list
    {
      && (forall i, j :: 0 <= i < j < |list| ==> list[i] != list[j])
      && head == (if list == [] then null else list[0])
      && (forall i {:trigger list[i].nextPtr} :: 0 <= i < |list| ==>
            list[i].nextPtr == (if i + 1 < |list| then list[i + 1] else null))
    }

    ghost function Model(): (r: seq<Seg>)
      reads this, list
      ensures |r| == |list|
    {
      seq(|list|, i requires 0 <= i < |list| reads this, list => list[i].Value())
    }

    /** The list is linked, and its segments are well formed and pairwise disjoint. */
    ghost predicate Valid()
      reads this, list
    {
      && Linked() && Disjoint(Model())
      && (forall i :: 0 <= i < |list| ==> list[i].Value().Wf())
    }

    constructor ()
      ensures Valid() && list == []
    {
      head, list := null, [];
    }

    /** Mem_SegOverlapChkCritical. */
    method OverlapChk(base: Word, size: Word) returns (seg: MemSeg?, v: Verdict)
      requires Valid()
      ensures var w := Walk(Model(), base, (base + size - 1) % WORD);
              v == w.0 && seg == (if w.1 < |list| then list[w.1] else null)
    {
      var newEnd := (base + size - 1) % WORD;
      seg := head;
      ghost var k := 0;
      while seg != null
        invariant k <= |list| && seg == (if k < |list| then list[k] else null)
        invariant Walk(Model(), base, newEnd)
                  == (Walk(Model()[k..], base, newEnd).0, Walk(Model()[k..], base, newEnd).1 + k)
        decreases |list| - k
      {
        assert Model()[k..][0] == seg.Value();
        if base == seg.addrBase && newEnd == seg.addrEnd {
          return seg, Exists;
        } else if (base >= seg.addrBase && base <= seg.addrEnd) || (base <= seg.addrBase && newEnd >= seg.addrBase) {
          return seg, Overlaps;
        }
        assert Model()[k..][1..] == Model()[k + 1..];
        assert list[k].nextPtr == (if k + 1 < |list| then list[k + 1] else null);
        seg := seg.nextPtr;
        k := k + 1;
      }
      v := NoOverlap;
    }

    /** The overlap check as Mem_SegCreate uses it, on a range that does not wrap. */
    method OverlapVerdict(base: Word, size: Word) returns (v: Verdict)
      requires Valid() && size > 0 && base + size <= WORD
      ensures v == NoOverlap <==> !SomeShares(Model(), base, base + size - 1)
      ensures v == Exists <==> SomeEqual(Model(), base, base + size - 1)
    {
      var hit;
      hit, v := OverlapChk(base, size);
      SmallMod(base + size - 1);
      WalkExact(Model(), base, base + size - 1);
    }

    /** Mem_SegCreate with argument checks on; the descriptor must not be on the list already. */
    method SegCreate(seg: MemSeg?, base: Word, size: Word, pad: Word) returns (err: CreateErr)
      requires Valid() && seg !in list
      modifies this, seg
      ensures Valid()
      ensures seg == null ==> err == NullPtr
      ensures seg != null && (size == 0 || base + size > WORD) ==> err == InvalidSegSize
      ensures seg != null && size > 0 && base + size <= WORD && !IsPow2(pad) ==> err == InvalidMemAlign
      ensures seg != null && size > 0 && base + size <= WORD && IsPow2(pad) ==>
                && (err == SegExists <==> SomeEqual(old(Model()), base, base + size - 1))
                && (err == None <==> !SomeShares(old(Model()), base, base + size - 1))
                && (err == SegOverlap <==> err != SegExists && err != None)
      ensures err == None ==>
                && list == [seg] + old(list)
                && Model() == [Seg(base, base + size - 1, base, pad)] + old(Model())
      ensures err != None ==> list == old(list) && Model() == old(Model())
    {
      if seg == null {
        return NullPtr;
      }
      if size < 1 {
        return InvalidSegSize;
      }
      EndWraps(base, size);
      if (base + (size - 1)) % WORD < base {
        return InvalidSegSize;
      }
      var ok := ChkPwr2(pad);
      if pad != PADDING_NONE && !ok {
        return InvalidMemAlign;
      }
      var v := OverlapVerdict(base, size);
      if v == Exists {
        return SegExists;
      }
      if v == Overlaps {
        return SegOverlap;
      }
      CreateCritical(seg, base, pad, size);
      return None;
    }

    /** Mem_SegCreateCritical: fill in the descriptor and put it in front of the list. */
    method CreateCritical(seg: MemSeg, base: Word, pad: Word, size: Word)
      requires Valid() && seg !in list && size > 0 && base + size <= WORD && IsPow2(pad)
      requires !SomeShares(Model(), base, base + size - 1)
      modifies this, seg
      ensures Valid() && list == [seg] + old(list)
      ensures Model() == [Seg(base, base + size - 1, base, pad)] + old(Model())
    {
      ghost var m := Model();
      seg.addrBase := base;
      seg.addrEnd := base + (size - 1);
      seg.addrNext := base;
      seg.nextPtr := head;
      seg.paddingAlign := pad;
      head := seg;
      list := [seg] + list;
      assert Model() == [Seg(base, base + size - 1, base, pad)] + m;
      DisjointFront(Seg(base, base + size - 1, base, pad), m);
    }
  }

  lemma EndWraps(base: Word, size: Word)
    requires size > 0
    ensures (base + (size - 1)) % WORD < base <==> base + size > WORD
  {
  }

  lemma DisjointFront(s: Seg, segs: seq<Seg>)
    requires Disjoint(segs) && s.base <= s.end && !SomeShares(segs, s.base, s.end)
    ensures Disjoint([s] + segs)
  {
    forall i | 0 <= i < |segs|
      ensures s.end < segs[i].base || segs[i].end < s.base
    {
      MeetsIffShares(segs[i], s.base, s.end);
    }
  }
}
