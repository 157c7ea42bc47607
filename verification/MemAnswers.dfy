/** What each call answers and what it changes, in terms of the request and of the state it finds; and
    what the blocks of a pool are, over whole runs, in terms of the pool's creation. */
module MemAnswers {
  import opened Arith
  import opened Machine
  import opened Segment
  import opened PtrMem
  import opened DynPoolCore
  import opened MemSystem
  import opened MemInvariant
  import opened MemSteps
  import opened MemTheorems
  import opened MemPools
  import opened MemRefusal

  // ---------- Mem_SegCreate ----------

  ghost predicate ValidRange(base: Word, size: Word, pad: Word) {
    size > 0 && base + size <= WORD && IsPow2(pad)
  }

  /** The argument checks, in machine arithmetic, accept exactly the valid ranges. */
  lemma RangeChecked(base: Word, size: Word, pad: Word, end: Word)
    requires end == (base + size - 1) % WORD
    ensures ValidRange(base, size, pad) <==> !(size < 1 || end < base || (pad != 1 && !MathIsPwr2(pad)))
    ensures ValidRange(base, size, pad) ==> end == base + size - 1
  {
    assert Pow2(0) == 1;
    MathIsPwr2Exact(pad);
  }

  /** The range meets no segment of `segs`. */
  ghost predicate ClearOf(segs: map<SegId, Seg>, base: Word, size: Word) {
    forall g :: g in segs ==> base + size <= segs[g].base || segs[g].end < base
  }

  ghost predicate SameAsOne(segs: map<SegId, Seg>, base: Word, size: Word) {
    exists g :: g in segs && segs[g].base == base && segs[g].end == base + size - 1
  }

  ghost predicate SegCreateDoes(s: State, op: Op, s': State, r: Resp)
    requires op.SegCreate?
  {
    && (r == InvalidArg <==> !ValidRange(op.base, op.size, op.pad))
    && (r == Done <==> ValidRange(op.base, op.size, op.pad) && ClearOf(s.segs, op.base, op.size))
    && (r == SegExists <==> ValidRange(op.base, op.size, op.pad) && SameAsOne(s.segs, op.base, op.size))
    && (r == InvalidArg || r == Done || r == SegExists || r == SegOverlap)
    && (r == Done ==>
          s' == s.(segs := s.segs[op.seg := Seg(op.base, op.base + op.size - 1, op.base, op.pad)]))
    && (r != Done ==> s' == s)
  }

  /** A segment is registered exactly for a valid range that is clear of all others, with the bounds and
      the padding asked for; otherwise nothing changes. */
  lemma SegCreateAnswers(s: State, op: Op, s': State, r: Resp, end: Word)
    requires SegsOk(s.segs) && op.SegCreate? && end == (op.base + op.size - 1) % WORD
    requires Legal(s, op) && Step(s, op) == (s', r)
    ensures SegCreateDoes(s, op, s', r)
  {
    SegCreateIs(s, op);
    SegCreateWorks(s, op, end, s', r);
  }

  lemma SegCreateIs(s: State, op: Op)
    requires op.SegCreate? && Legal(s, op)
    ensures Step(s, op) == DoSegCreate(s, op)
  {
  }

  lemma SegCreateWorks(s: State, op: Op, end: Word, s': State, r: Resp)
    requires SegsOk(s.segs) && op.SegCreate? && end == (op.base + op.size - 1) % WORD
    requires DoSegCreate(s, op) == (s', r)
    ensures SegCreateDoes(s, op, s', r)
  {
    RangeChecked(op.base, op.size, op.pad, end);
    SegCreateOutcome(s, op, end);
    if ValidRange(op.base, op.size, op.pad) {
      SegCreateAnswer(s, op, end);
      RangeMeets(s.segs, op.base, op.size, end);
    }
  }

  lemma RangeMeets(segs: map<SegId, Seg>, base: Word, size: Word, end: Word)
    requires SegsOk(segs) && size > 0 && end == base + size - 1
    ensures SomeMeets(segs, base, end) <==> !ClearOf(segs, base, size)
    ensures SomeSame(segs, base, end) <==> SameAsOne(segs, base, size)
    ensures SomeSame(segs, base, end) ==> SomeMeets(segs, base, end)
  {
    forall g | g in segs
      ensures Meets(segs[g], base, end) <==> !(base + size <= segs[g].base || segs[g].end < base)
      ensures SameRange(segs[g], base, end) ==> Meets(segs[g], base, end)
    {
      assert segs[g].Wf();
    }
  }

  // ---------- Mem_SegAlloc, Mem_SegAllocExt, Mem_SegAllocHW ----------

  /** Segment `g` has advanced to `fin`, and nothing else in it has changed. */
  ghost predicate Advanced(segs: map<SegId, Seg>, segs': map<SegId, Seg>, g: SegId, fin: nat) {
    && g in segs && g in segs' && segs' == segs[g := segs'[g]]
    && segs'[g] == segs[g].(next := segs'[g].next) && segs'[g].Next() == fin
  }

  /** What the application asked for: Mem_SegAlloc aligns to 4 bytes and pads nothing, Mem_SegAllocExt
      aligns as asked and pads nothing, Mem_SegAllocHW aligns as asked and pads as the segment does. */
  ghost predicate Asked(e: Entry, seg: Seg, align: Word, pad: Word) {
    && align == (if e.Plain? then 4 else e.align)
    && pad == (if e.HW? then seg.pad else 1)
  }

  /** The step issues exactly the block `g`. */
  ghost predicate Issues(s: State, s': State, g: Grant) {
    s'.nextId == s.nextId + 1 && s'.grants == s.grants[s.nextId := g]
  }

  ghost predicate SegAllocDoes(s: State, op: Op, seg: Seg, align: Word, pad: Word, s': State, r: Resp)
    requires op.SegAlloc? && pad > 0
  {
    if op.size == 0 then s' == s && r == Refused(InvalidSize)
    else if !IsPow2(align) then s' == s && r == Refused(InvalidAlign)
    else align > 0 && SegAllocPlaces(s, op, seg, align, pad, s', r)
  }

  /** A block is handed out exactly when the arguments are right and its padded footprint ends within the
      segment; it is recorded where the answer says, with the size, alignment and padding asked for. */
  lemma SegAllocAnswers(s: State, op: Op, seg: Seg, align: Word, pad: Word, s': State, r: Resp)
    requires Inv(s) && op.SegAlloc? && Legal(s, op) && Step(s, op) == (s', r)
    requires seg == s.segs[op.seg] && Asked(op.entry, seg, align, pad)
    ensures pad > 0 && SegAllocDoes(s, op, seg, align, pad, s', r)
  {
    InvSegs(s);
    AskedIsPow2(s.segs, op.seg, op.entry, align, pad);
    SegAllocSound(s, op, align, pad);
    var (seg', a) := AllocInternal(seg, op.size, align, pad);
    SegAllocIs(s, op, seg, align, pad, seg', a);
    SegAllocWorks(s, op, seg, align, pad, seg', a);
  }

  lemma AskedIsPow2(segs: map<SegId, Seg>, g: SegId, e: Entry, align: Word, pad: Word)
    requires SegsOk(segs) && g in segs && Asked(e, segs[g], align, pad)
    ensures IsPow2(pad) && pad > 0 && segs[g].Wf()
  {
    assert Pow2(0) == 1 && segs[g].Wf();
    Pow2Divides(pad, pad);
  }

  lemma SegAllocSound(s: State, op: Op, align: Word, pad: Word)
    requires op.SegAlloc? && Legal(s, op) && Asked(op.entry, s.segs[op.seg], align, pad)
    ensures s.segs[op.seg].pad > 0 && pad > 0
    ensures op.size > 0 && IsPow2(align) && align > 0 ==> GrantFits(s.segs[op.seg], op.size, align, pad)
  {
  }

  lemma SegAllocWorks(s: State, op: Op, seg: Seg, align: Word, pad: Word, seg': Seg, a: AllocResult)
    requires op.SegAlloc? && op.seg in s.segs && seg == s.segs[op.seg] && seg.Wf() && IsPow2(pad) && pad > 0
    requires op.size > 0 && IsPow2(align) && align > 0 ==> GrantFits(seg, op.size, align, pad)
    requires AllocInternal(seg, op.size, align, pad) == (seg', a)
    ensures var (s', r) := Recorded(s, op, align, pad, seg', a); SegAllocDoes(s, op, seg, align, pad, s', r)
  {
    AllocErrors(seg, op.size, align, pad);
    if op.size > 0 && IsPow2(align) {
      Pow2Divides(align, align);
      SegmentAnswers(seg, op.size, align, pad, seg', a);
      PlacesFrom(s, op, seg, align, pad, seg', a);
    }
  }

  /** What a segment answers to a request with right arguments. */
  ghost predicate AnswerAt(seg: Seg, size: Word, align: Word, pad: Word, seg': Seg, a: AllocResult)
    requires align > 0 && pad > 0
  {
    if seg.FootEnd(size, align, pad) <= seg.Limit() then
      && seg.BlkAt(align, pad) < WORD && a == Granted(seg.BlkAt(align, pad))
      && seg' == seg.(next := seg'.next) && seg'.Next() == seg.FootEnd(size, align, pad)
    else a.SegOvf?
  }

  lemma SegmentAnswers(seg: Seg, size: Word, align: Word, pad: Word, seg': Seg, a: AllocResult)
    requires seg.Wf() && IsPow2(pad) && pad > 0 && size > 0 && IsPow2(align) && align > 0
    requires GrantFits(seg, size, align, pad) && AllocInternal(seg, size, align, pad) == (seg', a)
    ensures AnswerAt(seg, size, align, pad, seg', a)
  {
    AllocAnswer(seg, size, align, pad);
  }

  /** The step is the segment's answer, recorded. */
  lemma SegAllocIs(s: State, op: Op, seg: Seg, align: Word, pad: Word, seg': Seg, a: AllocResult)
    requires op.SegAlloc? && Legal(s, op) && seg == s.segs[op.seg] && Asked(op.entry, seg, align, pad) && pad > 0
    requires AllocInternal(seg, op.size, align, pad) == (seg', a)
    ensures Step(s, op) == Recorded(s, op, align, pad, seg', a)
  {
    assert Step(s, op) == DoSegAlloc(s, op);
  }

  function Recorded(s: State, op: Op, align: Word, pad: Word, seg': Seg, a: AllocResult): (State, Resp)
    requires op.SegAlloc?
  {
    if a.Granted? then
      (Issue(s.(segs := s.segs[op.seg := seg']), Grant(a.addr, op.size, align, pad, Raw)), Block(a.addr))
    else (s, Refused(a))
  }

  lemma PlacesFrom(s: State, op: Op, seg: Seg, align: Word, pad: Word, seg': Seg, a: AllocResult)
    requires op.SegAlloc? && op.seg in s.segs && seg == s.segs[op.seg] && align > 0 && pad > 0
    requires AnswerAt(seg, op.size, align, pad, seg', a)
    ensures var (s', r) := Recorded(s, op, align, pad, seg', a); SegAllocPlaces(s, op, seg, align, pad, s', r)
  {
  }

  ghost predicate SegAllocPlaces(s: State, op: Op, seg: Seg, align: Word, pad: Word, s': State, r: Resp)
    requires op.SegAlloc? && align > 0 && pad > 0
  {
    var a, fin := seg.BlkAt(align, pad), seg.FootEnd(op.size, align, pad);
    if fin <= seg.Limit() then
      && a < WORD && r == Block(a) && Issues(s, s', Grant(a, op.size, align, pad, Raw))
      && Advanced(s.segs, s'.segs, op.seg, fin)
      && s'.pools == s.pools && s'.mem == s.mem && s'.phase == s.phase && s'.tally == s.tally
    else s' == s && r.Refused? && r.why.SegOvf?
  }

  // ---------- Mem_DynPoolCreate, Mem_DynPoolCreateHW ----------

  ghost predicate ValidPool(op: Op)
    requires op.PoolCreate?
  {
    op.blkSize > 0 && IsPow2(op.blkAlign) && (op.qtyMax == 0 || op.qtyInit <= op.qtyMax)
  }

  /** The padding and the alignment that a pool is created with. */
  ghost predicate PoolAsked(op: Op, seg: Seg, pad: Word, worst: Word)
    requires op.PoolCreate?
  {
    pad == (if op.hw then seg.pad else 1) && worst == Max(op.blkAlign, pad)
  }

  /** The pool has what its creation asked for. */
  ghost predicate PoolFits(pool: Pool, op: Op, pad: Word, worst: Word)
    requires op.PoolCreate?
  {
    && pool.seg == op.seg && pool.blkSize == op.blkSize && pool.blkAlign == worst && pool.padding == pad
    && pool.qtyMax == op.qtyMax
  }

  ghost predicate PoolCreateDoes(s: State, op: Op, seg: Seg, pad: Word, worst: Word, s': State, r: Resp)
    requires op.PoolCreate? && worst > 0
  {
    if !ValidPool(op) then s' == s && r == InvalidArg
    else if op.qtyInit == 0 then r == Done && PoolEmptyAt(s, op, pad, worst, s')
    else PoolBlocksAt(s, op, seg, pad, worst, RoundUp(seg.Next(), worst), RoundUp(op.blkSize, worst), s', r)
  }

  /** A pool is created exactly when the arguments are right and its initial blocks, if any, fit behind
      one another, each rounded up to the alignment. */
  lemma PoolCreateAnswers(s: State, op: Op, seg: Seg, pad: Word, worst: Word, s': State, r: Resp)
    requires Inv(s) && op.PoolCreate? && Legal(s, op) && Step(s, op) == (s', r)
    requires seg == s.segs[op.seg] && PoolAsked(op, seg, pad, worst)
    ensures worst > 0 && PoolCreateDoes(s, op, seg, pad, worst, s', r)
  {
    InvSegs(s);
    PoolCreateSound(s, op, seg, pad, worst);
    PoolCreateWorks(s, op, seg, pad, worst);
  }

  lemma PoolCreateSound(s: State, op: Op, seg: Seg, pad: Word, worst: Word)
    requires SegsOk(s.segs) && op.PoolCreate? && Legal(s, op) && seg == s.segs[op.seg]
    requires PoolAsked(op, seg, pad, worst)
    ensures worst > 0 && seg.Wf() && seg.pad > 0 && seg.Next() > 0 && op.blkSize >= PTR_SIZE
    ensures SoundFounding(seg, op.blkSize, worst, op.qtyInit)
    ensures Step(s, op) == DoPoolCreate(s, op)
  {
  }

  lemma PoolCreateWorks(s: State, op: Op, seg: Seg, pad: Word, worst: Word)
    requires op.PoolCreate? && op.seg in s.segs && seg == s.segs[op.seg] && PoolAsked(op, seg, pad, worst)
    requires worst > 0 && seg.Wf() && seg.pad > 0 && seg.Next() > 0 && op.blkSize >= PTR_SIZE
    requires SoundFounding(seg, op.blkSize, worst, op.qtyInit)
    ensures var (s', r) := DoPoolCreate(s, op); PoolCreateDoes(s, op, seg, pad, worst, s', r)
  {
    MathIsPwr2Exact(op.blkAlign);
    if ValidPool(op) && op.qtyInit > 0 {
      InitialBlocksAnswer(s, op, seg, pad, worst);
    }
  }

  /** The new pool is empty. */
  ghost predicate PoolEmptyAt(s: State, op: Op, pad: Word, worst: Word, s': State)
    requires op.PoolCreate?
  {
    && op.pool in s'.pools && s'.pools == s.pools[op.pool := s'.pools[op.pool]]
    && PoolFits(s'.pools[op.pool], op, pad, worst)
    && s'.pools[op.pool].freePtr == NULL && s'.pools[op.pool].allocCnt == 0
    && s'.tally == s.tally[op.pool := Tally(0, 0)]
    && s'.segs == s.segs && s'.mem == s.mem && s'.grants == s.grants && s'.nextId == s.nextId && s'.phase == s.phase
  }

  /** The new pool has `qtyInit` blocks from `a`, `stride` apart, chained in order. */
  ghost predicate PoolBlocksAt(s: State, op: Op, seg: Seg, pad: Word, worst: Word, a: nat, stride: nat,
                               s': State, r: Resp)
    requires op.PoolCreate?
  {
    var fin := a + op.qtyInit * stride;
    if fin <= seg.Limit() then
      && r == Done
      && op.pool in s'.pools && s'.pools == s.pools[op.pool := s'.pools[op.pool]]
      && PoolFits(s'.pools[op.pool], op, pad, worst)
      && s'.pools[op.pool].freePtr == a && s'.pools[op.pool].allocCnt == 0
      && Chain(s'.mem, a, Slots(a, stride, op.qtyInit)) && SameOutside(s.mem, s'.mem, a, fin)
      && s'.tally == s.tally[op.pool := Tally(op.qtyInit, 0)] && Advanced(s.segs, s'.segs, op.seg, fin)
      && s'.grants == s.grants && s'.nextId == s.nextId && s'.phase == s.phase
    else s' == s && r.Refused?
  }

  /** The segment's answer to the request for `total` bytes of initial blocks. */
  lemma FoundingAnswer(seg: Seg, blkSize: Word, worst: Word, n: Word)
    requires seg.Wf() && IsPow2(worst) && worst > 0 && blkSize >= PTR_SIZE && n > 0
    requires SoundFounding(seg, blkSize, worst, n)
    ensures var a, total := RoundUp(seg.Next(), worst), InitBytes(blkSize, worst, n);
            var (seg', r) := AllocInternal(seg, Stride(blkSize, worst) * n % WORD, worst, PADDING_NONE);
            && (r.Granted? <==> a + total <= seg.Limit())
            && (r.Granted? ==> Stride(blkSize, worst) == RoundUp(blkSize, worst) && a < WORD && r == Granted(a)
                               && seg' == seg.(next := seg'.next) && seg'.Next() == a + total)
  {
    var a, total := RoundUp(seg.Next(), worst), InitBytes(blkSize, worst, n);
    var asked := Stride(blkSize, worst) * n % WORD;
    assert Pow2(0) == PADDING_NONE;
    if AllocInternal(seg, asked, worst, PADDING_NONE).1.Granted? || a + total <= seg.Limit() {
      StrideExact(blkSize, worst, n);
      PlainFoot(seg, total, worst);
      AllocAnswer(seg, total, worst, PADDING_NONE);
    }
  }

  lemma InitialBlocksAnswer(s: State, op: Op, seg: Seg, pad: Word, worst: Word)
    requires op.PoolCreate? && op.seg in s.segs && seg == s.segs[op.seg] && seg.Wf() && seg.pad > 0 && seg.Next() > 0
    requires PoolAsked(op, seg, pad, worst) && ValidPool(op) && op.qtyInit > 0 && op.blkSize >= PTR_SIZE && worst > 0
    requires SoundFounding(seg, op.blkSize, worst, op.qtyInit)
    ensures var (s', r) := DoPoolCreate(s, op);
            PoolBlocksAt(s, op, seg, pad, worst, RoundUp(seg.Next(), worst), RoundUp(op.blkSize, worst), s', r)
  {
    assert Pow2(0) == PADDING_NONE;
    MathIsPwr2Exact(op.blkAlign);
    MaxPow2(op.blkAlign, pad);
    FoundingAnswer(seg, op.blkSize, worst, op.qtyInit);
    InitBytesIs(op.blkSize, worst, op.qtyInit);
    var stride := Stride(op.blkSize, worst);
    var (seg', a) := AllocInternal(seg, stride * op.qtyInit % WORD, worst, PADDING_NONE);
    FoundingIs(s, op, pad, worst, stride, seg', a);
    if a.Granted? {
      FoundedDoes(s, op, seg, pad, worst, seg', a.addr, stride);
    }
  }

  lemma FoundingIs(s: State, op: Op, pad: Word, worst: Word, stride: Word, seg': Seg, a: AllocResult)
    requires op.PoolCreate? && op.seg in s.segs && s.segs[op.seg].pad > 0 && op.qtyInit > 0 && worst > 0
    requires PoolAsked(op, s.segs[op.seg], pad, worst) && ValidPool(op) && MathIsPwr2(op.blkAlign)
    requires stride == Stride(op.blkSize, worst)
    requires AllocInternal(s.segs[op.seg], stride * op.qtyInit % WORD, worst, PADDING_NONE) == (seg', a)
    ensures DoPoolCreate(s, op)
            == if a.Granted?
               then (Founded(s, op.pool, NewPool(op, pad, worst), seg', a.addr, stride, op.qtyInit), Done)
               else (s, Refused(a))
  {
  }

  /** The descriptor that a creation asks for. */
  function NewPool(op: Op, pad: Word, worst: Word): Pool
    requires op.PoolCreate?
  {
    Pool(op.seg, op.blkSize, worst, pad, NULL, op.qtyMax, 0)
  }

  lemma FoundedDoes(s: State, op: Op, seg: Seg, pad: Word, worst: Word, seg': Seg, a: Word, stride: Word)
    requires op.PoolCreate? && op.seg in s.segs && seg == s.segs[op.seg] && op.qtyInit > 0
    requires a > 0 && stride >= PTR_SIZE && a + op.qtyInit * stride <= seg.Limit()
    requires seg' == seg.(next := seg'.next) && seg'.Next() == a + op.qtyInit * stride
    ensures var s' := Founded(s, op.pool, NewPool(op, pad, worst), seg', a, stride, op.qtyInit);
            PoolBlocksAt(s, op, seg, pad, worst, a, stride, s', Done)
  {
    ThreadChains(s.mem, a, stride, op.qtyInit, a + op.qtyInit * stride);
  }

  lemma InitBytesIs(blkSize: nat, worst: nat, n: nat)
    requires worst > 0
    ensures InitBytes(blkSize, worst, n) == n * RoundUp(blkSize, worst)
  {
  }

  // ---------- Mem_DynPoolBlkGet, Mem_DynPoolBlkFree ----------

  /** Everything but the named parts of the state is as it was. */
  ghost predicate OnlyPool(s: State, s': State, p: PoolId) {
    && p in s.pools && p in s'.pools && s'.pools == s.pools[p := s'.pools[p]] && SamePlace(s.pools[p], s'.pools[p])
  }

  /** First critical section of Get: refused exactly when a limited pool's blocks held, requests under way
      and failed growths reach the limit; otherwise a limited pool counts one more. */
  lemma GetCountAnswers(s: State, t: TaskId, p: PoolId, s': State, r: Resp)
    requires Inv(s) && Legal(s, GetCount(t, p)) && Step(s, GetCount(t, p)) == (s', r)
    ensures p in s.pools && p in s.tally
    ensures r == PoolEmpty <==>
              && s.pools[p].qtyMax != 0
              && |HeldIds(s.grants, p)| + |Waiting(s.phase, p)| + s.tally[p].failed >= s.pools[p].qtyMax
    ensures r == PoolEmpty ==> s' == s
    ensures r != PoolEmpty ==> r == Continue && CountTaken(s, t, p, s')
  {
    TallyOf(s, p);
    assert Step(s, GetCount(t, p)) == DoGetCount(s, t, p);
    if s.pools[p].Limited() {
      CountersOf(s, p);
    }
  }

  ghost predicate CountTaken(s: State, t: TaskId, p: PoolId, s': State) {
    && OnlyPool(s, s', p) && s'.pools[p].freePtr == s.pools[p].freePtr
    && s'.pools[p].allocCnt == s.pools[p].allocCnt + (if s.pools[p].qtyMax == 0 then 0 else 1)
    && s' == s.(pools := s'.pools, phase := s.phase[t := Counted(p)])
  }

  /** Second critical section of Get: the head of the list is handed out, with the pool's size, alignment
      and padding, and the list goes on from its second block; an empty list sends the request on. */
  lemma GetPopAnswers(s: State, t: TaskId, p: PoolId, c: seq<nat>, s': State, r: Resp)
    requires p in s.pools && t in s.phase && s.phase[t] == Counted(p) && Step(s, GetPop(t)) == (s', r)
    requires Chain(s.mem, s.pools[p].freePtr, c)
    ensures c == [] ==> r == Continue && s' == s.(phase := s.phase[t := Growing(p)])
    ensures c != [] ==>
              && r == Block(s.pools[p].freePtr) && OnlyPool(s, s', p) && Chain(s'.mem, s'.pools[p].freePtr, c[1..])
              && Issues(s, s', BlockOf(s.pools[p], p, s.pools[p].freePtr))
              && s' == s.(pools := s'.pools, grants := s'.grants, nextId := s'.nextId, phase := s.phase - {t})
              && s'.pools[p].allocCnt == s.pools[p].allocCnt
  {
    PopIs(s, t, p);
  }

  /** A block of a pool at `a`, in the hands of the application. */
  function BlockOf(pool: Pool, p: PoolId, a: Word): Grant {
    Grant(a, pool.blkSize, pool.blkAlign, pool.padding, Held(p))
  }

  /** The end of Get: a block is carved exactly when the padded block ends within the segment, where a
      request of that size, alignment and padding would be placed; otherwise the request is refused and
      keeps its count. */
  lemma GetGrowAnswers(s: State, t: TaskId, p: PoolId, s': State, r: Resp)
    requires Inv(s) && t in s.phase && s.phase[t] == Growing(p) && Legal(s, GetGrow(t))
    requires Step(s, GetGrow(t)) == (s', r)
    ensures p in s.pools && p in s.tally && s.pools[p].seg in s.segs
    ensures s.pools[p].blkAlign > 0 && s.pools[p].padding > 0
    ensures GrowDoes(s, t, p, s.segs[s.pools[p].seg], s', r)
  {
    var pool := s.pools[p];
    PoolOf(s, p);
    var (seg', a) := AllocInternal(s.segs[pool.seg], pool.blkSize, pool.blkAlign, pool.padding);
    SegmentAnswers(s.segs[pool.seg], pool.blkSize, pool.blkAlign, pool.padding, seg', a);
    assert Step(s, GetGrow(t)) == DoGetGrow(s, t, p);
    GrownDoes(s, t, p, seg', a);
  }

  /** What the invariant says of a pool and its segment. */
  lemma PoolOf(s: State, p: PoolId)
    requires Inv(s) && p in s.pools
    ensures s.pools[p].seg in s.segs && s.segs[s.pools[p].seg].Wf()
    ensures IsPow2(s.pools[p].blkAlign) && IsPow2(s.pools[p].padding) && s.pools[p].blkSize > 0
    ensures s.pools[p].blkAlign > 0 && s.pools[p].padding > 0
  {
    var l :| InvWith(s, l);
    Pow2Divides(s.pools[p].blkAlign, s.pools[p].blkAlign);
    Pow2Divides(s.pools[p].padding, s.pools[p].padding);
  }

  ghost predicate GrowDoes(s: State, t: TaskId, p: PoolId, seg: Seg, s': State, r: Resp)
    requires p in s.pools && p in s.tally && s.pools[p].blkAlign > 0 && s.pools[p].padding > 0
  {
    var pool := s.pools[p];
    var a, fin := seg.BlkAt(pool.blkAlign, pool.padding), seg.FootEnd(pool.blkSize, pool.blkAlign, pool.padding);
    if fin <= seg.Limit() then
      && a < WORD && r == Block(a) && Issues(s, s', BlockOf(pool, p, a)) && Advanced(s.segs, s'.segs, pool.seg, fin)
      && s' == s.(segs := s'.segs, grants := s'.grants, nextId := s'.nextId, phase := s.phase - {t},
                  tally := s.tally[p := s.tally[p].(created := s.tally[p].created + 1)])
    else
      && r.Refused? && r.why.SegOvf?
      && s' == s.(phase := s.phase - {t}, tally := s.tally[p := s.tally[p].(failed := s.tally[p].failed + 1)])
  }

  lemma GrownDoes(s: State, t: TaskId, p: PoolId, seg': Seg, a: AllocResult)
    requires p in s.pools && p in s.tally && s.pools[p].seg in s.segs
    requires s.pools[p].blkAlign > 0 && s.pools[p].padding > 0
    requires AnswerAt(s.segs[s.pools[p].seg], s.pools[p].blkSize, s.pools[p].blkAlign, s.pools[p].padding, seg', a)
    ensures var (s', r) := Grown(s, t, p, seg', a); GrowDoes(s, t, p, s.segs[s.pools[p].seg], s', r)
  {
  }

  /** First critical section of Free: an owner's call is counted and its block is on its way back. */
  lemma FreeCountAnswers(s: State, t: TaskId, id: GrantId, p: PoolId, s': State, r: Resp)
    requires Inv(s) && Legal(s, FreeCount(t, id)) && s.grants[id].use == Held(p)
    requires Step(s, FreeCount(t, id)) == (s', r)
    ensures r == Continue && OnlyPool(s, s', p) && s'.pools[p].freePtr == s.pools[p].freePtr
    ensures s'.pools[p].allocCnt == s.pools[p].allocCnt - (if s.pools[p].qtyMax == 0 then 0 else 1)
    ensures s' == s.(pools := s'.pools, grants := s.grants[id := s.grants[id].(use := Leaving(p, t))],
                     phase := s.phase[t := Releasing(id)])
  {
    OwnerFreeNeverFull(s, t, id);
    assert Step(s, FreeCount(t, id)) == DoFreeCount(s, t, id);
  }

  /** Second critical section of Free: the block heads the list, its link word points to the old head, no
      other byte of memory changes, and the application no longer has the block. */
  lemma FreePushAnswers(s: State, t: TaskId, id: GrantId, p: PoolId, s': State, r: Resp)
    requires Legal(s, FreePush(t)) && s.phase[t] == Releasing(id) && s.grants[id].use.pool == p
    requires Step(s, FreePush(t)) == (s', r)
    ensures r == Done && OnlyPool(s, s', p) && s'.pools[p].freePtr == s.grants[id].base
    ensures s'.pools[p].allocCnt == s.pools[p].allocCnt
    ensures LoadPtr(s'.mem, s.grants[id].base) == s.pools[p].freePtr
    ensures SameOutside(s.mem, s'.mem, s.grants[id].base, s.grants[id].base + 4)
    ensures s' == s.(mem := s'.mem, pools := s'.pools, grants := s.grants - {id}, phase := s.phase - {t})
  {
    assert Step(s, FreePush(t)) == DoFreePush(s, t, id);
    LoadStore(s.mem, s.grants[id].base, s.pools[p].freePtr);
  }

  /** A store by a block's owner changes that byte of memory and nothing else. */
  lemma OwnerStoreAnswers(s: State, id: GrantId, a: nat, v: Byte, s': State, r: Resp)
    requires Legal(s, OwnerStore(id, a, v)) && Step(s, OwnerStore(id, a, v)) == (s', r)
    ensures r == Done && s'.mem(a) == v && SameOutside(s.mem, s'.mem, a, a + 1) && s' == s.(mem := s'.mem)
  {
  }

  // ---------- over runs: the blocks of a pool ----------

  /** Pool `p` is as the creation `op` asked for it. */
  ghost predicate MadeBy(s: State, p: PoolId, op: Op, pad: Word, worst: Word)
    requires op.PoolCreate?
  {
    p in s.pools && p in s.tally && PoolFits(s.pools[p], op, pad, worst)
  }

  lemma {:induction false} MadeStays(s: State, ops: seq<Op>, p: PoolId, op: Op, pad: Word, worst: Word)
    requires op.PoolCreate? && MadeBy(s, p, op, pad, worst)
    ensures MadeBy(Exec(s, ops), p, op, pad, worst)
    decreases |ops|
  {
    if ops != [] {
      StepPlace(s, ops[0], p);
      StepCommits(s, ops[0], p);
      MadeStays(Step(s, ops[0]).0, ops[1..], p, op, pad, worst);
    }
  }

  /** The invariant holds throughout. */
  lemma {:induction false} InvThrough(s0: State, op: Op, ops: seq<Op>, s: State, call: Op)
    requires Inv(s0) && s == Exec(Step(s0, op).0, ops)
    ensures Inv(Step(s0, op).0) && Inv(s) && Inv(Step(s, call).0)
  {
    StepKeepsInv(s0, op);
    RunKeepsInv(Step(s0, op).0, ops);
    StepKeepsInv(s, call);
  }

  /** A creation that succeeds makes the pool it was asked for. */
  lemma CreationMakes(s: State, op: Op, seg: Seg, pad: Word, worst: Word)
    requires Inv(s) && op.PoolCreate? && Legal(s, op) && Step(s, op).1 == Done
    requires seg == s.segs[op.seg] && PoolAsked(op, seg, pad, worst)
    ensures MadeBy(Step(s, op).0, op.pool, op, pad, worst)
  {
    PoolCreateAnswers(s, op, seg, pad, worst, Step(s, op).0, Step(s, op).1);
  }

  /** `call` ends a Get from pool `p`. */
  ghost predicate GetsFrom(s: State, call: Op, p: PoolId) {
    && Legal(s, call) && (call.GetPop? || call.GetGrow?)
    && call.task in s.phase && s.phase[call.task] == (if call.GetPop? then Counted(p) else Growing(p))
  }

  /** Every block that a pool hands out is recorded where the answer says, with the size, the alignment
      and the padding of the pool's creation. */
  lemma PoolHandsOut(s: State, p: PoolId, op: Op, pad: Word, worst: Word, call: Op, a: Word, s': State)
    requires Inv(s) && op.PoolCreate? && MadeBy(s, p, op, pad, worst)
    requires GetsFrom(s, call, p) && Step(s, call) == (s', Block(a))
    ensures Issues(s, s', Grant(a, op.blkSize, worst, pad, Held(p)))
  {
    if call.GetPop? {
      PopNames(s, p, call.task, a, s');
    } else {
      GetGrowAnswers(s, call.task, p, s', Block(a));
    }
  }

  lemma PopNames(s: State, p: PoolId, t: TaskId, a: Word, s': State)
    requires p in s.pools && t in s.phase && s.phase[t] == Counted(p)
    requires Step(s, GetPop(t)) == (s', Block(a))
    ensures Issues(s, s', BlockOf(s.pools[p], p, a))
  {
    PopIs(s, t, p);
  }

  /** A grant in force is aligned as it says. */
  lemma GrantAligned(s: State, id: GrantId)
    requires Inv(s) && id in s.grants
    ensures s.grants[id].align > 0 && s.grants[id].padding > 0
    ensures s.grants[id].base % s.grants[id].align == 0 && s.grants[id].base % s.grants[id].padding == 0
  {
    InvSafe(s);
  }

  lemma AlignedBoth(align: Word, pad: Word, worst: Word, a: nat)
    requires IsPow2(align) && IsPow2(pad) && worst == Max(align, pad) && worst > 0 && a % worst == 0
    ensures align > 0 && pad > 0 && a % align == 0 && a % pad == 0
  {
    MaxPow2(align, pad);
    ModTrans(a, worst, align);
    ModTrans(a, worst, pad);
  }

  lemma CreationPow2(s: State, op: Op, seg: Seg, pad: Word, worst: Word)
    requires Inv(s) && op.PoolCreate? && Legal(s, op) && Step(s, op).1 == Done
    requires seg == s.segs[op.seg] && PoolAsked(op, seg, pad, worst)
    ensures IsPow2(op.blkAlign) && IsPow2(pad) && worst == Max(op.blkAlign, pad)
  {
    PoolCreateAnswers(s, op, seg, pad, worst, Step(s, op).0, Step(s, op).1);
    InvSegs(s);
    assert Pow2(0) == 1 && seg.Wf();
  }

  /** POOL BLOCKS: after a pool is created and in every run from there, a Get that answers with a block
      names a new grant of the size the creation asked for, aligned as it asked, and padded as the pool's
      segment is if and only if the pool was created for hardware. */
  lemma {:induction false} EveryBlockAsCreated(s0: State, op: Op, seg: Seg, pad: Word, worst: Word, s: State,
                                               ops: seq<Op>, call: Op, a: Word, s': State)
    requires Inv(s0) && op.PoolCreate? && Legal(s0, op) && Step(s0, op).1 == Done
    requires seg == s0.segs[op.seg] && PoolAsked(op, seg, pad, worst)
    requires s == Exec(Step(s0, op).0, ops) && GetsFrom(s, call, op.pool) && Step(s, call) == (s', Block(a))
    ensures Issues(s, s', Grant(a, op.blkSize, worst, pad, Held(op.pool)))
    ensures op.blkAlign > 0 && pad > 0 && a % op.blkAlign == 0 && a % pad == 0
  {
    CreationMakes(s0, op, seg, pad, worst);
    CreationPow2(s0, op, seg, pad, worst);
    InvThrough(s0, op, ops, s, call);
    MadeStays(Step(s0, op).0, ops, op.pool, op, pad, worst);
    PoolHandsOut(s, op.pool, op, pad, worst, call, a, s');
    GrantAligned(s', s.nextId);
    AlignedBoth(op.blkAlign, pad, worst, a);
  }

  // ---------- over runs: blocks for hardware ----------

  /** Segment `g` is registered with these bounds and this padding. */
  ghost predicate Registered(segs: map<SegId, Seg>, g: SegId, base: nat, end: nat, pad: nat) {
    g in segs && segs[g].base == base && segs[g].end == end && segs[g].pad == pad
  }

  lemma AllocKeepsSeg(seg: Seg, size: Word, align: Word, pad: Word)
    requires pad > 0
    ensures var seg' := AllocInternal(seg, size, align, pad).0;
            seg'.base == seg.base && seg'.end == seg.end && seg'.pad == seg.pad
  {
  }

  lemma StepKeepsSeg(s: State, op: Op, g: SegId, base: nat, end: nat, pad: nat)
    requires Registered(s.segs, g, base, end, pad)
    ensures Registered(Step(s, op).0.segs, g, base, end, pad)
  {
    if Legal(s, op) && op.SegAlloc? {
      AllocKeepsSeg(s.segs[op.seg], op.size, op.entry.Align(), op.entry.Padding(s.segs[op.seg]));
      assert Step(s, op) == DoSegAlloc(s, op);
    } else if Legal(s, op) && op.PoolCreate? {
      PoolCreateKeepsSeg(s, op, g, base, end, pad);
    } else if Legal(s, op) && op.GetGrow? {
      GrowKeepsSeg(s, op.task, s.phase[op.task].pool, g, base, end, pad);
    } else {
      RestKeepsSegs(s, op);
    }
  }

  lemma PoolCreateKeepsSeg(s: State, op: Op, g: SegId, base: nat, end: nat, pad: nat)
    requires op.PoolCreate? && Legal(s, op) && Registered(s.segs, g, base, end, pad)
    ensures Registered(Step(s, op).0.segs, g, base, end, pad)
  {
    var worst := Max(op.blkAlign, if op.hw then s.segs[op.seg].pad else PADDING_NONE);
    AllocKeepsSeg(s.segs[op.seg], Stride(op.blkSize, worst) * op.qtyInit % WORD, worst, PADDING_NONE);
    assert Step(s, op) == DoPoolCreate(s, op);
  }

  lemma GrowKeepsSeg(s: State, t: TaskId, p: PoolId, g: SegId, base: nat, end: nat, pad: nat)
    requires Legal(s, GetGrow(t)) && s.phase[t].pool == p && Registered(s.segs, g, base, end, pad)
    ensures Registered(Step(s, GetGrow(t)).0.segs, g, base, end, pad)
  {
    var pool := s.pools[p];
    AllocKeepsSeg(s.segs[pool.seg], pool.blkSize, pool.blkAlign, pool.padding);
    assert Step(s, GetGrow(t)) == DoGetGrow(s, t, p);
  }

  lemma RestKeepsSegs(s: State, op: Op)
    requires !Legal(s, op) || (!op.SegAlloc? && !op.PoolCreate? && !op.GetGrow?)
    ensures forall g :: g in s.segs ==> g in Step(s, op).0.segs && Step(s, op).0.segs[g] == s.segs[g]
  {
  }

  /** Blocks straight from a segment stay with the application: nothing takes them back. */
  lemma StepKeepsRaw(s: State, op: Op, i: GrantId)
    requires s.nextId !in s.grants && i in s.grants && s.grants[i].use.Raw?
    ensures i in Step(s, op).0.grants && Step(s, op).0.grants[i] == s.grants[i]
  {
  }

  /** Number `i` names the block `g`, if it names a block at all: numbers are not used twice. */
  ghost predicate Numbered(s: State, i: GrantId, g: Grant) {
    i < s.nextId && (i in s.grants ==> s.grants[i] == g.(use := s.grants[i].use))
  }

  lemma StepKeepsNumber(s: State, op: Op, i: GrantId, g: Grant)
    requires Numbered(s, i, g)
    ensures Numbered(Step(s, op).0, i, g)
  {
  }

  lemma {:induction false} RunKeepsSeg(s: State, ops: seq<Op>, g: SegId, base: nat, end: nat, pad: nat)
    requires Registered(s.segs, g, base, end, pad)
    ensures Registered(Exec(s, ops).segs, g, base, end, pad)
    decreases |ops|
  {
    if ops != [] {
      StepKeepsSeg(s, ops[0], g, base, end, pad);
      RunKeepsSeg(Step(s, ops[0]).0, ops[1..], g, base, end, pad);
    }
  }

  lemma {:induction false} RunKeepsRaw(s: State, ops: seq<Op>, i: GrantId)
    requires Inv(s) && i in s.grants && s.grants[i].use.Raw?
    ensures i in Exec(s, ops).grants && Exec(s, ops).grants[i] == s.grants[i]
    decreases |ops|
  {
    if ops != [] {
      FreshGrant(s);
      StepKeepsRaw(s, ops[0], i);
      StepKeepsInv(s, ops[0]);
      RunKeepsRaw(Step(s, ops[0]).0, ops[1..], i);
    }
  }

  lemma {:induction false} RunKeepsNumber(s: State, ops: seq<Op>, i: GrantId, g: Grant)
    requires Numbered(s, i, g)
    ensures Numbered(Exec(s, ops), i, g)
    decreases |ops|
  {
    if ops != [] {
      StepKeepsNumber(s, ops[0], i, g);
      RunKeepsNumber(Step(s, ops[0]).0, ops[1..], i, g);
    }
  }

  /** Segment `mk.seg` is created, a run leads from there to `s`, and the request `ask` for a block for
      hardware is answered with address `a`. */
  ghost predicate HwGranted(s0: State, mk: Op, ops: seq<Op>, s: State, ask: Op, a: Word, s': State) {
    && Inv(s0) && mk.SegCreate? && Legal(s0, mk) && Step(s0, mk).1 == Done && s == Exec(Step(s0, mk).0, ops)
    && ask.SegAlloc? && ask.entry.HW? && ask.seg == mk.seg && Legal(s, ask) && Step(s, ask) == (s', Block(a))
  }

  lemma CreatedSeg(s0: State, mk: Op, end: Word)
    requires Inv(s0) && mk.SegCreate? && Legal(s0, mk) && Step(s0, mk).1 == Done
    requires end == (mk.base + mk.size - 1) % WORD
    ensures Registered(Step(s0, mk).0.segs, mk.seg, mk.base, mk.base + mk.size - 1, mk.pad)
  {
    InvSegs(s0);
    SegCreateAnswers(s0, mk, Step(s0, mk).0, Done, end);
    DoneRegisters(s0, mk, Step(s0, mk).0);
  }

  lemma DoneRegisters(s: State, mk: Op, s': State)
    requires mk.SegCreate? && SegCreateDoes(s, mk, s', Done)
    ensures Registered(s'.segs, mk.seg, mk.base, mk.base + mk.size - 1, mk.pad)
  {
  }

  /** The block is recorded with the size and alignment of the request and the padding that the segment
      was created with. */
  lemma {:induction false} HwBlockIssued(s0: State, mk: Op, ops: seq<Op>, s: State, ask: Op, a: Word, s': State)
    requires HwGranted(s0, mk, ops, s, ask, a, s')
    ensures Inv(s') && Issues(s, s', Grant(a, ask.size, ask.entry.align, mk.pad, Raw))
  {
    CreatedSeg(s0, mk, (mk.base + mk.size - 1) % WORD);
    RunKeepsSeg(Step(s0, mk).0, ops, mk.seg, mk.base, mk.base + mk.size - 1, mk.pad);
    InvThrough(s0, mk, ops, s, ask);
    SegAllocAnswers(s, ask, s.segs[ask.seg], ask.entry.align, mk.pad, s', Block(a));
  }

  /** Bytes `x` and `y` lie in different lines of `pad` bytes. */
  ghost predicate Apart(x: nat, y: nat, pad: nat) {
    pad > 0 && x / pad != y / pad
  }

  /** LINES OF HARDWARE: in every run that creates a segment with padding `mk.pad`, allocates a block for
      hardware from it and goes on in any way, no byte of the block shares a line of `mk.pad` bytes with a
      byte of another block in force or of a free block of any pool. */
  lemma {:induction false} HwBlockOwnsLines(s0: State, mk: Op, ops: seq<Op>, s: State, ask: Op, a: Word, s': State,
                                            more: seq<Op>, s'': State, x: nat)
    requires HwGranted(s0, mk, ops, s, ask, a, s') && s'' == Exec(s', more) && a <= x < a + ask.size
    ensures forall j, y :: Owns(s'', j, y) && j != s.nextId ==> Apart(x, y, mk.pad)
    ensures forall p, c, k, y :: FreeByte(s'', p, c, k, y) ==> Apart(x, y, mk.pad)
  {
    HwBlockIssued(s0, mk, ops, s, ask, a, s');
    RunKeepsRaw(s', more, s.nextId);
    RunKeepsInv(s', more);
    BlockOwnsLines(s'', s.nextId, x);
  }

  lemma BlockOwnsLines(s: State, i: GrantId, x: nat)
    requires Inv(s) && Owns(s, i, x)
    ensures forall j, y :: Owns(s, j, y) && j != i ==> Apart(x, y, s.grants[i].padding)
    ensures forall p, c, k, y :: FreeByte(s, p, c, k, y) ==> Apart(x, y, s.grants[i].padding)
  {
    forall j, y | Owns(s, j, y) && j != i
      ensures Apart(x, y, s.grants[i].padding)
    {
      LinesIsolated(s, i, j, x, y);
    }
    forall p, c, k, y | FreeByte(s, p, c, k, y)
      ensures Apart(x, y, s.grants[i].padding)
    {
      FreeLinesIsolated(s, i, x, p, c, k, y);
    }
  }

  /** Pool `op.pool` is created for hardware in a segment with padding `pad`, a run leads from there to
      `s`, and a Get is answered with address `a`. */
  ghost predicate HwPoolGranted(s0: State, op: Op, pad: Word, ops: seq<Op>, s: State, call: Op, a: Word, s': State) {
    && Inv(s0) && op.PoolCreate? && op.hw && Legal(s0, op) && Step(s0, op).1 == Done
    && pad == s0.segs[op.seg].pad && s == Exec(Step(s0, op).0, ops)
    && GetsFrom(s, call, op.pool) && Step(s, call) == (s', Block(a))
  }

  lemma {:induction false} HwPoolBlockIssued(s0: State, op: Op, pad: Word, ops: seq<Op>, s: State, call: Op, a: Word,
                                             s': State)
    requires HwPoolGranted(s0, op, pad, ops, s, call, a, s')
    ensures Issues(s, s', Grant(a, op.blkSize, Max(op.blkAlign, pad), pad, Held(op.pool)))
  {
    EveryBlockAsCreated(s0, op, s0.segs[op.seg], pad, Max(op.blkAlign, pad), s, ops, call, a, s');
  }

  /** The same for the blocks of a pool for hardware, for as long as the application has the block. */
  lemma {:induction false} HwPoolBlockOwnsLines(s0: State, op: Op, pad: Word, ops: seq<Op>, s: State, call: Op,
                                                a: Word, s': State, more: seq<Op>, s'': State, x: nat)
    requires HwPoolGranted(s0, op, pad, ops, s, call, a, s') && s'' == Exec(s', more)
    requires s.nextId in s''.grants && a <= x < a + op.blkSize
    ensures forall j, y :: Owns(s'', j, y) && j != s.nextId ==> Apart(x, y, pad)
    ensures forall p, c, k, y :: FreeByte(s'', p, c, k, y) ==> Apart(x, y, pad)
  {
    HwPoolBlockIssued(s0, op, pad, ops, s, call, a, s');
    InvThrough(s0, op, ops, s, call);
    RunKeepsNumber(s', more, s.nextId, s'.grants[s.nextId]);
    RunKeepsInv(s', more);
    BlockOwnsLines(s'', s.nextId, x);
  }
}
