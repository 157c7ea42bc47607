/** Two runs: interleaving makes a limited pool create more blocks than its limit, and one failed
    growth drains a pool for good. */
module MemExamples {
  import opened Arith
  import opened Machine
  import opened Segment
  import opened PtrMem
  import opened DynPoolCore
  import opened MemSystem
  import opened MemInvariant
  import opened MemSteps
  import opened MemPools

  const PAGE: Seg := Seg(0x1000, 0x1FFF, 0x1000, 1)

  /** A 4-byte block of the page is taken. */
  lemma PageAlloc(next: Word)
    requires 0x1000 <= next <= 0x1F00 && next % 4 == 0
    ensures PAGE.(next := next).Wf() && PAGE.(next := next).Fits(4, 4, 1)
    ensures AllocInternal(PAGE.(next := next), 4, 4, 1) == (PAGE.(next := next + 4), Granted(next))
  {
    var s := PAGE.(next := next);
    FourIsPow2();
    PageFits(next);
    AllocAt(s, 4, 4, 1, next, next + 4);
  }

  /** An allocation that fits, by where the block and its footprint end up. */
  lemma AllocAt(s: Seg, size: Word, align: Word, padding: Word, blk: Word, fin: Word)
    requires s.Wf() && IsPow2(align) && IsPow2(padding) && size > 0 && align > 0 && padding > 0
    requires s.BlkAt(align, padding) == blk && s.FootEnd(size, align, padding) == fin
    requires MathIsPwr2(align) && s.base <= s.Next() <= fin <= s.end
    ensures s.Fits(size, align, padding)
    ensures AllocInternal(s, size, align, padding) == (s.(next := fin), Granted(blk))
  {
    AllocRefinesExact(s, size, align, padding);
  }

  lemma FourIsPow2()
    ensures IsPow2(1) && IsPow2(4) && MathIsPwr2(4)
  {
    assert Pow2(0) == 1 && Pow2(2) == 4;
    MathIsPwr2Exact(4);
  }

  lemma PageFits(next: Word)
    requires 0x1000 <= next <= 0x1F00 && next % 4 == 0
    ensures var s := PAGE.(next := next);
            s.Wf() && s.BlkAt(4, 1) == next && s.FootEnd(4, 4, 1) == next + 4
  {
    FourIsPow2();
  }

  /** A pool limited to one block: `cnt` counted, nothing on its free list. */
  function OnePool(cnt: Word): Pool { Pool(0, 4, 4, 1, NULL, 1, cnt) }

  function Blk(a: Word, use: Use): Grant { Grant(a, 4, 4, 1, use) }

  /** One segment and its pool, by counter, grants, tasks and tally. */
  function Sys(seg: Seg, cnt: Word, grants: map<GrantId, Grant>, n: GrantId, phase: map<TaskId, Phase>,
               tally: Tally): State {
    State(map[0 := seg], map[0 := OnePool(cnt)], EMPTY.mem, grants, n, phase, map[0 := tally])
  }

  /** States of the first run. */
  function At(next: Word, cnt: Word, grants: map<GrantId, Grant>, n: GrantId, phase: map<TaskId, Phase>,
              created: nat): State {
    Sys(PAGE.(next := next), cnt, grants, n, phase, Tally(created, 0))
  }

  /** A segment of `size` bytes at 0x1000, and in it a pool limited to one block. */
  lemma Founding(size: Word)
    requires 0 < size <= 0x1000
    ensures var seg := Seg(0x1000, 0x1000 + size - 1, 0x1000, 1);
            && Step(EMPTY, SegCreate(0, 0x1000, size, 1)).0 == EMPTY.(segs := map[0 := seg])
            && Step(EMPTY.(segs := map[0 := seg]), PoolCreate(0, 0, 4, 4, false, 0, 1)).0
               == Sys(seg, 0, map[], 0, map[], Tally(0, 0))
  {
    assert Pow2(2) == 4;
    MathIsPwr2Exact(4);
  }

  lemma CountStep(seg: Seg, grants: map<GrantId, Grant>, n: GrantId, phase: map<TaskId, Phase>, tally: Tally, t: TaskId)
    requires t !in phase
    ensures Step(Sys(seg, 0, grants, n, phase, tally), GetCount(t, 0)).0
            == Sys(seg, 1, grants, n, phase[t := Counted(0)], tally)
  {
    var s := Sys(seg, 0, grants, n, phase, tally);
    assert DoGetCount(s, t, 0).0 == Sys(seg, 1, grants, n, phase[t := Counted(0)], tally);
  }

  lemma MissStep(seg: Seg, grants: map<GrantId, Grant>, n: GrantId, phase: map<TaskId, Phase>, tally: Tally, t: TaskId)
    requires t in phase && phase[t] == Counted(0)
    ensures Step(Sys(seg, 1, grants, n, phase, tally), GetPop(t)).0
            == Sys(seg, 1, grants, n, phase[t := Growing(0)], tally)
  {
    var s := Sys(seg, 1, grants, n, phase, tally);
    assert DoGetPop(s, t, 0).0 == Sys(seg, 1, grants, n, phase[t := Growing(0)], tally);
  }

  lemma GrowAnswer(next: Word, grants: map<GrantId, Grant>, n: GrantId, phase: map<TaskId, Phase>, created: nat,
                   t: TaskId)
    requires 0x1000 <= next <= 0x1F00
    ensures Grown(At(next, 1, grants, n, phase, created), t, 0, PAGE.(next := next + 4), Granted(next)).0
            == At(next + 4, 1, grants[n := Blk(next, Held(0))], n + 1, phase - {t}, created + 1)
  {
  }

  lemma GrowStep(next: Word, grants: map<GrantId, Grant>, n: GrantId, phase: map<TaskId, Phase>, created: nat,
                 t: TaskId)
    requires 0x1000 <= next <= 0x1F00 && next % 4 == 0 && t in phase && phase[t] == Growing(0)
    ensures Step(At(next, 1, grants, n, phase, created), GetGrow(t)).0
            == At(next + 4, 1, grants[n := Blk(next, Held(0))], n + 1, phase - {t}, created + 1)
  {
    var s := At(next, 1, grants, n, phase, created);
    PageAlloc(next);
    GrowAnswer(next, grants, n, phase, created, t);
    assert s.segs[s.pools[0].seg] == PAGE.(next := next);
    assert Legal(s, GetGrow(t));
    assert Step(s, GetGrow(t)) == DoGetGrow(s, t, 0);
  }

  lemma LeaveStep(next: Word, grants: map<GrantId, Grant>, n: GrantId, created: nat, t: TaskId, id: GrantId)
    requires id in grants && grants[id].use == Held(0)
    ensures Step(At(next, 1, grants, n, map[], created), FreeCount(t, id)).0
            == At(next, 0, grants[id := grants[id].(use := Leaving(0, t))], n, map[t := Releasing(id)], created)
  {
    var s := At(next, 1, grants, n, map[], created);
    assert DoFreeCount(s, t, id).0
        == At(next, 0, grants[id := grants[id].(use := Leaving(0, t))], n, map[t := Releasing(id)], created);
  }

  ghost predicate Goes(s: State, op: Op, s': State) {
    Step(s, op).0 == s'
  }

  /** The run: task 1 gets a block and enters Free; task 2 gets a block between the two critical
      sections of that Free, when the counter has been given back and the block has not. */
  function OpAt(i: nat): Op {
    if i == 0 then SegCreate(0, 0x1000, 0x1000, 1)
    else if i == 1 then PoolCreate(0, 0, 4, 4, false, 0, 1)
    else if i == 2 then GetCount(1, 0)
    else if i == 3 then GetPop(1)
    else if i == 4 then GetGrow(1)
    else if i == 5 then FreeCount(1, 0)
    else if i == 6 then GetCount(2, 0)
    else if i == 7 then GetPop(2)
    else GetGrow(2)
  }

  function HeldOne(): map<GrantId, Grant> { map[0 := Blk(0x1000, Held(0))] }

  function LeavingOne(): map<GrantId, Grant> { map[0 := Blk(0x1000, Leaving(0, 1))] }

  function TraceAt(i: nat): State {
    if i == 0 then EMPTY
    else if i == 1 then EMPTY.(segs := map[0 := PAGE])
    else if i == 2 then At(0x1000, 0, map[], 0, map[], 0)
    else if i == 3 then At(0x1000, 1, map[], 0, map[1 := Counted(0)], 0)
    else if i == 4 then At(0x1000, 1, map[], 0, map[1 := Growing(0)], 0)
    else if i == 5 then At(0x1004, 1, HeldOne(), 1, map[], 1)
    else if i == 6 then At(0x1004, 0, LeavingOne(), 1, map[1 := Releasing(0)], 1)
    else if i == 7 then At(0x1004, 1, LeavingOne(), 1, map[1 := Releasing(0), 2 := Counted(0)], 1)
    else if i == 8 then At(0x1004, 1, LeavingOne(), 1, map[1 := Releasing(0), 2 := Growing(0)], 1)
    else At(0x1008, 1, LeavingOne()[1 := Blk(0x1004, Held(0))], 2, map[1 := Releasing(0)], 2)
  }

  lemma FirstTask()
    ensures Goes(TraceAt(2), OpAt(2), TraceAt(3)) && Goes(TraceAt(3), OpAt(3), TraceAt(4))
  {
    CountStep(PAGE, map[], 0, map[], Tally(0, 0), 1);
    MissStep(PAGE, map[], 0, map[1 := Counted(0)], Tally(0, 0), 1);
    assert map[][1 := Counted(0)] == map[1 := Counted(0)];
    assert map[1 := Counted(0)][1 := Growing(0)] == map[1 := Growing(0)];
  }

  lemma GrowTo(next: Word, grants: map<GrantId, Grant>, n: GrantId, phase: map<TaskId, Phase>, created: nat, t: TaskId,
               phase': map<TaskId, Phase>, grants': map<GrantId, Grant>)
    requires 0x1000 <= next <= 0x1F00 && next % 4 == 0 && t !in phase'
    requires phase == phase'[t := Growing(0)] && grants' == grants[n := Blk(next, Held(0))]
    ensures Goes(At(next, 1, grants, n, phase, created), GetGrow(t),
                 At(next + 4, 1, grants', n + 1, phase', created + 1))
  {
    assert phase - {t} == phase';
    GrowStep(next, grants, n, phase, created, t);
  }

  lemma FirstBlock()
    ensures Goes(TraceAt(4), OpAt(4), TraceAt(5))
  {
    GrowTo(0x1000, map[], 0, map[1 := Growing(0)], 0, 1, map[], HeldOne());
  }

  lemma FirstLeaves()
    ensures Goes(TraceAt(5), OpAt(5), TraceAt(6))
  {
    var g := HeldOne();
    LeaveStep(0x1004, g, 1, 1, 1, 0);
    assert g[0 := g[0].(use := Leaving(0, 1))] == LeavingOne();
  }

  lemma SecondTask()
    ensures Goes(TraceAt(6), OpAt(6), TraceAt(7)) && Goes(TraceAt(7), OpAt(7), TraceAt(8))
  {
    var p := map[1 := Releasing(0)];
    CountStep(PAGE.(next := 0x1004), LeavingOne(), 1, p, Tally(1, 0), 2);
    MissStep(PAGE.(next := 0x1004), LeavingOne(), 1, p[2 := Counted(0)], Tally(1, 0), 2);
    assert p[2 := Counted(0)] == map[1 := Releasing(0), 2 := Counted(0)];
    assert p[2 := Counted(0)][2 := Growing(0)] == map[1 := Releasing(0), 2 := Growing(0)];
  }

  lemma SecondBlock()
    ensures Goes(At(0x1004, 1, LeavingOne(), 1, map[1 := Releasing(0), 2 := Growing(0)], 1), GetGrow(2),
                 At(0x1008, 1, LeavingOne()[1 := Blk(0x1004, Held(0))], 2, map[1 := Releasing(0)], 2))
  {
    GrowTo(0x1004, LeavingOne(), 1, map[1 := Releasing(0), 2 := Growing(0)], 1, 2, map[1 := Releasing(0)],
           LeavingOne()[1 := Blk(0x1004, Held(0))]);
  }

  lemma TraceGoes(i: nat)
    requires i < 9
    ensures Goes(TraceAt(i), OpAt(i), TraceAt(i + 1))
  {
    if i < 2 {
      Founding(0x1000);
    } else if i < 4 {
      FirstTask();
    } else if i == 4 {
      FirstBlock();
    } else if i == 5 {
      FirstLeaves();
    } else if i < 8 {
      SecondTask();
    } else {
      SecondBlock();
    }
  }

  /** A sequence of states linked by steps is a run. */
  lemma {:induction false} TraceIsRun(tr: seq<State>, ops: seq<Op>)
    requires |tr| == |ops| + 1
    requires forall i :: 0 <= i < |ops| ==> Goes(tr[i], ops[i], tr[i + 1])
    ensures Exec(tr[0], ops) == tr[|ops|]
    decreases |ops|
  {
    if ops != [] {
      assert Goes(tr[0], ops[0], tr[1]);
      forall i | 0 <= i < |ops| - 1
        ensures Goes(tr[1..][i], ops[1..][i], tr[1..][i + 1])
      {
        assert Goes(tr[i + 1], ops[i + 1], tr[i + 2]);
      }
      TraceIsRun(tr[1..], ops[1..]);
    }
  }

  /** A pool limited to one block has created two. */
  lemma InterleavingExceedsLimit() returns (ops: seq<Op>)
    ensures var s := Exec(EMPTY, ops);
            0 in s.pools && 0 in s.tally && s.tally[0].created == 2 && s.pools[0].qtyMax == 1
  {
    ops := seq(9, i requires 0 <= i => OpAt(i));
    var tr := seq(10, i requires 0 <= i => TraceAt(i));
    forall i | 0 <= i < 9
      ensures Goes(tr[i], ops[i], tr[i + 1])
    {
      TraceGoes(i);
    }
    TraceIsRun(tr, ops);
  }

  // ---------- a pool drained by one failed growth ----------

  /** Two bytes: too little for a block of four. */
  const SCRAP: Seg := Seg(0x1000, 0x1001, 0x1000, 1)

  lemma ScrapRefuses()
    ensures AllocInternal(SCRAP, 4, 4, 1).1.SegOvf?
  {
    FourIsPow2();
    AllocRefinesExact(SCRAP, 4, 4, 1);
  }

  lemma RefusedStep(t: TaskId, phase: map<TaskId, Phase>)
    requires t in phase && phase[t] == Growing(0)
    ensures Step(Sys(SCRAP, 1, map[], 0, phase, Tally(0, 0)), GetGrow(t)).0
            == Sys(SCRAP, 1, map[], 0, phase - {t}, Tally(0, 1))
  {
    var s := Sys(SCRAP, 1, map[], 0, phase, Tally(0, 0));
    ScrapRefuses();
    assert Legal(s, GetGrow(t));
    GrowIs(s, t, 0);
    RefusedAnswer(t, phase, AllocInternal(SCRAP, 4, 4, 1).0, AllocInternal(SCRAP, 4, 4, 1).1);
  }

  lemma GrowIs(s: State, t: TaskId, p: PoolId)
    requires Legal(s, GetGrow(t)) && s.phase[t].pool == p
    ensures p in s.pools && s.pools[p].padding > 0 && s.pools[p].seg in s.segs
    ensures var pool := s.pools[p];
            var (seg', r) := AllocInternal(s.segs[pool.seg], pool.blkSize, pool.blkAlign, pool.padding);
            Step(s, GetGrow(t)) == Grown(s, t, p, seg', r)
  {
    assert Step(s, GetGrow(t)) == DoGetGrow(s, t, p);
  }

  lemma RefusedAnswer(t: TaskId, phase: map<TaskId, Phase>, seg': Seg, r: AllocResult)
    requires !r.Granted?
    ensures Grown(Sys(SCRAP, 1, map[], 0, phase, Tally(0, 0)), t, 0, seg', r).0
            == Sys(SCRAP, 1, map[], 0, phase - {t}, Tally(0, 1))
  {
  }

  /** One request finds the list empty and the segment full. */
  function DrainOp(i: nat): Op {
    if i == 0 then SegCreate(0, 0x1000, 2, 1)
    else if i == 1 then PoolCreate(0, 0, 4, 4, false, 0, 1)
    else if i == 2 then GetCount(1, 0)
    else if i == 3 then GetPop(1)
    else GetGrow(1)
  }

  function DrainTrace(i: nat): State {
    if i == 0 then EMPTY
    else if i == 1 then EMPTY.(segs := map[0 := SCRAP])
    else if i == 2 then Sys(SCRAP, 0, map[], 0, map[], Tally(0, 0))
    else if i == 3 then Sys(SCRAP, 1, map[], 0, map[1 := Counted(0)], Tally(0, 0))
    else if i == 4 then Sys(SCRAP, 1, map[], 0, map[1 := Growing(0)], Tally(0, 0))
    else Sys(SCRAP, 1, map[], 0, map[], Tally(0, 1))
  }

  lemma DrainGoes(i: nat)
    requires i < 5
    ensures Goes(DrainTrace(i), DrainOp(i), DrainTrace(i + 1))
  {
    if i < 2 {
      Founding(2);
    } else if i == 2 {
      CountStep(SCRAP, map[], 0, map[], Tally(0, 0), 1);
      assert map[][1 := Counted(0)] == map[1 := Counted(0)];
    } else if i == 3 {
      MissStep(SCRAP, map[], 0, map[1 := Counted(0)], Tally(0, 0), 1);
      assert map[1 := Counted(0)][1 := Growing(0)] == map[1 := Growing(0)];
    } else {
      RefusedStep(1, map[1 := Growing(0)]);
      assert map[1 := Growing(0)] - {1} == map[];
    }
  }

  /** Where the run ends. */
  ghost predicate OneFailure(s: State) {
    s == Sys(SCRAP, 1, map[], 0, map[], Tally(0, 1))
  }

  lemma DrainRun() returns (ops: seq<Op>)
    ensures OneFailure(Exec(EMPTY, ops))
  {
    ops := seq(5, i requires 0 <= i => DrainOp(i));
    var tr := seq(6, i requires 0 <= i => DrainTrace(i));
    forall i | 0 <= i < 5
      ensures Goes(tr[i], ops[i], tr[i + 1])
    {
      DrainGoes(i);
    }
    TraceIsRun(tr, ops);
  }

  lemma DrainedState(s: State)
    requires OneFailure(s) && Inv(s)
    ensures Drained(s, 0) && RefusesForever(s, 0)
  {
    assert Waiting(s.phase, 0) == {};
    DrainedForGoodIff(s, 0);
  }

  /** A run that drains a pool: one request has failed, no block was ever created, and every later
      request of every continuation is refused. */
  lemma DrainedByOneFailure() returns (ops: seq<Op>)
    ensures OneFailure(Exec(EMPTY, ops))
    ensures Drained(Exec(EMPTY, ops), 0) && RefusesForever(Exec(EMPTY, ops), 0)
  {
    ops := DrainRun();
    Reachable(ops);
    DrainedState(Exec(EMPTY, ops));
  }

  // ---------- a pool at the null address ----------

  /** The creation asks for `total` bytes for `qtyInit` blocks aligned to `worst`. */
  ghost predicate Asks(s: State, op: Op, worst: Word, total: nat) {
    && op.PoolCreate? && op.seg in s.segs && s.segs[op.seg].Wf() && s.segs[op.seg].pad > 0
    && worst == Max(op.blkAlign, if op.hw then s.segs[op.seg].pad else PADDING_NONE)
    && IsPow2(op.blkAlign) && op.blkAlign > 0 && op.blkSize >= PTR_SIZE && op.qtyInit > 0
    && total == InitBytes(op.blkSize, worst, op.qtyInit)
    && (op.qtyMax == QTY_UNLIMITED || op.qtyInit <= op.qtyMax)
  }

  /** Where the initial blocks of a pool are carved. */
  lemma FirstBlocksAt(s: State, op: Op, worst: Word, total: nat)
    requires Asks(s, op, worst, total) && RoundUp(s.segs[op.seg].Next(), worst) + total <= s.segs[op.seg].Limit()
    ensures DoPoolCreate(s, op).1 == Done && op.pool in DoPoolCreate(s, op).0.pools
    ensures var s' := DoPoolCreate(s, op).0;
            && s'.pools[op.pool].freePtr == RoundUp(s.segs[op.seg].Next(), worst)
            && op.pool in s'.tally && s'.tally[op.pool] == Tally(op.qtyInit, 0)
            && s'.phase == s.phase && s'.grants == s.grants
  {
    var seg := s.segs[op.seg];
    var blk := RoundUp(seg.Next(), worst);
    assert Pow2(0) == PADDING_NONE;
    MathIsPwr2Exact(op.blkAlign);
    MaxPow2(op.blkAlign, if op.hw then seg.pad else PADDING_NONE);
    MathIsPwr2Exact(worst);
    StrideExact(op.blkSize, worst, op.qtyInit);
    PlainFoot(seg, total, worst);
    AllocRefinesExact(seg, total, worst, PADDING_NONE);
  }

  /** A pool founded where the segment's next address is 0 has a null head: it has created its initial
      blocks, none of them is out, and yet every request finds the free list empty. */
  lemma PoolAtNullIsEmpty(s: State, op: Op, worst: Word, total: nat, t: TaskId)
    requires Asks(s, op, worst, total) && s.segs[op.seg].Next() == 0 && total <= s.segs[op.seg].Limit()
    ensures DoPoolCreate(s, op).1 == Done && op.pool in DoPoolCreate(s, op).0.pools
    ensures var s' := DoPoolCreate(s, op).0;
            && op.pool in s'.tally && s'.tally[op.pool] == Tally(op.qtyInit, 0)
            && s'.pools[op.pool].freePtr == NULL && DoGetPop(s', t, op.pool).1 == Continue
  {
    FirstBlocksAt(s, op, worst, total);
  }

  /** Two blocks of four bytes in a page at address 0. */
  lemma PoolAtNull() returns (s: State, op: Op)
    ensures s == Step(EMPTY, SegCreate(0, 0, 0x1000, 1)).0
    ensures op.PoolCreate? && op.seg in s.segs && s.segs[op.seg].pad > 0
    ensures DoPoolCreate(s, op).1 == Done && op.pool in DoPoolCreate(s, op).0.pools
    ensures DoPoolCreate(s, op).0.pools[op.pool].freePtr == NULL
    ensures op.pool in DoPoolCreate(s, op).0.tally && DoPoolCreate(s, op).0.tally[op.pool].created == 2
  {
    s, op := EMPTY.(segs := map[0 := Seg(0, 0xFFF, 0, 1)]), PoolCreate(0, 0, 4, 4, false, 2, 0);
    FourIsPow2();
    PoolAtNullIsEmpty(s, op, 4, 8, 0);
  }
}
