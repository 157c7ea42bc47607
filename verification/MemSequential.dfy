/** Sequential runs: every call returns before the next one begins. */
module MemSequential {
  import opened Arith
  import opened PtrMem
  import opened DynPoolCore
  import opened MemSystem
  import opened MemInvariant
  import opened MemTheorems
  import opened MemPools

  /** A whole call: Mem_DynPoolBlkGet, Mem_DynPoolBlkFree, or a call that is one step anyway. */
  datatype Call = Get(task: TaskId, pool: PoolId) | Free(task: TaskId, grant: GrantId) | Single(op: Op)

  predicate OneStep(op: Op) {
    op.SegCreate? || op.SegAlloc? || op.PoolCreate? || op.OwnerStore?
  }

  /** The critical sections of a call in order; those that an early return skips are no steps. */
  ghost function Do(s: State, c: Call): State {
    match c
    case Get(t, p) => Step(Step(Step(s, GetCount(t, p)).0, GetPop(t)).0, GetGrow(t)).0
    case Free(t, id) => Step(Step(s, FreeCount(t, id)).0, FreePush(t)).0
    case Single(op) => if OneStep(op) then Step(s, op).0 else s
  }

  ghost function DoAll(s: State, calls: seq<Call>): State
    decreases |calls|
  {
    if calls == [] then s else DoAll(Do(s, calls[0]), calls[1..])
  }

  /** No task is inside a call. */
  ghost predicate Idle(s: State) {
    s.phase == map[]
  }

  ghost predicate Sequential(s: State, calls: seq<Call>)
    decreases |calls|
  {
    Idle(s) && (calls != [] ==> Sequential(Do(s, calls[0]), calls[1..]))
  }

  // ---------- one call ----------

  /** What every step keeps, every call keeps. */
  lemma DoKeeps(inv: State -> bool, s: State, c: Call)
    requires Inductive(inv) && inv(s)
    ensures inv(Do(s, c))
  {
  }

  lemma DoKeepsInv(s: State, c: Call)
    requires Inv(s)
    ensures Inv(Do(s, c))
  {
    InvIsInductive();
    DoKeeps(Inv, s, c);
  }

  lemma CountIdle(s: State, t: TaskId, p: PoolId)
    requires Idle(s)
    ensures var s1 := Step(s, GetCount(t, p)).0;
            && s1.grants == s.grants && s1.segs == s.segs
            && (Idle(s1) || (p in s.pools && p in s1.pools && s1.phase == map[t := Counted(p)]
                             && s1.pools[p] == s.pools[p].(allocCnt := s1.pools[p].allocCnt)))
  {
  }

  lemma PopCounted(s: State, t: TaskId, p: PoolId)
    requires s.phase == map[t := Counted(p)] && p in s.pools
    ensures var s2 := Step(s, GetPop(t)).0;
            && (Idle(s2) || (s2 == s.(phase := map[t := Growing(p)]) && s.pools[p].freePtr == NULL))
  {
    assert Step(s, GetPop(t)).0 == DoGetPop(s, t, p).0;
    assert s.phase - {t} == map[];
  }

  lemma GrowIdle(s: State, t: TaskId)
    requires Idle(s)
    ensures Step(s, GetGrow(t)).0 == s && Step(s, GetPop(t)).0 == s && Step(s, FreePush(t)).0 == s
  {
  }

  lemma GrowReturns(s: State, t: TaskId, p: PoolId)
    requires s.phase == map[t := Growing(p)] && Legal(s, GetGrow(t))
    ensures Idle(Step(s, GetGrow(t)).0)
  {
    assert Step(s, GetGrow(t)).0 == DoGetGrow(s, t, p).0;
    assert s.phase - {t} == map[];
  }

  /** A Get returns unless it grows the pool by a block that was granted on a wrapped size. */
  lemma GetReturns(s: State, t: TaskId, p: PoolId)
    requires Inv(s) && Idle(s)
    requires p in s.pools ==>
               SoundIn(s, s.pools[p].seg, s.pools[p].blkSize, s.pools[p].blkAlign, s.pools[p].padding)
    ensures Idle(Do(s, Get(t, p)))
  {
    var s1 := Step(s, GetCount(t, p)).0;
    var s2 := Step(s1, GetPop(t)).0;
    CountIdle(s, t, p);
    StepKeepsInv(s, GetCount(t, p));
    StepKeepsInv(s1, GetPop(t));
    if Idle(s1) {
      GrowIdle(s1, t);
    } else {
      PopCounted(s1, t, p);
      if Idle(s2) {
        GrowIdle(s2, t);
      } else {
        CallsNeverStuck(s2, t);
        GrowReturns(s2, t, p);
      }
    }
  }

  lemma PushReturns(s: State, t: TaskId, id: GrantId)
    requires s.phase == map[t := Releasing(id)] && Legal(s, FreePush(t))
    ensures Idle(Step(s, FreePush(t)).0)
  {
    assert s.phase - {t} == map[];
  }

  lemma LeaveIdle(s: State, t: TaskId, id: GrantId)
    requires Idle(s) && Legal(s, FreeCount(t, id)) && Step(s, FreeCount(t, id)).1 == Continue
    ensures Step(s, FreeCount(t, id)).0.phase == map[t := Releasing(id)]
  {
    assert Step(s, FreeCount(t, id)) == DoFreeCount(s, t, id);
  }

  /** A Free by a block's owner always returns. */
  lemma FreeReturns(s: State, t: TaskId, id: GrantId)
    requires Inv(s) && Idle(s) && Legal(s, FreeCount(t, id))
    ensures Idle(Do(s, Free(t, id)))
  {
    OwnerFreeNeverFull(s, t, id);
    LeaveIdle(s, t, id);
    StepKeepsInv(s, FreeCount(t, id));
    CallsNeverStuck(Step(s, FreeCount(t, id)).0, t);
    PushReturns(Step(s, FreeCount(t, id)).0, t, id);
  }

  /** Outside calls no block is on its way back, and no task is growing a pool. */
  lemma IdleCounts(s: State, p: PoolId)
    requires Inv(s) && Idle(s)
    ensures LeavingIds(s.grants, p) == {} && Growers(s.phase, p) == {} && Waiting(s.phase, p) == {}
  {
    var l :| InvWith(s, l);
    NoneLeaving(s.phase, s.grants, s.pools, p);
  }

  lemma NoneLeaving(phase: map<TaskId, Phase>, grants: map<GrantId, Grant>, pools: map<PoolId, Pool>, p: PoolId)
    requires PhasesOk(phase, grants, pools) && phase == map[]
    ensures LeavingIds(grants, p) == {} && Growers(phase, p) == {} && Waiting(phase, p) == {}
  {
    forall id | id in grants
      ensures !grants[id].use.Leaving?
    {
    }
    assert LeavingIds(grants, p) == {};
  }

  lemma StepQuiet(s: State, op: Op, p: PoolId)
    requires p in s.pools && p in s.tally && !Misses(s, op, p)
    ensures Raises(s, Step(s, op).0, p, 0)
  {
    StepCommits(s, op, p);
  }

  /** A call that never finds the free list of `p` empty commits it to nothing. */
  lemma QuietCall(s: State, c: Call, p: PoolId)
    requires p in s.pools && p in s.tally && !c.Get?
    ensures Raises(s, Do(s, c), p, 0)
  {
    match c
    case Free(t, id) =>
      StepQuiet(s, FreeCount(t, id), p);
      StepQuiet(Step(s, FreeCount(t, id)).0, FreePush(t), p);
    case Single(op) =>
      if OneStep(op) {
        StepQuiet(s, op, p);
      }
  }

  /** Growing does not touch the free list. */
  lemma GrowKeepsList(s: State, t: TaskId, p: PoolId)
    requires p in s.pools
    ensures var s' := Step(s, GetGrow(t)).0; p in s'.pools && s'.pools[p].freePtr == s.pools[p].freePtr
  {
  }

  /** What a call that finds the list empty leaves behind: an empty list, one block more, within
      the limit. */
  lemma MissingGet(s1: State, t: TaskId, p: PoolId)
    requires Inv(s1) && p in s1.pools && p in s1.tally && Misses(s1, GetPop(t), p)
    requires LeavingIds(s1.grants, p) == {}
    ensures var s3 := Step(Step(s1, GetPop(t)).0, GetGrow(t)).0;
            && p in s3.pools && p in s3.tally && Inv(s3)
            && Committed(s3, p) == Committed(s1, p) + 1 == Demand(s3, p)
            && s3.pools[p].qtyMax == s1.pools[p].qtyMax
            && (s1.pools[p].Limited() ==> Committed(s3, p) <= s1.pools[p].qtyMax)
  {
    var s2 := Step(s1, GetPop(t)).0;
    StepKeepsInv(s1, GetPop(t));
    StepKeepsInv(s2, GetGrow(t));
    StepCommits(s1, GetPop(t), p);
    MissIsPop(s1, GetPop(t), p);
    StepQuiet(s2, GetGrow(t), p);
    GrowKeepsList(s2, t, p);
    MissLeavesNone(Step(s2, GetGrow(t)).0, p);
    if s1.pools[p].Limited() {
      StepWithinLimit(s1, GetPop(t), p);
    }
  }

  /** What a call does to the blocks of `p`: all of them are out when it creates one. */
  ghost predicate Frugal(s: State, s': State, p: PoolId)
    requires p in s.pools && p in s.tally
  {
    && p in s'.pools && p in s'.tally && s'.pools[p].qtyMax == s.pools[p].qtyMax
    && Committed(s', p) == Max(Committed(s, p), Demand(s', p))
    && (s.pools[p].Limited() ==> Committed(s', p) <= Max(Committed(s, p), s.pools[p].qtyMax))
  }

  lemma QuietIsFrugal(s: State, s': State, p: PoolId)
    requires p in s.pools && p in s.tally && Raises(s, s', p, 0) && Inv(s')
    ensures Frugal(s, s', p)
  {
    DemandWithin(s', p);
  }

  lemma GetIsFrugal(s: State, t: TaskId, q: PoolId, p: PoolId)
    requires Inv(s) && Idle(s) && p in s.pools && p in s.tally
    ensures Frugal(s, Do(s, Get(t, q)), p)
  {
    var s1 := Step(s, GetCount(t, q)).0;
    CountIdle(s, t, q);
    IdleCounts(s, p);
    StepKeepsInv(s, GetCount(t, q));
    StepQuiet(s, GetCount(t, q), p);
    DoKeepsInv(s, Get(t, q));
    if Misses(s1, GetPop(t), p) {
      MissingGet(s1, t, p);
    } else {
      StepQuiet(s1, GetPop(t), p);
      StepQuiet(Step(s1, GetPop(t)).0, GetGrow(t), p);
      QuietIsFrugal(s, Do(s, Get(t, q)), p);
    }
  }

  lemma CallIsFrugal(s: State, c: Call, p: PoolId)
    requires Inv(s) && Idle(s) && p in s.pools && p in s.tally
    ensures Frugal(s, Do(s, c), p)
  {
    if c.Get? {
      GetIsFrugal(s, c.task, c.pool, p);
    } else {
      DoKeepsInv(s, c);
      QuietCall(s, c, p);
      QuietIsFrugal(s, Do(s, c), p);
    }
  }

  // ---------- runs ----------

  /** Between calls: blocks out, with the growths that failed. */
  ghost function OutOrFailed(s: State, p: PoolId): int
    requires p in s.tally
  {
    |HeldIds(s.grants, p)| + s.tally[p].failed
  }

  /** The largest number between any two calls of a run. */
  ghost function Peak(s: State, calls: seq<Call>, p: PoolId): int
    requires Inv(s) && Sequential(s, calls) && p in s.pools && p in s.tally
    decreases |calls|
  {
    if calls == [] then OutOrFailed(s, p)
    else
      DoKeepsInv(s, calls[0]);
      CallIsFrugal(s, calls[0], p);
      Max(OutOrFailed(s, p), Peak(Do(s, calls[0]), calls[1..], p))
  }

  lemma IdleDemand(s: State, p: PoolId)
    requires Inv(s) && Idle(s) && p in s.pools && p in s.tally
    ensures Committed(s, p) == s.tally[p].created + s.tally[p].failed
    ensures Demand(s, p) == OutOrFailed(s, p) <= Committed(s, p)
  {
    IdleCounts(s, p);
    DemandWithin(s, p);
  }

  lemma PeakStarts(s: State, calls: seq<Call>, p: PoolId)
    requires Inv(s) && Sequential(s, calls) && p in s.pools && p in s.tally
    ensures Peak(s, calls, p) >= OutOrFailed(s, p)
  {
  }

  lemma {:induction false} SequentialEnds(inv: State -> bool, s: State, calls: seq<Call>)
    requires Inductive(inv) && inv(s) && Sequential(s, calls)
    ensures inv(DoAll(s, calls)) && Idle(DoAll(s, calls))
    decreases |calls|
  {
    if calls != [] {
      DoKeeps(inv, s, calls[0]);
      SequentialEnds(inv, Do(s, calls[0]), calls[1..]);
    }
  }

  lemma {:induction false} FrugalRun(s: State, calls: seq<Call>, p: PoolId)
    requires Inv(s) && Sequential(s, calls) && p in s.pools && p in s.tally
    ensures var s' := DoAll(s, calls);
            && p in s'.pools && p in s'.tally && s'.pools[p].qtyMax == s.pools[p].qtyMax
            && Committed(s', p) == Max(Committed(s, p), Peak(s, calls, p))
            && (s.pools[p].Limited() ==> Committed(s', p) <= Max(Committed(s, p), s.pools[p].qtyMax))
    decreases |calls|
  {
    IdleDemand(s, p);
    if calls != [] {
      var s1 := Do(s, calls[0]);
      DoKeepsInv(s, calls[0]);
      CallIsFrugal(s, calls[0], p);
      IdleDemand(s1, p);
      FrugalRun(s1, calls[1..], p);
      PeakStarts(s1, calls[1..], p);
    }
  }

  /** SEQUENTIAL GROWTH: blocks created and growths failed are together the larger of what the pool
      started with and the peak of blocks out and growths failed; for a limited pool they are
      within BlkQtyMax if they were at the start. */
  lemma {:induction false} SequentialGrowth(s: State, calls: seq<Call>, p: PoolId)
    requires Inv(s) && Sequential(s, calls) && p in s.pools && p in s.tally
    ensures p in DoAll(s, calls).tally
    ensures var before, after := s.tally[p], DoAll(s, calls).tally[p];
            && after.created + after.failed == Max(before.created + before.failed, Peak(s, calls, p))
            && (s.pools[p].Limited() && before.created + before.failed <= s.pools[p].qtyMax ==>
                  after.created + after.failed <= s.pools[p].qtyMax)
  {
    FrugalRun(s, calls, p);
    InvIsInductive();
    SequentialEnds(Inv, s, calls);
    IdleDemand(s, p);
    IdleDemand(DoAll(s, calls), p);
  }

  // ---------- from the creation of a pool ----------

  lemma DoKeepsFailures(s: State, c: Call, p: PoolId)
    ensures KeepsFailures(s, Do(s, c), p)
  {
    forall u, op
      ensures KeepsFailures(u, Step(u, op).0, p)
    {
      StepKeepsFailures(u, op, p);
    }
  }

  /** The largest number of blocks out between any two calls of a run. */
  ghost function PeakOut(s: State, calls: seq<Call>, p: PoolId): int
    decreases |calls|
  {
    if calls == [] then |HeldIds(s.grants, p)|
    else Max(|HeldIds(s.grants, p)|, PeakOut(Do(s, calls[0]), calls[1..], p))
  }

  /** A run without failed growths peaks with its blocks. */
  lemma {:induction false} PeakWithoutFailures(s: State, calls: seq<Call>, p: PoolId)
    requires Inv(s) && Sequential(s, calls) && p in s.pools && p in s.tally
    requires p in DoAll(s, calls).tally && DoAll(s, calls).tally[p].failed == 0
    ensures s.tally[p].failed == 0 && Peak(s, calls, p) == PeakOut(s, calls, p)
    decreases |calls|
  {
    if calls != [] {
      DoKeepsInv(s, calls[0]);
      DoKeepsFailures(s, calls[0], p);
      CallIsFrugal(s, calls[0], p);
      PeakWithoutFailures(Do(s, calls[0]), calls[1..], p);
    }
  }

  /** MINIMAL GROWTH: in a sequential run after a pool is created, if none of its growths fails the
      blocks created are the larger of blk_qty_init and the largest number simultaneously out. A
      limited pool, growths failing or not, creates at most blk_qty_max blocks. */
  lemma {:induction false} CreatedIsPeak(s: State, op: Op, calls: seq<Call>)
    requires Inv(s) && op.PoolCreate? && Legal(s, op) && Step(s, op).1 == Done
    requires Sequential(Step(s, op).0, calls)
    ensures var s0 := Step(s, op).0;
            var s', p := DoAll(s0, calls), op.pool;
            && p in s'.tally
            && (s'.tally[p].failed == 0 ==> s'.tally[p].created == Max(op.qtyInit, PeakOut(s0, calls, p)))
            && (op.qtyMax != QTY_UNLIMITED ==> s'.tally[p].created <= op.qtyMax)
  {
    var s0 := Step(s, op).0;
    StepKeepsInv(s, op);
    CreatedPool(s, op);
    SequentialGrowth(s0, calls, op.pool);
    if DoAll(s0, calls).tally[op.pool].failed == 0 {
      PeakWithoutFailures(s0, calls, op.pool);
    }
  }

  /** The same after every run, of any number of tasks, that leaves no task inside a call. */
  lemma {:induction false} EveryRunCreatesPeak(ops: seq<Op>, op: Op, calls: seq<Call>)
    ensures var s := Exec(EMPTY, ops);
            var s0 := Step(s, op).0;
            var s' := DoAll(s0, calls);
            op.PoolCreate? && Legal(s, op) && Step(s, op).1 == Done && Sequential(s0, calls) ==>
              && op.pool in s'.tally
              && (s'.tally[op.pool].failed == 0 ==>
                    s'.tally[op.pool].created == Max(op.qtyInit, PeakOut(s0, calls, op.pool)))
              && (op.qtyMax != QTY_UNLIMITED ==> s'.tally[op.pool].created <= op.qtyMax)
  {
    Reachable(ops);
    var s := Exec(EMPTY, ops);
    if op.PoolCreate? && Legal(s, op) && Step(s, op).1 == Done && Sequential(Step(s, op).0, calls) {
      CreatedIsPeak(s, op, calls);
    }
  }
}
