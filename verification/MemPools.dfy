/** Consequences for dynamic pools: freeing never fails, growth is minimal, padding isolates lines,
    and what interleaving does to the block limit. */
module MemPools {
  import opened Arith
  import opened Segment
  import opened PtrMem
  import opened DynPoolCore
  import opened MemSystem
  import opened MemInvariant
  import opened MemSteps
  import opened MemTheorems

  /** An owner's Mem_DynPoolBlkFree never reports a full pool, whatever other tasks are doing. */
  lemma OwnerFreeNeverFull(s: State, t: TaskId, id: GrantId)
    requires Inv(s) && Legal(s, FreeCount(t, id))
    ensures Step(s, FreeCount(t, id)).1 == Continue
  {
    var p := s.grants[id].use.pool;
    if s.pools[p].Limited() {
      TallyOf(s, p);
      CountersOf(s, p);
      assert id in HeldIds(s.grants, p);
      assert |HeldIds(s.grants, p)| > 0;
    }
  }

  lemma TallyOf(s: State, p: PoolId)
    requires Inv(s) && p in s.pools
    ensures p in s.tally
  {
    var l :| InvWith(s, l);
    assert CountsOk(s, l.chain);
  }

  /** A block with padding P owns whole lines of P bytes: no byte of any other grant in force, from
      any segment or pool, shares a line with one of its bytes. */
  lemma LinesIsolated(s: State, i: GrantId, j: GrantId, x: nat, y: nat)
    requires Inv(s) && i in s.grants && j in s.grants && i != j
    requires s.grants[i].base <= x < s.grants[i].base + s.grants[i].size
    requires s.grants[j].base <= y < s.grants[j].base + s.grants[j].size
    ensures s.grants[i].padding > 0 && x / s.grants[i].padding != y / s.grants[i].padding
  {
    InvSafe(s);
    var g, h := s.grants[i], s.grants[j];
    assert h.base + h.size <= h.Foot();
    if g.Foot() <= h.base {
      LinesBelow(x, g.Foot(), y, g.padding);
    } else {
      LinesBelow(y, g.base, x, g.padding);
    }
  }

  /** A chain in memory visits only one sequence of addresses. */
  lemma {:induction false} OneChain(m: Mem, ptr: nat, c: seq<nat>, d: seq<nat>)
    requires Chain(m, ptr, c) && Chain(m, ptr, d)
    ensures c == d
    decreases |c|
  {
    if c != [] && d != [] {
      OneChain(m, LoadPtr(m, ptr), c[1..], d[1..]);
      assert c == [c[0]] + c[1..] && d == [d[0]] + d[1..];
    }
  }

  /** Byte `y` belongs to block `k` of the free list of `p`, found by following the links in memory. */
  ghost predicate FreeByte(s: State, p: PoolId, c: seq<nat>, k: nat, y: nat) {
    && p in s.pools && Chain(s.mem, s.pools[p].freePtr, c) && k < |c|
    && c[k] <= y < c[k] + s.pools[p].blkSize
  }

  /** Free blocks are isolated as well, their link words included: no byte of a free block shares a
      line of a grant's padding with the grant, nor a line of its own pool's padding. */
  lemma FreeLinesIsolated(s: State, i: GrantId, x: nat, p: PoolId, c: seq<nat>, k: nat, y: nat)
    requires Inv(s) && i in s.grants && s.grants[i].base <= x < s.grants[i].base + s.grants[i].size
    requires FreeByte(s, p, c, k, y)
    ensures s.grants[i].padding > 0 && x / s.grants[i].padding != y / s.grants[i].padding
    ensures s.pools[p].padding > 0 && x / s.pools[p].padding != y / s.pools[p].padding
  {
    var l :| InvWith(s, l);
    InvGrantsPlaced(s, l);
    InvFreeListSound(s, l, p);
    OneChain(s.mem, s.pools[p].freePtr, c, l.chain[p]);
    FootOf(s, l, i);
    BlocksApart(s.grants[i], x, s.pools[p], c[k], y);
  }

  lemma BlocksApart(g: Grant, x: nat, pool: Pool, a: nat, y: nat)
    requires g.padding > 0 && pool.padding > 0 && g.base % g.padding == 0 && a % pool.padding == 0
    requires g.base <= x < g.base + g.size && a <= y < a + pool.blkSize
    requires FreeFoot(pool, a) <= g.base || g.Foot() <= a
    ensures x / g.padding != y / g.padding && x / pool.padding != y / pool.padding
  {
    if g.Foot() <= a {
      LinesBelow(x, g.Foot(), y, g.padding);
      LinesBelow(x, a, y, pool.padding);
    } else {
      LinesBelow(y, g.base, x, g.padding);
      LinesBelow(y, FreeFoot(pool, a), x, pool.padding);
    }
  }

  /** A multiple of `p` separates the lines below it from those above. */
  lemma LinesBelow(x: nat, m: nat, y: nat, p: nat)
    requires p > 0 && m % p == 0 && x < m <= y
    ensures x / p < y / p
  {
    DivBounds(x, m / p, p);
    DivBounds(y, m / p, p);
  }

  // ---------- growth ----------

  /** Blocks created or being created for `p`, counting growths that failed. */
  ghost function Committed(s: State, p: PoolId): int
    requires p in s.tally
  {
    s.tally[p].created + |Growers(s.phase, p)| + s.tally[p].failed
  }

  /** Blocks out of the free list of `p`, or wanted by a task that found it empty. */
  ghost function Demand(s: State, p: PoolId): int
    requires p in s.tally
  {
    |HeldIds(s.grants, p)| + |LeavingIds(s.grants, p)| + |Growers(s.phase, p)| + s.tally[p].failed
  }

  lemma DemandMet(s: State, l: Ledger, p: PoolId)
    requires InvWith(s, l) && p in s.pools
    ensures p in s.tally && p in l.chain && Committed(s, p) == Demand(s, p) + |l.chain[p]|
  {
    assert CountsOk(s, l.chain);
  }

  /** Which steps can change what the pool has committed to: only finding the free list empty. */
  ghost predicate Misses(s: State, op: Op, p: PoolId) {
    && op.GetPop? && op.task in s.phase && s.phase[op.task] == Counted(p)
    && p in s.pools && s.pools[p].freePtr == NULL
  }

  lemma GrowersChange(phase: map<TaskId, Phase>, t: TaskId, p: PoolId, ph: Phase)
    ensures ph == Growing(p) && (t in phase ==> phase[t] != Growing(p)) ==>
              |Growers(phase[t := ph], p)| == |Growers(phase, p)| + 1
    ensures ph != Growing(p) && (t in phase ==> phase[t] != Growing(p)) ==>
              Growers(phase[t := ph], p) == Growers(phase, p)
    ensures |Growers(phase - {t}, p)|
            == |Growers(phase, p)| - (if t in phase && phase[t] == Growing(p) then 1 else 0)
  {
    var g := Growers(phase, p);
    if ph == Growing(p) && (t in phase ==> phase[t] != Growing(p)) {
      assert Growers(phase[t := ph], p) == g + {t};
    }
    if t in phase && phase[t] == Growing(p) {
      assert Growers(phase - {t}, p) == g - {t};
    } else {
      assert Growers(phase - {t}, p) == g;
    }
  }

  /** The step from `s` to `s'` raises what `p` has committed to by `d`. */
  ghost predicate Raises(s: State, s': State, p: PoolId, d: int)
    requires p in s.tally && p in s.pools
  {
    && p in s'.pools && s'.pools[p].qtyMax == s.pools[p].qtyMax
    && p in s'.tally && Committed(s', p) == Committed(s, p) + d
  }

  lemma SegCommits(s: State, op: Op, p: PoolId)
    requires p in s.pools && p in s.tally
    ensures op.SegCreate? ==> Raises(s, DoSegCreate(s, op).0, p, 0)
    ensures op.SegAlloc? && op.seg in s.segs && s.segs[op.seg].pad > 0 ==> Raises(s, DoSegAlloc(s, op).0, p, 0)
  {
  }

  lemma PoolCreateCommits(s: State, op: Op, p: PoolId)
    requires p in s.pools && p in s.tally && op.PoolCreate? && op.pool !in s.pools
    requires op.seg in s.segs && s.segs[op.seg].pad > 0
    ensures Raises(s, DoPoolCreate(s, op).0, p, 0)
  {
  }

  lemma GetPopCommits(s: State, t: TaskId, q: PoolId, p: PoolId)
    requires p in s.pools && p in s.tally && q in s.pools && t in s.phase && s.phase[t] == Counted(q)
    ensures Raises(s, DoGetPop(s, t, q).0, p, if q == p && s.pools[p].freePtr == NULL then 1 else 0)
  {
    GrowersChange(s.phase, t, p, Growing(q));
  }

  lemma GetGrowCommits(s: State, t: TaskId, q: PoolId, p: PoolId, seg': Seg, r: AllocResult)
    requires p in s.pools && p in s.tally && q in s.pools && q in s.tally && t in s.phase && s.phase[t] == Growing(q)
    ensures Raises(s, Grown(s, t, q, seg', r).0, p, 0)
  {
    GrowersChange(s.phase, t, p, Growing(q));
  }

  lemma GetCountCommits(s: State, t: TaskId, q: PoolId, p: PoolId)
    requires p in s.pools && p in s.tally && t !in s.phase && q in s.pools
    ensures Raises(s, DoGetCount(s, t, q).0, p, 0)
  {
    GrowersChange(s.phase, t, p, Counted(q));
  }

  lemma FreeCountCommits(s: State, t: TaskId, id: GrantId, p: PoolId)
    requires p in s.pools && p in s.tally && t !in s.phase
    requires id in s.grants && s.grants[id].use.Held? && s.grants[id].use.pool in s.pools
    ensures Raises(s, DoFreeCount(s, t, id).0, p, 0)
  {
    GrowersChange(s.phase, t, p, Releasing(id));
  }

  lemma FreePushCommits(s: State, t: TaskId, id: GrantId, p: PoolId)
    requires p in s.pools && p in s.tally && t in s.phase && s.phase[t].Releasing?
    requires id in s.grants && s.grants[id].use.Leaving? && s.grants[id].use.pool in s.pools
    ensures Raises(s, DoFreePush(s, t, id).0, p, 0)
  {
    GrowersChange(s.phase, t, p, s.phase[t]);
  }

  lemma StepCommits(s: State, op: Op, p: PoolId)
    requires p in s.pools && p in s.tally
    ensures Raises(s, Step(s, op).0, p, if Misses(s, op, p) then 1 else 0)
  {
    if Legal(s, op) {
      match op
      case SegCreate(_, _, _, _) => SegCommits(s, op, p);
      case SegAlloc(_, _, _) => SegCommits(s, op, p);
      case PoolCreate(_, _, _, _, _, _, _) => PoolCreateCommits(s, op, p);
      case GetCount(t, q) => GetCountCommits(s, t, q, p);
      case GetPop(t) => GetPopCommits(s, t, s.phase[t].pool, p);
      case GetGrow(t) =>
        var pool := s.pools[s.phase[t].pool];
        var (seg', r) := AllocInternal(s.segs[pool.seg], pool.blkSize, pool.blkAlign, pool.padding);
        GetGrowCommits(s, t, s.phase[t].pool, p, seg', r);
      case FreeCount(t, id) => FreeCountCommits(s, t, id, p);
      case FreePush(t) => FreePushCommits(s, t, s.phase[t].grant, p);
      case OwnerStore(_, _, _) =>
    }
  }

  lemma DemandWithin(s: State, p: PoolId)
    requires Inv(s) && p in s.pools
    ensures p in s.tally && Demand(s, p) <= Committed(s, p)
  {
    var l :| InvWith(s, l);
    DemandMet(s, l, p);
  }

  lemma MissMeetsDemand(s: State, t: TaskId, p: PoolId)
    requires Inv(s) && p in s.pools && p in s.tally
    requires t in s.phase && s.phase[t] == Counted(p) && s.pools[p].freePtr == NULL
    ensures Demand(DoGetPop(s, t, p).0, p) == Committed(s, p) + 1
  {
    var l :| InvWith(s, l);
    DemandMet(s, l, p);
    assert ChainOk(s.mem, l.cells, p, s.pools[p], l.chain[p]);
    assert l.chain[p] == [];
    GrowersChange(s.phase, t, p, Growing(p));
  }

  lemma MissIsPop(s: State, op: Op, p: PoolId)
    requires Misses(s, op, p)
    ensures Step(s, op).0 == DoGetPop(s, op.task, p).0
  {
  }

  /** A pool commits to one more block exactly when all its blocks are out, and then to no more
      than what is demanded. */
  lemma StepCommitsToDemand(s: State, op: Op, p: PoolId)
    requires Inv(s) && p in s.pools
    ensures p in s.tally && p in Step(s, op).0.pools && p in Step(s, op).0.tally
    ensures Committed(Step(s, op).0, p) == Max(Committed(s, p), Demand(Step(s, op).0, p))
  {
    DemandWithin(s, p);
    StepCommits(s, op, p);
    StepKeepsInv(s, op);
    DemandWithin(Step(s, op).0, p);
    if Misses(s, op, p) {
      MissMeetsDemand(s, op.task, p);
      MissIsPop(s, op, p);
    }
  }

  /** The largest demand at any moment of a run. */
  ghost function PeakDemand(s: State, ops: seq<Op>, p: PoolId): int
    requires Inv(s) && p in s.pools && p in s.tally
    decreases |ops|
  {
    if ops == [] then Demand(s, p)
    else
      StepKeepsInv(s, ops[0]);
      StepCommitsToDemand(s, ops[0], p);
      Max(Demand(s, p), PeakDemand(Step(s, ops[0]).0, ops[1..], p))
  }

  /** MINIMAL GROWTH: over every run, what a pool has created, is creating or failed to create is
      the larger of what it started with and its peak demand. */
  lemma {:induction false} GrowthIsMinimal(s: State, ops: seq<Op>, p: PoolId)
    requires Inv(s) && p in s.pools && p in s.tally
    ensures p in Exec(s, ops).pools && p in Exec(s, ops).tally
    ensures Committed(Exec(s, ops), p) == Max(Committed(s, p), PeakDemand(s, ops, p))
    decreases |ops|
  {
    DemandWithin(s, p);
    if ops != [] {
      var s1 := Step(s, ops[0]).0;
      StepKeepsInv(s, ops[0]);
      StepCommitsToDemand(s, ops[0], p);
      GrowthIsMinimal(s1, ops[1..], p);
      PeakAtLeast(s1, ops[1..], p);
    }
  }

  lemma PeakAtLeast(s: State, ops: seq<Op>, p: PoolId)
    requires Inv(s) && p in s.pools && p in s.tally
    ensures PeakDemand(s, ops, p) >= Demand(s, p)
  {
  }

  // ---------- the block limit ----------

  lemma MissLeavesNone(s: State, p: PoolId)
    requires Inv(s) && p in s.pools && p in s.tally && s.pools[p].freePtr == NULL
    ensures Committed(s, p) == Demand(s, p)
  {
    var l :| InvWith(s, l);
    DemandMet(s, l, p);
    assert ChainOk(s.mem, l.cells, p, s.pools[p], l.chain[p]);
  }

  lemma MissWithinLimit(s: State, t: TaskId, p: PoolId)
    requires Inv(s) && p in s.pools && p in s.tally && s.pools[p].Limited()
    requires t in s.phase && s.phase[t] == Counted(p) && s.pools[p].freePtr == NULL
    ensures Committed(s, p) + 1 <= s.pools[p].qtyMax + |LeavingIds(s.grants, p)|
  {
    MissLeavesNone(s, p);
    CountersOf(s, p);
    WaitsBesideGrowers(s.phase, t, p);
  }

  lemma WaitsBesideGrowers(phase: map<TaskId, Phase>, t: TaskId, p: PoolId)
    requires t in phase && phase[t] == Counted(p)
    ensures |Growers(phase, p)| + 1 <= |Waiting(phase, p)|
  {
    SubsetSize(Growers(phase, p) + {t}, Waiting(phase, p));
  }

  /** The largest number of blocks on their way back to `p` when a request finds its list empty. */
  ghost function LeavingAtMiss(s: State, ops: seq<Op>, p: PoolId): (r: nat)
    decreases |ops|
  {
    if ops == [] then 0
    else
      Max(if Misses(s, ops[0], p) then |LeavingIds(s.grants, p)| else 0,
          LeavingAtMiss(Step(s, ops[0]).0, ops[1..], p))
  }

  lemma StepWithinLimit(s: State, op: Op, p: PoolId)
    requires Inv(s) && p in s.pools && p in s.tally && s.pools[p].Limited()
    ensures Raises(s, Step(s, op).0, p, if Misses(s, op, p) then 1 else 0)
    ensures Misses(s, op, p) ==>
              Committed(Step(s, op).0, p) <= s.pools[p].qtyMax + |LeavingIds(s.grants, p)|
  {
    StepCommits(s, op, p);
    if Misses(s, op, p) {
      MissWithinLimit(s, op.task, p);
    }
  }

  lemma LimitStep(s: State, op: Op, p: PoolId, bound: int)
    requires Inv(s) && p in s.pools && p in s.tally && s.pools[p].Limited() && Committed(s, p) <= bound
    requires Misses(s, op, p) ==> s.pools[p].qtyMax + |LeavingIds(s.grants, p)| <= bound
    ensures var s1 := Step(s, op).0;
            && Inv(s1) && p in s1.pools && p in s1.tally && s1.pools[p].qtyMax == s.pools[p].qtyMax
            && Committed(s1, p) <= bound
  {
    StepKeepsInv(s, op);
    StepWithinLimit(s, op, p);
  }

  lemma {:induction false} LimitRun(s: State, ops: seq<Op>, p: PoolId, bound: int)
    requires Inv(s) && p in s.pools && p in s.tally && s.pools[p].Limited()
    requires Committed(s, p) <= bound && s.pools[p].qtyMax + LeavingAtMiss(s, ops, p) <= bound
    ensures p in Exec(s, ops).tally && Committed(Exec(s, ops), p) <= bound
    decreases |ops|
  {
    if ops != [] {
      LimitStep(s, ops[0], p, bound);
      LimitRun(Step(s, ops[0]).0, ops[1..], p, bound);
    }
  }

  /** LIMIT: over every run a limited pool creates at most BlkQtyMax blocks more than were on their
      way back while a request found the free list empty. When no request overlaps a Free of the
      same pool, as in every sequential run, that is at most BlkQtyMax blocks. */
  lemma {:induction false} CreatedWithinLimit(s: State, ops: seq<Op>, p: PoolId)
    requires Inv(s) && p in s.pools && p in s.tally && s.pools[p].Limited()
    ensures p in Exec(s, ops).tally
    ensures Exec(s, ops).tally[p].created
            <= Max(Committed(s, p), s.pools[p].qtyMax + LeavingAtMiss(s, ops, p))
  {
    WithinBound(s, ops, p, Max(Committed(s, p), s.pools[p].qtyMax + LeavingAtMiss(s, ops, p)));
  }

  lemma {:induction false} WithinBound(s: State, ops: seq<Op>, p: PoolId, bound: int)
    requires Inv(s) && p in s.pools && p in s.tally && s.pools[p].Limited()
    requires Committed(s, p) <= bound && s.pools[p].qtyMax + LeavingAtMiss(s, ops, p) <= bound
    ensures p in Exec(s, ops).tally && Exec(s, ops).tally[p].created <= bound
  {
    LimitRun(s, ops, p, bound);
    CreatedBelow(Exec(s, ops), p, bound);
  }

  lemma CreatedPool(s: State, op: Op)
    requires op.PoolCreate? && Legal(s, op) && Step(s, op).1 == Done
    ensures var s0 := Step(s, op).0;
            && op.pool in s0.pools && op.pool in s0.tally && s0.phase == s.phase
            && s0.tally[op.pool] == Tally(op.qtyInit, 0) && s0.pools[op.pool].qtyMax == op.qtyMax
            && (op.qtyMax != QTY_UNLIMITED ==> op.qtyInit <= op.qtyMax)
  {
    assert Step(s, op) == DoPoolCreate(s, op);
  }

  /** Nobody is waiting for a pool that is about to be created. */
  lemma NobodyGrows(s: State, p: PoolId)
    requires Inv(s) && p !in s.pools
    ensures Growers(s.phase, p) == {}
  {
    var l :| InvWith(s, l);
    NobodyGrowsIn(s.phase, s.grants, s.pools, p);
  }

  lemma NobodyGrowsIn(phase: map<TaskId, Phase>, grants: map<GrantId, Grant>, pools: map<PoolId, Pool>, p: PoolId)
    requires PhasesOk(phase, grants, pools) && p !in pools
    ensures Growers(phase, p) == {}
  {
    forall t | t in phase
      ensures phase[t] != Growing(p)
    {
    }
  }

  /** LIMIT, from a pool's creation: over every run a limited pool creates at most blk_qty_max blocks
      more than were on their way back while a request found the free list empty. */
  lemma {:induction false} CreatedSinceFounding(s: State, op: Op, ops: seq<Op>)
    requires Inv(s) && op.PoolCreate? && Legal(s, op) && Step(s, op).1 == Done && op.qtyMax != QTY_UNLIMITED
    ensures var s0 := Step(s, op).0;
            && op.pool in Exec(s0, ops).tally
            && Exec(s0, ops).tally[op.pool].created <= op.qtyMax + LeavingAtMiss(s0, ops, op.pool)
  {
    StepKeepsInv(s, op);
    CreatedPool(s, op);
    NobodyGrows(s, op.pool);
    CreatedFrom(Step(s, op).0, ops, op.pool, op.qtyInit, op.qtyMax);
  }

  /** From a state in which the pool has its first blocks and nothing else. */
  lemma {:induction false} CreatedFrom(s: State, ops: seq<Op>, p: PoolId, first: nat, limit: nat)
    requires Inv(s) && p in s.pools && p in s.tally && s.pools[p].qtyMax == limit != QTY_UNLIMITED
    requires s.tally[p] == Tally(first, 0) && first <= limit && Growers(s.phase, p) == {}
    ensures p in Exec(s, ops).tally && Exec(s, ops).tally[p].created <= limit + LeavingAtMiss(s, ops, p)
  {
    assert Committed(s, p) == first;
    WithinBound(s, ops, p, limit + LeavingAtMiss(s, ops, p));
  }

  lemma CreatedBelow(s: State, p: PoolId, bound: int)
    requires p in s.tally && Committed(s, p) <= bound
    ensures s.tally[p].created <= bound
  {
  }

  /** Exactly when one request takes a pool past its limit: it finds the list empty while more blocks
      are between the two critical sections of Free than there are unreserved places and other
      requests counted but not yet looking. */
  lemma MissExceedsIff(s: State, t: TaskId, p: PoolId)
    requires Inv(s) && p in s.pools && p in s.tally && s.pools[p].Limited() && Misses(s, GetPop(t), p)
    ensures p in Step(s, GetPop(t)).0.tally
    ensures Committed(Step(s, GetPop(t)).0, p) > s.pools[p].qtyMax <==>
              |LeavingIds(s.grants, p)|
              > (s.pools[p].qtyMax - s.pools[p].allocCnt) + (|Waiting(s.phase, p)| - |Growers(s.phase, p)| - 1)
  {
    StepCommits(s, GetPop(t), p);
    MissLeavesNone(s, p);
    CountersOf(s, p);
  }

  /** The step takes pool `p` past its limit, by the condition of MissExceedsIff. */
  ghost predicate Overcommits(s: State, op: Op, p: PoolId) {
    && Misses(s, op, p) && s.pools[p].Limited()
    && |LeavingIds(s.grants, p)|
       > (s.pools[p].qtyMax - s.pools[p].allocCnt) + (|Waiting(s.phase, p)| - |Growers(s.phase, p)| - 1)
  }

  ghost predicate NeverOvercommits(s: State, ops: seq<Op>, p: PoolId)
    decreases |ops|
  {
    ops == [] || (!Overcommits(s, ops[0], p) && NeverOvercommits(Step(s, ops[0]).0, ops[1..], p))
  }

  /** Committed blocks never become fewer. */
  lemma {:induction false} CommittedGrows(s: State, ops: seq<Op>, p: PoolId)
    requires p in s.pools && p in s.tally
    ensures p in Exec(s, ops).pools && p in Exec(s, ops).tally
    ensures Committed(Exec(s, ops), p) >= Committed(s, p)
    decreases |ops|
  {
    if ops != [] {
      StepCommits(s, ops[0], p);
      CommittedGrows(Step(s, ops[0]).0, ops[1..], p);
    }
  }

  /** One step from within the limit leaves it exactly when it overcommits. */
  lemma OvercommitsIff(s: State, op: Op, p: PoolId)
    requires Inv(s) && p in s.pools && p in s.tally && s.pools[p].Limited()
    requires Committed(s, p) <= s.pools[p].qtyMax
    ensures Raises(s, Step(s, op).0, p, if Misses(s, op, p) then 1 else 0)
    ensures Overcommits(s, op, p) <==> Committed(Step(s, op).0, p) > s.pools[p].qtyMax
  {
    StepCommits(s, op, p);
    if Misses(s, op, p) {
      MissExceedsIff(s, op.task, p);
    }
  }

  /** Exactly which runs keep a pool within its limit: those in which no request finds the free list
      empty while more blocks are half way through Free than MissExceedsIff allows. */
  lemma {:induction false} LimitKeptIff(s: State, ops: seq<Op>, p: PoolId)
    requires Inv(s) && p in s.pools && p in s.tally && s.pools[p].Limited()
    requires Committed(s, p) <= s.pools[p].qtyMax
    ensures p in Exec(s, ops).tally
    ensures Committed(Exec(s, ops), p) <= s.pools[p].qtyMax <==> NeverOvercommits(s, ops, p)
    decreases |ops|
  {
    if ops != [] {
      var s1 := Step(s, ops[0]).0;
      OvercommitsIff(s, ops[0], p);
      StepKeepsInv(s, ops[0]);
      if Overcommits(s, ops[0], p) {
        CommittedGrows(s1, ops[1..], p);
      } else {
        LimitKeptIff(s1, ops[1..], p);
      }
    }
  }

  /** When no growth has failed and none is under way, that is a statement about the blocks created. */
  lemma {:induction false} CreatedKeptIff(s: State, ops: seq<Op>, p: PoolId)
    requires Inv(s) && p in s.pools && p in s.tally && s.pools[p].Limited()
    requires Committed(s, p) <= s.pools[p].qtyMax
    ensures var s' := Exec(s, ops);
            && p in s'.tally
            && (s'.tally[p].failed == 0 && Growers(s'.phase, p) == {} ==>
                  (s'.tally[p].created <= s.pools[p].qtyMax <==> NeverOvercommits(s, ops, p)))
  {
    LimitKeptIff(s, ops, p);
  }

  // ---------- failed growths ----------

  /** The tally of a pool never forgets a failed growth. */
  ghost predicate KeepsFailures(s: State, s': State, p: PoolId) {
    p in s.pools && p in s.tally ==> p in s'.pools && p in s'.tally && s.tally[p].failed <= s'.tally[p].failed
  }

  lemma GrowKeepsFailures(s: State, t: TaskId, q: PoolId, p: PoolId, seg': Seg, r: AllocResult)
    requires q in s.pools && q in s.tally
    ensures KeepsFailures(s, Grown(s, t, q, seg', r).0, p)
  {
  }

  lemma CreateKeepsFailures(s: State, op: Op, p: PoolId)
    requires op.PoolCreate? && op.pool !in s.pools && op.seg in s.segs && s.segs[op.seg].pad > 0
    ensures KeepsFailures(s, DoPoolCreate(s, op).0, p)
  {
  }

  lemma StepKeepsFailures(s: State, op: Op, p: PoolId)
    ensures KeepsFailures(s, Step(s, op).0, p)
  {
    if Legal(s, op) {
      match op
      case PoolCreate(_, _, _, _, _, _, _) => CreateKeepsFailures(s, op, p);
      case GetGrow(t) =>
        var pool := s.pools[s.phase[t].pool];
        var (seg', r) := AllocInternal(s.segs[pool.seg], pool.blkSize, pool.blkAlign, pool.padding);
        GrowKeepsFailures(s, t, s.phase[t].pool, p, seg', r);
      case _ =>
    }
  }

  /** A request is refused exactly when blocks held, requests under way and failed growths use up
      the limit. */
  lemma RefusedIff(s: State, t: TaskId, p: PoolId)
    requires Inv(s) && p in s.pools && p in s.tally && s.pools[p].Limited() && t !in s.phase
    ensures Step(s, GetCount(t, p)).1 == PoolEmpty
            <==> |HeldIds(s.grants, p)| + |Waiting(s.phase, p)| + s.tally[p].failed >= s.pools[p].qtyMax
  {
    CountersOf(s, p);
  }

  /** Failed growths alone have used up the limit. */
  ghost predicate Drained(s: State, p: PoolId) {
    p in s.pools && p in s.tally && s.pools[p].Limited() && s.tally[p].failed >= s.pools[p].qtyMax
  }

  lemma {:induction false} DrainedStays(s: State, ops: seq<Op>, p: PoolId)
    requires Inv(s) && Drained(s, p)
    ensures Inv(Exec(s, ops)) && Drained(Exec(s, ops), p)
    decreases |ops|
  {
    if ops != [] {
      StepKeepsInv(s, ops[0]);
      StepKeepsFailures(s, ops[0], p);
      StepCommits(s, ops[0], p);
      DrainedStays(Step(s, ops[0]).0, ops[1..], p);
    }
  }

  /** A drained pool refuses every request for ever, though its application holds no block. */
  lemma {:induction false} FailedGrowthsDrainPool(s: State, ops: seq<Op>, p: PoolId, t: TaskId)
    requires Inv(s) && Drained(s, p)
    ensures var s' := Exec(s, ops);
            && Drained(s', p) && HeldIds(s'.grants, p) == {}
            && (t !in s'.phase ==> Step(s', GetCount(t, p)) == (s', PoolEmpty))
  {
    DrainedStays(s, ops, p);
    DrainedRefuses(Exec(s, ops), p, t);
  }

  lemma DrainedRefuses(s: State, p: PoolId, t: TaskId)
    requires Inv(s) && Drained(s, p)
    ensures HeldIds(s.grants, p) == {} && (t !in s.phase ==> Step(s, GetCount(t, p)) == (s, PoolEmpty))
  {
    CountersOf(s, p);
    assert |HeldIds(s.grants, p)| == 0;
  }

  ghost predicate RefusesForever(s: State, p: PoolId) {
    forall ops, t :: t !in Exec(s, ops).phase ==> Step(Exec(s, ops), GetCount(t, p)).1 == PoolEmpty
  }

  lemma FreshTask(phase: map<TaskId, Phase>) returns (t: TaskId)
    ensures t !in phase
  {
    t := Above(phase.Keys);
  }

  lemma {:induction false} Serves(s: State, ops: seq<Op>, s': State, t: TaskId, p: PoolId)
    requires Exec(s, ops) == s' && t !in s'.phase && Step(s', GetCount(t, p)).1 == Continue
    ensures !RefusesForever(s, p)
  {
  }

  lemma ExecOne(s: State, op: Op)
    ensures Exec(s, [op]) == Step(s, op).0
  {
    assert [op][1..] == [];
    assert Exec(Step(s, op).0, []) == Step(s, op).0;
  }

  lemma ServesNow(s: State, p: PoolId)
    requires p in s.pools && !s.pools[p].Exhausted()
    ensures !RefusesForever(s, p)
  {
    var t := FreshTask(s.phase);
    assert Step(s, GetCount(t, p)) == DoGetCount(s, t, p);
    Serves(s, [], s, t, p);
  }

  lemma ServesAfterFree(s: State, p: PoolId, id: GrantId)
    requires Inv(s) && p in s.pools && p in s.tally && s.pools[p].Limited() && id in HeldIds(s.grants, p)
    ensures !RefusesForever(s, p)
  {
    var t := FreshTask(s.phase);
    CountersOf(s, p);
    OwnerFreeNeverFull(s, t, id);
    var s1 := Step(s, FreeCount(t, id)).0;
    var u := FreshTask(s1.phase);
    ServedAfterFree(s, t, id, p, u);
    ExecOne(s, FreeCount(t, id));
    Serves(s, [FreeCount(t, id)], s1, u, p);
  }

  /** With no request under way, a pool that is not drained serves one now or after one Free. */
  lemma NotDrainedServes(s: State, p: PoolId)
    requires Inv(s) && p in s.pools && p in s.tally && s.pools[p].Limited()
    requires Waiting(s.phase, p) == {} && !Drained(s, p)
    ensures !RefusesForever(s, p)
  {
    CountersOf(s, p);
    if s.pools[p].Exhausted() {
      var id := Some(HeldIds(s.grants, p));
      ServesAfterFree(s, p, id);
    } else {
      ServesNow(s, p);
    }
  }

  lemma ServedAfterFree(s: State, t: TaskId, id: GrantId, p: PoolId, u: TaskId)
    requires Legal(s, FreeCount(t, id)) && s.grants[id].use == Held(p) && s.pools[p].Limited()
    requires Step(s, FreeCount(t, id)).1 == Continue && u !in Step(s, FreeCount(t, id)).0.phase
    requires s.pools[p].allocCnt <= s.pools[p].qtyMax
    ensures Step(Step(s, FreeCount(t, id)).0, GetCount(u, p)).1 == Continue
  {
    var s1 := DoFreeCount(s, t, id).0;
    assert Step(s, FreeCount(t, id)).0 == s1;
    assert !s1.pools[p].Exhausted();
  }

  /** FOR GOOD: with no request under way, a limited pool refuses every later request of every run
      if and only if its failed growths have reached the limit. */
  lemma DrainedForGoodIff(s: State, p: PoolId)
    requires Inv(s) && p in s.pools && p in s.tally && s.pools[p].Limited() && Waiting(s.phase, p) == {}
    ensures RefusesForever(s, p) <==> Drained(s, p)
  {
    if Drained(s, p) {
      forall ops, t | t !in Exec(s, ops).phase
        ensures Step(Exec(s, ops), GetCount(t, p)).1 == PoolEmpty
      {
        FailedGrowthsDrainPool(s, ops, p, t);
      }
    } else {
      NotDrainedServes(s, p);
    }
  }

  lemma CountersOf(s: State, p: PoolId)
    requires Inv(s) && p in s.pools && p in s.tally && s.pools[p].Limited()
    ensures s.pools[p].allocCnt == |HeldIds(s.grants, p)| + |Waiting(s.phase, p)| + s.tally[p].failed
    ensures s.pools[p].allocCnt <= s.pools[p].qtyMax
  {
    InvSafe(s);
  }

  lemma PushStep(s: State, t: TaskId, p: PoolId)
    requires Inv(s) && Legal(s, FreePush(t)) && s.grants[s.phase[t].grant].use.pool == p
    ensures var a, s1 := s.grants[s.phase[t].grant].base, Step(s, FreePush(t)).0;
            && a != NULL && s1.phase == s.phase - {t} && p in s1.pools
            && s1.pools[p] == s.pools[p].(freePtr := a)
  {
    InvSafe(s);
  }

  lemma GetSteps(s: State, u: TaskId, p: PoolId)
    requires p in s.pools && u !in s.phase && !s.pools[p].Exhausted() && s.pools[p].freePtr != NULL
    ensures Step(Step(s, GetCount(u, p)).0, GetPop(u)).1 == Block(s.pools[p].freePtr)
  {
    var s1 := DoGetCount(s, u, p).0;
    assert Step(s, GetCount(u, p)).0 == s1;
    assert s1.phase[u] == Counted(p) && s1.pools[p].freePtr == s.pools[p].freePtr;
  }

  /** LIFO: the block a Free links back is the one the next Get returns. */
  lemma FreeThenGet(s: State, t: TaskId, u: TaskId, p: PoolId)
    requires Inv(s) && Legal(s, FreePush(t)) && s.grants[s.phase[t].grant].use.pool == p
    requires (u !in s.phase || u == t) && !s.pools[p].Exhausted()
    ensures var s1 := Step(s, FreePush(t)).0;
            Step(Step(s1, GetCount(u, p)).0, GetPop(u)).1 == Block(s.grants[s.phase[t].grant].base)
  {
    PushStep(s, t, p);
    GetSteps(Step(s, FreePush(t)).0, u, p);
  }

  /** A task inside a call can always take its next step; growing must not be granted on a wrapped size. */
  lemma CallsNeverStuck(s: State, t: TaskId)
    requires Inv(s) && t in s.phase
    ensures s.phase[t].Counted? ==> Legal(s, GetPop(t))
    ensures s.phase[t].Releasing? ==> Legal(s, FreePush(t))
    ensures s.phase[t].Growing? ==>
              && s.phase[t].pool in s.pools
              && var pool := s.pools[s.phase[t].pool];
              (Legal(s, GetGrow(t)) <==> SoundIn(s, pool.seg, pool.blkSize, pool.blkAlign, pool.padding))
  {
    var l :| InvWith(s, l);
    if s.phase[t].Growing? {
      assert CountsOk(s, l.chain);
      Pow2Divides(s.pools[s.phase[t].pool].padding, s.pools[s.phase[t].pool].padding);
    }
    if s.phase[t].Releasing? {
      var id := s.phase[t].grant;
      assert GrantOk(s.pools, l.cells, id, s.grants[id]);
    }
  }

  // ---------- over every run from the empty manager ----------

  lemma {:induction false} Reachable(ops: seq<Op>)
    ensures Inv(Exec(EMPTY, ops))
  {
    InitKeeps();
    RunKeepsInv(EMPTY, ops);
  }

  /** In every run an owner's Free succeeds. */
  lemma {:induction false} EveryRunFrees(ops: seq<Op>, t: TaskId, id: GrantId)
    ensures var s := Exec(EMPTY, ops);
            Legal(s, FreeCount(t, id)) ==> Step(s, FreeCount(t, id)).1 == Continue
  {
    Reachable(ops);
    var s := Exec(EMPTY, ops);
    if Legal(s, FreeCount(t, id)) {
      OwnerFreeNeverFull(s, t, id);
    }
  }

  /** Byte `x` belongs to grant `i`. */
  ghost predicate Owns(s: State, i: GrantId, x: nat) {
    i in s.grants && s.grants[i].base <= x < s.grants[i].base + s.grants[i].size
  }

  /** In every run padded lines have one owner. */
  lemma {:induction false} EveryRunIsolates(ops: seq<Op>, i: GrantId, j: GrantId, x: nat, y: nat)
    ensures var s := Exec(EMPTY, ops);
            Owns(s, i, x) && Owns(s, j, y) && i != j ==>
              s.grants[i].padding > 0 && x / s.grants[i].padding != y / s.grants[i].padding
  {
    Reachable(ops);
    var s := Exec(EMPTY, ops);
    if Owns(s, i, x) && Owns(s, j, y) && i != j {
      LinesIsolated(s, i, j, x, y);
    }
  }

  /** The same between a grant and a free block, in every run. */
  lemma {:induction false} EveryRunIsolatesFree(ops: seq<Op>, i: GrantId, x: nat, p: PoolId, c: seq<nat>, k: nat,
                                                y: nat)
    ensures var s := Exec(EMPTY, ops);
            Owns(s, i, x) && FreeByte(s, p, c, k, y) ==>
              && s.grants[i].padding > 0 && x / s.grants[i].padding != y / s.grants[i].padding
              && s.pools[p].padding > 0 && x / s.pools[p].padding != y / s.pools[p].padding
  {
    Reachable(ops);
    var s := Exec(EMPTY, ops);
    if Owns(s, i, x) && FreeByte(s, p, c, k, y) {
      FreeLinesIsolated(s, i, x, p, c, k, y);
    }
  }
}
