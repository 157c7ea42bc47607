/** What every run of the memory manager guarantees. */
module MemTheorems {
  import opened Arith
  import opened Machine
  import opened Segment
  import opened PtrMem
  import opened DynPoolCore
  import opened MemSystem
  import opened MemInvariant
  import opened MemSteps
  import Registry

  /** INVARIANCE: one critical section of any task, from any state that satisfies the invariant. */
  lemma StepKeepsInv(s: State, op: Op)
    requires Inv(s)
    ensures Inv(Step(s, op).0)
  {
    if Legal(s, op) {
      var l :| InvWith(s, l);
      var l' := StepKeeps(s, l, op);
    }
  }

  lemma StepKeeps(s: State, l: Ledger, op: Op) returns (l': Ledger)
    requires InvWith(s, l) && Legal(s, op)
    ensures InvWith(Step(s, op).0, l')
  {
    l' := l;
    match op
    case SegCreate(_, _, _, _) => SegCreateKeeps(s, l, op);
    case SegAlloc(_, _, _) => l' := SegAllocKeeps(s, l, op);
    case PoolCreate(_, _, _, _, _, _, _) => l' := PoolCreateKeeps(s, l, op);
    case GetCount(t, p) => GetCountKeeps(s, l, t, p);
    case GetPop(t) => l' := GetPopKeeps(s, l, t, s.phase[t].pool);
    case GetGrow(t) => l' := GetGrowKeeps(s, l, t, s.phase[t].pool);
    case FreeCount(t, id) => FreeCountKeeps(s, l, t, id);
    case FreePush(t) => l' := FreePushKeeps(s, l, t, s.phase[t].grant);
    case OwnerStore(id, a, v) => OwnerStoreKeeps(s, l, id, a, v);
  }

  ghost predicate Inductive(inv: State -> bool) {
    forall s, op :: inv(s) ==> inv(Step(s, op).0)
  }

  lemma {:induction false} RunInduction(inv: State -> bool, s: State, ops: seq<Op>)
    requires Inductive(inv) && inv(s)
    ensures inv(Exec(s, ops))
    decreases |ops|
  {
    if ops != [] {
      RunInduction(inv, Step(s, ops[0]).0, ops[1..]);
    }
  }

  lemma InvIsInductive()
    ensures Inductive(Inv)
  {
    forall s, op | Inv(s)
      ensures Inv(Step(s, op).0)
    {
      StepKeepsInv(s, op);
    }
  }

  lemma {:induction false} RunKeepsInv(s: State, ops: seq<Op>)
    requires Inv(s)
    ensures Inv(Exec(s, ops))
  {
    InvIsInductive();
    RunInduction(Inv, s, ops);
  }

  // ---------- what the invariant means ----------

  ghost predicate SegmentsDisjoint(s: State) {
    forall g, h :: g in s.segs && h in s.segs && g != h ==>
      s.segs[g].end < s.segs[h].base || s.segs[h].end < s.segs[g].base
  }

  /** Any two grants in force, of any segments and pools, have disjoint padded footprints. */
  ghost predicate GrantsDisjoint(s: State) {
    && (forall i :: i in s.grants ==> s.grants[i].padding > 0)
    && (forall i, j :: i in s.grants && j in s.grants && i != j ==>
          s.grants[i].Foot() <= s.grants[j].base || s.grants[j].Foot() <= s.grants[i].base)
  }

  ghost predicate GrantsPlaced(s: State) {
    forall i :: i in s.grants ==>
      var g := s.grants[i];
      && (!g.use.Raw? ==> g.base != NULL) && g.align > 0 && g.padding > 0
      && g.base % g.align == 0 && g.base % g.padding == 0
      && exists h :: h in s.segs && s.segs[h].base <= g.base && g.Foot() <= s.segs[h].Limit()
  }

  /** Free blocks start a line of their pool's padding; `FreeFoot` is where the last one ends. */
  function FreeFoot(pool: Pool, a: nat): nat
    requires pool.padding > 0
  {
    RoundUp(a + pool.blkSize, pool.padding)
  }

  /** The free list of `p`, read from memory, is finite and without repetition, and the padded
      footprints of its blocks meet no grant in force. */
  ghost predicate FreeListSound(s: State, p: PoolId, c: seq<nat>)
    requires p in s.pools
  {
    && Chain(s.mem, s.pools[p].freePtr, c) && NoDup(c) && s.pools[p].padding > 0
    && (forall k :: 0 <= k < |c| ==> c[k] % s.pools[p].padding == 0)
    && (forall k, i :: 0 <= k < |c| && i in s.grants && s.grants[i].padding > 0 ==>
          FreeFoot(s.pools[p], c[k]) <= s.grants[i].base || s.grants[i].Foot() <= c[k])
  }

  /** The padded footprints of free blocks of two pools do not meet. */
  ghost predicate FreeListsApart(s: State, p: PoolId, c: seq<nat>, q: PoolId, d: seq<nat>)
    requires p in s.pools && q in s.pools
  {
    && s.pools[p].padding > 0 && s.pools[q].padding > 0
    && forall k, m :: 0 <= k < |c| && 0 <= m < |d| ==>
         FreeFoot(s.pools[p], c[k]) <= d[m] || FreeFoot(s.pools[q], d[m]) <= c[k]
  }

  ghost predicate FreeListsAre(s: State, chain: map<PoolId, seq<nat>>) {
    && (forall p :: p in s.pools ==> p in chain && FreeListSound(s, p, chain[p]))
    && (forall p, q :: p in s.pools && q in s.pools && p != q ==>
          p in chain && q in chain && FreeListsApart(s, p, chain[p], q, chain[q]))
  }

  ghost predicate FreeListsSound(s: State) {
    exists chain :: FreeListsAre(s, chain)
  }

  /** For a limited pool the counter is exactly the blocks held, the requests under way and the
      growths that failed, and stays within the limit. */
  ghost predicate CountersSound(s: State) {
    forall p :: p in s.pools && s.pools[p].Limited() ==>
      && p in s.tally
      && s.pools[p].allocCnt == |HeldIds(s.grants, p)| + |Waiting(s.phase, p)| + s.tally[p].failed
      && |HeldIds(s.grants, p)| <= s.pools[p].allocCnt <= s.pools[p].qtyMax
  }

  ghost predicate Safe(s: State) {
    SegmentsDisjoint(s) && GrantsDisjoint(s) && GrantsPlaced(s) && FreeListsSound(s) && CountersSound(s)
  }

  lemma FootInCell(pools: map<PoolId, Pool>, cells: Cells, i: GrantId, g: Grant)
    requires GrantOk(pools, cells, i, g) && ShapesOk(cells)
    ensures g.padding > 0 && g.base + g.size <= g.Foot() <= cells[g.base].end
  {
    assert Placed(g.base, cells[g.base].end, GrantShape(g));
  }

  lemma FootOf(s: State, l: Ledger, i: GrantId)
    requires InvWith(s, l) && i in s.grants
    ensures s.grants[i].padding > 0 && s.grants[i].base in l.cells
    ensures l.cells[s.grants[i].base].owner == Out(i)
    ensures s.grants[i].Foot() <= l.cells[s.grants[i].base].end
    ensures s.grants[i].base + s.grants[i].size <= s.grants[i].Foot()
  {
    FootInCell(s.pools, l.cells, i, s.grants[i]);
  }

  /** The padded footprint of a free block is in its cell. */
  lemma FreeInCell(segs: map<SegId, Seg>, cells: Cells, p: PoolId, pool: Pool, c: seq<nat>, k: nat)
    requires CellsOk(segs, cells) && ShapesOk(cells) && FreeCells(cells, p, PoolShape(pool), c) && k < |c|
    ensures pool.padding > 0 && c[k] % pool.padding == 0
    ensures c[k] in cells && cells[c[k]].owner == OnChain(p) && FreeFoot(pool, c[k]) <= cells[c[k]].end
  {
    assert Placed(c[k], cells[c[k]].end, PoolShape(pool));
  }

  lemma InvGrantsDisjoint(s: State, l: Ledger)
    requires InvWith(s, l)
    ensures GrantsDisjoint(s)
  {
    forall i | i in s.grants
      ensures s.grants[i].padding > 0
    {
      FootOf(s, l, i);
    }
    forall i, j | i in s.grants && j in s.grants && i != j
      ensures s.grants[i].Foot() <= s.grants[j].base || s.grants[j].Foot() <= s.grants[i].base
    {
      FootOf(s, l, i);
      FootOf(s, l, j);
      assert s.grants[i].base != s.grants[j].base;
    }
  }

  lemma InvGrantsPlaced(s: State, l: Ledger)
    requires InvWith(s, l)
    ensures GrantsPlaced(s)
  {
    forall i | i in s.grants
      ensures var g := s.grants[i];
              && (!g.use.Raw? ==> g.base != NULL) && g.align > 0 && g.padding > 0
              && g.base % g.align == 0 && g.base % g.padding == 0
              && exists h :: h in s.segs && s.segs[h].base <= g.base && g.Foot() <= s.segs[h].Limit()
    {
      FootOf(s, l, i);
      var g := s.grants[i];
      var c := l.cells[g.base];
      assert Placed(g.base, c.end, c.shape);
      assert c.seg in s.segs && s.segs[c.seg].Wf();
      assert GrantOk(s.pools, l.cells, i, g);
    }
  }

  /** A free block and a granted one are in different cells. */
  lemma FreeAndGranted(segs: map<SegId, Seg>, cells: Cells, pools: map<PoolId, Pool>, p: PoolId, pool: Pool,
                       c: seq<nat>, k: nat, i: GrantId, g: Grant)
    requires CellsOk(segs, cells) && ShapesOk(cells) && GrantOk(pools, cells, i, g)
    requires FreeCells(cells, p, PoolShape(pool), c) && k < |c|
    ensures pool.padding > 0 && g.padding > 0 && (FreeFoot(pool, c[k]) <= g.base || g.Foot() <= c[k])
  {
    FreeInCell(segs, cells, p, pool, c, k);
    FootInCell(pools, cells, i, g);
  }

  lemma PoolPadding(s: State, p: PoolId)
    requires PoolsOk(Homes(s.segs), s.pools) && p in s.pools
    ensures s.pools[p].padding > 0
  {
    Pow2Divides(s.pools[p].padding, s.pools[p].padding);
  }

  lemma InvFreeListSound(s: State, l: Ledger, p: PoolId)
    requires InvWith(s, l) && p in s.pools
    ensures p in l.chain && FreeListSound(s, p, l.chain[p])
  {
    var c := l.chain[p];
    assert ChainOk(s.mem, l.cells, p, s.pools[p], c);
    PoolPadding(s, p);
    forall k | 0 <= k < |c|
      ensures c[k] % s.pools[p].padding == 0
    {
      FreeInCell(s.segs, l.cells, p, s.pools[p], c, k);
    }
    forall k, i | 0 <= k < |c| && i in s.grants && s.grants[i].padding > 0
      ensures FreeFoot(s.pools[p], c[k]) <= s.grants[i].base || s.grants[i].Foot() <= c[k]
    {
      FreeAndGranted(s.segs, l.cells, s.pools, p, s.pools[p], c, k, i, s.grants[i]);
    }
  }

  lemma ChainsApart(segs: map<SegId, Seg>, cells: Cells, p: PoolId, pp: Pool, c: seq<nat>, q: PoolId, qq: Pool,
                    d: seq<nat>)
    requires CellsOk(segs, cells) && ShapesOk(cells) && p != q && pp.padding > 0 && qq.padding > 0
    requires FreeCells(cells, p, PoolShape(pp), c) && FreeCells(cells, q, PoolShape(qq), d)
    ensures forall k, m :: 0 <= k < |c| && 0 <= m < |d| ==>
              FreeFoot(pp, c[k]) <= d[m] || FreeFoot(qq, d[m]) <= c[k]
  {
    forall k, m | 0 <= k < |c| && 0 <= m < |d|
      ensures FreeFoot(pp, c[k]) <= d[m] || FreeFoot(qq, d[m]) <= c[k]
    {
      FreeInCell(segs, cells, p, pp, c, k);
      FreeInCell(segs, cells, q, qq, d, m);
    }
  }

  lemma InvFreeListsApart(s: State, l: Ledger, p: PoolId, q: PoolId)
    requires InvWith(s, l) && p in s.pools && q in s.pools && p != q
    ensures p in l.chain && q in l.chain && FreeListsApart(s, p, l.chain[p], q, l.chain[q])
  {
    PoolPadding(s, p);
    PoolPadding(s, q);
    ChainsApart(s.segs, l.cells, p, s.pools[p], l.chain[p], q, s.pools[q], l.chain[q]);
  }

  lemma InvFreeLists(s: State, l: Ledger)
    requires InvWith(s, l)
    ensures FreeListsSound(s)
  {
    forall p | p in s.pools
      ensures p in l.chain && FreeListSound(s, p, l.chain[p])
    {
      InvFreeListSound(s, l, p);
    }
    forall p, q | p in s.pools && q in s.pools && p != q
      ensures p in l.chain && q in l.chain && FreeListsApart(s, p, l.chain[p], q, l.chain[q])
    {
      InvFreeListsApart(s, l, p, q);
    }
    assert FreeListsAre(s, l.chain);
  }

  lemma InvSafe(s: State)
    requires Inv(s)
    ensures Safe(s)
  {
    var l :| InvWith(s, l);
    InvGrantsDisjoint(s, l);
    InvGrantsPlaced(s, l);
    InvFreeLists(s, l);
  }

  /** SAFETY: in every state of every run of any number of tasks, from the empty manager. */
  lemma {:induction false} EveryRunSafe(ops: seq<Op>)
    ensures Safe(Exec(EMPTY, ops))
  {
    InitKeeps();
    RunKeepsInv(EMPTY, ops);
    InvSafe(Exec(EMPTY, ops));
  }

  // ---------- the registry behind the segments ----------

  /** `ids` names every registered segment once, in the order of some list. */
  ghost predicate Lists(segs: map<SegId, Seg>, ids: seq<SegId>) {
    && (forall i, j :: 0 <= i < j < |ids| ==> ids[i] != ids[j])
    && (forall i :: 0 <= i < |ids| ==> ids[i] in segs)
    && (forall g :: g in segs ==> exists i :: 0 <= i < |ids| && ids[i] == g)
  }

  function ListOf(segs: map<SegId, Seg>, ids: seq<SegId>): (r: seq<Seg>)
    requires forall i :: 0 <= i < |ids| ==> ids[i] in segs
    ensures |r| == |ids| && forall i :: 0 <= i < |ids| ==> r[i] == segs[ids[i]]
  {
    seq(|ids|, i requires 0 <= i < |ids| => segs[ids[i]])
  }

  lemma ListDisjoint(segs: map<SegId, Seg>, ids: seq<SegId>)
    requires SegsOk(segs) && Lists(segs, ids)
    ensures Registry.Disjoint(ListOf(segs, ids))
  {
    var list := ListOf(segs, ids);
    forall i | 0 <= i < |list|
      ensures list[i].base <= list[i].end
    {
      var g := ids[i];
      assert g in segs && segs[g].Wf();
    }
  }

  ghost predicate SomeSame(segs: map<SegId, Seg>, base: Word, end: Word) {
    exists g :: g in segs && SameRange(segs[g], base, end)
  }

  ghost predicate SomeMeets(segs: map<SegId, Seg>, base: Word, end: Word) {
    exists g :: g in segs && Meets(segs[g], base, end)
  }

  /** What holds of some registered segment holds of some entry of the list, and the other way round. */
  lemma ListedSegments(segs: map<SegId, Seg>, ids: seq<SegId>, base: Word, end: Word)
    requires SegsOk(segs) && Lists(segs, ids) && base <= end
    ensures SomeSame(segs, base, end) <==> Registry.SomeEqual(ListOf(segs, ids), base, end)
    ensures SomeMeets(segs, base, end) <==> Registry.SomeShares(ListOf(segs, ids), base, end)
  {
    var list := ListOf(segs, ids);
    forall g | g in segs
      ensures exists i :: 0 <= i < |list| && list[i] == segs[g]
      ensures Meets(segs[g], base, end) <==> Shares(segs[g], base, end)
    {
      var i :| 0 <= i < |ids| && ids[i] == g;
      assert list[i] == segs[g] && segs[g].Wf();
      MeetsIffShares(segs[g], base, end);
    }
  }

  /** The answer to a well-formed creation request is the verdict of the walk over the list, whatever
      its order. */
  lemma SegCreateIsWalk(s: State, op: Op, ids: seq<SegId>, end: Word)
    requires SegsOk(s.segs) && Lists(s.segs, ids) && op.SegCreate? && end == (op.base + op.size - 1) % WORD
    requires op.size > 0 && op.base <= end && (op.pad == PADDING_NONE || MathIsPwr2(op.pad))
    ensures DoSegCreate(s, op).1 == match Registry.Walk(ListOf(s.segs, ids), op.base, end).0
                                    case NoOverlap => Done
                                    case Exists => SegExists
                                    case Overlaps => SegOverlap
  {
    ListDisjoint(s.segs, ids);
    Registry.WalkExact(ListOf(s.segs, ids), op.base, end);
    ListedSegments(s.segs, ids, op.base, end);
    SegCreateAnswer(s, op, end);
  }

  lemma SegCreateAnswer(s: State, op: Op, end: Word)
    requires op.SegCreate? && end == (op.base + op.size - 1) % WORD
    requires op.size > 0 && op.base <= end && (op.pad == PADDING_NONE || MathIsPwr2(op.pad))
    ensures DoSegCreate(s, op).1 == if SomeSame(s.segs, op.base, end) then SegExists
                                    else if SomeMeets(s.segs, op.base, end) then SegOverlap else Done
  {
  }
}
