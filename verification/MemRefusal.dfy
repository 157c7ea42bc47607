/** When a limited dynamic pool refuses every later request, with requests and frees under way. */
module MemRefusal {
  import opened Arith
  import opened Machine
  import opened Segment
  import opened PtrMem
  import opened DynPoolCore
  import opened MemSystem
  import opened MemInvariant
  import opened MemSteps
  import opened MemTheorems
  import opened MemPools

  /** The pool's segment has room for one more block. */
  ghost predicate Room(segs: map<SegId, Seg>, pool: Pool) {
    && pool.seg in segs && pool.blkAlign > 0 && pool.padding > 0
    && segs[pool.seg].FootEnd(pool.blkSize, pool.blkAlign, pool.padding) <= segs[pool.seg].Limit()
  }

  ghost predicate SomeCounted(phase: map<TaskId, Phase>, p: PoolId) {
    exists t :: t in phase && phase[t] == Counted(p)
  }

  /** Nothing can lower the counter of `p` any more: no block is held, no request that has yet to look
      at the free list can find a block there, and no request under way can carve one. */
  ghost predicate StuckBy(pool: Pool, phase: map<TaskId, Phase>, grants: map<GrantId, Grant>, p: PoolId, room: bool) {
    && pool.Exhausted() && HeldIds(grants, p) == {}
    && (SomeCounted(phase, p) ==> pool.freePtr == NULL && LeavingIds(grants, p) == {})
    && (room ==> Waiting(phase, p) == {})
  }

  ghost predicate Stuck(s: State, p: PoolId) {
    && p in s.pools && p in s.tally
    && StuckBy(s.pools[p], s.phase, s.grants, p, Room(s.segs, s.pools[p]))
  }

  // ---------- segments only fill up ----------

  ghost predicate Advances(segs: map<SegId, Seg>, segs': map<SegId, Seg>) {
    forall g :: g in segs ==>
      g in segs' && segs'[g].end == segs[g].end && segs[g].Next() <= segs'[g].Next()
  }

  lemma RoundUpMono(a: nat, b: nat, p: nat)
    requires p > 0 && a <= b
    ensures RoundUp(a, p) <= RoundUp(b, p)
  {
    RoundUpLeast(a, p, RoundUp(b, p));
  }

  lemma RoomShrinks(segs: map<SegId, Seg>, segs': map<SegId, Seg>, pool: Pool)
    requires Advances(segs, segs') && pool.seg in segs
    ensures Room(segs', pool) ==> Room(segs, pool)
  {
    if Room(segs', pool) {
      var u, v := segs[pool.seg], segs'[pool.seg];
      RoundUpMono(u.Next(), v.Next(), Max(pool.blkAlign, pool.padding));
      RoundUpMono(u.BlkAt(pool.blkAlign, pool.padding) + pool.blkSize,
                  v.BlkAt(pool.blkAlign, pool.padding) + pool.blkSize, pool.padding);
    }
  }

  /** A segment's answer to a sound request: granted exactly when there is room. */
  lemma AnswerIs(seg: Seg, size: Word, align: Word, pad: Word)
    requires seg.Wf() && IsPow2(pad) && pad > 0 && size > 0 && IsPow2(align) && align > 0
    requires GrantFits(seg, size, align, pad)
    ensures AllocInternal(seg, size, align, pad).1.Granted? <==> seg.FootEnd(size, align, pad) <= seg.Limit()
  {
    MathIsPwr2Exact(align);
    GrantFitsIff(seg, size, align, pad);
  }

  lemma AnswerAdvances(segs: map<SegId, Seg>, g: SegId, size: Word, align: Word, pad: Word)
    requires SegsOk(segs) && g in segs && IsPow2(pad) && pad > 0
    requires size > 0 && IsPow2(align) && align > 0 ==> GrantFits(segs[g], size, align, pad)
    ensures var (seg', r) := AllocInternal(segs[g], size, align, pad);
            r.Granted? ==> Advances(segs, segs[g := seg'])
  {
    assert segs[g].Wf();
    AllocOutcome(segs[g], size, align, pad);
  }

  // ---------- one step ----------

  /** The pool half of `Stuck`; `room` stands for its segment. */
  ghost predicate StuckIn(s: State, p: PoolId, room: bool) {
    p in s.pools && p in s.tally && StuckBy(s.pools[p], s.phase, s.grants, p, room)
  }

  /** Another request of any kind has been answered with block `g`. */
  lemma IssueStuck(grants: map<GrantId, Grant>, id: GrantId, g: Grant, p: PoolId)
    requires id !in grants && !g.use.Leaving? && g.use != Held(p) && HeldIds(grants, p) == {}
    ensures HeldIds(grants[id := g], p) == {} && LeavingIds(grants[id := g], p) == LeavingIds(grants, p)
  {
    CountIssue(grants, id, g, p);
    assert |HeldIds(grants[id := g], p)| == 0;
  }

  lemma SegStuck(s: State, op: Op, p: PoolId, room: bool)
    requires StuckIn(s, p, room) && s.nextId !in s.grants
    ensures op.SegCreate? ==> StuckIn(DoSegCreate(s, op).0, p, room)
    ensures op.SegAlloc? && op.seg in s.segs && s.segs[op.seg].pad > 0 ==> StuckIn(DoSegAlloc(s, op).0, p, room)
  {
    if op.SegAlloc? && op.seg in s.segs && s.segs[op.seg].pad > 0 {
      var s' := DoSegAlloc(s, op).0;
      if s'.grants != s.grants {
        IssueStuck(s.grants, s.nextId, s'.grants[s.nextId], p);
      }
    }
  }

  lemma PoolCreateStuck(s: State, op: Op, p: PoolId, room: bool)
    requires StuckIn(s, p, room) && op.PoolCreate? && op.pool !in s.pools
    requires op.seg in s.segs && s.segs[op.seg].pad > 0
    ensures StuckIn(DoPoolCreate(s, op).0, p, room)
  {
  }

  lemma PhaseStuck(phase: map<TaskId, Phase>, phase': map<TaskId, Phase>, p: PoolId)
    requires SomeCounted(phase', p) ==> SomeCounted(phase, p)
    requires forall t :: WaitsFor(phase', t, p) ==> WaitsFor(phase, t, p)
    ensures Waiting(phase, p) == {} ==> Waiting(phase', p) == {}
  {
    forall t | t in Waiting(phase', p)
      ensures t in Waiting(phase, p)
    {
      assert WaitsFor(phase', t, p);
    }
    SubsetBy(Waiting(phase', p), Waiting(phase, p));
  }

  lemma GetCountStuck(s: State, t: TaskId, q: PoolId, p: PoolId, room: bool)
    requires StuckIn(s, p, room) && q in s.pools && t !in s.phase
    ensures StuckIn(DoGetCount(s, t, q).0, p, room)
  {
    if q != p {
      PhaseStuck(s.phase, s.phase[t := Counted(q)], p);
    }
  }

  lemma GetPopStuck(s: State, t: TaskId, q: PoolId, p: PoolId, room: bool)
    requires StuckIn(s, p, room) && q in s.pools && t in s.phase && s.phase[t] == Counted(q) && s.nextId !in s.grants
    ensures StuckIn(DoGetPop(s, t, q).0, p, room)
  {
    assert q == p ==> SomeCounted(s.phase, p);
    PhaseStuck(s.phase, s.phase[t := Growing(q)], p);
    PhaseStuck(s.phase, s.phase - {t}, p);
    if s.pools[q].freePtr != NULL {
      IssueStuck(s.grants, s.nextId, PoolGrant(q, s.pools[q], s.pools[q].freePtr), p);
    }
  }

  lemma GrownStuck(s: State, t: TaskId, q: PoolId, p: PoolId, seg': Seg, r: AllocResult, room: bool)
    requires StuckIn(s, p, room) && q in s.pools && q in s.tally && t in s.phase && s.phase[t] == Growing(q)
    requires s.nextId !in s.grants && (q == p ==> !r.Granted?)
    ensures StuckIn(Grown(s, t, q, seg', r).0, p, room)
  {
    PhaseStuck(s.phase, s.phase - {t}, p);
    if r.Granted? {
      IssueStuck(s.grants, s.nextId, PoolGrant(q, s.pools[q], r.addr), p);
    }
  }

  lemma FreeCountStuck(s: State, t: TaskId, id: GrantId, p: PoolId, room: bool)
    requires StuckIn(s, p, room) && t !in s.phase
    requires id in s.grants && s.grants[id].use.Held? && s.grants[id].use.pool in s.pools
    ensures StuckIn(DoFreeCount(s, t, id).0, p, room)
  {
    assert id !in HeldIds(s.grants, p);
    PhaseStuck(s.phase, s.phase[t := Releasing(id)], p);
    LeaveStuck(s.grants, id, s.grants[id].use.pool, t, p);
  }

  lemma LeaveStuck(grants: map<GrantId, Grant>, id: GrantId, q: PoolId, t: TaskId, p: PoolId)
    requires id in grants && grants[id].use == Held(q) && q != p && HeldIds(grants, p) == {}
    ensures var grants' := grants[id := grants[id].(use := Leaving(q, t))];
            HeldIds(grants', p) == {} && LeavingIds(grants', p) == LeavingIds(grants, p)
  {
    var grants' := grants[id := grants[id].(use := Leaving(q, t))];
    CountLeave(grants, id, q, t, p);
    assert |HeldIds(grants', p)| == 0;
    assert LeavingIds(grants', p) == LeavingIds(grants, p);
  }

  lemma FreePushStuck(s: State, t: TaskId, id: GrantId, p: PoolId, room: bool)
    requires StuckIn(s, p, room) && t in s.phase && s.phase[t].Releasing?
    requires id in s.grants && s.grants[id].use.Leaving? && s.grants[id].use.pool in s.pools
    ensures StuckIn(DoFreePush(s, t, id).0, p, room)
  {
    PhaseStuck(s.phase, s.phase - {t}, p);
    CountReturn(s.grants, id, p);
    assert LeavingIds(s.grants, p) == {} ==> LeavingIds(s.grants - {id}, p) == {};
    assert s.grants[id].use.pool == p ==> id in LeavingIds(s.grants, p);
  }

  lemma StepStuckIn(s: State, op: Op, p: PoolId)
    requires Inv(s) && Stuck(s, p) && Legal(s, op)
    ensures StuckIn(Step(s, op).0, p, Room(s.segs, s.pools[p]))
  {
    var room := Room(s.segs, s.pools[p]);
    FreshGrant(s);
    match op
    case SegCreate(_, _, _, _) => SegStuck(s, op, p, room);
    case SegAlloc(_, _, _) => SegStuck(s, op, p, room);
    case PoolCreate(_, _, _, _, _, _, _) => PoolCreateStuck(s, op, p, room);
    case GetCount(t, q) => GetCountStuck(s, t, q, p, room);
    case GetPop(t) => GetPopStuck(s, t, s.phase[t].pool, p, room);
    case GetGrow(t) => GetGrowStuck(s, t, s.phase[t].pool, p);
    case FreeCount(t, id) => FreeCountStuck(s, t, id, p, room);
    case FreePush(t) => FreePushStuck(s, t, s.phase[t].grant, p, room);
    case OwnerStore(_, _, _) =>
  }

  lemma FreshGrant(s: State)
    requires Inv(s)
    ensures s.nextId !in s.grants
  {
    var l :| InvWith(s, l);
    assert GrantsOk(s.grants, s.nextId, s.pools, l.cells);
  }

  lemma GetGrowStuck(s: State, t: TaskId, q: PoolId, p: PoolId)
    requires Inv(s) && Stuck(s, p) && t in s.phase && s.phase[t] == Growing(q) && Legal(s, GetGrow(t))
    ensures StuckIn(Step(s, GetGrow(t)).0, p, Room(s.segs, s.pools[p]))
  {
    var pool := s.pools[q];
    var (seg', r) := AllocInternal(s.segs[pool.seg], pool.blkSize, pool.blkAlign, pool.padding);
    GrowthAnswer(s, t, q);
    FreshGrant(s);
    assert WaitsFor(s.phase, t, q);
    assert t in Waiting(s.phase, q);
    GrownStuck(s, t, q, p, seg', r, Room(s.segs, s.pools[p]));
    assert Step(s, GetGrow(t)) == DoGetGrow(s, t, q);
  }

  /** A growth that may be made is granted exactly when the segment has room. */
  lemma GrowthAnswer(s: State, t: TaskId, q: PoolId)
    requires Inv(s) && t in s.phase && s.phase[t] == Growing(q) && Legal(s, GetGrow(t))
    ensures q in s.pools && s.pools[q].seg in s.segs && s.pools[q].padding > 0
    ensures var pool := s.pools[q];
            AllocInternal(s.segs[pool.seg], pool.blkSize, pool.blkAlign, pool.padding).1.Granted?
            <==> Room(s.segs, pool)
  {
    var l :| InvWith(s, l);
    var pool := s.pools[q];
    assert s.segs[pool.seg].Wf() && IsPow2(pool.padding) && IsPow2(pool.blkAlign) && pool.blkSize >= PTR_SIZE;
    Pow2Divides(pool.blkAlign, pool.blkAlign);
    AnswerIs(s.segs[pool.seg], pool.blkSize, pool.blkAlign, pool.padding);
  }

  /** What a pool is made of does not change. */
  ghost predicate SamePlace(pool: Pool, pool': Pool) {
    && pool'.seg == pool.seg && pool'.blkSize == pool.blkSize && pool'.blkAlign == pool.blkAlign
    && pool'.padding == pool.padding && pool'.qtyMax == pool.qtyMax
  }

  lemma StepPlace(s: State, op: Op, p: PoolId)
    requires p in s.pools
    ensures p in Step(s, op).0.pools && SamePlace(s.pools[p], Step(s, op).0.pools[p])
  {
  }

  lemma SegAllocAdvances(s: State, op: Op)
    requires SegsOk(s.segs) && op.SegAlloc? && Legal(s, op)
    ensures Advances(s.segs, Step(s, op).0.segs)
  {
    var seg := s.segs[op.seg];
    assert Pow2(0) == PADDING_NONE && seg.Wf();
    assert Step(s, op) == DoSegAlloc(s, op);
    AnswerAdvances(s.segs, op.seg, op.size, op.entry.Align(), op.entry.Padding(seg));
  }

  lemma PoolCreateAdvances(s: State, op: Op)
    requires SegsOk(s.segs) && op.PoolCreate? && Legal(s, op)
    ensures Advances(s.segs, Step(s, op).0.segs)
  {
    assert Step(s, op) == DoPoolCreate(s, op);
    var seg := s.segs[op.seg];
    var worst := Max(op.blkAlign, if op.hw then seg.pad else PADDING_NONE);
    assert Pow2(0) == PADDING_NONE && seg.Wf();
    MathIsPwr2Exact(op.blkAlign);
    if DoPoolCreate(s, op).1.Done? && op.qtyInit > 0 {
      MaxPow2(op.blkAlign, if op.hw then seg.pad else PADDING_NONE);
      StrideExact(op.blkSize, worst, op.qtyInit);
      AnswerAdvances(s.segs, op.seg, InitBytes(op.blkSize, worst, op.qtyInit), worst, PADDING_NONE);
    }
  }

  lemma GrowAdvances(s: State, t: TaskId, q: PoolId)
    requires Inv(s) && t in s.phase && s.phase[t] == Growing(q) && Legal(s, GetGrow(t))
    ensures Advances(s.segs, Step(s, GetGrow(t)).0.segs)
  {
    var l :| InvWith(s, l);
    var pool := s.pools[q];
    assert s.segs[pool.seg].Wf() && IsPow2(pool.padding);
    AnswerAdvances(s.segs, pool.seg, pool.blkSize, pool.blkAlign, pool.padding);
    assert Step(s, GetGrow(t)) == DoGetGrow(s, t, q);
  }

  lemma InvSegs(s: State)
    requires Inv(s)
    ensures SegsOk(s.segs) && forall p :: p in s.pools ==> s.pools[p].seg in s.segs
  {
    var l :| InvWith(s, l);
  }

  lemma StepAdvances(s: State, op: Op)
    requires Inv(s) && Legal(s, op)
    ensures Advances(s.segs, Step(s, op).0.segs)
  {
    InvSegs(s);
    if op.SegAlloc? {
      SegAllocAdvances(s, op);
    } else if op.PoolCreate? {
      PoolCreateAdvances(s, op);
    } else if op.GetGrow? {
      GrowAdvances(s, op.task, s.phase[op.task].pool);
    } else {
      RestAdvances(s, op);
    }
  }

  lemma RestAdvances(s: State, op: Op)
    requires Legal(s, op) && !op.SegAlloc? && !op.PoolCreate? && !op.GetGrow?
    ensures Advances(s.segs, Step(s, op).0.segs)
  {
  }

  lemma StepStuck(s: State, op: Op, p: PoolId)
    requires Inv(s) && Stuck(s, p)
    ensures Stuck(Step(s, op).0, p)
  {
    if Legal(s, op) {
      var s' := Step(s, op).0;
      StepStuckIn(s, op, p);
      StepPlace(s, op, p);
      StepAdvances(s, op);
      InvSegs(s);
      RoomShrinks(s.segs, s'.segs, s'.pools[p]);
      assert Room(s.segs, s'.pools[p]) == Room(s.segs, s.pools[p]);
    }
  }

  lemma {:induction false} StuckStays(s: State, ops: seq<Op>, p: PoolId)
    requires Inv(s) && Stuck(s, p)
    ensures Stuck(Exec(s, ops), p)
    decreases |ops|
  {
    if ops != [] {
      StepStuck(s, ops[0], p);
      StepKeepsInv(s, ops[0]);
      StuckStays(Step(s, ops[0]).0, ops[1..], p);
    }
  }

  lemma {:induction false} StuckRefuses(s: State, p: PoolId)
    requires Inv(s) && Stuck(s, p)
    ensures RefusesForever(s, p)
  {
    forall ops, t | t !in Exec(s, ops).phase
      ensures Step(Exec(s, ops), GetCount(t, p)).1 == PoolEmpty
    {
      StuckStays(s, ops, p);
    }
  }

  // ---------- the other half ----------

  /** If a pool serves after one more step, it serves. */
  lemma {:induction false} LaterServes(s: State, op: Op, s1: State, p: PoolId)
    requires s1 == Step(s, op).0 && !RefusesForever(s1, p)
    ensures !RefusesForever(s, p)
  {
    var ops, t :| t !in Exec(s1, ops).phase && Step(Exec(s1, ops), GetCount(t, p)).1 != PoolEmpty;
    assert ([op] + ops)[1..] == ops;
    assert Exec(s, [op] + ops) == Exec(s1, ops);
  }

  /** The step `op` leads from `s` to `s1`, in which `p` is still a limited pool. */
  ghost predicate Goes(s: State, op: Op, s1: State, p: PoolId) {
    && s1 == Step(s, op).0 && Inv(s1)
    && p in s1.pools && p in s1.tally && s1.pools[p].Limited()
  }

  lemma StepGoes(s: State, op: Op, s1: State, p: PoolId)
    requires Inv(s) && p in s.pools && p in s.tally && s.pools[p].Limited() && s1 == Step(s, op).0
    ensures Goes(s, op, s1, p)
  {
    StepKeepsInv(s, op);
    StepCommits(s, op, p);
  }

  lemma HeldServes(s: State, p: PoolId, id: GrantId)
    requires Inv(s) && p in s.pools && p in s.tally && s.pools[p].Limited()
    requires id in s.grants && s.grants[id].use == Held(p)
    ensures !RefusesForever(s, p)
  {
    assert id in HeldIds(s.grants, p);
    ServesAfterFree(s, p, id);
  }

  /** A step that hands out a block of `p`. */
  lemma GrantServes(s: State, op: Op, s1: State, p: PoolId, id: GrantId)
    requires Goes(s, op, s1, p) && id in s1.grants && s1.grants[id].use == Held(p)
    ensures !RefusesForever(s, p)
  {
    HeldServes(s1, p, id);
    LaterServes(s, op, s1, p);
  }

  lemma PopIs(s: State, t: TaskId, p: PoolId)
    requires p in s.pools && t in s.phase && s.phase[t] == Counted(p)
    ensures Step(s, GetPop(t)) == DoGetPop(s, t, p)
  {
  }

  /** A request that finds a free block. */
  lemma FreeBlockServes(s: State, p: PoolId, t: TaskId)
    requires Inv(s) && p in s.pools && p in s.tally && s.pools[p].Limited()
    requires t in s.phase && s.phase[t] == Counted(p) && s.pools[p].freePtr != NULL
    ensures !RefusesForever(s, p)
  {
    PopIs(s, t, p);
    var s1 := DoGetPop(s, t, p).0;
    StepGoes(s, GetPop(t), s1, p);
    GrantServes(s, GetPop(t), s1, p, s.nextId);
  }

  /** A block half way through Free becomes free for a request that has not looked yet. */
  lemma LeavingServes(s: State, p: PoolId, t: TaskId, id: GrantId)
    requires Inv(s) && p in s.pools && p in s.tally && s.pools[p].Limited()
    requires t in s.phase && s.phase[t] == Counted(p)
    requires id in s.grants && s.grants[id].use.Leaving? && s.grants[id].use.pool == p
    ensures !RefusesForever(s, p)
  {
    var u, s1 := Pushed(s, p, t, id);
    StepGoes(s, FreePush(u), s1, p);
    FreeBlockServes(s1, p, t);
    LaterServes(s, FreePush(u), s1, p);
  }

  /** Its task links it back. */
  lemma Pushed(s: State, p: PoolId, t: TaskId, id: GrantId) returns (u: TaskId, s1: State)
    requires Inv(s) && p in s.pools && t in s.phase && s.phase[t] == Counted(p)
    requires id in s.grants && s.grants[id].use.Leaving? && s.grants[id].use.pool == p
    ensures s1 == Step(s, FreePush(u)).0 && p in s1.pools && s1.pools[p].freePtr != NULL
    ensures t in s1.phase && s1.phase[t] == Counted(p)
  {
    u := LeavingTask(s, id);
    s1 := PushedBy(s, p, u, id);
    assert t != u;
  }

  lemma PushedBy(s: State, p: PoolId, u: TaskId, id: GrantId) returns (s1: State)
    requires Inv(s) && u in s.phase && s.phase[u] == Releasing(id)
    requires id in s.grants && s.grants[id].use.Leaving? && s.grants[id].use.pool == p
    ensures s1 == Step(s, FreePush(u)).0 && p in s1.pools && s1.pools[p].freePtr != NULL
    ensures s1.phase == s.phase - {u}
  {
    CallsNeverStuck(s, u);
    PushStep(s, u, p);
    s1 := Step(s, FreePush(u)).0;
  }

  lemma LeavingTask(s: State, id: GrantId) returns (u: TaskId)
    requires Inv(s) && id in s.grants && s.grants[id].use.Leaving?
    ensures u in s.phase && s.phase[u] == Releasing(id)
  {
    var l :| InvWith(s, l);
    assert PhasesOk(s.phase, s.grants, s.pools);
    u := s.grants[id].use.task;
  }

  /** A request about to grow a pool that has room. */
  lemma GrowthServes(s: State, p: PoolId, t: TaskId)
    requires Inv(s) && p in s.pools && p in s.tally && s.pools[p].Limited()
    requires t in s.phase && s.phase[t] == Growing(p) && Room(s.segs, s.pools[p])
    ensures !RefusesForever(s, p)
  {
    var s1 := GrownTo(s, p, t);
    StepGoes(s, GetGrow(t), s1, p);
    GrantServes(s, GetGrow(t), s1, p, s.nextId);
  }

  lemma GrownTo(s: State, p: PoolId, t: TaskId) returns (s1: State)
    requires Inv(s) && p in s.pools && p in s.tally
    requires t in s.phase && s.phase[t] == Growing(p) && Room(s.segs, s.pools[p])
    ensures s1 == Step(s, GetGrow(t)).0 && s.nextId in s1.grants && s1.grants[s.nextId].use == Held(p)
  {
    RoomIsSound(s, p);
    CallsNeverStuck(s, t);
    GrowthAnswer(s, t, p);
    s1 := Step(s, GetGrow(t)).0;
    assert Step(s, GetGrow(t)) == DoGetGrow(s, t, p);
  }

  lemma RoomIsSound(s: State, p: PoolId)
    requires Inv(s) && p in s.pools && Room(s.segs, s.pools[p])
    ensures var pool := s.pools[p]; SoundIn(s, pool.seg, pool.blkSize, pool.blkAlign, pool.padding)
  {
    var l :| InvWith(s, l);
    var pool := s.pools[p];
    assert s.segs[pool.seg].Wf() && IsPow2(pool.padding);
    Pow2Divides(s.segs[pool.seg].pad, s.segs[pool.seg].pad);
  }

  /** A request under way, whatever it has seen. */
  lemma WaitingServes(s: State, p: PoolId, t: TaskId)
    requires Inv(s) && p in s.pools && p in s.tally && s.pools[p].Limited()
    requires WaitsFor(s.phase, t, p) && Room(s.segs, s.pools[p])
    ensures !RefusesForever(s, p)
  {
    if s.phase[t] == Growing(p) {
      GrowthServes(s, p, t);
    } else if s.pools[p].freePtr != NULL {
      FreeBlockServes(s, p, t);
    } else {
      PopIs(s, t, p);
      var s1 := DoGetPop(s, t, p).0;
      StepGoes(s, GetPop(t), s1, p);
      GrowthServes(s1, p, t);
      LaterServes(s, GetPop(t), s1, p);
    }
  }

  lemma NotStuckServes(s: State, p: PoolId)
    requires Inv(s) && p in s.pools && p in s.tally && s.pools[p].Limited() && !Stuck(s, p)
    ensures !RefusesForever(s, p)
  {
    if !s.pools[p].Exhausted() {
      ServesNow(s, p);
    } else if |HeldIds(s.grants, p)| > 0 {
      var id := Some(HeldIds(s.grants, p));
      HeldServes(s, p, id);
    } else if Room(s.segs, s.pools[p]) && |Waiting(s.phase, p)| > 0 {
      var t := Some(Waiting(s.phase, p));
      WaitingServes(s, p, t);
    } else {
      var t :| t in s.phase && s.phase[t] == Counted(p);
      if s.pools[p].freePtr != NULL {
        FreeBlockServes(s, p, t);
      } else {
        var id := Some(LeavingIds(s.grants, p));
        LeavingServes(s, p, t, id);
      }
    }
  }

  /** FOR GOOD, in every state: a limited pool refuses every later request of every run if and only if
      its limit is used up, no block is held, no request that has yet to look at the free list can find
      one, and no request under way can carve one. */
  lemma RefusesForeverIff(s: State, p: PoolId)
    requires Inv(s) && p in s.pools && p in s.tally && s.pools[p].Limited()
    ensures RefusesForever(s, p) <==> Stuck(s, p)
  {
    if Stuck(s, p) {
      StuckRefuses(s, p);
    } else {
      NotStuckServes(s, p);
    }
  }
}
