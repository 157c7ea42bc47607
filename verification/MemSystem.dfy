/** The memory manager as a transition system. One step is one critical section (or one store by a
    block's owner), so every interleaving of any number of tasks is a sequence of steps. */
module MemSystem {
  import opened Arith
  import opened Machine
  import opened Segment
  import opened PtrMem
  import opened DynPoolCore

  type PoolId = int
  type TaskId = int
  type GrantId = int

  /** What a block handed to the application is used for. */
  datatype Use =
    | Raw                                  // straight from a segment
    | Held(pool: PoolId)                   // from a dynamic pool
    | Leaving(pool: PoolId, task: TaskId)  // its owner is inside Mem_DynPoolBlkFree

  /** One answer of the manager to one request. Grants are numbered in order of issue: nothing in
      this type prevents two of them from naming the same address. */
  datatype Grant = Grant(base: Word, size: Word, align: Word, padding: Word, use: Use) {
    /** End of the padded footprint of the block. */
    function Foot(): nat
      requires padding > 0
    {
      RoundUp(base + size, padding)
    }
  }

  /** Where a task stands inside a pool call; a task that is absent is outside. */
  datatype Phase =
    | Counted(pool: PoolId)      // between the first and second critical section of Get
    | Growing(pool: PoolId)      // before the segment allocation of Get
    | Releasing(grant: GrantId)  // between the two critical sections of Free

  /** Tallies used to state conservation: blocks ever created, growths that failed. */
  datatype Tally = Tally(created: nat, failed: nat)

  datatype State = State(segs: map<SegId, Seg>, pools: map<PoolId, Pool>, mem: Mem,
                         grants: map<GrantId, Grant>, nextId: GrantId,
                         phase: map<TaskId, Phase>, tally: map<PoolId, Tally>)

  /** Mem_SegAlloc, Mem_SegAllocExt, Mem_SegAllocHW. */
  datatype Entry = Plain | Ext(align: Word) | HW(align: Word) {
    function Align(): Word { if Plain? then ALIGN_SIZE else align }
    function Padding(s: Seg): Word { if HW? then s.pad else PADDING_NONE }
  }

  datatype Op =
    | SegCreate(seg: SegId, base: Word, size: Word, pad: Word)
    | SegAlloc(entry: Entry, seg: SegId, size: Word)
    | PoolCreate(pool: PoolId, seg: SegId, blkSize: Word, blkAlign: Word, hw: bool,
                 qtyInit: Word, qtyMax: Word)
    | GetCount(task: TaskId, pool: PoolId)
    | GetPop(task: TaskId)
    | GetGrow(task: TaskId)
    | FreeCount(task: TaskId, grant: GrantId)
    | FreePush(task: TaskId)
    | OwnerStore(grant: GrantId, addr: nat, val: Byte)

  datatype Resp =
    | Done
    | Block(addr: Word)
    | Continue
    | PoolEmpty
    | PoolFull
    | SegExists
    | SegOverlap
    | Refused(why: AllocResult)
    | InvalidArg
    | NotACall

  const EMPTY: State := State(map[], map[], _ => 0, map[], 0, map[], map[])

  /** Issue the next grant. */
  function Issue(s: State, g: Grant): State {
    s.(grants := s.grants[s.nextId := g], nextId := s.nextId + 1)
  }

  function PoolGrant(p: PoolId, pool: Pool, addr: Word): Grant {
    Grant(addr, pool.blkSize, pool.blkAlign, pool.padding, Held(p))
  }

  /** Mem_SegCreate; MemTheorems.SegCreateIsWalk shows that the walk over the list gives this answer. */
  ghost function DoSegCreate(s: State, op: Op): (State, Resp)
    requires op.SegCreate?
  {
    var end := (op.base + op.size - 1) % WORD;
    if op.size < 1 || end < op.base || (op.pad != PADDING_NONE && !MathIsPwr2(op.pad)) then
      (s, InvalidArg)
    else if exists g :: g in s.segs && SameRange(s.segs[g], op.base, end) then (s, SegExists)
    else if exists g :: g in s.segs && Meets(s.segs[g], op.base, end) then (s, SegOverlap)
    else (s.(segs := s.segs[op.seg := Seg(op.base, end, op.base, op.pad)]), Done)
  }

  function DoSegAlloc(s: State, op: Op): (State, Resp)
    requires op.SegAlloc? && op.seg in s.segs && s.segs[op.seg].pad > 0
  {
    var seg := s.segs[op.seg];
    var pad := op.entry.Padding(seg);
    var (seg', r) := AllocInternal(seg, op.size, op.entry.Align(), pad);
    if r.Granted? then
      (Issue(s.(segs := s.segs[op.seg := seg']), Grant(r.addr, op.size, op.entry.Align(), pad, Raw)),
       Block(r.addr))
    else (s, Refused(r))
  }

  /** A pool whose `n` initial blocks of `stride` bytes start at `addr`. */
  function Founded(s: State, p: PoolId, pool: Pool, seg': Seg, addr: Word, stride: Word, n: Word): State {
    s.(segs := s.segs[pool.seg := seg'],
       pools := s.pools[p := pool.(freePtr := addr)],
       mem := Thread(s.mem, addr, stride, n),
       tally := s.tally[p := Tally(n, 0)])
  }

  /** Mem_DynPoolCreate and Mem_DynPoolCreateHW. The descriptor is not yet shared while the blocks
      are threaded, so creation is one step. */
  function DoPoolCreate(s: State, op: Op): (State, Resp)
    requires op.PoolCreate? && op.seg in s.segs && s.segs[op.seg].pad > 0
  {
    if op.blkSize < 1 || (op.qtyMax != QTY_UNLIMITED && op.qtyInit > op.qtyMax) || !MathIsPwr2(op.blkAlign)
    then (s, InvalidArg)
    else
      var pad := if op.hw then s.segs[op.seg].pad else PADDING_NONE;
      var worst := Max(op.blkAlign, pad);
      var stride := Stride(op.blkSize, worst);
      var pool := Pool(op.seg, op.blkSize, worst, pad, NULL, op.qtyMax, 0);
      if op.qtyInit == 0 then
        (s.(pools := s.pools[op.pool := pool], tally := s.tally[op.pool := Tally(0, 0)]), Done)
      else
        var (seg', r) := AllocInternal(s.segs[op.seg], stride * op.qtyInit % WORD, worst, PADDING_NONE);
        if r.Granted? then (Founded(s, op.pool, pool, seg', r.addr, stride, op.qtyInit), Done)
        else (s, Refused(r))
  }

  function DoGetCount(s: State, t: TaskId, p: PoolId): (State, Resp)
    requires p in s.pools
  {
    var pool := s.pools[p];
    if pool.Exhausted() then (s, PoolEmpty)
    else (s.(pools := s.pools[p := pool.Reserved()], phase := s.phase[t := Counted(p)]), Continue)
  }

  function DoGetPop(s: State, t: TaskId, p: PoolId): (State, Resp)
    requires p in s.pools
  {
    var pool := s.pools[p];
    if pool.freePtr == NULL then (s.(phase := s.phase[t := Growing(p)]), Continue)
    else
      (Issue(s.(pools := s.pools[p := pool.Popped(s.mem)], phase := s.phase - {t}),
             PoolGrant(p, pool, pool.freePtr)),
       Block(pool.freePtr))
  }

  /** The end of Get: the segment has answered. A failed growth does not give the count back. */
  function Grown(s: State, t: TaskId, p: PoolId, seg': Seg, r: AllocResult): (State, Resp)
    requires p in s.pools && p in s.tally
  {
    var pool, tally := s.pools[p], s.tally[p];
    if r.Granted? then
      (Issue(s.(segs := s.segs[pool.seg := seg'], phase := s.phase - {t},
                tally := s.tally[p := tally.(created := tally.created + 1)]),
             PoolGrant(p, pool, r.addr)),
       Block(r.addr))
    else
      (s.(phase := s.phase - {t}, tally := s.tally[p := tally.(failed := tally.failed + 1)]), Refused(r))
  }

  function DoGetGrow(s: State, t: TaskId, p: PoolId): (State, Resp)
    requires p in s.pools && s.pools[p].seg in s.segs && s.pools[p].padding > 0 && p in s.tally
  {
    var pool := s.pools[p];
    var (seg', r) := AllocInternal(s.segs[pool.seg], pool.blkSize, pool.blkAlign, pool.padding);
    Grown(s, t, p, seg', r)
  }

  function DoFreeCount(s: State, t: TaskId, id: GrantId): (State, Resp)
    requires id in s.grants && s.grants[id].use.Held? && s.grants[id].use.pool in s.pools
  {
    var p := s.grants[id].use.pool;
    var pool := s.pools[p];
    if pool.NothingOut() then (s, PoolFull)
    else
      (s.(pools := s.pools[p := pool.Released()],
          grants := s.grants[id := s.grants[id].(use := Leaving(p, t))],
          phase := s.phase[t := Releasing(id)]), Continue)
  }

  function DoFreePush(s: State, t: TaskId, id: GrantId): (State, Resp)
    requires id in s.grants && s.grants[id].use.Leaving? && s.grants[id].use.pool in s.pools
  {
    var p, blk := s.grants[id].use.pool, s.grants[id].base;
    var pool := s.pools[p];
    (s.(mem := StorePtr(s.mem, blk, pool.freePtr), pools := s.pools[p := pool.Pushed(blk)],
        grants := s.grants - {id}, phase := s.phase - {t}), Done)
  }

  /** A request that segment `g` does not grant on the strength of a wrapped size; Segment.GrantFitsIff
      says which these are. */
  ghost predicate SoundIn(s: State, g: SegId, size: Word, align: Word, pad: Word) {
    && g in s.segs && s.segs[g].pad > 0 && pad > 0
    && (size > 0 && IsPow2(align) && align > 0 ==> GrantFits(s.segs[g], size, align, pad))
  }

  /** The same for the initial blocks of a pool, whose total size is a product that can wrap too. */
  ghost predicate SoundFounding(seg: Seg, blkSize: Word, worst: Word, n: Word)
    requires worst > 0
  {
    AllocInternal(seg, Stride(blkSize, worst) * n % WORD, worst, PADDING_NONE).1.Granted? ==>
      InitBytes(blkSize, worst, n) < WORD && seg.Fits(InitBytes(blkSize, worst, n), worst, PADDING_NONE)
  }

  /** What the program demands of its callers before a step. */
  ghost predicate Legal(s: State, op: Op) {
    match op
    case SegCreate(g, _, _, _) => g !in s.segs
    case SegAlloc(e, g, size) =>
      g in s.segs && SoundIn(s, g, size, e.Align(), e.Padding(s.segs[g]))
    case PoolCreate(p, g, blkSize, blkAlign, hw, qtyInit, _) =>
      && p !in s.pools && g in s.segs && s.segs[g].Next() > 0 && s.segs[g].pad > 0 && blkSize >= PTR_SIZE
      && SoundFounding(s.segs[g], blkSize, Max(blkAlign, if hw then s.segs[g].pad else PADDING_NONE), qtyInit)
    case GetCount(t, p) => t !in s.phase && p in s.pools
    case GetPop(t) => t in s.phase && s.phase[t].Counted? && s.phase[t].pool in s.pools
    case GetGrow(t) =>
      && t in s.phase && s.phase[t].Growing? && s.phase[t].pool in s.pools && s.phase[t].pool in s.tally
      && var pool := s.pools[s.phase[t].pool];
      && SoundIn(s, pool.seg, pool.blkSize, pool.blkAlign, pool.padding)
    case FreeCount(t, id) =>
      && t !in s.phase
      && id in s.grants && s.grants[id].use.Held? && s.grants[id].use.pool in s.pools
    case FreePush(t) =>
      && t in s.phase && s.phase[t].Releasing?
      && var id := s.phase[t].grant;
      && id in s.grants && s.grants[id].use.Leaving? && s.grants[id].use.pool in s.pools
    case OwnerStore(id, a, _) =>
      id in s.grants && !s.grants[id].use.Leaving? && s.grants[id].base <= a < s.grants[id].base + s.grants[id].size
  }

  ghost function Step(s: State, op: Op): (State, Resp) {
    if !Legal(s, op) then (s, NotACall)
    else
      match op
      case SegCreate(_, _, _, _) => DoSegCreate(s, op)
      case SegAlloc(_, _, _) => DoSegAlloc(s, op)
      case PoolCreate(_, _, _, _, _, _, _) => DoPoolCreate(s, op)
      case GetCount(t, p) => DoGetCount(s, t, p)
      case GetPop(t) => DoGetPop(s, t, s.phase[t].pool)
      case GetGrow(t) => DoGetGrow(s, t, s.phase[t].pool)
      case FreeCount(t, id) => DoFreeCount(s, t, id)
      case FreePush(t) => DoFreePush(s, t, s.phase[t].grant)
      case OwnerStore(_, a, v) => (s.(mem := StoreByte(s.mem, a, v)), Done)
  }

  /** A run. A step its caller may not take is no call at all and changes nothing, so the runs over
      all sequences of steps are exactly the runs over the legal ones. */
  ghost function Exec(s: State, ops: seq<Op>): State
    decreases |ops|
  {
    if ops == [] then s else Exec(Step(s, ops[0]).0, ops[1..])
  }
}
