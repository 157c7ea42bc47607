/** The invariant of the memory manager, over a ledger that assigns every carved cell of memory to
    exactly one grant or to exactly one pool's free chain. */
module MemInvariant {
  import opened Arith
  import opened Machine
  import opened Segment
  import opened PtrMem
  import opened DynPoolCore
  import opened MemSystem

  datatype Owner = Out(id: GrantId) | OnChain(pool: PoolId)

  /** The block a cell was carved for. */
  datatype Shape = Shape(size: Word, align: Word, padding: Word)

  /** A carved range of addresses; its start is its key in the ledger. */
  datatype Cell = Cell(end: nat, seg: SegId, shape: Shape, owner: Owner)

  type Cells = map<int, Cell>

  datatype Ledger = Ledger(cells: Cells, chain: map<PoolId, seq<nat>>)

  function PoolShape(p: Pool): Shape { Shape(p.blkSize, p.blkAlign, p.padding) }

  function GrantShape(g: Grant): Shape { Shape(g.size, g.align, g.padding) }

  /** Registered segments are well formed and pairwise disjoint. */
  ghost predicate SegsOk(segs: map<SegId, Seg>) {
    && (forall g :: g in segs ==> segs[g].Wf())
    && (forall g, h :: g in segs && h in segs && g != h ==>
          segs[g].end < segs[h].base || segs[h].end < segs[g].base)
  }

  /** Cells lie in the used part of their segment, below one another, and hold their block. */
  ghost predicate CellsOk(segs: map<SegId, Seg>, cells: Cells) {
    && (forall a :: a in cells ==>
          && cells[a].seg in segs
          && segs[cells[a].seg].base <= a && cells[a].end <= segs[cells[a].seg].Next()
          && 0 < cells[a].shape.size && a + cells[a].shape.size <= cells[a].end)
    && (forall a, b :: a in cells && b in cells && a < b ==> cells[a].end <= b)
  }

  /** A block at `a` is aligned as requested, starts a line of its padding, and its whole padded
      footprint is below `end`. */
  ghost predicate Placed(a: nat, end: nat, shape: Shape) {
    && shape.align > 0 && shape.padding > 0
    && a % shape.align == 0 && a % shape.padding == 0
    && RoundUp(a + shape.size, shape.padding) <= end
  }

  ghost predicate ShapesOk(cells: Cells) {
    forall a :: a in cells ==> Placed(a, cells[a].end, cells[a].shape)
  }

  ghost predicate GrantOk(pools: map<PoolId, Pool>, cells: Cells, id: GrantId, g: Grant) {
    && g.base in cells && cells[g.base].owner == Out(id) && cells[g.base].shape == GrantShape(g)
    && (!g.use.Raw? ==>
          g.base != NULL && g.use.pool in pools && GrantShape(g) == PoolShape(pools[g.use.pool]))
  }

  ghost predicate GrantsOk(grants: map<GrantId, Grant>, nextId: GrantId, pools: map<PoolId, Pool>, cells: Cells) {
    forall id :: id in grants ==> id < nextId && GrantOk(pools, cells, id, grants[id])
  }

  /** Segments that can house a pool: no block can come to lie at address 0, the null pointer of the
      free list. */
  ghost function Homes(segs: map<SegId, Seg>): set<SegId> {
    set g | g in segs && segs[g].Next() > 0
  }

  ghost predicate PoolsOk(homes: set<SegId>, pools: map<PoolId, Pool>) {
    forall p :: p in pools ==>
      && pools[p].seg in homes && pools[p].blkSize >= PTR_SIZE
      && IsPow2(pools[p].blkAlign) && IsPow2(pools[p].padding)
  }

  ghost predicate NoDup(c: seq<nat>) {
    forall i, j :: 0 <= i < j < |c| ==> c[i] != c[j]
  }

  /** Every address of `c` is a free cell of pool `p`. */
  ghost predicate FreeCells(cells: Cells, p: PoolId, shape: Shape, c: seq<nat>) {
    forall i :: 0 <= i < |c| ==>
      c[i] in cells && cells[c[i]].owner == OnChain(p) && cells[c[i]].shape == shape
  }

  /** The free chain of pool `p`: distinct cells of that pool, linked in memory from the head. */
  ghost predicate ChainOk(mem: Mem, cells: Cells, p: PoolId, pool: Pool, c: seq<nat>) {
    && Chain(mem, pool.freePtr, c)
    && NoDup(c)
    && FreeCells(cells, p, PoolShape(pool), c)
  }

  ghost predicate ChainsOk(mem: Mem, pools: map<PoolId, Pool>, l: Ledger) {
    forall p :: p in pools ==> p in l.chain && ChainOk(mem, l.cells, p, pools[p], l.chain[p])
  }

  ghost predicate PhasesOk(phase: map<TaskId, Phase>, grants: map<GrantId, Grant>, pools: map<PoolId, Pool>) {
    && (forall t :: t in phase && !phase[t].Releasing? ==> phase[t].pool in pools)
    && (forall t :: t in phase && phase[t].Releasing? ==>
          && phase[t].grant in grants
          && grants[phase[t].grant].use.Leaving? && grants[phase[t].grant].use.task == t)
    && (forall id :: id in grants && grants[id].use.Leaving? ==>
          grants[id].use.task in phase && phase[grants[id].use.task] == Releasing(id))
  }

  /** Grants of pool `p` in the hands of the application, and those on their way back. */
  ghost function HeldIds(grants: map<GrantId, Grant>, p: PoolId): set<GrantId> {
    set id | id in grants && grants[id].use == Held(p)
  }

  ghost function LeavingIds(grants: map<GrantId, Grant>, p: PoolId): set<GrantId> {
    set id | id in grants && grants[id].use.Leaving? && grants[id].use.pool == p
  }

  /** Tasks counted but not yet served, and among them those about to grow the pool. */
  ghost function Waiting(phase: map<TaskId, Phase>, p: PoolId): set<TaskId> {
    set t | t in phase && (phase[t] == Counted(p) || phase[t] == Growing(p))
  }

  ghost function Growers(phase: map<TaskId, Phase>, p: PoolId): set<TaskId> {
    set t | t in phase && phase[t] == Growing(p)
  }

  /** Conservation: the counter is what is held, awaited or lost to failed growths, and every block
      ever created is on the free chain, held or on its way back. */
  ghost predicate Balanced(pool: Pool, tally: Tally, held: nat, leaving: nat, waiting: nat, free: nat) {
    && (pool.Limited() ==> pool.allocCnt == held + waiting + tally.failed <= pool.qtyMax)
    && tally.created == free + held + leaving
  }

  ghost predicate CountsOk(s: State, chain: map<PoolId, seq<nat>>) {
    forall p :: p in s.pools ==>
      p in s.tally && p in chain
      && Balanced(s.pools[p], s.tally[p], |HeldIds(s.grants, p)|, |LeavingIds(s.grants, p)|,
                  |Waiting(s.phase, p)|, |chain[p]|)
  }

  ghost predicate InvWith(s: State, l: Ledger) {
    && SegsOk(s.segs) && CellsOk(s.segs, l.cells) && ShapesOk(l.cells)
    && PoolsOk(Homes(s.segs), s.pools) && GrantsOk(s.grants, s.nextId, s.pools, l.cells)
    && ChainsOk(s.mem, s.pools, l) && PhasesOk(s.phase, s.grants, s.pools)
    && CountsOk(s, l.chain)
  }

  ghost predicate Inv(s: State) {
    exists l :: InvWith(s, l)
  }
}
