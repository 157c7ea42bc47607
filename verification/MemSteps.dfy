/** Every step of the memory manager keeps the invariant. */
module MemSteps {
  import opened Arith
  import opened Machine
  import opened Segment
  import opened PtrMem
  import opened DynPoolCore
  import opened MemSystem
  import opened MemInvariant

  lemma InitKeeps()
    ensures Inv(EMPTY)
  {
    assert InvWith(EMPTY, Ledger(map[], map[]));
  }

  // ---------- segments ----------

  lemma AddSeg(segs: map<SegId, Seg>, g: SegId, base: Word, end: Word, pad: Word)
    requires SegsOk(segs) && g !in segs
    requires base <= end && end - base + 1 < WORD && IsPow2(pad)
    requires forall h :: h in segs ==> !Meets(segs[h], base, end)
    ensures SegsOk(segs[g := Seg(base, end, base, pad)])
  {
    assert Seg(base, end, base, pad).Wf();
  }

  /** Cells survive when segments keep their base and only advance. */
  lemma CellsAdvance(segs: map<SegId, Seg>, segs': map<SegId, Seg>, cells: Cells)
    requires CellsOk(segs, cells)
    requires forall g :: g in segs ==>
               g in segs' && segs'[g].base == segs[g].base && segs[g].Next() <= segs'[g].Next()
    ensures CellsOk(segs', cells)
  {
  }

  lemma SegsChangeKeeps(s: State, l: Ledger, segs': map<SegId, Seg>)
    requires InvWith(s, l) && Homes(s.segs) <= Homes(segs')
    requires SegsOk(segs') && CellsOk(segs', l.cells)
    ensures InvWith(s.(segs := segs'), l)
  {
  }

  lemma NewSegKeeps(s: State, l: Ledger, g: SegId, n: Seg)
    requires InvWith(s, l) && g !in s.segs && SegsOk(s.segs[g := n])
    ensures InvWith(s.(segs := s.segs[g := n]), l)
  {
    CellsAdvance(s.segs, s.segs[g := n], l.cells);
    SegsChangeKeeps(s, l, s.segs[g := n]);
  }

  /** What an accepted creation request has passed. */
  lemma SegCreateChecked(s: State, op: Op, end: Word)
    requires op.SegCreate? && end == (op.base + op.size - 1) % WORD
    requires DoSegCreate(s, op).1.Done?
    ensures op.base <= end && end - op.base + 1 < WORD && IsPow2(op.pad)
    ensures forall h :: h in s.segs ==> !Meets(s.segs[h], op.base, end)
  {
    assert Pow2(0) == PADDING_NONE;
    MathIsPwr2Exact(op.pad);
  }

  /** The two outcomes of a creation request. */
  lemma SegCreateOutcome(s: State, op: Op, end: Word)
    requires op.SegCreate? && end == (op.base + op.size - 1) % WORD
    ensures DoSegCreate(s, op).0
            == if DoSegCreate(s, op).1.Done?
               then s.(segs := s.segs[op.seg := Seg(op.base, end, op.base, op.pad)])
               else s
  {
  }

  lemma SegCreateKeeps(s: State, l: Ledger, op: Op)
    requires InvWith(s, l) && op.SegCreate? && op.seg !in s.segs
    ensures InvWith(DoSegCreate(s, op).0, l)
  {
    var end := (op.base + op.size - 1) % WORD;
    SegCreateOutcome(s, op, end);
    if DoSegCreate(s, op).1.Done? {
      SegCreateChecked(s, op, end);
      NewRangeKeeps(s, l, op.seg, op.base, end, op.pad);
    }
  }

  lemma NewRangeKeeps(s: State, l: Ledger, g: SegId, base: Word, end: Word, pad: Word)
    requires InvWith(s, l) && g !in s.segs && base <= end && end - base + 1 < WORD && IsPow2(pad)
    requires forall h :: h in s.segs ==> !Meets(s.segs[h], base, end)
    ensures InvWith(s.(segs := s.segs[g := Seg(base, end, base, pad)]), l)
  {
    AddSeg(s.segs, g, base, end, pad);
    NewSegKeeps(s, l, g, Seg(base, end, base, pad));
  }

  // ---------- stores by owners ----------

  /** A store inside a cell that is on no chain disturbs no chain. */
  lemma StoreKeepsChains(mem: Mem, mem': Mem, lo: nat, hi: nat, base: nat, segs: map<SegId, Seg>,
                         pools: map<PoolId, Pool>, l: Ledger)
    requires CellsOk(segs, l.cells) && PoolsOk(Homes(segs), pools) && ChainsOk(mem, pools, l)
    requires base in l.cells && l.cells[base].owner.Out?
    requires base <= lo <= hi <= l.cells[base].end && SameOutside(mem, mem', lo, hi)
    ensures ChainsOk(mem', pools, l)
  {
    forall p | p in pools
      ensures ChainOk(mem', l.cells, p, pools[p], l.chain[p])
    {
      var c := l.chain[p];
      forall i | 0 <= i < |c|
        ensures c[i] + PTR_SIZE <= lo || hi <= c[i]
      {
        assert c[i] != base;
      }
      ChainFrame(mem, mem', lo, hi, pools[p].freePtr, c);
    }
  }

  lemma OwnerStoreKeeps(s: State, l: Ledger, id: GrantId, a: nat, v: Byte)
    requires InvWith(s, l) && id in s.grants
    requires s.grants[id].base <= a < s.grants[id].base + s.grants[id].size
    ensures InvWith(s.(mem := StoreByte(s.mem, a, v)), l)
  {
    StoreKeepsChains(s.mem, StoreByte(s.mem, a, v), a, a + 1, s.grants[id].base, s.segs, s.pools, l);
  }

  // ---------- counting ----------

  lemma CountIssue(grants: map<GrantId, Grant>, id: GrantId, g: Grant, p: PoolId)
    requires id !in grants && !g.use.Leaving?
    ensures |HeldIds(grants[id := g], p)| == |HeldIds(grants, p)| + (if g.use == Held(p) then 1 else 0)
    ensures LeavingIds(grants[id := g], p) == LeavingIds(grants, p)
  {
    var h := HeldIds(grants, p);
    assert HeldIds(grants[id := g], p) == if g.use == Held(p) then h + {id} else h;
  }

  lemma CountLeave(grants: map<GrantId, Grant>, id: GrantId, q: PoolId, t: TaskId, p: PoolId)
    requires id in grants && grants[id].use == Held(q)
    ensures var grants' := grants[id := grants[id].(use := Leaving(q, t))];
            && |HeldIds(grants', p)| == |HeldIds(grants, p)| - (if p == q then 1 else 0)
            && |LeavingIds(grants', p)| == |LeavingIds(grants, p)| + (if p == q then 1 else 0)
  {
    var grants' := grants[id := grants[id].(use := Leaving(q, t))];
    var h, v := HeldIds(grants, p), LeavingIds(grants, p);
    assert HeldIds(grants', p) == if p == q then h - {id} else h;
    assert LeavingIds(grants', p) == if p == q then v + {id} else v;
  }

  lemma CountReturn(grants: map<GrantId, Grant>, id: GrantId, p: PoolId)
    requires id in grants && grants[id].use.Leaving?
    ensures HeldIds(grants - {id}, p) == HeldIds(grants, p)
    ensures |LeavingIds(grants - {id}, p)| == |LeavingIds(grants, p)| - (if p == grants[id].use.pool then 1 else 0)
  {
    var v := LeavingIds(grants, p);
    assert LeavingIds(grants - {id}, p) == if p == grants[id].use.pool then v - {id} else v;
  }

  ghost predicate WaitsFor(phase: map<TaskId, Phase>, t: TaskId, p: PoolId) {
    t in phase && (phase[t] == Counted(p) || phase[t] == Growing(p))
  }

  lemma CountPhase(phase: map<TaskId, Phase>, t: TaskId, ph: Phase, p: PoolId)
    ensures |Waiting(phase[t := ph], p)|
            == |Waiting(phase - {t}, p)| + (if WaitsFor(phase[t := ph], t, p) then 1 else 0)
    ensures |Waiting(phase, p)| == |Waiting(phase - {t}, p)| + (if WaitsFor(phase, t, p) then 1 else 0)
  {
    var w := Waiting(phase - {t}, p);
    assert Waiting(phase[t := ph], p) == if WaitsFor(phase[t := ph], t, p) then w + {t} else w;
    assert Waiting(phase, p) == if WaitsFor(phase, t, p) then w + {t} else w;
  }

  // ---------- carving new cells ----------

  lemma AdvanceSeg(segs: map<SegId, Seg>, g: SegId, seg': Seg)
    requires SegsOk(segs) && g in segs
    requires seg'.Wf() && seg'.base == segs[g].base && seg'.end == segs[g].end
    ensures SegsOk(segs[g := seg'])
  {
  }

  /** Cells carved between the old and the new next address of segment `g`. */
  ghost predicate Carved(added: Cells, g: SegId, lo: nat, hi: nat) {
    && (forall a :: a in added ==>
          && added[a].seg == g && lo <= a && added[a].end <= hi
          && 0 < added[a].shape.size && a + added[a].shape.size <= added[a].end)
    && (forall a, b :: a in added && b in added && a < b ==> added[a].end <= b)
  }

  /** An existing cell and one carved later do not meet, in the same segment or in another. */
  lemma OldAndNew(segs: map<SegId, Seg>, cells: Cells, a: nat, g: SegId, b: nat, end: nat)
    requires SegsOk(segs) && CellsOk(segs, cells) && a in cells && g in segs
    requires segs[g].Next() <= b && end <= segs[g].Limit()
    ensures cells[a].end <= b || end <= a
  {
    var h := cells[a].seg;
    assert segs[h].Wf() && segs[g].Wf();
    if h != g && segs[g].end >= segs[h].base {
      assert segs[h].end < segs[g].base;
    }
  }

  lemma AddCells(segs: map<SegId, Seg>, g: SegId, seg': Seg, cells: Cells, added: Cells)
    requires SegsOk(segs) && CellsOk(segs, cells) && g in segs
    requires seg'.Wf() && seg'.base == segs[g].base && seg'.end == segs[g].end
    requires segs[g].Next() <= seg'.Next() && Carved(added, g, segs[g].Next(), seg'.Next())
    ensures CellsOk(segs[g := seg'], cells + added) && cells.Keys !! added.Keys
  {
    forall a, b | a in cells && b in added
      ensures cells[a].end <= b || added[b].end <= a
    {
      OldAndNew(segs, cells, a, g, b, added[b].end);
    }
    CellsAdvance(segs, segs[g := seg'], cells);
    JoinCells(segs[g := seg'], g, cells, added, segs[g].Next());
  }

  lemma JoinCells(segs: map<SegId, Seg>, g: SegId, cells: Cells, added: Cells, lo: nat)
    requires CellsOk(segs, cells) && g in segs && segs[g].base <= lo && Carved(added, g, lo, segs[g].Next())
    requires forall a, b :: a in cells && b in added ==> cells[a].end <= b || added[b].end <= a
    ensures CellsOk(segs, cells + added) && cells.Keys !! added.Keys
  {
    forall a | a in cells
      ensures a !in added
    {
      assert a < cells[a].end;
    }
  }

  /** Grants and chains look only at the cells they own. */
  lemma MoreCells(s: State, l: Ledger, added: Cells)
    requires GrantsOk(s.grants, s.nextId, s.pools, l.cells) && ChainsOk(s.mem, s.pools, l)
    requires l.cells.Keys !! added.Keys
    ensures GrantsOk(s.grants, s.nextId, s.pools, l.cells + added)
    ensures ChainsOk(s.mem, s.pools, l.(cells := l.cells + added))
  {
  }

  lemma MoreShapes(cells: Cells, added: Cells)
    requires ShapesOk(cells) && ShapesOk(added)
    ensures ShapesOk(cells + added)
  {
  }

  // ---------- allocation from a segment ----------

  /** Everything the steps below need to know about a granted request. */
  lemma AllocOutcome(seg: Seg, size: Word, align: Word, pad: Word)
    requires seg.Wf() && IsPow2(pad) && pad > 0
    requires size > 0 && IsPow2(align) && align > 0 ==> GrantFits(seg, size, align, pad)
    ensures var (seg', r) := AllocInternal(seg, size, align, pad);
            r.Granted? ==>
              && seg'.Wf() && seg'.base == seg.base && seg'.end == seg.end && size > 0
              && seg.Next() <= r.addr && r.addr + size <= seg'.Next()
              && Placed(r.addr, seg'.Next(), Shape(size, align, pad))
  {
    MathIsPwr2Exact(align);
    if AllocInternal(seg, size, align, pad).1.Granted? {
      Pow2Divides(align, align);
      AllocRefinesExact(seg, size, align, pad);
      BlockPlacement(seg, size, align, pad);
    }
  }

  ghost predicate Taken(segs: map<SegId, Seg>, g: SegId, seg': Seg, a: nat, size: nat) {
    && g in segs && seg'.Wf() && seg'.base == segs[g].base && seg'.end == segs[g].end
    && segs[g].Next() <= a && size > 0 && a + size <= seg'.Next()
  }

  lemma CarveCell(segs: map<SegId, Seg>, cells: Cells, g: SegId, seg': Seg, a: nat, c: Cell)
    requires SegsOk(segs) && CellsOk(segs, cells) && Taken(segs, g, seg', a, c.shape.size)
    requires c.seg == g && c.end == seg'.Next()
    ensures SegsOk(segs[g := seg']) && CellsOk(segs[g := seg'], cells + map[a := c])
    ensures cells.Keys !! map[a := c].Keys
  {
    AdvanceSeg(segs, g, seg');
    AddCells(segs, g, seg', cells, map[a := c]);
  }

  lemma ShapeCell(cells: Cells, a: nat, c: Cell)
    requires ShapesOk(cells) && Placed(a, c.end, c.shape)
    ensures ShapesOk(cells + map[a := c])
  {
  }

  lemma IssueGrant(grants: map<GrantId, Grant>, id: GrantId, g: Grant, pools: map<PoolId, Pool>, cells: Cells,
                   phase: map<TaskId, Phase>)
    requires GrantsOk(grants, id, pools, cells) && PhasesOk(phase, grants, pools)
    requires GrantOk(pools, cells, id, g) && !g.use.Leaving?
    ensures GrantsOk(grants[id := g], id + 1, pools, cells) && PhasesOk(phase, grants[id := g], pools)
    ensures id !in grants
  {
  }

  lemma CountsIssue(s: State, s': State, chain: map<PoolId, seq<nat>>, g: Grant)
    requires CountsOk(s, chain) && s.nextId !in s.grants && g.use.Raw?
    requires s'.grants == s.grants[s.nextId := g]
    requires s'.pools == s.pools && s'.phase == s.phase && s'.tally == s.tally
    ensures CountsOk(s', chain)
  {
    forall p | p in s.pools
      ensures |HeldIds(s'.grants, p)| == |HeldIds(s.grants, p)|
      ensures LeavingIds(s'.grants, p) == LeavingIds(s.grants, p)
    {
      CountIssue(s.grants, s.nextId, g, p);
    }
  }

  /** A segment that advances houses what it housed. */
  lemma HomesAdvance(segs: map<SegId, Seg>, g: SegId, seg': Seg, pools: map<PoolId, Pool>)
    requires PoolsOk(Homes(segs), pools) && g in segs && segs[g].Next() <= seg'.Next()
    ensures PoolsOk(Homes(segs[g := seg']), pools) && Homes(segs) <= Homes(segs[g := seg'])
  {
  }

  /** The memory parts of the invariant when one more cell backs one more grant. */
  lemma GrantedKeeps(s: State, l: Ledger, g: SegId, seg': Seg, gr: Grant, s': State, l': Ledger)
    requires InvWith(s, l) && !gr.use.Leaving? && Taken(s.segs, g, seg', gr.base, gr.size)
    requires Placed(gr.base, seg'.Next(), GrantShape(gr))
    requires !gr.use.Raw? ==>
               gr.base != NULL && gr.use.pool in s.pools && GrantShape(gr) == PoolShape(s.pools[gr.use.pool])
    requires s'.segs == s.segs[g := seg'] && s'.grants == s.grants[s.nextId := gr] && s'.nextId == s.nextId + 1
    requires l'.cells == l.cells + map[gr.base := Cell(seg'.Next(), g, GrantShape(gr), Out(s.nextId))]
    requires l'.chain == l.chain
    ensures SegsOk(s'.segs) && CellsOk(s'.segs, l'.cells) && ShapesOk(l'.cells)
    ensures GrantsOk(s'.grants, s'.nextId, s.pools, l'.cells) && ChainsOk(s.mem, s.pools, l')
    ensures PhasesOk(s.phase, s'.grants, s.pools) && s.nextId !in s.grants
  {
    var c := Cell(seg'.Next(), g, GrantShape(gr), Out(s.nextId));
    CarveCell(s.segs, l.cells, g, seg', gr.base, c);
    ShapeCell(l.cells, gr.base, c);
    MoreCells(s, l, map[gr.base := c]);
    assert l' == l.(cells := l.cells + map[gr.base := c]);
    IssueGrant(s.grants, s.nextId, gr, s.pools, l'.cells, s.phase);
  }

  lemma RawGrantKeeps(s: State, l: Ledger, g: SegId, seg': Seg, gr: Grant) returns (l': Ledger)
    requires InvWith(s, l) && gr.use.Raw? && Taken(s.segs, g, seg', gr.base, gr.size)
    requires Placed(gr.base, seg'.Next(), GrantShape(gr))
    ensures InvWith(Issue(s.(segs := s.segs[g := seg']), gr), l')
  {
    var s' := Issue(s.(segs := s.segs[g := seg']), gr);
    l' := l.(cells := l.cells + map[gr.base := Cell(seg'.Next(), g, GrantShape(gr), Out(s.nextId))]);
    GrantedKeeps(s, l, g, seg', gr, s', l');
    HomesAdvance(s.segs, g, seg', s.pools);
    CountsIssue(s, s', l.chain, gr);
  }

  lemma SegAllocKeeps(s: State, l: Ledger, op: Op) returns (l': Ledger)
    requires InvWith(s, l) && op.SegAlloc? && op.seg in s.segs && s.segs[op.seg].pad > 0
    requires SoundIn(s, op.seg, op.size, op.entry.Align(), op.entry.Padding(s.segs[op.seg]))
    ensures InvWith(DoSegAlloc(s, op).0, l')
  {
    var seg := s.segs[op.seg];
    var align, pad := op.entry.Align(), op.entry.Padding(seg);
    assert Pow2(0) == PADDING_NONE;
    AllocOutcome(seg, op.size, align, pad);
    var (seg', r) := AllocInternal(seg, op.size, align, pad);
    if r.Granted? {
      l' := RawGrantKeeps(s, l, op.seg, seg', Grant(r.addr, op.size, align, pad, Raw));
    } else {
      l' := l;
    }
  }

  // ---------- the critical sections of the pool calls ----------

  /** Only the shape of a pool matters to grants, phases and other pools. */
  lemma Repool(homes: set<SegId>, pools: map<PoolId, Pool>, p: PoolId, pool': Pool, grants: map<GrantId, Grant>,
               nextId: GrantId, cells: Cells, phase: map<TaskId, Phase>)
    requires p in pools && PoolShape(pool') == PoolShape(pools[p]) && pool'.seg == pools[p].seg
    requires PoolsOk(homes, pools) && GrantsOk(grants, nextId, pools, cells) && PhasesOk(phase, grants, pools)
    ensures PoolsOk(homes, pools[p := pool']) && GrantsOk(grants, nextId, pools[p := pool'], cells)
    ensures PhasesOk(phase, grants, pools[p := pool'])
  {
  }

  /** A step of pool `p` leaves the balance of every other pool alone. */
  lemma CountsStep(s: State, s': State, chain: map<PoolId, seq<nat>>, chain': map<PoolId, seq<nat>>, p: PoolId)
    requires CountsOk(s, chain) && p in s'.pools && p in s'.tally && p in chain'
    requires Balanced(s'.pools[p], s'.tally[p], |HeldIds(s'.grants, p)|, |LeavingIds(s'.grants, p)|,
                      |Waiting(s'.phase, p)|, |chain'[p]|)
    requires forall q :: q in s'.pools && q != p ==>
               && q in s.pools && s'.pools[q] == s.pools[q]
               && q in s'.tally && q in s.tally && s'.tally[q] == s.tally[q]
               && q in chain' && q in chain && chain'[q] == chain[q]
               && |HeldIds(s'.grants, q)| == |HeldIds(s.grants, q)|
               && |LeavingIds(s'.grants, q)| == |LeavingIds(s.grants, q)|
               && |Waiting(s'.phase, q)| == |Waiting(s.phase, q)|
    ensures CountsOk(s', chain')
  {
  }

  lemma EnterPhase(phase: map<TaskId, Phase>, grants: map<GrantId, Grant>, pools: map<PoolId, Pool>, t: TaskId,
                   ph: Phase)
    requires PhasesOk(phase, grants, pools) && (t in phase ==> !phase[t].Releasing?)
    requires !ph.Releasing? && ph.pool in pools
    ensures PhasesOk(phase[t := ph], grants, pools)
  {
  }

  lemma LeavePhase(phase: map<TaskId, Phase>, grants: map<GrantId, Grant>, pools: map<PoolId, Pool>, t: TaskId)
    requires PhasesOk(phase, grants, pools) && (t in phase ==> !phase[t].Releasing?)
    ensures PhasesOk(phase - {t}, grants, pools)
  {
  }

  lemma GetCountCounts(s: State, s': State, chain: map<PoolId, seq<nat>>, t: TaskId, p: PoolId)
    requires CountsOk(s, chain) && t !in s.phase && p in s.pools && !s.pools[p].Exhausted()
    requires s' == DoGetCount(s, t, p).0
    ensures CountsOk(s', chain)
  {
    forall q | q in s.pools
      ensures |Waiting(s'.phase, q)| == |Waiting(s.phase, q)| + (if q == p then 1 else 0)
    {
      CountPhase(s.phase, t, Counted(p), q);
    }
    CountsStep(s, s', chain, chain, p);
  }

  lemma GetCountKeeps(s: State, l: Ledger, t: TaskId, p: PoolId)
    requires InvWith(s, l) && t !in s.phase && p in s.pools
    ensures InvWith(DoGetCount(s, t, p).0, l)
  {
    var s' := DoGetCount(s, t, p).0;
    if !s.pools[p].Exhausted() {
      Repool(Homes(s.segs), s.pools, p, s.pools[p].Reserved(), s.grants, s.nextId, l.cells, s.phase);
      EnterPhase(s.phase, s.grants, s'.pools, t, Counted(p));
      GetCountCounts(s, s', l.chain, t, p);
    }
  }

  /** Unlinking the head: the cell changes owner, the rest of the chain stays linked. */
  lemma PopChain(s: State, l: Ledger, p: PoolId, l': Ledger)
    requires p in s.pools && s.pools[p].freePtr != NULL && ChainsOk(s.mem, s.pools, l)
    requires p in l.chain && l.chain[p] != [] && l.chain[p][0] in l.cells
    requires l'.chain == l.chain[p := l.chain[p][1..]]
    requires l'.cells == l.cells[l.chain[p][0] := l.cells[l.chain[p][0]].(owner := Out(s.nextId))]
    ensures ChainsOk(s.mem, s.pools[p := s.pools[p].Popped(s.mem)], l')
  {
    var c := l.chain[p];
    forall q | q in s.pools && q != p
      ensures ChainOk(s.mem, l'.cells, q, s.pools[q], l.chain[q])
    {
      assert l.cells[c[0]].owner == OnChain(p);
    }
    assert FreeCells(l'.cells, p, PoolShape(s.pools[p]), c[1..]);
  }

  /** Changing the owner of one cell. */
  lemma ReownCell(segs: map<SegId, Seg>, cells: Cells, a: int, o: Owner)
    requires CellsOk(segs, cells) && ShapesOk(cells) && a in cells
    ensures CellsOk(segs, cells[a := cells[a].(owner := o)]) && ShapesOk(cells[a := cells[a].(owner := o)])
  {
  }

  lemma GrantsKeepCells(grants: map<GrantId, Grant>, nextId: GrantId, pools: map<PoolId, Pool>, cells: Cells,
                        cells': Cells)
    requires GrantsOk(grants, nextId, pools, cells)
    requires forall a :: a in cells && cells[a].owner.Out? && cells[a].owner.id in grants ==>
               a in cells' && cells'[a] == cells[a]
    ensures GrantsOk(grants, nextId, pools, cells')
  {
  }

  lemma PopCounts(s: State, l: Ledger, t: TaskId, p: PoolId, s': State, chain': map<PoolId, seq<nat>>)
    requires CountsOk(s, l.chain) && t in s.phase && s.phase[t] == Counted(p) && p in s.pools
    requires s.nextId !in s.grants && s.pools[p].freePtr != NULL && s' == DoGetPop(s, t, p).0
    requires p in l.chain && l.chain[p] != [] && chain' == l.chain[p := l.chain[p][1..]]
    ensures CountsOk(s', chain')
  {
    var g := PoolGrant(p, s.pools[p], s.pools[p].freePtr);
    forall q | q in s.pools
      ensures |HeldIds(s'.grants, q)| == |HeldIds(s.grants, q)| + (if q == p then 1 else 0)
      ensures LeavingIds(s'.grants, q) == LeavingIds(s.grants, q)
      ensures |Waiting(s'.phase, q)| == |Waiting(s.phase, q)| - (if q == p then 1 else 0)
    {
      CountIssue(s.grants, s.nextId, g, q);
      CountPhase(s.phase, t, Counted(p), q);
    }
    CountsStep(s, s', l.chain, chain', p);
  }

  lemma PopGrants(s: State, l: Ledger, p: PoolId, a: Word, cells': Cells, grants': map<GrantId, Grant>)
    requires InvWith(s, l) && p in s.pools && a in l.cells
    requires l.cells[a].owner == OnChain(p) && l.cells[a].shape == PoolShape(s.pools[p]) && a != NULL
    requires cells' == l.cells[a := l.cells[a].(owner := Out(s.nextId))]
    requires grants' == s.grants[s.nextId := PoolGrant(p, s.pools[p], a)]
    ensures CellsOk(s.segs, cells') && ShapesOk(cells') && s.nextId !in s.grants
    ensures GrantsOk(grants', s.nextId + 1, s.pools, cells') && PhasesOk(s.phase, grants', s.pools)
  {
    ReownCell(s.segs, l.cells, a, Out(s.nextId));
    GrantsKeepCells(s.grants, s.nextId, s.pools, l.cells, cells');
    IssueGrant(s.grants, s.nextId, PoolGrant(p, s.pools[p], a), s.pools, cells', s.phase);
  }

  lemma PopKeeps(s: State, l: Ledger, t: TaskId, p: PoolId, s': State, l': Ledger)
    requires InvWith(s, l) && t in s.phase && s.phase[t] == Counted(p) && p in s.pools
    requires s.pools[p].freePtr != NULL && s' == DoGetPop(s, t, p).0
    requires l.chain[p] != [] && l.chain[p][0] == s.pools[p].freePtr && s.pools[p].freePtr in l.cells
    requires l'.chain == l.chain[p := l.chain[p][1..]]
    requires l'.cells == l.cells[s.pools[p].freePtr := l.cells[s.pools[p].freePtr].(owner := Out(s.nextId))]
    ensures InvWith(s', l')
  {
    PopGrants(s, l, p, s.pools[p].freePtr, l'.cells, s'.grants);
    Repool(Homes(s.segs), s.pools, p, s.pools[p].Popped(s.mem), s'.grants, s'.nextId, l'.cells, s.phase);
    LeavePhase(s.phase, s'.grants, s'.pools, t);
    PopChain(s, l, p, l');
    PopCounts(s, l, t, p, s', l'.chain);
  }

  lemma MissKeeps(s: State, l: Ledger, t: TaskId, p: PoolId)
    requires InvWith(s, l) && t in s.phase && s.phase[t] == Counted(p) && p in s.pools
    ensures InvWith(s.(phase := s.phase[t := Growing(p)]), l)
  {
    var s' := s.(phase := s.phase[t := Growing(p)]);
    EnterPhase(s.phase, s.grants, s.pools, t, Growing(p));
    forall q | q in s.pools
      ensures |Waiting(s'.phase, q)| == |Waiting(s.phase, q)|
    {
      CountPhase(s.phase, t, Growing(p), q);
    }
    CountsStep(s, s', l.chain, l.chain, p);
  }

  lemma GetPopKeeps(s: State, l: Ledger, t: TaskId, p: PoolId) returns (l': Ledger)
    requires InvWith(s, l) && t in s.phase && s.phase[t] == Counted(p) && p in s.pools
    ensures InvWith(DoGetPop(s, t, p).0, l')
  {
    var a := s.pools[p].freePtr;
    if a == NULL {
      MissKeeps(s, l, t, p);
      l' := l;
    } else {
      assert ChainOk(s.mem, l.cells, p, s.pools[p], l.chain[p]);
      l' := Ledger(l.cells[a := l.cells[a].(owner := Out(s.nextId))], l.chain[p := l.chain[p][1..]]);
      PopKeeps(s, l, t, p, DoGetPop(s, t, p).0, l');
    }
  }

  lemma GrowCounts(s: State, s': State, l: Ledger, t: TaskId, p: PoolId, g: Grant)
    requires CountsOk(s, l.chain) && t in s.phase && s.phase[t] == Growing(p) && p in s.pools && p in s.tally
    requires s.nextId !in s.grants && g.use == Held(p)
    requires s'.pools == s.pools && s'.grants == s.grants[s.nextId := g] && s'.phase == s.phase - {t}
    requires s'.tally == s.tally[p := s.tally[p].(created := s.tally[p].created + 1)]
    ensures CountsOk(s', l.chain)
  {
    forall q | q in s.pools
      ensures |HeldIds(s'.grants, q)| == |HeldIds(s.grants, q)| + (if q == p then 1 else 0)
      ensures LeavingIds(s'.grants, q) == LeavingIds(s.grants, q)
      ensures |Waiting(s'.phase, q)| == |Waiting(s.phase, q)| - (if q == p then 1 else 0)
    {
      CountIssue(s.grants, s.nextId, g, q);
      CountPhase(s.phase, t, Counted(p), q);
    }
    CountsStep(s, s', l.chain, l.chain, p);
  }

  /** A block carved from a pool's segment is not at the null address. */
  lemma HomeBlock(s: State, p: PoolId, seg': Seg, a: Word)
    requires SegsOk(s.segs) && PoolsOk(Homes(s.segs), s.pools) && p in s.pools
    requires Taken(s.segs, s.pools[p].seg, seg', a, s.pools[p].blkSize)
    ensures a != NULL
  {
    var g := s.pools[p].seg;
    assert g in Homes(s.segs) && s.segs[g].Wf();
  }

  lemma GrownKeeps(s: State, l: Ledger, t: TaskId, p: PoolId, seg': Seg, a: Word, s': State, l': Ledger)
    requires InvWith(s, l) && t in s.phase && s.phase[t] == Growing(p) && p in s.pools && p in s.tally
    requires Taken(s.segs, s.pools[p].seg, seg', a, s.pools[p].blkSize)
    requires Placed(a, seg'.Next(), PoolShape(s.pools[p]))
    requires s' == Issue(s.(segs := s.segs[s.pools[p].seg := seg'], phase := s.phase - {t},
                            tally := s.tally[p := s.tally[p].(created := s.tally[p].created + 1)]),
                         PoolGrant(p, s.pools[p], a))
    requires l' == l.(cells := l.cells
                              + map[a := Cell(seg'.Next(), s.pools[p].seg, PoolShape(s.pools[p]), Out(s.nextId))])
    ensures InvWith(s', l')
  {
    var g := PoolGrant(p, s.pools[p], a);
    HomeBlock(s, p, seg', a);
    GrantedKeeps(s, l, s.pools[p].seg, seg', g, s', l');
    HomesAdvance(s.segs, s.pools[p].seg, seg', s.pools);
    LeavePhase(s.phase, s'.grants, s.pools, t);
    GrowCounts(s, s', l, t, p, g);
  }

  lemma GrowFailKeeps(s: State, l: Ledger, t: TaskId, p: PoolId, seg': Seg, r: AllocResult)
    requires InvWith(s, l) && t in s.phase && s.phase[t] == Growing(p) && p in s.pools && p in s.tally && !r.Granted?
    ensures InvWith(Grown(s, t, p, seg', r).0, l)
  {
    var s' := Grown(s, t, p, seg', r).0;
    LeavePhase(s.phase, s.grants, s.pools, t);
    forall q | q in s.pools
      ensures |Waiting(s'.phase, q)| == |Waiting(s.phase, q)| - (if q == p then 1 else 0)
    {
      CountPhase(s.phase, t, Counted(p), q);
    }
    CountsStep(s, s', l.chain, l.chain, p);
  }

  lemma GrowOutcome(s: State, l: Ledger, p: PoolId, seg': Seg, r: AllocResult)
    requires InvWith(s, l) && p in s.pools && s.pools[p].padding > 0
    requires SoundIn(s, s.pools[p].seg, s.pools[p].blkSize, s.pools[p].blkAlign, s.pools[p].padding)
    requires AllocInternal(s.segs[s.pools[p].seg], s.pools[p].blkSize, s.pools[p].blkAlign, s.pools[p].padding)
             == (seg', r)
    ensures r.Granted? ==>
              && Taken(s.segs, s.pools[p].seg, seg', r.addr, s.pools[p].blkSize)
              && Placed(r.addr, seg'.Next(), PoolShape(s.pools[p]))
  {
    var pool := s.pools[p];
    assert s.segs[pool.seg].Wf() && IsPow2(pool.padding);
    AllocOutcome(s.segs[pool.seg], pool.blkSize, pool.blkAlign, pool.padding);
  }

  lemma GrantedAnswer(s: State, l: Ledger, t: TaskId, p: PoolId, seg': Seg, r: AllocResult) returns (l': Ledger)
    requires InvWith(s, l) && t in s.phase && s.phase[t] == Growing(p) && p in s.pools && p in s.tally && r.Granted?
    requires Taken(s.segs, s.pools[p].seg, seg', r.addr, s.pools[p].blkSize)
    requires Placed(r.addr, seg'.Next(), PoolShape(s.pools[p]))
    ensures InvWith(Grown(s, t, p, seg', r).0, l')
  {
    var pool := s.pools[p];
    var c := Cell(seg'.Next(), pool.seg, PoolShape(pool), Out(s.nextId));
    l' := l.(cells := l.cells + map[r.addr := c]);
    GrownKeeps(s, l, t, p, seg', r.addr, Grown(s, t, p, seg', r).0, l');
  }

  lemma GetGrowKeeps(s: State, l: Ledger, t: TaskId, p: PoolId) returns (l': Ledger)
    requires InvWith(s, l) && t in s.phase && s.phase[t] == Growing(p) && p in s.pools && p in s.tally
    requires s.pools[p].padding > 0
    requires SoundIn(s, s.pools[p].seg, s.pools[p].blkSize, s.pools[p].blkAlign, s.pools[p].padding)
    ensures InvWith(DoGetGrow(s, t, p).0, l')
  {
    var pool := s.pools[p];
    var (seg', r) := AllocInternal(s.segs[pool.seg], pool.blkSize, pool.blkAlign, pool.padding);
    GrowOutcome(s, l, p, seg', r);
    if r.Granted? {
      l' := GrantedAnswer(s, l, t, p, seg', r);
    } else {
      l' := l;
      GrowFailKeeps(s, l, t, p, seg', r);
    }
  }

  // ---------- Free ----------

  lemma LeaveGrants(grants: map<GrantId, Grant>, id: GrantId, t: TaskId, nextId: GrantId, pools: map<PoolId, Pool>,
                    cells: Cells, phase: map<TaskId, Phase>, grants': map<GrantId, Grant>)
    requires GrantsOk(grants, nextId, pools, cells) && PhasesOk(phase, grants, pools)
    requires id in grants && grants[id].use.Held? && t !in phase
    requires grants' == grants[id := grants[id].(use := Leaving(grants[id].use.pool, t))]
    ensures GrantsOk(grants', nextId, pools, cells) && PhasesOk(phase[t := Releasing(id)], grants', pools)
  {
  }

  lemma FreeCountCounts(s: State, s': State, chain: map<PoolId, seq<nat>>, t: TaskId, id: GrantId, p: PoolId)
    requires CountsOk(s, chain) && t !in s.phase && id in s.grants && s.grants[id].use == Held(p) && p in s.pools
    requires !s.pools[p].NothingOut() && s' == DoFreeCount(s, t, id).0
    ensures CountsOk(s', chain)
  {
    forall q | q in s.pools
      ensures |HeldIds(s'.grants, q)| == |HeldIds(s.grants, q)| - (if q == p then 1 else 0)
      ensures |LeavingIds(s'.grants, q)| == |LeavingIds(s.grants, q)| + (if q == p then 1 else 0)
      ensures |Waiting(s'.phase, q)| == |Waiting(s.phase, q)|
    {
      CountLeave(s.grants, id, p, t, q);
      CountPhase(s.phase, t, Releasing(id), q);
    }
    CountsStep(s, s', chain, chain, p);
  }

  lemma FreeCountKeeps(s: State, l: Ledger, t: TaskId, id: GrantId)
    requires InvWith(s, l) && t !in s.phase
    requires id in s.grants && s.grants[id].use.Held? && s.grants[id].use.pool in s.pools
    ensures InvWith(DoFreeCount(s, t, id).0, l)
  {
    var p := s.grants[id].use.pool;
    var s' := DoFreeCount(s, t, id).0;
    if !s.pools[p].NothingOut() {
      LeaveGrants(s.grants, id, t, s.nextId, s.pools, l.cells, s.phase, s'.grants);
      Repool(Homes(s.segs), s.pools, p, s.pools[p].Released(), s'.grants, s.nextId, l.cells, s'.phase);
      FreeCountCounts(s, s', l.chain, t, id, p);
    }
  }

  /** Linking a block back: its cell changes owner and becomes the head of the chain. */
  lemma PushChain(s: State, l: Ledger, p: PoolId, a: Word, mem': Mem, l': Ledger)
    requires ChainsOk(mem', s.pools, l) && p in s.pools && a != NULL && a in l.cells
    requires l.cells[a].owner.Out? && l.cells[a].shape == PoolShape(s.pools[p])
    requires LoadPtr(mem', a) == s.pools[p].freePtr
    requires l'.chain == l.chain[p := [a] + l.chain[p]]
    requires l'.cells == l.cells[a := l.cells[a].(owner := OnChain(p))]
    ensures ChainsOk(mem', s.pools[p := s.pools[p].Pushed(a)], l')
  {
    var c := l.chain[p];
    assert ([a] + c)[1..] == c;
    assert ChainOk(mem', l.cells, p, s.pools[p], c);
    assert a !in c;
    forall q | q in s.pools && q != p
      ensures ChainOk(mem', l'.cells, q, s.pools[q], l.chain[q])
    {
    }
    assert NoDup([a] + c);
    assert FreeCells(l'.cells, p, PoolShape(s.pools[p]), [a] + c);
  }

  lemma ReturnGrants(grants: map<GrantId, Grant>, id: GrantId, t: TaskId, nextId: GrantId, pools: map<PoolId, Pool>,
                     cells: Cells, cells': Cells, phase: map<TaskId, Phase>)
    requires GrantsOk(grants, nextId, pools, cells) && PhasesOk(phase, grants, pools)
    requires id in grants && grants[id].use.Leaving? && t in phase && phase[t] == Releasing(id)
    requires forall a :: a in cells && cells[a].owner != Out(id) ==> a in cells' && cells'[a] == cells[a]
    ensures GrantsOk(grants - {id}, nextId, pools, cells') && PhasesOk(phase - {t}, grants - {id}, pools)
  {
  }

  lemma PushCounts(s: State, s': State, chain: map<PoolId, seq<nat>>, chain': map<PoolId, seq<nat>>, t: TaskId,
                   id: GrantId, p: PoolId)
    requires CountsOk(s, chain) && id in s.grants && s.grants[id].use.Leaving? && s.grants[id].use.pool == p
    requires t in s.phase && s.phase[t] == Releasing(id) && p in s.pools && s' == DoFreePush(s, t, id).0
    requires p in chain && chain' == chain[p := [s.grants[id].base] + chain[p]]
    ensures CountsOk(s', chain')
  {
    forall q | q in s.pools
      ensures HeldIds(s'.grants, q) == HeldIds(s.grants, q)
      ensures |LeavingIds(s'.grants, q)| == |LeavingIds(s.grants, q)| - (if q == p then 1 else 0)
      ensures |Waiting(s'.phase, q)| == |Waiting(s.phase, q)|
    {
      CountReturn(s.grants, id, q);
      CountPhase(s.phase, t, Releasing(id), q);
    }
    CountsStep(s, s', chain, chain', p);
  }

  lemma PushMemory(s: State, l: Ledger, p: PoolId, a: Word, mem': Mem, l': Ledger)
    requires InvWith(s, l) && p in s.pools && a in l.cells && l.cells[a].owner.Out? && a != NULL
    requires l.cells[a].shape == PoolShape(s.pools[p]) && mem' == StorePtr(s.mem, a, s.pools[p].freePtr)
    requires l'.chain == l.chain[p := [a] + l.chain[p]]
    requires l'.cells == l.cells[a := l.cells[a].(owner := OnChain(p))]
    ensures CellsOk(s.segs, l'.cells) && ShapesOk(l'.cells)
    ensures ChainsOk(mem', s.pools[p := s.pools[p].Pushed(a)], l')
  {
    StoreKeepsChains(s.mem, mem', a, a + PTR_SIZE, a, s.segs, s.pools, l);
    LoadStore(s.mem, a, s.pools[p].freePtr);
    PushChain(s, l, p, a, mem', l');
    ReownCell(s.segs, l.cells, a, OnChain(p));
  }

  lemma PushGrants(s: State, l: Ledger, t: TaskId, id: GrantId, p: PoolId, a: Word, s': State, cells': Cells)
    requires InvWith(s, l) && t in s.phase && s.phase[t] == Releasing(id)
    requires id in s.grants && s.grants[id].use.Leaving? && s.grants[id].use.pool == p && p in s.pools
    requires a in l.cells && l.cells[a].owner == Out(id) && s.grants[id].base == a
    requires cells' == l.cells[a := l.cells[a].(owner := OnChain(p))] && s' == DoFreePush(s, t, id).0
    ensures PoolsOk(Homes(s.segs), s'.pools) && GrantsOk(s'.grants, s.nextId, s'.pools, cells')
    ensures PhasesOk(s'.phase, s'.grants, s'.pools)
  {
    ReturnGrants(s.grants, id, t, s.nextId, s.pools, l.cells, cells', s.phase);
    Repool(Homes(s.segs), s.pools, p, s.pools[p].Pushed(a), s'.grants, s.nextId, cells', s'.phase);
  }

  lemma PushKeeps(s: State, l: Ledger, t: TaskId, id: GrantId, p: PoolId, a: Word, s': State, l': Ledger)
    requires InvWith(s, l) && t in s.phase && s.phase[t] == Releasing(id)
    requires id in s.grants && s.grants[id].use.Leaving? && s.grants[id].use.pool == p && p in s.pools
    requires a == s.grants[id].base && a in l.cells && l.cells[a].owner == Out(id) && a != NULL
    requires l.cells[a].shape == PoolShape(s.pools[p]) && s' == DoFreePush(s, t, id).0
    requires l'.chain == l.chain[p := [a] + l.chain[p]]
    requires l'.cells == l.cells[a := l.cells[a].(owner := OnChain(p))]
    ensures InvWith(s', l')
  {
    PushMemory(s, l, p, a, s'.mem, l');
    PushGrants(s, l, t, id, p, a, s', l'.cells);
    PushCounts(s, s', l.chain, l'.chain, t, id, p);
  }

  lemma FreePushKeeps(s: State, l: Ledger, t: TaskId, id: GrantId) returns (l': Ledger)
    requires InvWith(s, l) && t in s.phase && s.phase[t] == Releasing(id)
    requires id in s.grants && s.grants[id].use.Leaving? && s.grants[id].use.pool in s.pools
    ensures InvWith(DoFreePush(s, t, id).0, l')
  {
    var a, p := s.grants[id].base, s.grants[id].use.pool;
    assert GrantOk(s.pools, l.cells, id, s.grants[id]);
    l' := Ledger(l.cells[a := l.cells[a].(owner := OnChain(p))], l.chain[p := [a] + l.chain[p]]);
    PushKeeps(s, l, t, id, p, a, DoFreePush(s, t, id).0, l');
  }

  // ---------- pool creation ----------

  /** One free cell of `stride` bytes at each of the addresses `c`. */
  ghost function CellsAt(c: seq<nat>, stride: nat, g: SegId, shape: Shape, p: PoolId): Cells {
    map a: int | a in c :: Cell(a + stride, g, shape, OnChain(p))
  }

  /** The cells of the initial blocks. */
  ghost function InitialCells(blk: nat, stride: nat, n: nat, g: SegId, shape: Shape, p: PoolId): Cells {
    CellsAt(Slots(blk, stride, n), stride, g, shape, p)
  }

  ghost predicate Spaced(c: seq<nat>, stride: nat, lo: nat, hi: nat) {
    && (forall i :: 0 <= i < |c| ==> lo <= c[i] && c[i] + stride <= hi)
    && (forall i, j :: 0 <= i < j < |c| ==> c[i] + stride <= c[j])
  }

  lemma SlotBounds(stride: nat, n: nat, i: nat, j: nat)
    requires i < j <= n
    ensures i * stride + stride <= j * stride <= n * stride
  {
    MulMono(i + 1, j, stride);
    MulMono(j, n, stride);
  }

  lemma SlotsSpaced(blk: nat, stride: nat, n: nat, lo: nat)
    requires lo <= blk
    ensures Spaced(Slots(blk, stride, n), stride, lo, blk + n * stride)
  {
    var c := Slots(blk, stride, n);
    forall i, j | 0 <= i < j < n
      ensures c[i] + stride <= c[j]
    {
      SlotBounds(stride, n, i, j);
    }
    forall i | 0 <= i < n
      ensures lo <= c[i] && c[i] + stride <= blk + n * stride
    {
      SlotBounds(stride, n, i, i + 1);
    }
  }

  lemma SpacedCarved(c: seq<nat>, stride: nat, g: SegId, shape: Shape, p: PoolId, lo: nat, hi: nat)
    requires Spaced(c, stride, lo, hi) && 0 < shape.size <= stride
    ensures Carved(CellsAt(c, stride, g, shape, p), g, lo, hi)
    ensures NoDup(c) && FreeCells(CellsAt(c, stride, g, shape, p), p, shape, c)
  {
    var cells := CellsAt(c, stride, g, shape, p);
    forall a, b | a in cells && b in cells && a < b
      ensures cells[a].end <= b
    {
      var i :| 0 <= i < |c| && c[i] == a;
      var j :| 0 <= j < |c| && c[j] == b;
      assert i < j;
    }
  }

  lemma InitialCarved(blk: nat, stride: nat, n: nat, g: SegId, shape: Shape, p: PoolId, lo: nat)
    requires lo <= blk && 0 < shape.size <= stride
    ensures Carved(InitialCells(blk, stride, n, g, shape, p), g, lo, blk + n * stride)
    ensures NoDup(Slots(blk, stride, n))
    ensures FreeCells(InitialCells(blk, stride, n, g, shape, p), p, shape, Slots(blk, stride, n))
  {
    SlotsSpaced(blk, stride, n, lo);
    SpacedCarved(Slots(blk, stride, n), stride, g, shape, p, lo, blk + n * stride);
  }

  /** Every initial block is aligned and owns whole lines of its padding. */
  lemma InitialPlaced(blk: nat, stride: nat, n: nat, g: SegId, shape: Shape, p: PoolId)
    requires shape.align > 0 && shape.padding > 0 && shape.align % shape.padding == 0
    requires blk % shape.align == 0 && stride % shape.align == 0 && shape.size <= stride
    ensures ShapesOk(InitialCells(blk, stride, n, g, shape, p))
  {
    var cells := InitialCells(blk, stride, n, g, shape, p);
    forall a | a in cells
      ensures Placed(a, cells[a].end, shape)
    {
      var i :| 0 <= i < n && Slots(blk, stride, n)[i] == a;
      ModMultipleOf(stride, i, shape.align);
      ModSum(blk, i * stride, shape.align);
      ModSum(a, stride, shape.align);
      ModTrans(a, shape.align, shape.padding);
      ModTrans(a + stride, shape.align, shape.padding);
      RoundUpLeast(a + shape.size, shape.padding, a + stride);
    }
  }

  lemma ModMultipleOf(n: nat, k: nat, d: nat)
    requires d > 0 && n % d == 0
    ensures (k * n) % d == 0
  {
    var q := n / d;
    assert n == q * d;
    assert k * n == (k * q) * d;
    ModMultiple(d, k * q);
  }

  /** Threading the new blocks writes only between the old and the new next address. */
  lemma FoundChains(s: State, l: Ledger, g: SegId, mem': Mem, lo: nat, hi: nat)
    requires SegsOk(s.segs) && CellsOk(s.segs, l.cells)
    requires PoolsOk(Homes(s.segs), s.pools) && ChainsOk(s.mem, s.pools, l)
    requires g in s.segs && s.segs[g].Next() <= lo && hi <= s.segs[g].Limit() && SameOutside(s.mem, mem', lo, hi)
    ensures ChainsOk(mem', s.pools, l)
  {
    forall q | q in s.pools
      ensures ChainOk(mem', l.cells, q, s.pools[q], l.chain[q])
    {
      var c := l.chain[q];
      forall i | 0 <= i < |c|
        ensures c[i] + PTR_SIZE <= lo || hi <= c[i]
      {
        OldAndNew(s.segs, l.cells, c[i], g, lo, hi);
      }
      ChainFrame(s.mem, mem', lo, hi, s.pools[q].freePtr, c);
    }
  }

  /** A new pool joins: nothing yet refers to it. */
  lemma AddPool(homes: set<SegId>, pools: map<PoolId, Pool>, p: PoolId, pool: Pool, grants: map<GrantId, Grant>,
                nextId: GrantId, cells: Cells, phase: map<TaskId, Phase>)
    requires p !in pools && pool.seg in homes && pool.blkSize >= PTR_SIZE
    requires IsPow2(pool.blkAlign) && IsPow2(pool.padding)
    requires PoolsOk(homes, pools) && GrantsOk(grants, nextId, pools, cells) && PhasesOk(phase, grants, pools)
    ensures PoolsOk(homes, pools[p := pool]) && GrantsOk(grants, nextId, pools[p := pool], cells)
    ensures PhasesOk(phase, grants, pools[p := pool])
    ensures HeldIds(grants, p) == {} && LeavingIds(grants, p) == {} && Waiting(phase, p) == {}
  {
    forall id | id in grants
      ensures grants[id].use.Raw? || grants[id].use.pool != p
    {
      assert GrantOk(pools, cells, id, grants[id]);
    }
    assert forall id :: id !in HeldIds(grants, p) && id !in LeavingIds(grants, p);
    assert forall t :: t !in Waiting(phase, p);
  }

  lemma AddChain(mem: Mem, pools: map<PoolId, Pool>, l: Ledger, p: PoolId, pool: Pool, c: seq<nat>)
    requires p !in pools && ChainsOk(mem, pools, l) && ChainOk(mem, l.cells, p, pool, c)
    ensures ChainsOk(mem, pools[p := pool], l.(chain := l.chain[p := c]))
  {
  }

  lemma AddCounts(s: State, s': State, chain: map<PoolId, seq<nat>>, p: PoolId, pool: Pool, c: seq<nat>)
    requires CountsOk(s, chain) && p !in s.pools && pool.allocCnt == 0
    requires s'.pools == s.pools[p := pool] && s'.grants == s.grants && s'.phase == s.phase
    requires s'.tally == s.tally[p := Tally(|c|, 0)]
    requires HeldIds(s.grants, p) == {} && LeavingIds(s.grants, p) == {} && Waiting(s.phase, p) == {}
    ensures CountsOk(s', chain[p := c])
  {
    CountsStep(s, s', chain, chain[p := c], p);
  }

  lemma EmptyPoolKeeps(s: State, l: Ledger, p: PoolId, pool: Pool) returns (l': Ledger)
    requires InvWith(s, l) && p !in s.pools && pool.freePtr == NULL && pool.allocCnt == 0
    requires pool.seg in Homes(s.segs) && pool.blkSize >= PTR_SIZE && IsPow2(pool.blkAlign) && IsPow2(pool.padding)
    ensures InvWith(s.(pools := s.pools[p := pool], tally := s.tally[p := Tally(0, 0)]), l')
  {
    var s' := s.(pools := s.pools[p := pool], tally := s.tally[p := Tally(0, 0)]);
    l' := l.(chain := l.chain[p := []]);
    AddPool(Homes(s.segs), s.pools, p, pool, s.grants, s.nextId, l.cells, s.phase);
    AddChain(s.mem, s.pools, l, p, pool, []);
    AddCounts(s, s', l.chain, p, pool, []);
  }

  lemma FoundCells(s: State, l: Ledger, g: SegId, seg': Seg, added: Cells)
    requires InvWith(s, l) && g in s.segs && seg'.Wf() && seg'.base == s.segs[g].base && seg'.end == s.segs[g].end
    requires s.segs[g].Next() <= seg'.Next() && Carved(added, g, s.segs[g].Next(), seg'.Next()) && ShapesOk(added)
    ensures SegsOk(s.segs[g := seg']) && CellsOk(s.segs[g := seg'], l.cells + added) && ShapesOk(l.cells + added)
    ensures GrantsOk(s.grants, s.nextId, s.pools, l.cells + added) && l.cells.Keys !! added.Keys
  {
    AdvanceSeg(s.segs, g, seg');
    AddCells(s.segs, g, seg', l.cells, added);
    MoreShapes(l.cells, added);
    MoreCells(s, l, added);
  }

  lemma ChainMoreCells(mem: Mem, pools: map<PoolId, Pool>, l: Ledger, added: Cells)
    requires ChainsOk(mem, pools, l) && l.cells.Keys !! added.Keys
    ensures ChainsOk(mem, pools, l.(cells := l.cells + added))
  {
  }

  /** What the founding allocation establishes about blocks `blk`, `blk + stride`, ... */
  ghost predicate Plot(s: State, pool: Pool, seg': Seg, blk: Word, stride: Word, n: Word) {
    && pool.seg in Homes(s.segs) && seg'.Wf() && seg'.base == s.segs[pool.seg].base && seg'.end == s.segs[pool.seg].end
    && n > 0 && PTR_SIZE <= pool.blkSize <= stride
    && s.segs[pool.seg].Next() <= blk && seg'.Next() == blk + n * stride
  }

  lemma FoundMemory(s: State, l: Ledger, p: PoolId, pool: Pool, seg': Seg, blk: Word, stride: Word, n: Word,
                    added: Cells, mem': Mem, pools': map<PoolId, Pool>, l': Ledger)
    requires SegsOk(s.segs) && CellsOk(s.segs, l.cells) && PoolsOk(Homes(s.segs), s.pools)
    requires ChainsOk(s.mem, s.pools, l) && p !in s.pools && Plot(s, pool, seg', blk, stride, n)
    requires mem' == Thread(s.mem, blk, stride, n) && pools' == s.pools[p := pool.(freePtr := blk)]
    requires added == InitialCells(blk, stride, n, pool.seg, PoolShape(pool), p) && l.cells.Keys !! added.Keys
    requires l' == Ledger(l.cells + added, l.chain[p := Slots(blk, stride, n)])
    ensures ChainsOk(mem', pools', l')
  {
    var c := Slots(blk, stride, n);
    ThreadChains(s.mem, blk, stride, n, blk + n * stride);
    FoundChains(s, l, pool.seg, mem', blk, blk + n * stride);
    ChainMoreCells(mem', s.pools, l, added);
    InitialCarved(blk, stride, n, pool.seg, PoolShape(pool), p, blk);
    assert FreeCells(l'.cells, p, PoolShape(pool), c);
    AddChain(mem', s.pools, l.(cells := l.cells + added), p, pool.(freePtr := blk), c);
  }

  lemma FoundedKeeps(s: State, l: Ledger, p: PoolId, pool: Pool, seg': Seg, blk: Word, stride: Word, n: Word)
    returns (l': Ledger)
    requires InvWith(s, l) && p !in s.pools && Plot(s, pool, seg', blk, stride, n) && pool.allocCnt == 0
    requires IsPow2(pool.blkAlign) && IsPow2(pool.padding)
    requires ShapesOk(InitialCells(blk, stride, n, pool.seg, PoolShape(pool), p))
    ensures InvWith(Founded(s, p, pool, seg', blk, stride, n), l')
  {
    var added := InitialCells(blk, stride, n, pool.seg, PoolShape(pool), p);
    l' := Ledger(l.cells + added, l.chain[p := Slots(blk, stride, n)]);
    InitialCarved(blk, stride, n, pool.seg, PoolShape(pool), p, s.segs[pool.seg].Next());
    FoundCells(s, l, pool.seg, seg', added);
    FoundedWith(s, l, p, pool, seg', blk, stride, n, added, Founded(s, p, pool, seg', blk, stride, n), l');
  }

  lemma FoundedWith(s: State, l: Ledger, p: PoolId, pool: Pool, seg': Seg, blk: Word, stride: Word, n: Word,
                    added: Cells, s': State, l': Ledger)
    requires InvWith(s, l) && p !in s.pools && Plot(s, pool, seg', blk, stride, n) && pool.allocCnt == 0
    requires IsPow2(pool.blkAlign) && IsPow2(pool.padding)
    requires added == InitialCells(blk, stride, n, pool.seg, PoolShape(pool), p) && l.cells.Keys !! added.Keys
    requires s' == Founded(s, p, pool, seg', blk, stride, n)
    requires l' == Ledger(l.cells + added, l.chain[p := Slots(blk, stride, n)])
    requires SegsOk(s'.segs) && CellsOk(s'.segs, l'.cells) && ShapesOk(l'.cells)
    requires GrantsOk(s.grants, s.nextId, s.pools, l'.cells)
    ensures InvWith(s', l')
  {
    FoundMemory(s, l, p, pool, seg', blk, stride, n, added, s'.mem, s'.pools, l');
    FoundPool(s, l, p, pool.(freePtr := blk), seg', s', l', Slots(blk, stride, n));
  }

  /** The parts of the invariant that a new pool does not disturb. */
  lemma FoundPool(s: State, l: Ledger, p: PoolId, pool: Pool, seg': Seg, s': State, l': Ledger, c: seq<nat>)
    requires PoolsOk(Homes(s.segs), s.pools) && PhasesOk(s.phase, s.grants, s.pools) && CountsOk(s, l.chain)
    requires p !in s.pools && pool.seg in Homes(s.segs) && s.segs[pool.seg].Next() <= seg'.Next() && pool.allocCnt == 0
    requires pool.blkSize >= PTR_SIZE && IsPow2(pool.blkAlign) && IsPow2(pool.padding)
    requires GrantsOk(s.grants, s.nextId, s.pools, l'.cells) && l'.chain == l.chain[p := c]
    requires s'.segs == s.segs[pool.seg := seg'] && s'.pools == s.pools[p := pool]
    requires s'.grants == s.grants && s'.nextId == s.nextId && s'.phase == s.phase
    requires s'.tally == s.tally[p := Tally(|c|, 0)]
    ensures PoolsOk(Homes(s'.segs), s'.pools) && GrantsOk(s'.grants, s'.nextId, s'.pools, l'.cells)
    ensures PhasesOk(s'.phase, s'.grants, s'.pools) && CountsOk(s', l'.chain)
  {
    HomesAdvance(s.segs, pool.seg, seg', s.pools);
    AddPool(Homes(s'.segs), s.pools, p, pool, s.grants, s.nextId, l'.cells, s.phase);
    AddCounts(s, s', l.chain, p, pool, c);
  }

  /** The stride is the exact rounding whenever the initial blocks fit in a word together. */
  lemma StrideExact(blkSize: Word, worst: Word, n: Word)
    requires IsPow2(worst) && worst > 0 && blkSize >= PTR_SIZE && n > 0
    requires InitBytes(blkSize, worst, n) < WORD
    ensures Stride(blkSize, worst) == RoundUp(blkSize, worst)
    ensures Stride(blkSize, worst) * n == InitBytes(blkSize, worst, n) > 0
    ensures Stride(blkSize, worst) * n % WORD == InitBytes(blkSize, worst, n)
  {
    var r := RoundUp(blkSize, worst);
    FactorBelow(r, n);
    RoundCommutesWithWrap(blkSize, worst);
    SmallMod(blkSize);
    SmallMod(r);
    SmallMod(r * n);
  }

  lemma FactorBelow(r: nat, n: nat)
    requires n > 0
    ensures r <= r * n
  {
  }

  lemma FoundOutcome(seg: Seg, stride: Word, n: Word, worst: Word, total: Word)
    requires seg.Wf() && IsPow2(worst) && worst > 0 && total == stride * n && total > 0
    requires seg.Fits(total, worst, PADDING_NONE)
    ensures var (seg', r) := AllocInternal(seg, total, worst, PADDING_NONE);
            r.Granted? ==>
              && seg'.Wf() && seg'.base == seg.base && seg'.end == seg.end
              && seg.Next() <= r.addr && seg'.Next() == r.addr + n * stride && r.addr % worst == 0
  {
    assert Pow2(0) == PADDING_NONE;
    MathIsPwr2Exact(worst);
    AllocRefinesExact(seg, total, worst, PADDING_NONE);
    BlockPlacement(seg, total, worst, PADDING_NONE);
    RoundUpOne(seg.BlkAt(worst, PADDING_NONE) + total);
  }

  lemma FoundKeeps(s: State, l: Ledger, p: PoolId, pool: Pool, n: Word, stride: Word, seg': Seg, r: AllocResult)
    returns (l': Ledger)
    requires InvWith(s, l) && p !in s.pools && pool.seg in Homes(s.segs) && pool.allocCnt == 0
    requires pool.blkSize >= PTR_SIZE && n > 0 && IsPow2(pool.blkAlign) && IsPow2(pool.padding)
    requires pool.blkAlign > 0 && pool.padding > 0 && pool.blkAlign % pool.padding == 0
    requires stride == RoundUp(pool.blkSize, pool.blkAlign) && r.Granted?
    requires seg'.Wf() && seg'.base == s.segs[pool.seg].base && seg'.end == s.segs[pool.seg].end
    requires s.segs[pool.seg].Next() <= r.addr && seg'.Next() == r.addr + n * stride && r.addr % pool.blkAlign == 0
    ensures InvWith(Founded(s, p, pool, seg', r.addr, stride, n), l')
  {
    InitialPlaced(r.addr, stride, n, pool.seg, PoolShape(pool), p);
    l' := FoundedKeeps(s, l, p, pool, seg', r.addr, stride, n);
  }

  lemma PoolCreateKeeps(s: State, l: Ledger, op: Op) returns (l': Ledger)
    requires InvWith(s, l) && op.PoolCreate? && op.pool !in s.pools && op.seg in s.segs && s.segs[op.seg].pad > 0
    requires op.blkSize >= PTR_SIZE && s.segs[op.seg].Next() > 0
    requires SoundFounding(s.segs[op.seg], op.blkSize,
                           Max(op.blkAlign, if op.hw then s.segs[op.seg].pad else PADDING_NONE), op.qtyInit)
    ensures InvWith(DoPoolCreate(s, op).0, l')
  {
    if DoPoolCreate(s, op).1.Done? {
      var seg := s.segs[op.seg];
      var pad := if op.hw then seg.pad else PADDING_NONE;
      var worst := Max(op.blkAlign, pad);
      assert Pow2(0) == PADDING_NONE && seg.Wf();
      MathIsPwr2Exact(op.blkAlign);
      MaxPow2(op.blkAlign, pad);
      var pool := Pool(op.seg, op.blkSize, worst, pad, NULL, op.qtyMax, 0);
      if op.qtyInit == 0 {
        l' := EmptyPoolKeeps(s, l, op.pool, pool);
      } else {
        l' := FirstBlocksKeep(s, l, op.pool, pool, op.qtyInit);
      }
    } else {
      l' := l;
    }
  }

  lemma FirstBlocksKeep(s: State, l: Ledger, p: PoolId, pool: Pool, n: Word) returns (l': Ledger)
    requires InvWith(s, l) && p !in s.pools && pool.seg in Homes(s.segs) && pool.allocCnt == 0
    requires pool.blkSize >= PTR_SIZE && n > 0 && IsPow2(pool.blkAlign) && IsPow2(pool.padding)
    requires pool.blkAlign > 0 && pool.padding > 0 && pool.blkAlign % pool.padding == 0
    requires SoundFounding(s.segs[pool.seg], pool.blkSize, pool.blkAlign, n)
    ensures var stride := Stride(pool.blkSize, pool.blkAlign);
            var (seg', r) := AllocInternal(s.segs[pool.seg], stride * n % WORD, pool.blkAlign, PADDING_NONE);
            r.Granted? ==> InvWith(Founded(s, p, pool, seg', r.addr, stride, n), l')
  {
    var stride := Stride(pool.blkSize, pool.blkAlign);
    var (seg', r) := AllocInternal(s.segs[pool.seg], stride * n % WORD, pool.blkAlign, PADDING_NONE);
    if r.Granted? {
      StrideExact(pool.blkSize, pool.blkAlign, n);
      assert s.segs[pool.seg].Wf();
      FoundOutcome(s.segs[pool.seg], stride, n, pool.blkAlign, InitBytes(pool.blkSize, pool.blkAlign, n));
      l' := FoundKeeps(s, l, p, pool, n, stride, seg', r);
    } else {
      l' := l;
    }
  }
}
