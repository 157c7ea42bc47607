/** Static pools: a table of free block pointers and an index, with argument checks on. */
module StaticPool {
  import opened Arith
  import opened Machine
  import opened PtrMem
  import opened Segment

  datatype Err = None | NullPtr | InvalidBlkSize | InvalidBlkAddr | AlreadyInPool | PoolFull | PoolEmpty

  /** What a pool is: `n` blocks of `size` bytes from `start`; the free ones in the order they will
      be reused (last first), and the ones handed out and not returned. */
  datatype View = View(start: Word, size: Word, n: Word, free: seq<Word>, out: set<Word>) {

    predicate IsBlock(p: Word) {
      size > 0 && start <= p && (p - start) % size == 0 && (p - start) / size < n
    }

    ghost function Blocks(): set<Word> {
      set p: Word | IsBlock(p)
    }

    ghost predicate Geometry() {
      start != NULL && size > 0 && n > 0 && start + n * size <= WORD
    }

    /** The free entries are distinct, and with the outstanding blocks they make up the pool. */
    ghost predicate Partitioned() {
      && Geometry()
      && (forall i, j :: 0 <= i < j < |free| ==> free[i] != free[j])
      && (forall i :: 0 <= i < |free| ==> IsBlock(free[i]) && free[i] !in out)
      && (forall p: Word :: IsBlock(p) <==> p in out || p in free)
    }
  }

  /** Mem_PoolBlkGet. */
  function Get(v: View, size: Word): (View, Word, Err) {
    if size < 1 || size > v.size then (v, NULL, InvalidBlkSize)
    else if v.free == [] then (v, NULL, PoolEmpty)
    else
      var p := v.free[|v.free| - 1];
      (v.(free := v.free[..|v.free| - 1], out := v.out + {p}), p, None)
  }

  /** Mem_PoolBlkFree, for any pointer whatever. */
  function Free(v: View, p: Word): (View, Err) {
    if p == NULL then (v, NullPtr)
    else if !v.IsBlock(p) then (v, InvalidBlkAddr)
    else if p in v.free then (v, AlreadyInPool)
    else if |v.free| >= v.n then (v, PoolFull)
    else (v.(free := v.free + [p], out := v.out - {p}), None)
  }

  lemma GetKeeps(v: View, size: Word)
    requires v.Partitioned()
    ensures Get(v, size).0.Partitioned()
    ensures var (v', p, e) := Get(v, size);
            e == None ==> p != NULL && v.IsBlock(p) && p !in v.out && v'.out == v.out + {p}
  {
    if Get(v, size).2 == None {
      var k := |v.free| - 1;
      assert v.free == v.free[..k] + [v.free[k]];
    }
  }

  /** A Get after an accepted Free returns the block just freed. */
  lemma FreeThenGet(v: View, p: Word, size: Word)
    requires v.Partitioned() && p in v.out && 1 <= size <= v.size
    ensures Free(v, p).1 == None && Get(Free(v, p).0, size).1 == p && Get(Free(v, p).0, size).2 == None
    ensures Get(Free(v, p).0, size).0 == v
  {
    FreeKeeps(v, p);
    var u := Free(v, p).0;
    assert u.free[..|u.free| - 1] == v.free;
    assert u.out + {p} == v.out;
  }

  // ---------- pigeonhole ----------

  /** The first `k` block addresses. */
  ghost function FirstBlocks(v: View, k: nat): (r: set<int>)
    ensures |r| <= k
  {
    if k == 0 then {} else FirstBlocks(v, k - 1) + {v.start + (k - 1) * v.size}
  }

  lemma {:induction false} InFirstBlocks(v: View, i: nat, k: nat)
    requires i < k
    ensures v.start + i * v.size in FirstBlocks(v, k)
  {
    if i < k - 1 {
      InFirstBlocks(v, i, k - 1);
    }
  }

  ghost function Members(c: seq<Word>): set<int> {
    set x | x in c
  }

  lemma {:induction false} DistinctCount(c: seq<Word>)
    requires forall i, j :: 0 <= i < j < |c| ==> c[i] != c[j]
    ensures |Members(c)| == |c|
  {
    if c != [] {
      var k := |c| - 1;
      DistinctCount(c[..k]);
      assert c == c[..k] + [c[k]];
      assert Members(c) == Members(c[..k]) + {c[k] as int};
    }
  }

  lemma BlockInFirst(v: View, p: Word)
    requires v.IsBlock(p)
    ensures p in FirstBlocks(v, v.n)
  {
    var i := (p - v.start) / v.size;
    assert p == v.start + i * v.size;
    InFirstBlocks(v, i, v.n);
  }

  /** A full table holds every block. */
  lemma FullHoldsAll(v: View, p: Word)
    requires v.Partitioned() && v.IsBlock(p) && p !in v.free
    ensures |v.free| < v.n
  {
    DistinctCount(v.free);
    forall q: int | q in Members(v.free) + {p as int}
      ensures q in FirstBlocks(v, v.n)
    {
      BlockInFirst(v, q);
    }
    SubsetSize(Members(v.free) + {p as int}, FirstBlocks(v, v.n));
  }

  /** FREE: a full pool is never reported; a pointer is accepted exactly when it is outstanding;
      everything else is rejected without change. */
  lemma FreeKeeps(v: View, p: Word)
    requires v.Partitioned()
    ensures Free(v, p).0.Partitioned() && Free(v, p).1 != PoolFull
    ensures Free(v, p).1 == None <==> p in v.out
    ensures Free(v, p).1 != None ==> Free(v, p).0 == v
  {
    if v.IsBlock(p) && p !in v.free {
      FullHoldsAll(v, p);
      var f := v.free + [p];
      assert forall q: Word :: q in f <==> q in v.free || q == p;
    }
  }

  /** Mem_PoolBlkGet in terms of the request and of the blocks that are out: a block exactly when the
      size is in range and some block is not out; on every error no block and no change. */
  ghost predicate GetAnswers(v: View, size: Word, v': View, p: Word, e: Err) {
    && (e == None <==> 1 <= size <= v.size && |v.out| < v.n)
    && (e == PoolEmpty <==> 1 <= size <= v.size && |v.out| == v.n)
    && (e == InvalidBlkSize <==> size == 0 || size > v.size)
    && (e != None ==> p == NULL && v' == v)
    && (e == None ==> p != NULL && v.IsBlock(p) && p !in v.out && v'.out == v.out + {p})
  }

  lemma GetExact(v: View, size: Word)
    requires v.Partitioned()
    ensures var (v', p, e) := Get(v, size); GetAnswers(v, size, v', p, e)
  {
    GetKeeps(v, size);
    Conserved(v);
  }

  lemma GetIs(v: View, size: Word, v': View, p: Word, e: Err)
    requires v.Partitioned() && Get(v, size) == (v', p, e)
    ensures GetAnswers(v, size, v', p, e)
  {
    GetExact(v, size);
  }

  /** Mem_PoolBlkFree, cause by cause. */
  ghost predicate FreeAnswers(v: View, p: Word, v': View, e: Err) {
    && (e == NullPtr <==> p == NULL)
    && (e == InvalidBlkAddr <==> p != NULL && !v.IsBlock(p))
    && (e == AlreadyInPool <==> v.IsBlock(p) && p !in v.out)
    && (e == None <==> p in v.out)
    && (e == None ==> v'.out == v.out - {p})
    && (e != None ==> v' == v)
  }

  lemma FreeExact(v: View, p: Word)
    requires v.Partitioned()
    ensures var (v', e) := Free(v, p); FreeAnswers(v, p, v', e)
  {
    FreeKeeps(v, p);
  }

  // ---------- runs ----------

  /** Any call with any argument: no caller obligation at all. */
  datatype Call = GetCall(size: Word) | FreeCall(p: Word)

  function Apply(v: View, c: Call): View {
    match c
    case GetCall(size) => Get(v, size).0
    case FreeCall(p) => Free(v, p).0
  }

  function Run(v: View, cs: seq<Call>): View {
    if cs == [] then v else Apply(Run(v, cs[..|cs| - 1]), cs[|cs| - 1])
  }

  /** PARTITION: after every sequence of calls with arbitrary pointers and sizes the pool is still
      partitioned into its free table and its outstanding blocks. */
  lemma {:induction false} EveryRunPartitions(v: View, cs: seq<Call>)
    requires v.Partitioned()
    ensures Run(v, cs).Partitioned() && |Run(v, cs).free| + |Run(v, cs).out| == v.n
    ensures Run(v, cs) == v.(free := Run(v, cs).free, out := Run(v, cs).out)
  {
    if cs != [] {
      var k := |cs| - 1;
      EveryRunPartitions(v, cs[..k]);
      var u := Run(v, cs[..k]);
      match cs[k]
      case GetCall(size) => GetKeeps(u, size);
      case FreeCall(p) => FreeKeeps(u, p);
    }
    Conserved(Run(v, cs));
  }

  lemma MulStep(k: nat, c: nat)
    requires k > 0
    ensures k * c == (k - 1) * c + c
  {
  }

  lemma {:induction false} FirstBlocksCount(v: View, k: nat)
    requires v.size > 0
    ensures |FirstBlocks(v, k)| == k
    ensures forall q :: q in FirstBlocks(v, k) ==> q < v.start + k * v.size
  {
    if k > 0 {
      FirstBlocksCount(v, k - 1);
      MulStep(k, v.size);
    }
  }

  lemma NthBlockEnds(v: View, i: nat)
    requires v.Geometry() && i < v.n
    ensures i * v.size + v.size <= v.n * v.size
    ensures v.start + i * v.size + v.size <= WORD
  {
    MulMono(i + 1, v.n, v.size);
    assert (i + 1) * v.size == i * v.size + v.size;
  }

  lemma NthBlockIs(v: View, i: nat)
    requires v.Geometry() && i < v.n
    ensures v.start + i * v.size < WORD && v.IsBlock(v.start + i * v.size)
  {
    NthBlockEnds(v, i);
    ModMultiple(v.size, i);
  }

  lemma {:induction false} FirstBlockIs(v: View, q: int, k: nat)
    requires v.Geometry() && k <= v.n && q in FirstBlocks(v, k)
    ensures 0 <= q < WORD && v.IsBlock(q)
  {
    if q == v.start + (k - 1) * v.size {
      NthBlockIs(v, k - 1);
    } else {
      FirstBlockIs(v, q, k - 1);
    }
  }

  /** Free entries and outstanding blocks add up. */
  lemma Conserved(v: View)
    requires v.Partitioned()
    ensures |v.free| + |v.out| == v.n
  {
    DistinctCount(v.free);
    FirstBlocksCount(v, v.n);
    var out: set<int> := set p | p in v.out;
    assert out == v.out;
    assert Members(v.free) !! out;
    assert FirstBlocks(v, v.n) == Members(v.free) + out by {
      forall q | q in FirstBlocks(v, v.n)
        ensures q in Members(v.free) + out
      {
        FirstBlockIs(v, q, v.n);
      }
      forall q | q in Members(v.free) + out
        ensures q in FirstBlocks(v, v.n)
      {
        BlockInFirst(v, q);
      }
    }
  }

  // ---------- the implementation ----------

  /** The range and offset test of Mem_PoolBlkIsValidAddr accepts exactly the block addresses. */
  lemma ValidAddrIff(v: View, p: Word)
    requires v.Geometry()
    ensures v.start <= p <= v.start + v.n * v.size - 1 && (p - v.start) % v.size == 0 <==> v.IsBlock(p)
  {
    DivBounds(p - v.start, v.n, v.size);
  }

  /** MEM_POOL. */
  class Pool {
    const poolAddrStart: Word
    const poolAddrEnd: Word
    const blkNbr: Word
    const blkSize: Word
    const blkFreeTbl: array<Word>
    var blkFreeTblIx: nat
    ghost var out: set<Word>

    ghost predicate Valid()
      reads this, blkFreeTbl
    {
      && blkFreeTbl.Length == blkNbr && blkFreeTblIx <= blkNbr
      && Model().Partitioned()
      && poolAddrEnd == poolAddrStart + blkNbr * blkSize - 1
      && (forall i :: blkFreeTblIx <= i < blkNbr ==> blkFreeTbl[i] == NULL)
    }

    ghost function Model(): View
      reads this, blkFreeTbl
      requires blkFreeTblIx <= blkFreeTbl.Length
    {
      View(poolAddrStart, blkSize, blkNbr, blkFreeTbl[..blkFreeTblIx], out)
    }

    /** Mem_PoolBlkGet. */
    method BlkGet(size: Word) returns (p: Word, err: Err)
      requires Valid()
      modifies this`blkFreeTblIx, this`out, blkFreeTbl
      ensures Valid() && (Model(), p, err) == Get(old(Model()), size)
      ensures GetAnswers(old(Model()), size, Model(), p, err)
    {
      ghost var v := Model();
      GetKeeps(v, size);
      if size < 1 || size > blkSize {
        GetIs(v, size, v, NULL, InvalidBlkSize);
        return NULL, InvalidBlkSize;
      }
      p := NULL;
      if blkFreeTblIx > 0 {
        blkFreeTblIx := blkFreeTblIx - 1;
        p := blkFreeTbl[blkFreeTblIx];
        blkFreeTbl[blkFreeTblIx] := NULL;
        out := out + {p};
        assert blkFreeTbl[..blkFreeTblIx] == v.free[..blkFreeTblIx];
      }
      err := if p == NULL then PoolEmpty else None;
      GetIs(v, size, Model(), p, err);
    }

    /** Mem_PoolBlkIsValidAddr. */
    method BlkIsValidAddr(p: Word) returns (ok: bool)
      requires Valid()
      ensures ok <==> Model().IsBlock(p)
    {
      ValidAddrIff(Model(), p);
      if p < poolAddrStart || p > poolAddrEnd {
        return false;
      }
      ok := (p - poolAddrStart) % blkSize == 0;
    }

    /** The search of the whole table for a pointer about to be freed. */
    method InTable(p: Word) returns (found: bool)
      requires Valid() && p != NULL
      ensures found <==> p in Model().free
    {
      var i := 0;
      while i < blkNbr
        invariant i <= blkNbr && p !in blkFreeTbl[..i]
      {
        if blkFreeTbl[i] == p {
          assert Model().free[i] == p;
          return true;
        }
        assert blkFreeTbl[..i + 1] == blkFreeTbl[..i] + [blkFreeTbl[i]];
        i := i + 1;
      }
      found := false;
      assert forall j :: 0 <= j < blkFreeTblIx ==> blkFreeTbl[..i][j] == blkFreeTbl[j];
    }

    /** Mem_PoolBlkFree, for any pointer. */
    method BlkFree(p: Word) returns (err: Err)
      requires Valid()
      modifies this`blkFreeTblIx, this`out, blkFreeTbl
      ensures Valid() && (Model(), err) == Free(old(Model()), p)
      ensures err != PoolFull
      ensures FreeAnswers(old(Model()), p, Model(), err)
    {
      FreeKeeps(Model(), p);
      FreeExact(Model(), p);
      if p == NULL {
        return NullPtr;
      }
      var ok := BlkIsValidAddr(p);
      if !ok {
        return InvalidBlkAddr;
      }
      var found := InTable(p);
      if found {
        return AlreadyInPool;
      }
      if blkFreeTblIx >= blkNbr {
        return PoolFull;
      }
      ghost var free := blkFreeTbl[..blkFreeTblIx];
      blkFreeTbl[blkFreeTblIx] := p;
      blkFreeTblIx := blkFreeTblIx + 1;
      out := out - {p};
      assert blkFreeTbl[..blkFreeTblIx] == free + [p];
      err := None;
    }

    /** Mem_PoolBlkGetNbrAvail. */
    method BlkGetNbrAvail() returns (n: nat)
      requires Valid()
      ensures n + |out| == blkNbr
    {
      Conserved(Model());
      n := blkFreeTblIx;
    }

    /** Mem_PoolCreate once the memory of the pool and of the table is allocated: `n` blocks of
        `size` bytes from `mem`, in table order. The table that was requested holds its entries. */
    constructor (mem: Word, size: Word, n: Word)
      requires mem != NULL && size > 0 && n > 0 && mem + n * size <= WORD
      requires n * PTR_SIZE < WORD
      ensures Valid() && fresh(blkFreeTbl)
      ensures Model() == Fresh(mem, size, n)
    {
      poolAddrStart, blkNbr, blkSize, blkFreeTblIx, out := mem, n, size, n, {};
      poolAddrEnd := mem + (n * size - 1);
      blkFreeTbl := new Word[n];
      new;
      var blk: nat, i := mem, 0;
      while i < n
        modifies blkFreeTbl
        invariant i <= n && blk == mem + i * size
        invariant forall j :: 0 <= j < i ==> blkFreeTbl[j] == AllBlocks(mem, size, n)[j]
      {
        AllBlocksAt(mem, size, n, i);
        blkFreeTbl[i] := blk;
        blk := blk + size;
        i := i + 1;
      }
      assert blkFreeTbl[..n] == AllBlocks(mem, size, n);
      FreshPartitioned(mem, size, n);
    }
  }

  function AllBlocks(mem: Word, size: Word, n: Word): (r: seq<Word>)
    requires size > 0 && mem + n * size <= WORD
    ensures |r| == n
  {
    seq(n, i requires 0 <= i < n => BlockAddr(mem, size, n, i))
  }

  function BlockAddr(mem: Word, size: Word, n: Word, i: nat): (a: Word)
    requires size > 0 && mem + n * size <= WORD && i < n
    ensures a == mem + i * size
  {
    AllBlocksAt(mem, size, n, i);
    mem + i * size
  }

  lemma AllBlocksAt(mem: Word, size: Word, n: Word, i: nat)
    requires size > 0 && mem + n * size <= WORD && i < n
    ensures mem + i * size + size <= WORD
    ensures (i + 1) * size == i * size + size
  {
    MulMono(i + 1, n, size);
  }

  /** A new pool has all of its blocks in the table, each once. */
  lemma FreshPartitioned(mem: Word, size: Word, n: Word)
    requires mem != NULL && size > 0 && n > 0 && mem + n * size <= WORD
    ensures Fresh(mem, size, n).Partitioned()
  {
    var v := Fresh(mem, size, n);
    forall i, j | 0 <= i < j < n
      ensures v.free[i] != v.free[j]
    {
      MulMono(i + 1, j, size);
    }
    forall i | 0 <= i < n
      ensures v.IsBlock(v.free[i])
    {
      NthBlockIs(v, i);
    }
    forall p: Word | v.IsBlock(p)
      ensures p in v.free
    {
      var i := (p - mem) / size;
      assert v.free[i] == p;
    }
  }

  function Fresh(mem: Word, size: Word, n: Word): View
    requires size > 0 && mem + n * size <= WORD
  {
    View(mem, size, n, AllBlocks(mem, size, n), {})
  }

  function Gets(size: Word, k: nat): (r: seq<Call>)
    ensures |r| == k
  {
    seq(k, _ => GetCall(size))
  }

  lemma {:induction false} DrawnFromTop(mem: Word, size: Word, n: Word, ask: Word, k: nat)
    requires size > 0 && mem + n * size <= WORD && 1 <= ask <= size && k <= n
    ensures var v := Run(Fresh(mem, size, n), Gets(ask, k));
            v.size == size && v.free == AllBlocks(mem, size, n)[..n - k]
  {
    if k > 0 {
      DrawnFromTop(mem, size, n, ask, k - 1);
      assert Gets(ask, k)[..k - 1] == Gets(ask, k - 1);
    }
  }

  /** A new pool hands out its blocks from the last to the first. */
  lemma {:induction false} FirstGets(mem: Word, size: Word, n: Word, ask: Word, k: nat)
    requires size > 0 && mem + n * size <= WORD && 1 <= ask <= size && k < n
    ensures Get(Run(Fresh(mem, size, n), Gets(ask, k)), ask).1 == mem + (n - 1 - k) * size
    ensures Get(Run(Fresh(mem, size, n), Gets(ask, k)), ask).2 == None
  {
    DrawnFromTop(mem, size, n, ask, k);
  }

  /** The size requested for the pool, blk_size_align * blk_nbr in word arithmetic, holds all of its
      blocks if and only if the product does not wrap. */
  lemma PoolSizeHoldsIff(stride: Word, n: Word)
    requires stride > 0 && n > 0
    ensures (forall i: nat {:trigger i * stride} :: i < n ==> i * stride + stride <= stride * n % WORD)
            <==> stride * n < WORD
  {
    var total := stride * n;
    if total < WORD {
      SmallMod(total);
      forall i: nat | i < n
        ensures i * stride + stride <= total % WORD
      {
        MulMono(i + 1, n, stride);
      }
    } else {
      assert (n - 1) * stride + stride == total;
    }
  }

  /** The size requested for the table, blk_nbr * sizeof(void *), holds all of its entries if and only
      if that product does not wrap. */
  lemma TableSizeHoldsIff(n: Word)
    requires n > 0
    ensures (forall i: nat {:trigger i * PTR_SIZE} ::
               i < n ==> i * PTR_SIZE + PTR_SIZE <= n * PTR_SIZE % WORD)
            <==> n * PTR_SIZE < WORD
  {
    PoolSizeHoldsIff(PTR_SIZE, n);
    assert PTR_SIZE * n == n * PTR_SIZE;
    if n * PTR_SIZE >= WORD {
      assert (n - 1) * PTR_SIZE + PTR_SIZE == n * PTR_SIZE;
    }
  }

  /** Blocks of at least a pointer in a pool that does not wrap keep the table from wrapping too. */
  lemma TableFollows(stride: Word, n: Word)
    requires stride >= PTR_SIZE && stride * n < WORD
    ensures n * PTR_SIZE < WORD
  {
    MulMono(PTR_SIZE, stride, n);
  }

  /** A 4 KB page at 0x1000. */
  const PAGE: Seg := Seg(0x1000, 0x1FFF, 0x1000, 1)

  /** A request whose place and footprint are known and fit in a word. */
  lemma GrantedAt(seg: Seg, size: Word, align: Word, blk: Word)
    requires seg.Wf() && IsPow2(align) && align > 0 && size > 0
    requires RoundUp(seg.Next(), align) == blk && blk + size <= seg.Limit()
    ensures AllocInternal(seg, size, align, PADDING_NONE).1 == Granted(blk)
  {
    assert Pow2(0) == PADDING_NONE;
    MathIsPwr2Exact(align);
    PlainFoot(seg, size, align);
    AllocRefinesExact(seg, size, align, PADDING_NONE);
  }

  /** The request for the memory of `n` blocks of `blkSize` bytes is granted at `addr`. */
  ghost predicate PoolGranted(seg: Seg, blkSize: Word, align: Word, n: Word, addr: Word)
    requires align > 0
  {
    && seg.Wf() && IsPow2(align)
    && AllocInternal(seg, MathRoundIncUpPwr2(blkSize, align) * n % WORD, align, PADDING_NONE).1 == Granted(addr)
  }

  /** The request for a table of `n` pointers is granted at `addr`. */
  ghost predicate TableGranted(heap: Seg, n: Word, addr: Word) {
    heap.Wf() && AllocInternal(heap, n * PTR_SIZE % WORD, ALIGN_SIZE, PADDING_NONE).1 == Granted(addr)
  }

  lemma PoolGrantedAt(seg: Seg, blkSize: Word, align: Word, n: Word, total: Word, addr: Word)
    requires seg.Wf() && align == 1 && total == blkSize * n % WORD && total > 0
    requires seg.Next() == addr && addr + total <= seg.Limit()
    ensures PoolGranted(seg, blkSize, align, n, addr)
  {
    assert Pow2(0) == align;
    RoundUpOne(blkSize);
    RoundUpOne(addr);
    StrideIs(blkSize, align, blkSize);
    GrantedAt(seg, total, align, addr);
  }

  lemma TableGrantedAt(heap: Seg, n: Word, total: Word, addr: Word)
    requires heap.Wf() && total == n * PTR_SIZE % WORD && total > 0
    requires heap.Next() == addr && addr % ALIGN_SIZE == 0 && addr + total <= heap.Limit()
    ensures TableGranted(heap, n, addr)
  {
    assert Pow2(2) == ALIGN_SIZE;
    GrantedAt(heap, total, ALIGN_SIZE, addr);
  }

  /** A creation whose pool size wraps is granted: two blocks of 2^31 + 1 bytes ask for two bytes of a
      page. The first block already ends outside the segment. */
  lemma PoolWrapExample() returns (seg: Seg, blkSize: Word, align: Word, n: Word, addr: Word)
    ensures align > 0 && n > 0 && PoolGranted(seg, blkSize, align, n, addr)
    ensures blkSize * n >= WORD && addr + blkSize > seg.Limit()
  {
    seg, blkSize, align, n, addr := PAGE, 0x8000_0001, 1, 2, 0x1000;
    PageWf();
    PoolGrantedAt(seg, blkSize, align, n, 2, addr);
  }

  lemma PageWf()
    ensures PAGE.Wf() && IsPow2(1)
  {
    assert Pow2(0) == 1;
  }

  /** A creation whose pool fits and whose table size wraps is granted: 2^30 + 1 blocks of one byte, and
      a table of four bytes from a page. Entry 1024 of the table already lies outside the heap. */
  lemma TableWrapExample()
    returns (seg: Seg, blkSize: Word, align: Word, n: Word, addr: Word, heap: Seg, table: Word)
    ensures align > 0 && PoolGranted(seg, blkSize, align, n, addr) && addr + n * blkSize <= seg.Limit()
    ensures TableGranted(heap, n, table) && n > 1024 && table + 1024 * PTR_SIZE + PTR_SIZE > heap.Limit()
  {
    n, blkSize, align, addr, table := 0x4000_0001, 1, 1, 0x1000_0000, 0x1000;
    seg, heap := Seg(addr, 0x5000_0000, addr, 1), PAGE;
    PageWf();
    PoolGrantedAt(seg, blkSize, align, n, n, addr);
    OneEntry(n);
    TableGrantedAt(heap, n, PTR_SIZE, table);
  }

  lemma OneEntry(n: Word)
    requires n == 0x4000_0001
    ensures n * PTR_SIZE % WORD == PTR_SIZE
  {
  }

  /** Mem_PoolCreate: the memory a segment grants for a pool that fits in a word is a sound place for
      its blocks. */
  lemma PoolMemory(seg: Seg, blkSize: Word, align: Word, n: Word)
    requires seg.Wf() && seg.base != NULL && IsPow2(align) && align > 0 && blkSize > 0 && n > 0
    requires RoundUp(blkSize, align) * n < WORD && seg.Fits(RoundUp(blkSize, align) * n, align, PADDING_NONE)
    ensures var stride := MathRoundIncUpPwr2(blkSize, align);
            var r := AllocInternal(seg, stride * n % WORD, align, PADDING_NONE).1;
            && stride == RoundUp(blkSize, align) && stride > 0
            && (r.Granted? ==> r.addr != NULL && r.addr + n * stride <= seg.Limit() && r.addr % align == 0)
  {
    var stride := RoundUp(blkSize, align);
    var total := stride * n;
    ProductFacts(stride, n, total);
    StrideIs(blkSize, align, stride);
    SmallMod(total);
    PoolGrant(seg, total, align);
  }

  lemma StrideIs(blkSize: Word, align: Word, stride: nat)
    requires IsPow2(align) && align > 0 && stride == RoundUp(blkSize, align) && stride < WORD
    ensures MathRoundIncUpPwr2(blkSize, align) == stride
  {
    SmallMod(stride);
    SmallMod(blkSize);
    RoundCommutesWithWrap(blkSize, align);
  }

  lemma ProductFacts(stride: nat, n: nat, total: nat)
    requires stride > 0 && n > 0 && total == stride * n
    ensures 0 < stride <= total && n * stride == total
  {
    MulMono(1, n, stride);
  }

  lemma PoolGrant(seg: Seg, total: Word, align: Word)
    requires seg.Wf() && seg.base != NULL && IsPow2(align) && align > 0 && total > 0
    requires seg.Fits(total, align, PADDING_NONE)
    ensures var r := AllocInternal(seg, total, align, PADDING_NONE).1;
            r.Granted? ==> r.addr != NULL && r.addr + total <= seg.Limit() && r.addr % align == 0
  {
    assert Pow2(0) == PADDING_NONE;
    MathIsPwr2Exact(align);
    AllocRefinesExact(seg, total, align, PADDING_NONE);
    BlockPlacement(seg, total, align, PADDING_NONE);
  }
}
