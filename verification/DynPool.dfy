/** Dynamic pools as objects: the calls of lib_mem.c over the descriptor, the segment and memory.
    Each critical section is a method; its effect is the step that MemSystem interleaves. */
module DynPool {
  import opened Arith
  import opened Machine
  import opened Segment
  import opened PtrMem
  import opened DynPoolCore
  import Registry

  class Ram {
    var mem: Mem

    constructor (m: Mem)
      ensures mem == m
    {
      mem := m;
    }
  }

  datatype Err = None | PoolEmpty | PoolFull | NullPtr | PoolUnlimited | SegErr(r: AllocResult)

  /** MEM_DYN_POOL. */
  class MemDynPool {
    const segId: SegId
    const poolSeg: Registry.MemSeg
    const blkSize: Word
    const blkAlign: Word
    const blkPaddingAlign: Word
    const blkQtyMax: Word
    var blkFreePtr: Word
    var blkAllocCnt: Word

    function Value(): Pool
      reads this
    {
      Pool(segId, blkSize, blkAlign, blkPaddingAlign, blkFreePtr, blkQtyMax, blkAllocCnt)
    }

    /** Mem_DynPoolCreateInternal after its checks: the initial blocks at `blks`, threaded. */
    constructor (seg: Registry.MemSeg, id: SegId, size: Word, align: Word, padding: Word, qtyInit: Word, qtyMax: Word,
                 ram: Ram, blks: Word, stride: Word)
      requires qtyInit > 0 ==> blks != NULL && stride >= PTR_SIZE && blks + qtyInit * stride <= WORD
      modifies ram
      ensures poolSeg == seg
      ensures Value() == Pool(id, size, align, padding, if qtyInit == 0 then NULL else blks, qtyMax, 0)
      ensures ram.mem == Thread(old(ram.mem), blks, stride, qtyInit)
      ensures qtyInit > 0 ==> Chain(ram.mem, blkFreePtr, Slots(blks, stride, qtyInit))
    {
      segId, poolSeg, blkSize, blkAlign, blkPaddingAlign, blkQtyMax := id, seg, size, align, padding, qtyMax;
      blkAllocCnt := 0;
      blkFreePtr := if qtyInit == 0 then NULL else blks;
      new;
      if qtyInit != 0 {
        ThreadChains(ram.mem, blks, stride, qtyInit, blks + qtyInit * stride);
        ThreadBlocks(ram, blks, stride, qtyInit);
      }
    }

    /** Get, first critical section. */
    method GetCount() returns (ok: bool)
      modifies this`blkAllocCnt
      ensures ok == !old(Value()).Exhausted()
      ensures Value() == if ok then old(Value()).Reserved() else old(Value())
    {
      if blkQtyMax != QTY_UNLIMITED {
        if blkAllocCnt >= blkQtyMax {
          return false;
        }
        blkAllocCnt := blkAllocCnt + 1;
      }
      ok := true;
    }

    /** Get, second critical section. */
    method GetPop(ram: Ram) returns (p: Word)
      modifies this`blkFreePtr
      ensures p == old(blkFreePtr)
      ensures Value() == if p != NULL then old(Value()).Popped(ram.mem) else old(Value())
    {
      p := blkFreePtr;
      if blkFreePtr != NULL {
        blkFreePtr := LoadPtr(ram.mem, p);
      }
    }

    /** Mem_DynPoolBlkGet without interference: from the free list when it is not empty, else from
        the segment; a refusal of the segment leaves the count taken. */
    method BlkGet(ram: Ram) returns (p: Word, err: Err)
      requires blkPaddingAlign > 0
      modifies this`blkAllocCnt, this`blkFreePtr, poolSeg`addrNext
      ensures old(Value()).Exhausted() ==> p == NULL && err == PoolEmpty && Value() == old(Value())
      ensures !old(Value()).Exhausted() && old(blkFreePtr) != NULL ==>
                && p == old(blkFreePtr) && err == None && Value() == old(Value()).Reserved().Popped(ram.mem)
      ensures !old(Value()).Exhausted() && old(blkFreePtr) == NULL ==>
                var (seg', r) := Segment.AllocInternal(old(poolSeg.Value()), blkSize, blkAlign, blkPaddingAlign);
                && Value() == old(Value()).Reserved() && poolSeg.Value() == seg'
                && p == (if r.Granted? then r.addr else NULL)
                && err == (if r.Granted? then None else SegErr(r))
      ensures old(Value()).Exhausted() || old(blkFreePtr) != NULL ==> poolSeg.Value() == old(poolSeg.Value())
    {
      var ok := GetCount();
      if !ok {
        return NULL, PoolEmpty;
      }
      p := GetPop(ram);
      if p != NULL {
        return p, None;
      }
      var r := poolSeg.AllocInternal(blkSize, blkAlign, blkPaddingAlign);
      if !r.Granted? {
        return NULL, SegErr(r);
      }
      return r.addr, None;
    }

    /** Free, first critical section. */
    method FreeCount() returns (ok: bool)
      modifies this`blkAllocCnt
      ensures ok == !old(Value()).NothingOut()
      ensures Value() == if ok then old(Value()).Released() else old(Value())
    {
      if blkQtyMax != QTY_UNLIMITED {
        if blkAllocCnt == 0 {
          return false;
        }
        blkAllocCnt := blkAllocCnt - 1;
      }
      ok := true;
    }

    /** Mem_DynPoolBlkFree without interference. */
    method BlkFree(ram: Ram, p: Word) returns (err: Err)
      modifies this`blkAllocCnt, this`blkFreePtr, ram
      ensures p == NULL ==> err == NullPtr && Value() == old(Value()) && ram.mem == old(ram.mem)
      ensures p != NULL && old(Value()).NothingOut() ==>
                err == PoolFull && Value() == old(Value()) && ram.mem == old(ram.mem)
      ensures p != NULL && !old(Value()).NothingOut() ==>
                && err == None && Value() == old(Value()).Released().Pushed(p)
                && ram.mem == StorePtr(old(ram.mem), p, old(blkFreePtr))
    {
      if p == NULL {
        return NullPtr;
      }
      var ok := FreeCount();
      if !ok {
        return PoolFull;
      }
      ram.mem := StorePtr(ram.mem, p, blkFreePtr);
      blkFreePtr := p;
      return None;
    }

    /** Free a block and get one: the same block, the same descriptor, and memory changed only in
        the block's link word. */
    method FreeThenGet(ram: Ram, p: Word) returns (q: Word)
      requires p != NULL && blkPaddingAlign > 0 && !Value().NothingOut()
      requires Value().Limited() ==> blkAllocCnt <= blkQtyMax
      modifies this`blkAllocCnt, this`blkFreePtr, poolSeg`addrNext, ram
      ensures q == p && Value() == old(Value()) && poolSeg.Value() == old(poolSeg.Value())
      ensures SameOutside(old(ram.mem), ram.mem, p, p + PTR_SIZE)
    {
      ghost var m, head := ram.mem, blkFreePtr;
      var e := BlkFree(ram, p);
      LoadStore(m, p, head);
      q, e := BlkGet(ram);
    }

    /** Mem_DynPoolBlkNbrAvailGet. */
    method BlkNbrAvailGet() returns (n: Word, err: Err)
      requires Value().Limited() ==> blkAllocCnt <= blkQtyMax
      ensures Value().Limited() ==> err == None && n + blkAllocCnt == blkQtyMax
      ensures !Value().Limited() ==> err == PoolUnlimited && n == 0
    {
      if blkQtyMax != QTY_UNLIMITED {
        return blkQtyMax - blkAllocCnt, None;
      }
      return 0, PoolUnlimited;
    }
  }

  /** The loop that threads the initial blocks. */
  method ThreadBlocks(ram: Ram, blks: Word, stride: Word, qtyInit: Word)
    requires qtyInit > 0 && blks + qtyInit * stride <= WORD && stride > 0
    modifies ram
    ensures ram.mem == Thread(old(ram.mem), blks, stride, qtyInit)
  {
    ghost var slots := Slots(blks, stride, qtyInit);
    SlotsStep(blks, stride, qtyInit, slots);
    ThreadAlong(ram, blks, stride, qtyInit, slots);
  }

  /** Addresses `stride` apart, the last with room for a block below the top address. */
  ghost predicate Steps(slots: seq<nat>, blks: nat, stride: nat, n: nat) {
    && |slots| == n > 0 && slots[0] == blks && slots[n - 1] + stride <= WORD
    && (forall i :: 0 < i < n ==> slots[i] == slots[i - 1] + stride)
    && (forall i :: 0 <= i < n ==> slots[i] + stride <= WORD)
  }

  lemma SlotsStep(blks: nat, stride: nat, n: nat, slots: seq<nat>)
    requires n > 0 && blks + n * stride <= WORD && slots == Slots(blks, stride, n)
    ensures Steps(slots, blks, stride, n)
  {
    forall i | 0 <= i < n
      ensures slots[i] + stride <= WORD && (i > 0 ==> slots[i] == slots[i - 1] + stride)
    {
      SlotEnds(stride, n, i);
    }
  }

  lemma SlotEnds(stride: nat, n: nat, i: nat)
    requires i < n
    ensures i * stride + stride <= n * stride
    ensures i > 0 ==> i * stride == (i - 1) * stride + stride
  {
    MulMono(i + 1, n, stride);
  }

  /** Threading block by block. */
  lemma ThreadStep(m: Mem, p: nat, next: Word, stride: nat, n: nat)
    requires n > 1 && next == p + stride
    ensures Thread(m, p, stride, n) == Thread(StorePtr(m, p, next), next, stride, n - 1)
  {
    assert (p + stride) % WORD == next;
  }

  lemma ThreadLast(m: Mem, p: nat, stride: nat)
    ensures Thread(m, p, stride, 1) == StorePtr(m, p, NULL)
  {
  }

  /** Threading the rest of the blocks from `p` gives `goal`. */
  ghost predicate Remains(m: Mem, p: nat, stride: nat, n: nat, goal: Mem) {
    n > 0 && Thread(m, p, stride, n) == goal
  }

  /** The loop itself, along the block addresses. */
  method ThreadAlong(ram: Ram, blks: Word, stride: Word, qtyInit: Word, ghost slots: seq<nat>)
    requires qtyInit > 0 && stride > 0 && Steps(slots, blks, stride, qtyInit)
    modifies ram
    ensures ram.mem == Thread(old(ram.mem), blks, stride, qtyInit)
  {
    ghost var goal := Thread(ram.mem, blks, stride, qtyInit);
    var p: nat, i := blks, 0;
    while i < qtyInit - 1
      invariant i < qtyInit && p == slots[i]
      invariant Remains(ram.mem, p, stride, qtyInit - i, goal)
    {
      assert slots[i + 1] == p + stride;
      ThreadStep(ram.mem, p, p + stride, stride, qtyInit - i);
      ram.mem := StorePtr(ram.mem, p, p + stride);
      p := p + stride;
      i := i + 1;
    }
    ThreadLast(ram.mem, p, stride);
    ram.mem := StorePtr(ram.mem, p, NULL);
  }
}
