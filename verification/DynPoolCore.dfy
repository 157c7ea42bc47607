/** Dynamic pools: what each critical section of Mem_DynPoolBlkGet and Mem_DynPoolBlkFree does to
    the pool descriptor and to memory. */
module DynPoolCore {
  import opened Arith
  import opened Machine
  import opened PtrMem

  const QTY_UNLIMITED: Word := 0 // LIB_MEM_BLK_QTY_UNLIMITED

  type SegId = int

  /** MEM_DYN_POOL. */
  datatype Pool = Pool(seg: SegId, blkSize: Word, blkAlign: Word, padding: Word,
                       freePtr: Word, qtyMax: Word, allocCnt: Word) {
    predicate Limited() { qtyMax != QTY_UNLIMITED }

    /** Get, first critical section: refused when every permitted block is accounted for. */
    predicate Exhausted() { Limited() && allocCnt >= qtyMax }

    function Reserved(): Pool
      requires !Exhausted()
    {
      if Limited() then this.(allocCnt := allocCnt + 1) else this
    }

    /** Get, second critical section: unlink the first free block. */
    function Popped(m: Mem): Pool { this.(freePtr := LoadPtr(m, freePtr)) }

    /** Free, first critical section: refused when no block is accounted for. */
    predicate NothingOut() { Limited() && allocCnt == 0 }

    function Released(): Pool
      requires !NothingOut()
    {
      if Limited() then this.(allocCnt := allocCnt - 1) else this
    }

    /** Free, second critical section: link the block in front of the free list. */
    function Pushed(blk: Word): Pool { this.(freePtr := blk) }
  }

  /** Bytes that `n` initial blocks take, in exact terms. */
  function InitBytes(blkSize: nat, worst: nat, n: nat): nat
    requires worst > 0
  {
    RoundUp(blkSize, worst) * n
  }

  /** Distance between the blocks carved at creation. */
  function Stride(blkSize: Word, worst: Word): Word
    requires worst > 0
  {
    MathRoundIncUpPwr2(Max(blkSize, PTR_SIZE), worst)
  }
}
