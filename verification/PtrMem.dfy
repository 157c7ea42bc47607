/** Byte-addressed memory with little-endian 32-bit pointers stored in it. */
module PtrMem {
  import opened Machine

  const PTR_SIZE: nat := 4 // sizeof(void *)
  const NULL: Word := 0    // DEF_NULL

  type Byte = x: nat | x < 256

  type Mem = nat -> Byte

  /** *((void **)p) read. */
  function LoadPtr(m: Mem, p: nat): Word {
    m(p) + 0x100 * m(p + 1) + 0x1_0000 * m(p + 2) + 0x100_0000 * m(p + 3)
  }

  /** *((void **)p) = v. */
  function StorePtr(m: Mem, p: nat, v: Word): Mem {
    a =>
      if a == p then v % 0x100
      else if a == p + 1 then v / 0x100 % 0x100
      else if a == p + 2 then v / 0x1_0000 % 0x100
      else if a == p + 3 then v / 0x100_0000
      else m(a)
  }

  function StoreByte(m: Mem, p: nat, v: Byte): Mem {
    a => if a == p then v else m(a)
  }

  lemma BytesOf(v: Word)
    ensures v == v % 0x100 + 0x100 * (v / 0x100 % 0x100)
                 + 0x1_0000 * (v / 0x1_0000 % 0x100) + 0x100_0000 * (v / 0x100_0000)
  {
    var a := v / 0x100;
    var b := a / 0x100;
    assert v / 0x1_0000 == b && v / 0x100_0000 == b / 0x100;
  }

  lemma LoadStore(m: Mem, p: nat, v: Word)
    ensures LoadPtr(StorePtr(m, p, v), p) == v
  {
    var m' := StorePtr(m, p, v);
    BytesOf(v);
    assert m'(p) == v % 0x100 && m'(p + 1) == v / 0x100 % 0x100;
    assert m'(p + 2) == v / 0x1_0000 % 0x100 && m'(p + 3) == v / 0x100_0000;
  }

  /** The two memories agree on every byte outside [lo, hi). */
  ghost predicate SameOutside(m: Mem, m': Mem, lo: nat, hi: nat) {
    forall a: nat :: a < lo || hi <= a ==> m'(a) == m(a)
  }

  lemma LoadOutside(m: Mem, m': Mem, lo: nat, hi: nat, p: nat)
    requires SameOutside(m, m', lo, hi) && (p + PTR_SIZE <= lo || hi <= p)
    ensures LoadPtr(m', p) == LoadPtr(m, p)
  {
  }

  /** Following pointers from `ptr` visits exactly `addrs` and then reaches null. */
  ghost predicate Chain(m: Mem, ptr: nat, addrs: seq<nat>)
    decreases |addrs|
  {
    if addrs == [] then ptr == NULL
    else ptr == addrs[0] && ptr != NULL && Chain(m, LoadPtr(m, ptr), addrs[1..])
  }

  /** Writes that touch no link word leave a chain as it was. */
  lemma {:induction false} ChainFrame(m: Mem, m': Mem, lo: nat, hi: nat, ptr: nat, addrs: seq<nat>)
    requires SameOutside(m, m', lo, hi) && Chain(m, ptr, addrs)
    requires forall i :: 0 <= i < |addrs| ==> addrs[i] + PTR_SIZE <= lo || hi <= addrs[i]
    ensures Chain(m', ptr, addrs)
    decreases |addrs|
  {
    if addrs != [] {
      LoadOutside(m, m', lo, hi, addrs[0]);
      ChainFrame(m, m', lo, hi, LoadPtr(m, ptr), addrs[1..]);
    }
  }

  /** The initial free list: `n` blocks of `stride` bytes from `blk`, each pointing to the next. */
  function Thread(m: Mem, blk: nat, stride: nat, n: nat): Mem
    decreases n
  {
    if n == 0 then m
    else if n == 1 then StorePtr(m, blk, NULL)
    else Thread(StorePtr(m, blk, (blk + stride) % WORD), blk + stride, stride, n - 1)
  }

  function Slots(blk: nat, stride: nat, n: nat): (r: seq<nat>)
    ensures |r| == n
    ensures forall i :: 0 <= i < n ==> r[i] == blk + i * stride
  {
    seq(n, i requires 0 <= i => blk + i * stride)
  }

  lemma SlotsTail(blk: nat, stride: nat, n: nat)
    requires n > 0
    ensures Slots(blk, stride, n)[0] == blk
    ensures Slots(blk, stride, n)[1..] == Slots(blk + stride, stride, n - 1)
  {
    var s, t := Slots(blk, stride, n), Slots(blk + stride, stride, n - 1);
    forall i | 0 <= i < n - 1
      ensures s[1..][i] == t[i]
    {
      assert (i + 1) * stride == i * stride + stride;
    }
  }

  /** One threading step: a block linked in front of an already threaded tail. */
  lemma LinkFront(m: Mem, m2: Mem, blk: nat, next: Word, hi: nat, tail: seq<nat>)
    requires blk != NULL && blk + PTR_SIZE <= next <= hi
    requires SameOutside(StorePtr(m, blk, next), m2, next, hi) && Chain(m2, next, tail)
    ensures SameOutside(m, m2, blk, hi) && Chain(m2, blk, [blk] + tail)
  {
    LoadStore(m, blk, next);
    LoadOutside(StorePtr(m, blk, next), m2, next, hi, blk);
    assert ([blk] + tail)[1..] == tail;
  }

  lemma LinkLast(m: Mem, blk: nat, hi: nat)
    requires blk != NULL && blk + PTR_SIZE <= hi
    ensures SameOutside(m, StorePtr(m, blk, NULL), blk, hi)
    ensures Chain(StorePtr(m, blk, NULL), blk, [blk])
  {
    LoadStore(m, blk, NULL);
    assert [blk][1..] == [];
  }

  /** Threading writes inside the carved region only, and chains all of its blocks. */
  lemma {:induction false} ThreadChains(m: Mem, blk: nat, stride: nat, n: nat, hi: nat)
    requires n > 0 && blk != NULL && stride >= PTR_SIZE && hi == blk + n * stride <= WORD
    ensures SameOutside(m, Thread(m, blk, stride, n), blk, hi)
    ensures Chain(Thread(m, blk, stride, n), blk, Slots(blk, stride, n))
    decreases n
  {
    SlotsTail(blk, stride, n);
    NextSlot(blk, stride, n, hi);
    if n == 1 {
      LinkLast(m, blk, hi);
      assert Slots(blk, stride, 1) == [blk];
    } else {
      var tail := Slots(blk + stride, stride, n - 1);
      assert Slots(blk, stride, n) == [blk] + tail;
      assert (blk + stride) % WORD == blk + stride;
      var m1 := StorePtr(m, blk, blk + stride);
      assert Thread(m, blk, stride, n) == Thread(m1, blk + stride, stride, n - 1);
      ThreadChains(m1, blk + stride, stride, n - 1, hi);
      LinkFront(m, Thread(m, blk, stride, n), blk, blk + stride, hi, tail);
    }
  }

  /** What is threaded is a free list exactly when it does not start at the null address. */
  lemma ThreadChainsIff(m: Mem, blk: nat, stride: nat, n: nat)
    requires n > 0 && stride >= PTR_SIZE && blk + n * stride <= WORD
    ensures Chain(Thread(m, blk, stride, n), blk, Slots(blk, stride, n)) <==> blk != NULL
  {
    if blk != NULL {
      ThreadChains(m, blk, stride, n, blk + n * stride);
    }
  }

  lemma NextSlot(blk: nat, stride: nat, n: nat, hi: nat)
    requires n > 0 && stride > 0 && hi == blk + n * stride
    ensures hi == blk + stride + (n - 1) * stride
    ensures n == 1 ==> blk + stride == hi
    ensures n > 1 ==> blk + stride < hi
  {
    if n > 1 {
      assert (n - 1) * stride >= stride;
    }
  }
}
