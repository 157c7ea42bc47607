/** Mem_Copy, Mem_Move and Mem_Cmp: word-optimised loops over memory, for every source,
    destination, size, alignment and overlap. Addresses are indices of `mem`; 0 is null. */
module MemOps {
  import opened Machine
  import opened PtrMem
  import Arith

  const ALIGN: nat := 4 // sizeof(CPU_ALIGN)

  /** Copying octet by octet towards higher addresses. When the destination lies above the source
      by `gap`, octet `i` has been copied over by octet `i - gap`, and so on down. */
  function Origin(dest: nat, src: nat, i: nat): nat {
    if src < dest then i % (dest - src) else i
  }

  lemma OriginStep(dest: nat, src: nat, i: nat)
    requires src < dest
    ensures i < dest - src ==> Origin(dest, src, i) == i
    ensures i >= dest - src ==> Origin(dest, src, i) == Origin(dest, src, i - (dest - src))
  {
    var gap := dest - src;
    if i < gap {
      Arith.DivModUnique(i, gap, 0, i);
    } else {
      Arith.ModShift(i - gap, gap, 1);
    }
  }

  /** Address `a` of the destination holds the octet that belongs there. */
  ghost predicate Landed(m0: seq<Byte>, m: seq<Byte>, dest: nat, src: nat, a: nat) {
    && dest <= a < |m| && src + Origin(dest, src, a - dest) < |m0|
    && m[a] == m0[src + Origin(dest, src, a - dest)]
  }

  /** After copying the first `k` octets of the buffers forwards. */
  ghost predicate CopiedUpTo(m0: seq<Byte>, m: seq<Byte>, dest: nat, src: nat, k: nat, size: nat) {
    && |m| == |m0| && k <= size && dest + size <= |m0| && src + size <= |m0|
    && (forall a :: dest <= a < dest + k ==> Landed(m0, m, dest, src, a))
    && (forall a :: 0 <= a < |m| && (a < dest || dest + k <= a) ==> m[a] == m0[a])
  }

  /** What the source octet at offset `k + j` reads while the first `k` are copied: the octet that
      belongs at the destination. */
  lemma SourceOctet(m0: seq<Byte>, m: seq<Byte>, dest: nat, src: nat, k: nat, size: nat, j: nat)
    requires CopiedUpTo(m0, m, dest, src, k, size) && k + j < size
    requires src < dest ==> j < dest - src
    ensures src + Origin(dest, src, k + j) < |m0|
    ensures m[src + k + j] == m0[src + Origin(dest, src, k + j)]
  {
    if src < dest {
      OriginStep(dest, src, k + j);
      var gap := dest - src;
      if k + j >= gap {
        assert Landed(m0, m, dest, src, dest + (k + j - gap));
      }
    }
  }

  /** `n` octets moved at once from the source to the destination position, all read first. */
  ghost predicate Moved(m: seq<Byte>, m': seq<Byte>, dest: nat, src: nat, n: nat) {
    && |m'| == |m| && dest + n <= |m| && src + n <= |m|
    && (forall a :: dest <= a < dest + n ==> m'[a] == m[a - dest + src])
    && (forall a :: 0 <= a < |m| && (a < dest || dest + n <= a) ==> m'[a] == m[a])
  }

  lemma CopiedMore(m0: seq<Byte>, m: seq<Byte>, m': seq<Byte>, dest: nat, src: nat, k: nat, n: nat, size: nat)
    requires CopiedUpTo(m0, m, dest, src, k, size) && k + n <= size
    requires src < dest ==> n <= dest - src
    requires Moved(m, m', dest + k, src + k, n)
    ensures CopiedUpTo(m0, m', dest, src, k + n, size)
  {
    forall a | dest <= a < dest + (k + n)
      ensures Landed(m0, m', dest, src, a)
    {
      if a >= dest + k {
        SourceOctet(m0, m, dest, src, k, size, a - dest - k);
      } else {
        assert Landed(m0, m, dest, src, a);
      }
    }
  }

  /** A buffer passed to one of the routines. */
  datatype Buffer = Buffer(start: nat, size: nat) {
    /** The `n` octets at `a` are octets of the buffer. */
    predicate Has(a: nat, n: nat) {
      start <= a && a + n <= start + size
    }
  }

  /** *dest = *src for one octet, inside the two buffers. */
  method MoveOctet(mem: array<Byte>, dest: nat, src: nat, ghost d: Buffer, ghost s: Buffer)
    requires d.Has(dest, 1) && s.Has(src, 1)
    requires d.start + d.size <= mem.Length && s.start + s.size <= mem.Length
    modifies mem
    ensures Moved(old(mem[..]), mem[..], dest, src, 1)
  {
    mem[dest] := mem[src];
  }

  /** *dest = *src for one word, inside the two buffers: both addresses MUST be aligned. */
  method MoveWord(mem: array<Byte>, dest: nat, src: nat, ghost d: Buffer, ghost s: Buffer)
    requires d.Has(dest, ALIGN) && s.Has(src, ALIGN)
    requires d.start + d.size <= mem.Length && s.start + s.size <= mem.Length
    requires dest % ALIGN == 0 && src % ALIGN == 0
    modifies mem
    ensures Moved(old(mem[..]), mem[..], dest, src, ALIGN)
  {
    var b0, b1, b2, b3 := mem[src], mem[src + 1], mem[src + 2], mem[src + 3];
    mem[dest], mem[dest + 1], mem[dest + 2], mem[dest + 3] := b0, b1, b2, b3;
  }

  /** Progress of a forward copy: `rem` octets are left, the pointers are just past what is done. */
  ghost predicate Forward(m0: seq<Byte>, m: seq<Byte>, pdest: nat, psrc: nat, size: nat, rem: nat,
                          dest: nat, src: nat) {
    && rem <= size && dest == pdest + (size - rem) && src == psrc + (size - rem)
    && CopiedUpTo(m0, m, pdest, psrc, size - rem, size)
  }

  lemma ForwardMore(m0: seq<Byte>, m: seq<Byte>, m': seq<Byte>, pdest: nat, psrc: nat, size: nat, rem: nat,
                    dest: nat, src: nat, n: nat)
    requires Forward(m0, m, pdest, psrc, size, rem, dest, src) && n <= rem && Moved(m, m', dest, src, n)
    requires psrc < pdest ==> n <= pdest - psrc
    ensures Forward(m0, m', pdest, psrc, size, rem - n, dest + n, src + n)
  {
    CopiedMore(m0, m, m', pdest, psrc, size - rem, n, size);
  }

  /** Leading octets up to a word boundary. */
  method CopyHead(mem: array<Byte>, pdest: nat, psrc: nat, size: nat, ghost m0: seq<Byte>)
    returns (sizeRem: nat, dest: nat, src: nat)
    requires Forward(m0, mem[..], pdest, psrc, size, size, pdest, psrc) && pdest % ALIGN == psrc % ALIGN
    modifies mem
    ensures Forward(m0, mem[..], pdest, psrc, size, sizeRem, dest, src)
    ensures sizeRem > 0 ==> dest % ALIGN == 0 && src % ALIGN == 0
  {
    sizeRem, dest, src := size, pdest, psrc;
    if pdest % ALIGN != 0 {
      var i := pdest % ALIGN;
      while sizeRem > 0 && i < ALIGN
        invariant Forward(m0, mem[..], pdest, psrc, size, sizeRem, dest, src)
        invariant i == pdest % ALIGN + (size - sizeRem) <= ALIGN
      {
        ghost var m := mem[..];
        MoveOctet(mem, dest, src, Buffer(pdest, size), Buffer(psrc, size));
        ForwardMore(m0, m, mem[..], pdest, psrc, size, sizeRem, dest, src, 1);
        dest, src, sizeRem, i := dest + 1, src + 1, sizeRem - 1, i + 1;
      }
    }
  }

  /** Whole words, read and written on word boundaries only. */
  method CopyWords(mem: array<Byte>, pdest: nat, psrc: nat, size: nat, rem0: nat, dest0: nat, src0: nat,
                   ghost m0: seq<Byte>)
    returns (sizeRem: nat, dest: nat, src: nat)
    requires Forward(m0, mem[..], pdest, psrc, size, rem0, dest0, src0) && pdest != psrc
    requires rem0 > 0 ==> dest0 % ALIGN == 0 && src0 % ALIGN == 0
    modifies mem
    ensures Forward(m0, mem[..], pdest, psrc, size, sizeRem, dest, src)
  {
    sizeRem, dest, src := rem0, dest0, src0;
    while sizeRem >= ALIGN
      invariant Forward(m0, mem[..], pdest, psrc, size, sizeRem, dest, src)
      invariant sizeRem > 0 ==> dest % ALIGN == 0 && src % ALIGN == 0
    {
      ghost var m := mem[..];
      MoveWord(mem, dest, src, Buffer(pdest, size), Buffer(psrc, size));
      ForwardMore(m0, m, mem[..], pdest, psrc, size, sizeRem, dest, src, ALIGN);
      dest, src, sizeRem := dest + ALIGN, src + ALIGN, sizeRem - ALIGN;
    }
  }

  /** Mem_Copy: the word-optimised copy is the octet-by-octet forward copy, on all inputs. */
  method MemCopy(mem: array<Byte>, pdest: nat, psrc: nat, size: nat)
    requires mem.Length <= WORD
    requires size > 0 && pdest != NULL && psrc != NULL ==> pdest + size <= mem.Length && psrc + size <= mem.Length
    modifies mem
    ensures size == 0 || pdest == NULL || psrc == NULL ==> mem[..] == old(mem[..])
    ensures size > 0 && pdest != NULL && psrc != NULL ==> CopiedUpTo(old(mem[..]), mem[..], pdest, psrc, size, size)
  {
    if size < 1 || pdest == NULL || psrc == NULL {
      return;
    }
    ghost var m0 := mem[..];
    var sizeRem: nat, dest: nat, src: nat := size, pdest, psrc;
    var gapOctets := (src - dest) % WORD;
    if gapOctets >= ALIGN {
      if dest % ALIGN == src % ALIGN {
        sizeRem, dest, src := CopyHead(mem, pdest, psrc, size, m0);
        sizeRem, dest, src := CopyWords(mem, pdest, psrc, size, sizeRem, dest, src, m0);
      }
    }
    while sizeRem > 0
      invariant Forward(m0, mem[..], pdest, psrc, size, sizeRem, dest, src)
    {
      ghost var m := mem[..];
      MoveOctet(mem, dest, src, Buffer(pdest, size), Buffer(psrc, size));
      ForwardMore(m0, m, mem[..], pdest, psrc, size, sizeRem, dest, src, 1);
      dest, src, sizeRem := dest + 1, src + 1, sizeRem - 1;
    }
  }

  /** The buffer at `dest` holds what was at `src`, and nothing else has changed. */
  ghost predicate Delivered(m0: seq<Byte>, m: seq<Byte>, dest: nat, src: nat, size: nat) {
    && |m| == |m0| && dest + size <= |m0| && src + size <= |m0|
    && m == m0[..dest] + m0[src..src + size] + m0[dest + size..]
  }

  lemma DeliveredIff(m0: seq<Byte>, m: seq<Byte>, dest: nat, src: nat, size: nat)
    requires |m| == |m0| && dest + size <= |m0| && src + size <= |m0|
    ensures Delivered(m0, m, dest, src, size) <==> Moved(m0, m, dest, src, size)
  {
    var r := m0[..dest] + m0[src..src + size] + m0[dest + size..];
    assert |r| == |m0|;
    assert forall a :: 0 <= a < |m0| ==>
             r[a] == if a < dest || dest + size <= a then m0[a] else m0[a - dest + src];
    if Moved(m0, m, dest, src, size) {
      assert forall a :: 0 <= a < |m| ==> m[a] == r[a];
    }
  }

  /** A forward copy delivers when the destination is not inside the source past its start. */
  lemma ForwardDelivers(m0: seq<Byte>, m: seq<Byte>, dest: nat, src: nat, size: nat)
    requires CopiedUpTo(m0, m, dest, src, size, size) && (dest <= src || src + size <= dest)
    ensures Delivered(m0, m, dest, src, size)
  {
    forall a | dest <= a < dest + size
      ensures m[a] == m0[a - dest + src]
    {
      assert Landed(m0, m, dest, src, a);
      if src < dest {
        OriginStep(dest, src, a - dest);
      }
    }
    DeliveredIff(m0, m, dest, src, size);
  }

  function Marked(n: nat, at: nat): seq<Byte> {
    seq(n, a => if a == at then 1 else 0)
  }

  function ForwardResult(m0: seq<Byte>, dest: nat, src: nat, size: nat): seq<Byte>
    requires dest + size <= |m0| && src + size <= |m0|
  {
    seq(|m0|, a requires 0 <= a < |m0| =>
      if dest <= a < dest + size && src + Origin(dest, src, a - dest) < |m0|
      then m0[src + Origin(dest, src, a - dest)] else m0[a])
  }

  lemma OriginInside(dest: nat, src: nat, i: nat, size: nat)
    requires i < size
    ensures Origin(dest, src, i) < size
  {
    if src < dest && i >= dest - src {
      Arith.DivModUnique(i, dest - src, i / (dest - src), i % (dest - src));
    } else if src < dest {
      OriginStep(dest, src, i);
    }
  }

  lemma ForwardResultIs(m0: seq<Byte>, dest: nat, src: nat, size: nat)
    requires dest + size <= |m0| && src + size <= |m0|
    ensures CopiedUpTo(m0, ForwardResult(m0, dest, src, size), dest, src, size, size)
  {
    forall a | dest <= a < dest + size
      ensures Landed(m0, ForwardResult(m0, dest, src, size), dest, src, a)
    {
      OriginInside(dest, src, a - dest, size);
    }
  }

  /** Mem_Copy delivers the source for every content of memory if and only if the destination does
      not start inside the source, past its first octet. */
  lemma CopyDeliversIff(n: nat, dest: nat, src: nat, size: nat)
    requires dest + size <= n && src + size <= n
    ensures (forall m0, m :: |m0| == n && CopiedUpTo(m0, m, dest, src, size, size) ==>
                               Delivered(m0, m, dest, src, size))
            <==> (dest <= src || src + size <= dest)
  {
    if dest <= src || src + size <= dest {
      forall m0, m | |m0| == n && CopiedUpTo(m0, m, dest, src, size, size)
        ensures Delivered(m0, m, dest, src, size)
      {
        ForwardDelivers(m0, m, dest, src, size);
      }
    } else {
      var m0 := Marked(n, src);
      var m := ForwardResult(m0, dest, src, size);
      ForwardResultIs(m0, dest, src, size);
      OriginStep(dest, src, dest - src);
      OriginStep(dest, src, 0);
      assert Landed(m0, m, dest, src, dest + (dest - src));
      DeliveredIff(m0, m, dest, src, size);
      assert m[dest + (dest - src)] != m0[dest];
    }
  }

  // ---------- Mem_Move ----------

  /** Progress of a backward move: the last `size - rem` octets are in place. */
  ghost predicate Backward(m0: seq<Byte>, m: seq<Byte>, pdest: nat, psrc: nat, size: nat, rem: nat) {
    && |m| == |m0| && rem <= size && pdest + size <= |m0| && psrc + size <= |m0| && psrc <= pdest
    && (forall a :: pdest + rem <= a < pdest + size ==> m[a] == m0[a - pdest + psrc])
    && (forall a :: 0 <= a < |m| && (a < pdest + rem || pdest + size <= a) ==> m[a] == m0[a])
  }

  /** Moving the `n` octets before those in place: none of their sources has been overwritten. */
  lemma BackwardMore(m0: seq<Byte>, m: seq<Byte>, m': seq<Byte>, pdest: nat, psrc: nat, size: nat, rem: nat, n: nat)
    requires Backward(m0, m, pdest, psrc, size, rem) && n <= rem
    requires Moved(m, m', pdest + (rem - n), psrc + (rem - n), n)
    ensures Backward(m0, m', pdest, psrc, size, rem - n)
  {
    forall a | pdest + (rem - n) <= a < pdest + size
      ensures m'[a] == m0[a - pdest + psrc]
    {
      if a < pdest + rem {
        assert m'[a] == m[a - (pdest + (rem - n)) + (psrc + (rem - n))];
      }
    }
  }

  /** The octets to be moved next are in memory. */
  lemma BackwardRoom(m0: seq<Byte>, m: seq<Byte>, pdest: nat, psrc: nat, size: nat, rem: nat, n: nat)
    requires Backward(m0, m, pdest, psrc, size, rem) && n <= rem
    ensures Buffer(pdest, size).Has(pdest + (rem - n), n) && Buffer(psrc, size).Has(psrc + (rem - n), n)
    ensures pdest + size <= |m| && psrc + size <= |m|
  {
  }

  /** The last octet not yet in place. */
  method MoveOctetBack(mem: array<Byte>, pdest: nat, psrc: nat, size: nat, rem: nat, ghost m0: seq<Byte>)
    requires Backward(m0, mem[..], pdest, psrc, size, rem) && rem > 0
    modifies mem
    ensures Backward(m0, mem[..], pdest, psrc, size, rem - 1)
  {
    ghost var m := mem[..];
    BackwardRoom(m0, m, pdest, psrc, size, rem, 1);
    MoveOctet(mem, pdest + (rem - 1), psrc + (rem - 1), Buffer(pdest, size), Buffer(psrc, size));
    BackwardMore(m0, m, mem[..], pdest, psrc, size, rem, 1);
  }

  /** The word before those in place. */
  method MoveWordBack(mem: array<Byte>, pdest: nat, psrc: nat, size: nat, rem: nat, ghost m0: seq<Byte>)
    requires Backward(m0, mem[..], pdest, psrc, size, rem) && rem >= ALIGN
    requires (pdest + (rem - ALIGN)) % ALIGN == 0 && (psrc + (rem - ALIGN)) % ALIGN == 0
    modifies mem
    ensures Backward(m0, mem[..], pdest, psrc, size, rem - ALIGN)
  {
    ghost var m := mem[..];
    BackwardRoom(m0, m, pdest, psrc, size, rem, ALIGN);
    MoveWord(mem, pdest + (rem - ALIGN), psrc + (rem - ALIGN), Buffer(pdest, size), Buffer(psrc, size));
    BackwardMore(m0, m, mem[..], pdest, psrc, size, rem, ALIGN);
  }

  /** Trailing octets down to a word boundary, from the last one down. */
  method MoveTail(mem: array<Byte>, pdest: nat, psrc: nat, size: nat, ghost m0: seq<Byte>) returns (sizeRem: nat)
    requires Backward(m0, mem[..], pdest, psrc, size, size) && size > 0
    modifies mem
    ensures Backward(m0, mem[..], pdest, psrc, size, sizeRem)
    ensures sizeRem > 0 ==> (pdest + sizeRem) % ALIGN == 0
  {
    sizeRem := size;
    var mod := (pdest + size - 1) % ALIGN;
    ghost var stop: nat := pdest + size - 1 - mod;
    AlignedBelow(pdest + size - 1);
    if mod != ALIGN - 1 {
      var i := mod;
      while sizeRem > 0 && i >= 0
        invariant Backward(m0, mem[..], pdest, psrc, size, sizeRem)
        invariant -1 <= i && pdest + sizeRem == stop + i + 1
      {
        MoveOctetBack(mem, pdest, psrc, size, sizeRem, m0);
        sizeRem, i := sizeRem - 1, i - 1;
      }
    }
  }

  lemma AlignedBelow(x: nat)
    ensures (x - x % ALIGN) % ALIGN == 0
    ensures x % ALIGN == ALIGN - 1 ==> (x + 1) % ALIGN == 0
  {
  }

  /** Whole words, read and written on word boundaries only. */
  method MoveWords(mem: array<Byte>, pdest: nat, psrc: nat, size: nat, rem0: nat, ghost m0: seq<Byte>)
    returns (sizeRem: nat)
    requires Backward(m0, mem[..], pdest, psrc, size, rem0) && pdest % ALIGN == psrc % ALIGN
    requires rem0 > 0 ==> (pdest + rem0) % ALIGN == 0
    modifies mem
    ensures Backward(m0, mem[..], pdest, psrc, size, sizeRem)
  {
    sizeRem := rem0;
    while sizeRem >= ALIGN
      invariant Backward(m0, mem[..], pdest, psrc, size, sizeRem)
      invariant sizeRem > 0 ==> (pdest + sizeRem) % ALIGN == 0
    {
      BothAligned(pdest, psrc, sizeRem);
      MoveWordBack(mem, pdest, psrc, size, sizeRem, m0);
      sizeRem := sizeRem - ALIGN;
    }
  }

  /** The octets that are left, from the last one down. */
  method MoveRest(mem: array<Byte>, pdest: nat, psrc: nat, size: nat, rem0: nat, ghost m0: seq<Byte>)
    requires Backward(m0, mem[..], pdest, psrc, size, rem0)
    modifies mem
    ensures Delivered(m0, mem[..], pdest, psrc, size)
  {
    var sizeRem := rem0;
    while sizeRem > 0
      invariant Backward(m0, mem[..], pdest, psrc, size, sizeRem)
    {
      MoveOctetBack(mem, pdest, psrc, size, sizeRem, m0);
      sizeRem := sizeRem - 1;
    }
    BackwardDelivers(m0, mem[..], pdest, psrc, size);
  }

  lemma BackwardDelivers(m0: seq<Byte>, m: seq<Byte>, pdest: nat, psrc: nat, size: nat)
    requires Backward(m0, m, pdest, psrc, size, 0)
    ensures Delivered(m0, m, pdest, psrc, size)
  {
    DeliveredIff(m0, m, pdest, psrc, size);
  }

  lemma BothAligned(a: nat, b: nat, n: nat)
    requires a % ALIGN == b % ALIGN && (a + n) % ALIGN == 0 && n >= ALIGN
    ensures (a + (n - ALIGN)) % ALIGN == 0 && (b + (n - ALIGN)) % ALIGN == 0
  {
  }

  lemma SameOffset(a: nat, b: nat, n: nat)
    requires (a + n) % ALIGN == (b + n) % ALIGN
    ensures a % ALIGN == b % ALIGN
  {
  }

  /** Mem_Move: source delivered on every input, whatever the overlap, and nothing else changed. */
  method MemMove(mem: array<Byte>, pdest: nat, psrc: nat, size: nat)
    requires mem.Length <= WORD
    requires size > 0 && pdest != NULL && psrc != NULL ==> pdest + size <= mem.Length && psrc + size <= mem.Length
    modifies mem
    ensures size == 0 || pdest == NULL || psrc == NULL ==> mem[..] == old(mem[..])
    ensures size > 0 && pdest != NULL && psrc != NULL ==> Delivered(old(mem[..]), mem[..], pdest, psrc, size)
  {
    if size < 1 || pdest == NULL || psrc == NULL {
      return;
    }
    ghost var m0 := mem[..];
    if psrc > pdest {
      MemCopy(mem, pdest, psrc, size);
      ForwardDelivers(m0, mem[..], pdest, psrc, size);
      return;
    }
    var sizeRem: nat := size;
    if (pdest - psrc) % WORD >= ALIGN {
      if (pdest + size - 1) % ALIGN == (psrc + size - 1) % ALIGN {
        SameOffset(pdest, psrc, size - 1);
        sizeRem := MoveTail(mem, pdest, psrc, size, m0);
        sizeRem := MoveWords(mem, pdest, psrc, size, sizeRem, m0);
      }
    }
    MoveRest(mem, pdest, psrc, size, sizeRem, m0);
  }

  // ---------- Mem_Cmp ----------

  /** The two buffers agree on the octets from offset `lo` to offset `hi`. */
  ghost predicate Agree(m: seq<Byte>, p1: nat, p2: nat, lo: nat, hi: nat)
    requires p1 + hi <= |m| && p2 + hi <= |m|
  {
    forall i :: lo <= i < hi ==> m[p1..][i] == m[p2..][i]
  }

  /** *p for one octet of the buffer `b`. */
  function ReadOctet(m: seq<Byte>, p: nat, ghost b: Buffer): Byte
    requires b.Has(p, 1) && b.start + b.size <= |m|
  {
    m[p]
  }

  /** *p for one word of the buffer `b`, on a word boundary. */
  function ReadWord(m: seq<Byte>, p: nat, ghost b: Buffer): nat
    requires p % ALIGN == 0 && b.Has(p, ALIGN) && b.start + b.size <= |m|
  {
    (m[p] as int) + 0x100 * (m[p + 1] as int) + 0x1_0000 * (m[p + 2] as int) + 0x100_0000 * (m[p + 3] as int)
  }

  /** Equal words are equal octets. */
  lemma WordsEqual(a0: Byte, a1: Byte, a2: Byte, a3: Byte, b0: Byte, b1: Byte, b2: Byte, b3: Byte)
    ensures (a0 as int) + 0x100 * (a1 as int) + 0x1_0000 * (a2 as int) + 0x100_0000 * (a3 as int)
            == (b0 as int) + 0x100 * (b1 as int) + 0x1_0000 * (b2 as int) + 0x100_0000 * (b3 as int)
            <==> a0 == b0 && a1 == b1 && a2 == b2 && a3 == b3
  {
  }

  lemma AgreeFour(m: seq<Byte>, p1: nat, p2: nat, lo: nat)
    requires p1 + lo + ALIGN <= |m| && p2 + lo + ALIGN <= |m|
    ensures Agree(m, p1, p2, lo, lo + ALIGN) <==>
              && m[p1 + lo] == m[p2 + lo] && m[p1 + lo + 1] == m[p2 + lo + 1]
              && m[p1 + lo + 2] == m[p2 + lo + 2] && m[p1 + lo + 3] == m[p2 + lo + 3]
  {
    var b, c := m[p1..], m[p2..];
    assert forall i :: lo <= i < lo + ALIGN ==> b[i] == m[p1 + i] && c[i] == m[p2 + i];
    assert b[lo] == m[p1 + lo] && b[lo + 1] == m[p1 + lo + 1];
    assert b[lo + 2] == m[p1 + lo + 2] && b[lo + 3] == m[p1 + lo + 3];
  }

  lemma WordsAgree(m: seq<Byte>, p1: nat, p2: nat, lo: nat, hi: nat)
    requires p1 + hi <= |m| && p2 + hi <= |m| && lo + ALIGN <= hi
    requires (p1 + lo) % ALIGN == 0 && (p2 + lo) % ALIGN == 0
    ensures ReadWord(m, p1 + lo, Buffer(p1, hi)) == ReadWord(m, p2 + lo, Buffer(p2, hi))
            <==> Agree(m, p1, p2, lo, lo + ALIGN)
  {
    AgreeFour(m, p1, p2, lo);
    WordsEqual(m[p1 + lo], m[p1 + lo + 1], m[p1 + lo + 2], m[p1 + lo + 3],
               m[p2 + lo], m[p2 + lo + 1], m[p2 + lo + 2], m[p2 + lo + 3]);
  }

  /** Where a backward comparison stands: identical so far exactly when the compared part agrees. */
  ghost predicate Compared(m: seq<Byte>, p1: nat, p2: nat, size: nat, rem: nat, same: bool) {
    && rem <= size && p1 + size <= |m| && p2 + size <= |m|
    && (same <==> Agree(m, p1, p2, rem, size))
  }

  lemma ComparedMore(m: seq<Byte>, p1: nat, p2: nat, size: nat, rem: nat, n: nat, same: bool)
    requires Compared(m, p1, p2, size, rem, true) && n <= rem
    requires same <==> Agree(m, p1, p2, rem - n, rem)
    ensures Compared(m, p1, p2, size, rem - n, same)
  {
  }

  /** The last octet not yet compared. */
  method CmpOctet(mem: array<Byte>, p1: nat, p2: nat, size: nat, sizeRem: nat) returns (eq: bool)
    requires Compared(mem[..], p1, p2, size, sizeRem, true) && sizeRem > 0
    ensures Compared(mem[..], p1, p2, size, sizeRem - 1, eq)
  {
    eq := ReadOctet(mem[..], p1 + sizeRem - 1, Buffer(p1, size))
       == ReadOctet(mem[..], p2 + sizeRem - 1, Buffer(p2, size));
    assert mem[..][p1..][sizeRem - 1] == mem[p1 + sizeRem - 1];
    assert mem[..][p2..][sizeRem - 1] == mem[p2 + sizeRem - 1];
    ComparedMore(mem[..], p1, p2, size, sizeRem, 1, eq);
  }

  /** The last word not yet compared. */
  method CmpWord(mem: array<Byte>, p1: nat, p2: nat, size: nat, sizeRem: nat) returns (eq: bool)
    requires Compared(mem[..], p1, p2, size, sizeRem, true) && sizeRem >= ALIGN
    requires (p1 + (sizeRem - ALIGN)) % ALIGN == 0 && (p2 + (sizeRem - ALIGN)) % ALIGN == 0
    ensures Compared(mem[..], p1, p2, size, sizeRem - ALIGN, eq)
  {
    eq := ReadWord(mem[..], p1 + (sizeRem - ALIGN), Buffer(p1, size))
       == ReadWord(mem[..], p2 + (sizeRem - ALIGN), Buffer(p2, size));
    WordsAgree(mem[..], p1, p2, sizeRem - ALIGN, size);
    ComparedMore(mem[..], p1, p2, size, sizeRem, ALIGN, eq);
  }

  /** Trailing octets down to a word boundary. */
  method CmpTail(mem: array<Byte>, p1: nat, p2: nat, size: nat) returns (sizeRem: nat, same: bool)
    requires p1 + size <= mem.Length && p2 + size <= mem.Length
    ensures Compared(mem[..], p1, p2, size, sizeRem, same)
    ensures same && sizeRem > 0 ==> (p1 + sizeRem) % ALIGN == 0
  {
    sizeRem, same := size, true;
    var i := (p1 + size) % ALIGN;
    while same && sizeRem > 0 && i > 0
      invariant Compared(mem[..], p1, p2, size, sizeRem, same)
      invariant 0 <= i == (p1 + size) % ALIGN - (size - sizeRem)
    {
      var eq := CmpOctet(mem, p1, p2, size, sizeRem);
      same, sizeRem, i := eq, sizeRem - 1, i - 1;
    }
    assert same && sizeRem > 0 ==> p1 + sizeRem == p1 + size - (p1 + size) % ALIGN;
    AlignedBelow(p1 + size);
  }

  /** Whole words, read on word boundaries only. */
  method CmpWords(mem: array<Byte>, p1: nat, p2: nat, size: nat, rem0: nat, same0: bool)
    returns (sizeRem: nat, same: bool)
    requires Compared(mem[..], p1, p2, size, rem0, same0) && p1 % ALIGN == p2 % ALIGN
    requires same0 && rem0 > 0 ==> (p1 + rem0) % ALIGN == 0
    ensures Compared(mem[..], p1, p2, size, sizeRem, same)
  {
    sizeRem, same := rem0, same0;
    while same && sizeRem >= ALIGN
      invariant Compared(mem[..], p1, p2, size, sizeRem, same)
      invariant same && sizeRem > 0 ==> (p1 + sizeRem) % ALIGN == 0
    {
      BothAligned(p1, p2, sizeRem);
      var eq := CmpWord(mem, p1, p2, size, sizeRem);
      same, sizeRem := eq, sizeRem - ALIGN;
    }
  }

  /** Mem_Cmp: yes exactly when the buffers agree octet for octet. */
  method MemCmp(mem: array<Byte>, p1: nat, p2: nat, size: nat) returns (same: bool)
    requires size > 0 && p1 != NULL && p2 != NULL ==> p1 + size <= mem.Length && p2 + size <= mem.Length
    ensures size == 0 ==> same
    ensures size > 0 && (p1 == NULL || p2 == NULL) ==> !same
    ensures size > 0 && p1 != NULL && p2 != NULL ==>
              (same <==> mem[p1..p1 + size] == mem[p2..p2 + size])
  {
    if size < 1 {
      return true;
    }
    if p1 == NULL || p2 == NULL {
      return false;
    }
    var sizeRem: nat := size;
    same := true;
    if (p1 + size) % ALIGN == (p2 + size) % ALIGN {
      SameOffset(p1, p2, size);
      sizeRem, same := CmpTail(mem, p1, p2, size);
      sizeRem, same := CmpWords(mem, p1, p2, size, sizeRem, same);
    }
    while same && sizeRem > 0
      invariant Compared(mem[..], p1, p2, size, sizeRem, same)
    {
      var eq := CmpOctet(mem, p1, p2, size, sizeRem);
      same, sizeRem := eq, sizeRem - 1;
    }
    AgreeIsEqual(mem[..], p1, p2, size, sizeRem, same);
    assert mem[..][p1..p1 + size] == mem[p1..p1 + size] && mem[..][p2..p2 + size] == mem[p2..p2 + size];
  }

  lemma AgreeIsEqual(m: seq<Byte>, p1: nat, p2: nat, size: nat, rem: nat, same: bool)
    requires Compared(m, p1, p2, size, rem, same) && (same ==> rem == 0)
    ensures same <==> m[p1..p1 + size] == m[p2..p2 + size]
  {
    var a, b := m[p1..p1 + size], m[p2..p2 + size];
    assert forall i :: 0 <= i < size ==> a[i] == m[p1..][i] && b[i] == m[p2..][i];
    if !same {
      var i :| rem <= i < size && m[p1..][i] != m[p2..][i];
      assert a[i] != b[i];
    }
  }
}
