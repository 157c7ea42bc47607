/** Bit counting in cpu_core.c: table-driven leading zeros, trailing zeros by isolating the lowest
    set bit, and the parallel population count. */
module BitCount {
  import opened Arith
  import opened Bits

  // ---------- leading zeros ----------

  /** Number of significant bits. */
  function BitLen(v: nat): nat {
    if v == 0 then 0 else 1 + BitLen(v / 2)
  }

  lemma {:induction false} BitLenRange(v: nat, k: nat)
    requires Pow2(k) <= v < 2 * Pow2(k)
    ensures BitLen(v) == k + 1
    decreases k
  {
    if k == 0 {
      assert v == 1;
      assert BitLen(0) == 0;
    } else {
      BitLenRange(v / 2, k - 1);
    }
  }

  lemma BitLenByte(v: nat)
    requires v >= 0x100
    ensures BitLen(v) == 8 + BitLen(v / 0x100)
  {
    var a := v / 2;
    var b := a / 2;
    var c := b / 2;
    var d := c / 2;
    var e := d / 2;
    var f := e / 2;
    var g := f / 2;
    assert g / 2 == v / 0x100;
    assert BitLen(v) == 1 + BitLen(a) && BitLen(a) == 1 + BitLen(b);
    assert BitLen(b) == 1 + BitLen(c) && BitLen(c) == 1 + BitLen(d);
    assert BitLen(d) == 1 + BitLen(e) && BitLen(e) == 1 + BitLen(f);
    assert BitLen(f) == 1 + BitLen(g) && BitLen(g) == 1 + BitLen(g / 2);
  }

  lemma BitLen2Bytes(v: nat)
    requires v >= 0x1_0000
    ensures BitLen(v) == 16 + BitLen(v / 0x1_0000)
  {
    var a := v / 0x100;
    assert a / 0x100 == v / 0x1_0000;
    BitLenByte(v);
    BitLenByte(a);
  }

  lemma BitLen3Bytes(v: nat)
    requires v >= 0x100_0000
    ensures BitLen(v) == 24 + BitLen(v / 0x100_0000)
  {
    var a := v / 0x1_0000;
    assert a / 0x100 == v / 0x100_0000;
    BitLen2Bytes(v);
    BitLenByte(a);
  }

  function Fill(n: nat, x: nat): (r: seq<nat>)
    ensures |r| == n && forall i :: 0 <= i < n ==> r[i] == x
  {
    seq(n, _ => x)
  }

  /** CPU_CntLeadZerosTbl. */
  const LEAD_ZEROS_TBL: seq<nat> :=
    [8, 7] + (Fill(2, 6) + (Fill(4, 5) + (Fill(8, 4) + (Fill(16, 3) + (Fill(32, 2) + (Fill(64, 1) + Fill(128, 0)))))))

  /** Every entry of the table is right. */
  lemma TableExact(i: nat)
    requires i < 256
    ensures |LEAD_ZEROS_TBL| == 256 && LEAD_ZEROS_TBL[i] + BitLen(i) == 8
  {
    if i == 0 {
      assert BitLen(0) == 0;
    } else if i < 2 { BitLenRange(i, 0);
    } else if i < 4 { BitLenRange(i, 1);
    } else if i < 8 { BitLenRange(i, 2);
    } else if i < 16 { BitLenRange(i, 3);
    } else if i < 32 { BitLenRange(i, 4);
    } else if i < 64 { BitLenRange(i, 5);
    } else if i < 128 { BitLenRange(i, 6);
    } else { BitLenRange(i, 7);
    }
  }

  function Tbl(i: nat): nat
    requires i < 256
  {
    TableExact(i);
    LEAD_ZEROS_TBL[i]
  }

  /** CPU_CntLeadZeros08. */
  function CntLeadZeros08(v: nat): (r: nat)
    requires v < 0x100
    ensures r + BitLen(v) == 8
  {
    TableExact(v);
    Tbl(v)
  }

  /** CPU_CntLeadZeros16. */
  function CntLeadZeros16(v: nat): (r: nat)
    requires v < 0x1_0000
    ensures r + BitLen(v) == 16
  {
    if v > 0xFF then BitLenByte(v); TableExact(v / 0x100); Tbl(v / 0x100)
    else TableExact(v); Tbl(v) + 8
  }

  /** CPU_CntLeadZeros32. */
  function CntLeadZeros32(v: nat): (r: nat)
    requires v < 0x1_0000_0000
    ensures r + BitLen(v) == 32
  {
    if v > 0xFFFF then
      if v > 0xFF_FFFF then BitLen3Bytes(v); TableExact(v / 0x100_0000); Tbl(v / 0x100_0000)
      else BitLen2Bytes(v); TableExact(v / 0x1_0000); Tbl(v / 0x1_0000) + 8
    else if v > 0xFF then BitLenByte(v); TableExact(v / 0x100); Tbl(v / 0x100) + 16
    else TableExact(v); Tbl(v) + 24
  }

  /** The upper half decides unless it is zero: CPU_CntLeadZeros64. */
  function CntLeadZeros64(v: nat): (r: nat)
    requires v < 0x1_0000_0000_0000_0000
    ensures r + BitLen(v) == 64
  {
    if v > 0xFFFF_FFFF then
      BitLenHalf(v);
      if v > 0xFFFF_FFFF_FFFF then
        if v > 0xFF_FFFF_FFFF_FFFF then TopByte(v); Tbl(v / 0x100_0000_0000_0000)
        else TopByte(v); Tbl(v / 0x1_0000_0000_0000) + 8
      else if v > 0xFF_FFFF_FFFF then TopByte(v); Tbl(v / 0x100_0000_0000) + 16
      else TopByte(v); Tbl(v / 0x1_0000_0000) + 24
    else
      if v > 0xFFFF then
        if v > 0xFF_FFFF then LowBytes(v); Tbl(v / 0x100_0000) + 32
        else LowBytes(v); Tbl(v / 0x1_0000) + 40
      else if v > 0xFF then LowBytes(v); Tbl(v / 0x100) + 48
      else TableExact(v); Tbl(v) + 56
  }

  lemma BitLenHalf(v: nat)
    requires v >= 0x1_0000_0000
    ensures BitLen(v) == 32 + BitLen(v / 0x1_0000_0000)
  {
    var a := v / 0x1_0000;
    assert a / 0x1_0000 == v / 0x1_0000_0000;
    BitLen2Bytes(v);
    BitLen2Bytes(a);
  }

  /** Bit length from the highest non-zero byte of a 32-bit value. */
  lemma LowBytes(v: nat)
    requires v < 0x1_0000_0000
    ensures v > 0xFF_FFFF ==> v / 0x100_0000 < 256 && BitLen(v) == 32 - Tbl(v / 0x100_0000)
    ensures 0xFFFF < v <= 0xFF_FFFF ==> v / 0x1_0000 < 256 && BitLen(v) == 24 - Tbl(v / 0x1_0000)
    ensures 0xFF < v <= 0xFFFF ==> v / 0x100 < 256 && BitLen(v) == 16 - Tbl(v / 0x100)
  {
    var _ := CntLeadZeros32(v);
  }

  /** The same in the upper half of a 64-bit value. */
  lemma TopByte(v: nat)
    requires 0xFFFF_FFFF < v < 0x1_0000_0000_0000_0000
    ensures v > 0xFF_FFFF_FFFF_FFFF ==>
              v / 0x100_0000_0000_0000 < 256 && BitLen(v) == 64 - Tbl(v / 0x100_0000_0000_0000)
    ensures 0xFFFF_FFFF_FFFF < v <= 0xFF_FFFF_FFFF_FFFF ==>
              v / 0x1_0000_0000_0000 < 256 && BitLen(v) == 56 - Tbl(v / 0x1_0000_0000_0000)
    ensures 0xFF_FFFF_FFFF < v <= 0xFFFF_FFFF_FFFF ==>
              v / 0x100_0000_0000 < 256 && BitLen(v) == 48 - Tbl(v / 0x100_0000_0000)
    ensures v <= 0xFF_FFFF_FFFF ==> v / 0x1_0000_0000 < 256 && BitLen(v) == 40 - Tbl(v / 0x1_0000_0000)
  {
    BitLenHalf(v);
    var h := v / 0x1_0000_0000;
    if h > 0xFF {
      LowBytes(h);
      assert h / 0x100_0000 == v / 0x100_0000_0000_0000;
      assert h / 0x1_0000 == v / 0x1_0000_0000_0000;
      assert h / 0x100 == v / 0x100_0000_0000;
    } else {
      TableExact(h);
    }
  }

  // ---------- trailing zeros ----------

  /** Position of the lowest set bit. */
  function LowestSet(v: nat): nat
    requires v > 0
  {
    if v % 2 == 1 then 0 else 1 + LowestSet(v / 2)
  }

  /** The position is right: an odd multiple of that power of two. */
  lemma {:induction false} LowestSetIs(v: nat)
    requires v > 0
    ensures v % Pow2(LowestSet(v)) == 0 && Quot(v, Pow2(LowestSet(v))) % 2 == 1
  {
    if v % 2 == 0 {
      LowestSetIs(v / 2);
      TwiceMultiple(v / 2, Pow2(LowestSet(v / 2)));
    }
  }

  lemma TwiceMultiple(h: nat, p: nat)
    requires p > 0 && h % p == 0
    ensures (2 * h) % (2 * p) == 0 && (2 * h) / (2 * p) == h / p
  {
    var q := h / p;
    assert h == q * p;
    assert 2 * h == q * (2 * p);
    ModMultiple(2 * p, q);
  }

  /** val & (~val + 1) keeps the lowest set bit alone. */
  lemma {:induction false} IsolatesLowest(v: nat, w: nat)
    requires 0 < v < Pow2(w)
    ensures And(v, Not(v, w) + 1) == Pow2(LowestSet(v))
  {
    var m := Not(v, w) + 1;
    AndHalves(v, m);
    if v % 2 == 1 {
      NotHalf(v, w);
      AndNot(v / 2, w - 1);
      assert m / 2 == Not(v / 2, w - 1) && m % 2 == 1;
    } else {
      assert Pow2(w) == 2 * Pow2(w - 1);
      IsolatesLowest(v / 2, w - 1);
      assert m / 2 == Not(v / 2, w - 1) + 1 && m % 2 == 0;
    }
  }

  lemma {:induction false} LowestBelow(v: nat, w: nat)
    requires 0 < v < Pow2(w)
    ensures LowestSet(v) < w && Pow2(LowestSet(v)) <= v
  {
    if v % 2 == 0 {
      LowestBelow(v / 2, w - 1);
    }
  }

  /** val & (~val + 1) in words of `m` values. */
  function Isolated(v: nat, m: nat): nat
    requires v < m
  {
    And(v, m - 1 - v + 1)
  }

  lemma IsolatedLength(v: nat, w: nat, m: nat)
    requires 0 < v < m && m == Pow2(w)
    ensures Isolated(v, m) < m && BitLen(Isolated(v, m)) == LowestSet(v) + 1
  {
    IsolatesLowest(v, w);
    LowestBelow(v, w);
    BitLenRange(Pow2(LowestSet(v)), LowestSet(v));
  }

  lemma Widths()
    ensures Pow2(8) == 0x100 && Pow2(16) == 0x1_0000 && Pow2(32) == 0x1_0000_0000 && Pow2(64) == 0x1_0000_0000_0000_0000
  {
    assert Pow2(4) == 16;
    Pow2Add(4, 4);
    Pow2Add(8, 8);
    Pow2Add(16, 16);
    Pow2Add(32, 32);
  }

  /** The isolated bit fits the word again, in each of the four widths. */
  lemma IsolatedFits(v: nat, m: nat)
    requires 0 < v < m
    requires m == 0x100 || m == 0x1_0000 || m == 0x1_0000_0000 || m == 0x1_0000_0000_0000_0000
    ensures Isolated(v, m) < m && BitLen(Isolated(v, m)) == LowestSet(v) + 1
  {
    Widths();
    IsolatedLength(v, if m == 0x100 then 8 else if m == 0x1_0000 then 16 else if m == 0x1_0000_0000 then 32 else 64, m);
  }

  /** CPU_CntTrailZeros08. */
  function CntTrailZeros08(v: nat): (r: nat)
    requires v < 0x100
    ensures r == if v == 0 then 8 else LowestSet(v)
  {
    if v == 0 then 8
    else
      IsolatedFits(v, 0x100);
      7 - CntLeadZeros08(Isolated(v, 0x100))
  }

  /** CPU_CntTrailZeros16. */
  function CntTrailZeros16(v: nat): (r: nat)
    requires v < 0x1_0000
    ensures r == if v == 0 then 16 else LowestSet(v)
  {
    if v == 0 then 16
    else
      IsolatedFits(v, 0x1_0000);
      15 - CntLeadZeros16(Isolated(v, 0x1_0000))
  }

  /** CPU_CntTrailZeros32. */
  function CntTrailZeros32(v: nat): (r: nat)
    requires v < 0x1_0000_0000
    ensures r == if v == 0 then 32 else LowestSet(v)
  {
    if v == 0 then 32
    else
      IsolatedFits(v, 0x1_0000_0000);
      31 - CntLeadZeros32(Isolated(v, 0x1_0000_0000))
  }

  /** CPU_CntTrailZeros64. */
  function CntTrailZeros64(v: nat): (r: nat)
    requires v < 0x1_0000_0000_0000_0000
    ensures r == if v == 0 then 64 else LowestSet(v)
  {
    if v == 0 then 64
    else
      IsolatedFits(v, 0x1_0000_0000_0000_0000);
      63 - CntLeadZeros64(Isolated(v, 0x1_0000_0000_0000_0000))
  }

  // ---------- population count ----------

  /** Number of set bits. */
  function Ones(v: nat): nat {
    if v == 0 then 0 else v % 2 + Ones(v / 2)
  }

  lemma AndUnfold(a: nat, b: nat)
    ensures And(a, b) == BothOdd(a, b) + 2 * And(a / 2, b / 2)
  {
  }

  lemma LowAndHigh(x: nat, a: nat, b: nat)
    requires a < 2 && x == a + 2 * b
    ensures x % 2 == a && x / 2 == b
  {
  }

  lemma AndBit(x: nat, a: nat, b: nat, y: nat, c: nat, d: nat)
    requires x == a + 2 * b && y == c + 2 * d && a < 2 && c < 2
    ensures And(x, y) == BothOdd(a, c) + 2 * And(b, d)
  {
    AndUnfold(x, y);
    LowAndHigh(x, a, b);
    LowAndHigh(y, c, d);
  }

  /** Bitwise conjunction field by field, for fields of `k` bits; the shifted parts are given. */
  lemma {:induction false} AndSplit(a: nat, b: nat, c: nat, d: nat, k: nat, p: nat, pb: nat, pd: nat, pe: nat)
    requires p == Pow2(k) && a < p && c < p
    requires pb == Product(p, b) && pd == Product(p, d) && pe == Product(p, And(b, d))
    ensures And(a + pb, c + pd) == And(a, c) + pe
    decreases k, 0
  {
    if k > 0 {
      var h := Pow2(k - 1);
      Doubled(p, h, b);
      Doubled(p, h, d);
      Doubled(p, h, And(b, d));
      AndSplitHalf(a, b, c, d, k - 1, h, Product(h, b), Product(h, d), Product(h, And(b, d)), pb, pd);
    } else {
      assert p == 1 && a == 0 && c == 0;
    }
  }

  lemma {:induction false} AndSplitHalf(a: nat, b: nat, c: nat, d: nat, k: nat, h: nat, hb: nat, hd: nat, he: nat,
                                        pb: nat, pd: nat)
    requires h == Pow2(k) && a < 2 * h && c < 2 * h && pb == 2 * hb && pd == 2 * hd
    requires hb == Product(h, b) && hd == Product(h, d) && he == Product(h, And(b, d))
    ensures And(a + pb, c + pd) == And(a, c) + 2 * he
    decreases k, 1
  {
    AndSplit(a / 2, b, c / 2, d, k, h, hb, hd, he);
    AndDouble(a, hb, c, hd, he, pb, pd);
  }

  lemma Doubled(p: nat, h: nat, b: nat)
    requires p == 2 * h
    ensures Product(p, b) == 2 * Product(h, b)
  {
  }

  /** One more bit in the field. */
  lemma AndDouble(a: nat, hb: nat, c: nat, hd: nat, he: nat, pb: nat, pd: nat)
    requires And(a / 2 + hb, c / 2 + hd) == And(a / 2, c / 2) + he && pb == 2 * hb && pd == 2 * hd
    ensures And(a + pb, c + pd) == And(a, c) + 2 * he
  {
    AndBit(a + pb, a % 2, a / 2 + hb, c + pd, c % 2, c / 2 + hd);
    AndBit(a, a % 2, a / 2, c, c % 2, c / 2);
  }

  /** The fields of 2, 4 or 8 bits of `v`, each replaced by its number of set bits. */
  function Counts2(v: nat, n: nat): nat {
    if n == 0 then 0 else Ones(v % 4) + 4 * Counts2(v / 4, n - 1)
  }

  function Counts4(v: nat, n: nat): nat {
    if n == 0 then 0 else Ones(v % 16) + 16 * Counts4(v / 16, n - 1)
  }

  function Counts8(v: nat, n: nat): nat {
    if n == 0 then 0 else Ones(v % 256) + 256 * Counts8(v / 256, n - 1)
  }

  /** 0x55..., 0x33... and 0x0F... of `n` fields. */
  function Mask01(n: nat): nat { if n == 0 then 0 else 1 + 4 * Mask01(n - 1) }

  function Mask0011(n: nat): nat { if n == 0 then 0 else 3 + 16 * Mask0011(n - 1) }

  function Mask00001111(n: nat): nat { if n == 0 then 0 else 15 + 256 * Mask00001111(n - 1) }

  lemma Ones2(d: nat)
    requires d < 4
    ensures Ones(d) == d - d / 2
  {
    assert Ones(d / 2) == d / 2 by {
      assert Ones(0) == 0 && Ones(1) == 1;
    }
  }

  lemma OnesSplit2(v: nat)
    ensures Ones(v) == Ones(v % 4) + Ones(v / 4)
  {
    Ones2(v % 4);
    assert Ones(v) == v % 2 + Ones(v / 2);
    assert Ones(v / 2) == v / 2 % 2 + Ones(v / 2 / 2);
  }

  lemma Nested4(v: nat)
    ensures v / 4 / 4 == v / 16 && v / 4 % 4 == v % 16 / 4 && v % 16 % 4 == v % 4
  {
  }

  lemma Nested16(v: nat)
    ensures v / 16 / 16 == v / 256 && v / 16 % 16 == v % 256 / 16 && v % 256 % 16 == v % 16
  {
  }

  lemma OnesSplit4(v: nat)
    ensures Ones(v) == Ones(v % 16) + Ones(v / 16)
  {
    Nested4(v);
    OnesSplit2(v);
    OnesSplit2(v / 4);
    OnesSplit2(v % 16);
  }

  lemma OnesSplit8(v: nat)
    ensures Ones(v) == Ones(v % 256) + Ones(v / 256)
  {
    Nested16(v);
    OnesSplit4(v);
    OnesSplit4(v / 16);
    OnesSplit4(v % 256);
  }

  lemma {:induction false} Stage2(v: nat, n: nat)
    requires v < Pow2(2 * n)
    ensures v - And(v / 2, Mask01(n)) == Counts2(v, n)
    decreases n
  {
    if n > 0 {
      assert v / 4 < Pow2(2 * (n - 1)) by {
        assert Pow2(2 * n) == 2 * Pow2(2 * n - 1) && Pow2(2 * n - 1) == 2 * Pow2(2 * n - 2);
      }
      Stage2(v / 4, n - 1);
      Ones2(v % 4);
      EvenBit(v, v / 4, Mask01(n - 1));
    }
  }

  /** Of each pair, 01 keeps the upper bit moved down. */
  lemma EvenBit(v: nat, u: nat, m: nat)
    requires u == v / 4
    ensures And(v / 2, 1 + 4 * m) == v % 4 / 2 + 4 * And(u / 2, m)
  {
    var a0, a1, b := v % 4 / 2, u % 2, u / 2;
    assert v / 2 == a0 + 2 * (a1 + 2 * b);
    KeepEven(a0, a1, b, m, 0);
  }

  lemma KeepEven(a0: nat, a1: nat, b: nat, m: nat, c: nat)
    requires a0 < 2 && a1 < 2 && c == 0
    ensures And(a0 + 2 * (a1 + 2 * b), 1 + 2 * (c + 2 * m)) == a0 + 4 * And(b, m)
  {
    AndBit(a0 + 2 * (a1 + 2 * b), a0, a1 + 2 * b, 1 + 2 * (c + 2 * m), 1, c + 2 * m);
    AndBit(a1 + 2 * b, a1, b, c + 2 * m, c, m);
  }

  lemma LowMask(lo: nat, k: nat, mask: nat)
    requires lo < Pow2(k) && mask == Pow2(k) - 1
    ensures And(lo, mask) == lo
  {
    AndLow(lo, k);
    DivModUnique(lo, Pow2(k), 0, lo);
  }

  lemma AndZero(a: nat)
    ensures And(a, 0) == 0
  {
  }

  /** Masking a pair of fields keeps the lower one. */
  lemma KeepLow2(lo: nat, hi: nat, rest: nat, m: nat, mask: nat)
    requires lo < 4 && hi < 4 && mask == 3
    ensures And(lo + 4 * hi + 16 * rest, mask + 16 * m) == lo + 16 * And(rest, m)
  {
    assert Pow2(2) == 4 && Pow2(4) == 16;
    AndSplit(lo + 4 * hi, rest, mask, m, 4, 16, 16 * rest, 16 * m, 16 * And(rest, m));
    LowOfPair2(lo, hi, mask);
  }

  lemma LowOfPair2(lo: nat, hi: nat, mask: nat)
    requires lo < 4 && hi < 4 && mask == 3
    ensures And(lo + 4 * hi, mask) == lo
  {
    assert Pow2(2) == 4;
    AndZero(hi);
    AndSplit(lo, hi, mask, 0, 2, 4, 4 * hi, 0, 0);
    LowMask(lo, 2, mask);
  }

  lemma KeepLow4(lo: nat, hi: nat, rest: nat, m: nat, mask: nat)
    requires lo < 16 && hi < 16 && mask == 15
    ensures And(lo + 16 * hi + 256 * rest, mask + 256 * m) == lo + 256 * And(rest, m)
  {
    assert Pow2(4) == 16 && Pow2(8) == 256;
    AndSplit(lo + 16 * hi, rest, mask, m, 8, 256, 256 * rest, 256 * m, 256 * And(rest, m));
    LowOfPair4(lo, hi, mask);
  }

  lemma LowOfPair4(lo: nat, hi: nat, mask: nat)
    requires lo < 16 && hi < 16 && mask == 15
    ensures And(lo + 16 * hi, mask) == lo
  {
    assert Pow2(4) == 16;
    AndZero(hi);
    AndSplit(lo, hi, mask, 0, 4, 16, 16 * hi, 0, 0);
    LowMask(lo, 4, mask);
  }

  lemma ShiftFields2(o0: nat, o1: nat, rest: nat)
    requires o0 < 4
    ensures (o0 + 4 * o1 + 16 * rest) / 4 == o1 + 4 * (rest % 4) + 16 * (rest / 4)
  {
  }

  lemma ShiftFields4(o0: nat, o1: nat, rest: nat)
    requires o0 < 16
    ensures (o0 + 16 * o1 + 256 * rest) / 16 == o1 + 16 * (rest % 16) + 256 * (rest / 16)
  {
  }

  lemma OnesBounds(v: nat)
    ensures Ones(v % 4) <= 2 && Ones(v % 16) <= 4 && Ones(v % 256) <= 8
    ensures Ones(v % 16) == Ones(v % 4) + Ones(v / 4 % 4)
    ensures Ones(v % 256) == Ones(v % 16) + Ones(v / 16 % 16)
  {
    Nested4(v);
    Nested16(v);
    Ones2(v % 4);
    Ones2(v / 4 % 4);
    OnesSplit2(v % 16);
    Nested4(v / 16);
    Ones2(v / 16 % 4);
    Ones2(v / 16 / 4 % 4);
    OnesSplit2(v / 16 % 16);
    OnesSplit4(v % 256);
  }

  /** The counts of two fields as those of their parts. */
  lemma CountsOfPair2(v: nat, k: nat)
    ensures Counts2(v, k + 2) == Ones(v % 4) + 4 * Ones(v / 4 % 4) + 16 * Counts2(v / 16, k)
  {
    Nested4(v);
    assert Counts2(v, k + 2) == Ones(v % 4) + 4 * Counts2(v / 4, k + 1);
    assert Counts2(v / 4, k + 1) == Ones(v / 4 % 4) + 4 * Counts2(v / 4 / 4, k);
  }

  lemma CountsOfPair4(v: nat, k: nat)
    ensures Counts4(v, k + 2) == Ones(v % 16) + 16 * Ones(v / 16 % 16) + 256 * Counts4(v / 256, k)
  {
    Nested16(v);
    assert Counts4(v, k + 2) == Ones(v % 16) + 16 * Counts4(v / 16, k + 1);
    assert Counts4(v / 16, k + 1) == Ones(v / 16 % 16) + 16 * Counts4(v / 16 / 16, k);
  }

  /** A masked value `x` whose upper part is masked to `y`. */
  lemma LowField2(r: nat, lo: nat, hi: nat, rest: nat, m: nat, mask: nat, x: nat, y: nat)
    requires lo < 4 && hi < 4 && r == lo + 4 * hi + 16 * rest && mask == 3 + 16 * m
    requires x == And(r, mask) && y == And(rest, m)
    ensures x == lo + 16 * y
  {
    KeepLow2(lo, hi, rest, m, 3);
  }

  lemma AddPairsStep(o0: nat, o1: nat, rest: nat, m: nat)
    requires o0 < 4 && o1 < 4
    ensures AddPairs(o0 + 4 * o1 + 16 * rest, 3 + 16 * m) == o0 + o1 + 16 * AddPairs(rest, m)
  {
    var r, mask := o0 + 4 * o1 + 16 * rest, 3 + 16 * m;
    ShiftFields2(o0, o1, rest);
    LowField2(r, o0, o1, rest, m, mask, And(r, mask), And(rest, m));
    LowField2(r / 4, o1, rest % 4, rest / 4, m, mask, And(r / 4, mask), And(rest / 4, m));
  }

  /** A masked value `x` whose upper part is masked to `y`. */
  lemma LowField4(r: nat, lo: nat, hi: nat, rest: nat, m: nat, mask: nat, x: nat, y: nat)
    requires lo < 16 && hi < 16 && r == lo + 16 * hi + 256 * rest && mask == 15 + 256 * m
    requires x == And(r, mask) && y == And(rest, m)
    ensures x == lo + 256 * y
  {
    KeepLow4(lo, hi, rest, m, 15);
  }

  lemma AddNibblesStep(o0: nat, o1: nat, rest: nat, m: nat)
    requires o0 < 16 && o1 < 16
    ensures AddNibbles(o0 + 16 * o1 + 256 * rest, 15 + 256 * m) == o0 + o1 + 256 * AddNibbles(rest, m)
  {
    var r, mask := o0 + 16 * o1 + 256 * rest, 15 + 256 * m;
    ShiftFields4(o0, o1, rest);
    LowField4(r, o0, o1, rest, m, mask, And(r, mask), And(rest, m));
    LowField4(r / 16, o1, rest % 16, rest / 16, m, mask, And(r / 16, mask), And(rest / 16, m));
  }

  lemma OnesOfPair2(v: nat)
    ensures Ones(v % 4) < 4 && Ones(v / 4 % 4) < 4 && Ones(v % 16) == Ones(v % 4) + Ones(v / 4 % 4)
  {
    OnesBounds(v);
    OnesBounds(v / 4);
  }

  lemma OnesOfPair4(v: nat)
    ensures Ones(v % 16) < 16 && Ones(v / 16 % 16) < 16 && Ones(v % 256) == Ones(v % 16) + Ones(v / 16 % 16)
  {
    OnesBounds(v);
    OnesBounds(v / 16);
  }

  lemma Stage4Step(v: nat, k: nat, n: nat, m: nat)
    requires AddPairs(Counts2(v / 16, k), m) == Counts4(v / 16, n)
    ensures AddPairs(Counts2(v, k + 2), 3 + 16 * m) == Counts4(v, n + 1)
  {
    OnesOfPair2(v);
    CountsOfPair2(v, k);
    AddPairsStep(Ones(v % 4), Ones(v / 4 % 4), Counts2(v / 16, k), m);
  }

  lemma Stage8Step(v: nat, k: nat, n: nat, m: nat)
    requires AddNibbles(Counts4(v / 256, k), m) == Counts8(v / 256, n)
    ensures AddNibbles(Counts4(v, k + 2), 15 + 256 * m) == Counts8(v, n + 1)
  {
    OnesOfPair4(v);
    CountsOfPair4(v, k);
    AddNibblesStep(Ones(v % 16), Ones(v / 16 % 16), Counts4(v / 256, k), m);
  }

  lemma NothingToAdd(r: nat, mask: nat)
    requires mask == 0
    ensures AddPairs(r, mask) == 0 && AddNibbles(r, mask) == 0
  {
  }

  lemma {:induction false} Stage4(v: nat, n: nat, k: nat)
    requires k == 2 * n
    ensures AddPairs(Counts2(v, k), Mask0011(n)) == Counts4(v, n)
    decreases n
  {
    if n > 0 {
      Stage4(v / 16, n - 1, k - 2);
      Stage4Step(v, k - 2, n - 1, Mask0011(n - 1));
    } else {
      NothingToAdd(Counts2(v, k), Mask0011(n));
    }
  }

  lemma {:induction false} Stage8(v: nat, n: nat, k: nat)
    requires k == 2 * n
    ensures AddNibbles(Counts4(v, k), Mask00001111(n)) == Counts8(v, n)
    decreases n
  {
    if n > 0 {
      Stage8(v / 256, n - 1, k - 2);
      Stage8Step(v, k - 2, n - 1, Mask00001111(n - 1));
    } else {
      NothingToAdd(Counts4(v, k), Mask00001111(n));
    }
  }

  /** Multiplying by 0x01010101 sums the four bytes into the top one. */
  lemma SumBytes(b0: nat, b1: nat, b2: nat, b3: nat)
    requires b0 <= 8 && b1 <= 8 && b2 <= 8 && b3 <= 8
    ensures AddBytes(b0 + 256 * (b1 + 256 * (b2 + 256 * b3))) == b0 + b1 + b2 + b3
  {
    var r := b0 + 256 * (b1 + 256 * (b2 + 256 * b3));
    var low := b0 + 0x100 * (b0 + b1) + 0x1_0000 * (b0 + b1 + b2);
    var top := b0 + b1 + b2 + b3;
    var over := (b1 + b2 + b3) + 0x100 * (b2 + b3) + 0x1_0000 * b3;
    assert r * 0x0101_0101 == low + 0x100_0000 * top + 0x1_0000_0000 * over;
    assert low < 0x100_0000 && low + 0x100_0000 * top < 0x1_0000_0000;
    DivModUnique(r * 0x0101_0101, 0x1_0000_0000, over, low + 0x100_0000 * top);
    DivModUnique(low + 0x100_0000 * top, 0x100_0000, top, low);
  }

  lemma Masks()
    ensures Mask01(16) == 0x5555_5555 && Mask0011(8) == 0x3333_3333 && Mask00001111(4) == 0x0F0F_0F0F
  {
    assert Mask01(4) == 0x55 && Mask0011(2) == 0x33 && Mask00001111(1) == 0x0F;
    assert Mask01(8) == 0x5555;
    assert Mask01(12) == 0x55_5555;
    assert Mask0011(4) == 0x3333;
    assert Mask00001111(2) == 0x0F0F;
  }

  /** The body of CPU_PopCnt32 for given masks. */
  function PopCntWith(v: nat, m2: nat, m4: nat, m8: nat): nat {
    AddBytes(AddNibbles(AddPairs(v - And(v / 2, m2), m4), m8))
  }

  function AddPairs(r: nat, mask: nat): nat {
    And(r, mask) + And(r / 4, mask)
  }

  function AddNibbles(r: nat, mask: nat): nat {
    And(r, mask) + And(r / 16, mask)
  }

  function AddBytes(r: nat): nat {
    r * 0x0101_0101 % 0x1_0000_0000 / 0x100_0000
  }

  /** CPU_PopCnt32. */
  function PopCnt32(v: nat): nat
    requires v < 0x1_0000_0000
  {
    PopCntWith(v, 0x5555_5555, 0x3333_3333, 0x0F0F_0F0F)
  }

  lemma PopCntWithExact(v: nat, n: nat, m2: nat, m4: nat, m8: nat)
    requires v < Pow2(2 * (4 * n)) && m2 == Mask01(4 * n) && m4 == Mask0011(2 * n) && m8 == Mask00001111(n)
    ensures PopCntWith(v, m2, m4, m8) == AddBytes(Counts8(v, n))
  {
    Stage2(v, 4 * n);
    assert v - And(v / 2, m2) == Counts2(v, 4 * n);
    Stage4(v, 2 * n, 4 * n);
    Stage8(v, n, 2 * n);
  }

  /** POPULATION COUNT: the parallel count is the number of set bits, for every 32-bit word. */
  lemma PopCnt32Exact(v: nat)
    requires v < 0x1_0000_0000
    ensures PopCnt32(v) == Ones(v)
  {
    Widths();
    Masks();
    PopCntWithExact(v, 4, 0x5555_5555, 0x3333_3333, 0x0F0F_0F0F);
    ByteSum(v, v / 0x100, v / 0x1_0000, v / 0x100_0000);
  }

  lemma OnesOfByte(v: nat)
    ensures Ones(v % 256) <= 8 && Ones(v) == Ones(v % 256) + Ones(v / 256)
  {
    OnesBounds(v);
    OnesSplit8(v);
  }

  lemma FourCounts(v: nat, a: nat, b: nat, c: nat)
    requires a == v / 256 && b == a / 256 && c == b / 256
    ensures Counts8(v, 4) == Ones(v % 256) + 256 * (Ones(a % 256) + 256 * (Ones(b % 256) + 256 * Ones(c % 256)))
  {
    assert Counts8(c, 1) == Ones(c % 256) + 256 * Counts8(c / 256, 0);
    assert Counts8(b, 2) == Ones(b % 256) + 256 * Counts8(c, 1);
    assert Counts8(a, 3) == Ones(a % 256) + 256 * Counts8(b, 2);
  }

  lemma FourBytes(v: nat, a: nat, b: nat, c: nat)
    requires v < 0x1_0000_0000 && a == v / 0x100 && b == v / 0x1_0000 && c == v / 0x100_0000
    ensures b == a / 256 && c == b / 256 && c % 256 == c
  {
  }

  lemma ByteSum(v: nat, a: nat, b: nat, c: nat)
    requires v < 0x1_0000_0000 && a == v / 0x100 && b == v / 0x1_0000 && c == v / 0x100_0000
    ensures AddBytes(Counts8(v, 4)) == Ones(v)
  {
    FourBytes(v, a, b, c);
    OnesOfByte(v);
    OnesOfByte(a);
    OnesOfByte(b);
    OnesOfByte(c);
    FourCounts(v, a, b, c);
    SumBytes(Ones(v % 256), Ones(a % 256), Ones(b % 256), Ones(c % 256));
  }
}
