/** Bit-field macros of lib_def.h on unsigned words of `w` bits. */
module BitField {
  import opened Arith
  import opened Bits

  // ---------- bits of words ----------

  function Bit(x: nat, i: nat): nat {
    if i == 0 then x % 2 else Bit(x / 2, i - 1)
  }

  lemma {:induction false} BitBound(x: nat, i: nat)
    ensures Bit(x, i) < 2
  {
    if i > 0 {
      BitBound(x / 2, i - 1);
    }
  }

  lemma {:induction false} BitZero(i: nat)
    ensures Bit(0, i) == 0
  {
    if i > 0 {
      BitZero(i - 1);
    }
  }

  lemma {:induction false} BitAnd(a: nat, b: nat, i: nat)
    ensures Bit(And(a, b), i) == if Bit(a, i) == 1 && Bit(b, i) == 1 then 1 else 0
    decreases i
  {
    if a == 0 || b == 0 {
      BitZero(i);
    } else {
      AndHalves(a, b);
      if i > 0 {
        BitAnd(a / 2, b / 2, i - 1);
      }
    }
  }

  lemma {:induction false} BitOr(a: nat, b: nat, i: nat)
    ensures Bit(Or(a, b), i) == Max(Bit(a, i), Bit(b, i))
    decreases i
  {
    BitBound(b, i);
    if a == 0 {
      BitZero(i);
    } else if i > 0 {
      BitOr(a / 2, b / 2, i - 1);
    }
  }

  lemma {:induction false} BitNot(a: nat, w: nat, i: nat)
    requires a < Pow2(w) && i < w
    ensures Bit(Not(a, w), i) == 1 - Bit(a, i)
    decreases i
  {
    NotHalf(a, w);
    if i > 0 {
      BitNot(a / 2, w - 1, i - 1);
    }
  }

  /** Words with the same bits are the same. */
  lemma {:induction false} SameBits(x: nat, y: nat, w: nat)
    requires x < Pow2(w) && y < Pow2(w)
    requires forall i :: 0 <= i < w ==> Bit(x, i) == Bit(y, i)
    ensures x == y
    decreases w
  {
    if w > 0 {
      assert Bit(x, 0) == Bit(y, 0);
      forall i | 0 <= i < w - 1
        ensures Bit(x / 2, i) == Bit(y / 2, i)
      {
        assert Bit(x, i + 1) == Bit(y, i + 1);
      }
      SameBits(x / 2, y / 2, w - 1);
    }
  }

  lemma {:induction false} OrBound(a: nat, b: nat, w: nat)
    requires a < Pow2(w) && b < Pow2(w)
    ensures Or(a, b) < Pow2(w)
    decreases w
  {
    if a != 0 {
      OrBound(a / 2, b / 2, w - 1);
    }
  }

  /** Multiplying by 2^lo shifts the bits up. */
  lemma {:induction false} BitMul(v: nat, lo: nat, i: nat)
    ensures Bit(v * Pow2(lo), i) == if i < lo then 0 else Bit(v, i - lo)
    decreases lo
  {
    if lo > 0 {
      var y := v * Pow2(lo - 1);
      assert v * Pow2(lo) == 2 * y;
      if i > 0 {
        BitMul(v, lo - 1, i - 1);
      }
    }
  }

  lemma DivTwice(x: nat, h: nat)
    requires h > 0
    ensures x / 2 / h == x / (2 * h)
  {
    var q, r := x / 2 / h, x / 2 % h;
    assert x / 2 == q * h + r;
    assert x == q * (2 * h) + (2 * r + x % 2) by {
      assert q * (2 * h) == 2 * (q * h);
    }
    DivModUnique(x, 2 * h, q, 2 * r + x % 2);
  }

  /** Dividing by 2^lo shifts them down. */
  lemma {:induction false} BitDiv(x: nat, lo: nat, i: nat)
    ensures Bit(Quot(x, Pow2(lo)), i) == Bit(x, i + lo)
    decreases lo
  {
    if lo > 0 {
      BitDiv(x / 2, lo - 1, i);
      DivTwice(x, Pow2(lo - 1));
    }
  }

  /** Reducing modulo 2^w keeps the low bits and clears the rest. */
  lemma {:induction false} BitMod(x: nat, w: nat, i: nat)
    ensures Bit(x % Pow2(w), i) == if i < w then Bit(x, i) else 0
    decreases w
  {
    if w == 0 {
      BitZero(i);
    } else {
      HalfMod(x, Pow2(w - 1));
      if i > 0 {
        BitMod(x / 2, w - 1, i - 1);
      }
    }
  }

  lemma {:induction false} BitOnes(len: nat, i: nat)
    ensures Bit(Pow2(len) - 1, i) == if i < len then 1 else 0
    decreases len
  {
    if len == 0 {
      BitZero(i);
    } else {
      assert (Pow2(len) - 1) / 2 == Pow2(len - 1) - 1;
      if i > 0 {
        BitOnes(len - 1, i - 1);
      }
    }
  }

  // ---------- the macros ----------

  /** field_mask & ~(field_mask << 1): the lowest bit of the field. */
  function LowBit(mask: nat, w: nat): nat {
    And(mask, Not(mask * 2 % Pow2(w), w))
  }

  /** DEF_BIT_FIELD_RD. */
  function FieldRd(val: nat, mask: nat, w: nat): nat
    requires LowBit(mask, w) > 0
  {
    Quot(And(val, mask), LowBit(mask, w))
  }

  /** DEF_BIT_FIELD_ENC. */
  function FieldEnc(v: nat, mask: nat, w: nat): (r: nat)
    ensures r <= mask
  {
    And(v * LowBit(mask, w) % Pow2(w), mask)
  }

  /** DEF_BIT_FIELD_WR. */
  function FieldWr(x: nat, v: nat, mask: nat, w: nat): (r: nat)
    requires mask < Pow2(w) && x < Pow2(w)
    ensures r < Pow2(w)
  {
    OrBound(And(x, Not(mask, w)), FieldEnc(v, mask, w), w);
    Or(And(x, Not(mask, w)), FieldEnc(v, mask, w))
  }

  /** Bit by bit: inside the mask the encoded value, outside the old word. */
  lemma WrBits(x: nat, v: nat, mask: nat, w: nat, i: nat)
    requires mask < Pow2(w) && x < Pow2(w) && i < w
    ensures Bit(FieldWr(x, v, mask, w), i) == if Bit(mask, i) == 1 then Bit(FieldEnc(v, mask, w), i) else Bit(x, i)
    ensures Bit(mask, i) != 1 ==> Bit(mask, i) == 0 && Bit(FieldEnc(v, mask, w), i) == 0
  {
    var keep, enc := And(x, Not(mask, w)), FieldEnc(v, mask, w);
    BitBound(mask, i);
    BitBound(x, i);
    BitBound(enc, i);
    BitNot(mask, w, i);
    BitAnd(x, Not(mask, w), i);
    BitAnd(v * LowBit(mask, w) % Pow2(w), mask, i);
    BitOr(keep, enc, i);
  }

  /** FRAME: bits outside the mask are unchanged by a write, for any mask. */
  lemma WrFrame(x: nat, v: nat, mask: nat, w: nat)
    requires mask < Pow2(w) && x < Pow2(w)
    ensures And(FieldWr(x, v, mask, w), Not(mask, w)) == And(x, Not(mask, w))
  {
    var y, keep := FieldWr(x, v, mask, w), Not(mask, w);
    forall i | 0 <= i < w
      ensures Bit(And(y, keep), i) == Bit(And(x, keep), i)
    {
      WrBits(x, v, mask, w, i);
      BitNot(mask, w, i);
      BitAnd(y, keep, i);
      BitAnd(x, keep, i);
    }
    SameBits(And(y, keep), And(x, keep), w);
  }

  lemma DisjointBits(m: nat, n: nat, i: nat)
    requires And(m, n) == 0
    ensures Bit(m, i) == 0 || Bit(n, i) == 0
  {
    BitAnd(m, n, i);
    BitBound(m, i);
    BitBound(n, i);
    BitZero(i);
  }

  /** COMMUTATION: writes to disjoint fields commute, for any masks. */
  lemma WrCommute(x: nat, v: nat, m: nat, u: nat, n: nat, w: nat)
    requires m < Pow2(w) && n < Pow2(w) && x < Pow2(w) && And(m, n) == 0
    ensures FieldWr(FieldWr(x, v, m, w), u, n, w) == FieldWr(FieldWr(x, u, n, w), v, m, w)
  {
    var a, b := FieldWr(FieldWr(x, v, m, w), u, n, w), FieldWr(FieldWr(x, u, n, w), v, m, w);
    forall i | 0 <= i < w
      ensures Bit(a, i) == Bit(b, i)
    {
      DisjointBits(m, n, i);
      WrBits(x, v, m, w, i);
      WrBits(x, u, n, w, i);
      WrBits(FieldWr(x, v, m, w), u, n, w, i);
      WrBits(FieldWr(x, u, n, w), v, m, w, i);
    }
    SameBits(a, b, w);
  }

  // ---------- contiguous masks ----------

  /** `len` contiguous bits from bit `lo`. */
  function FieldMask(lo: nat, len: nat): nat {
    Product(Pow2(len) - 1, Pow2(lo))
  }

  lemma MaskBits(lo: nat, len: nat, i: nat)
    ensures Bit(FieldMask(lo, len), i) == if lo <= i < lo + len then 1 else 0
  {
    BitMul(Pow2(len) - 1, lo, i);
    if i >= lo {
      BitOnes(len, i - lo);
    }
  }

  lemma LessOne(a: nat, b: nat)
    requires a > 0 && b > 0
    ensures (a - 1) * b < a * b
  {
  }

  lemma MaskFits(lo: nat, len: nat, w: nat)
    requires lo + len <= w
    ensures FieldMask(lo, len) < Pow2(w) && (len > 0 ==> Pow2(lo) < Pow2(w))
  {
    Pow2Add(len, lo);
    LessOne(Pow2(len), Pow2(lo));
    if lo + len < w {
      Pow2Mono(lo + len, w);
    }
    if len > 0 {
      Pow2Mono(lo, lo + len);
    }
  }

  lemma LowBitBits(mask: nat, lo: nat, len: nat, w: nat, i: nat)
    requires len > 0 && lo + len <= w && i < w && mask == FieldMask(lo, len)
    ensures Bit(LowBit(mask, w), i) == if i == lo then 1 else 0
  {
    var up := mask * 2 % Pow2(w);
    BitAnd(mask, Not(up, w), i);
    BitNot(up, w, i);
    BitMod(mask * 2, w, i);
    BitMul(mask, 1, i);
    assert Pow2(1) == 2;
    MaskBits(lo, len, i);
    if i > 0 {
      MaskBits(lo, len, i - 1);
    }
  }

  lemma Pow2Bits(lo: nat, i: nat)
    ensures Bit(Pow2(lo), i) == if i == lo then 1 else 0
  {
    BitMul(1, lo, i);
    if i >= lo {
      BitOnes(1, i - lo);
      assert Pow2(1) - 1 == 1;
    }
  }

  /** The lowest bit of a contiguous field. */
  lemma LowBitIs(lo: nat, len: nat, w: nat)
    requires len > 0 && lo + len <= w
    ensures LowBit(FieldMask(lo, len), w) == Pow2(lo)
  {
    var mask := FieldMask(lo, len);
    MaskFits(lo, len, w);
    forall i | 0 <= i < w
      ensures Bit(LowBit(mask, w), i) == Bit(Pow2(lo), i)
    {
      LowBitBits(mask, lo, len, w, i);
      Pow2Bits(lo, i);
    }
    SameBits(LowBit(mask, w), Pow2(lo), w);
  }

  /** The encoded field: the value's low bits at their place. */
  lemma EncBits(v: nat, mask: nat, lo: nat, len: nat, w: nat, i: nat)
    requires len > 0 && lo + len <= w && mask == FieldMask(lo, len) && i < w
    ensures Bit(FieldEnc(v, mask, w), i) == if lo <= i < lo + len then Bit(v, i - lo) else 0
  {
    LowBitIs(lo, len, w);
    var y := v * Pow2(lo);
    BitMul(v, lo, i);
    MaskBits(lo, len, i);
    PlacedBit(y, mask, w, i);
  }

  lemma PlacedBit(y: nat, mask: nat, w: nat, i: nat)
    requires i < w
    ensures Bit(And(y % Pow2(w), mask), i) == if Bit(mask, i) == 1 then Bit(y, i) else 0
  {
    BitAnd(y % Pow2(w), mask, i);
    BitMod(y, w, i);
    BitBound(y, i);
  }

  /** What is read from a field. */
  lemma RdBits(x: nat, mask: nat, lo: nat, len: nat, w: nat, i: nat)
    requires len > 0 && lo + len <= w && mask == FieldMask(lo, len)
    ensures LowBit(mask, w) > 0
    ensures Bit(FieldRd(x, mask, w), i) == if i < len then Bit(x, i + lo) else 0
  {
    LowBitIs(lo, len, w);
    BitDiv(And(x, mask), lo, i);
    BitAnd(x, mask, i + lo);
    BitBound(x, i + lo);
    MaskBits(lo, len, i + lo);
  }

  lemma RdFits(x: nat, mask: nat, lo: nat, len: nat, w: nat)
    requires len > 0 && lo + len <= w && mask == FieldMask(lo, len)
    ensures LowBit(mask, w) > 0 && FieldRd(x, mask, w) < Pow2(w)
  {
    LowBitIs(lo, len, w);
    MaskFits(lo, len, w);
  }

  lemma RdBackBit(x: nat, v: nat, mask: nat, lo: nat, len: nat, w: nat, y: nat, i: nat)
    requires len > 0 && lo + len <= w && mask == FieldMask(lo, len) && mask < Pow2(w) && x < Pow2(w)
    requires y == FieldWr(x, v, mask, w)
    ensures LowBit(mask, w) > 0 && Bit(FieldRd(y, mask, w), i) == Bit(v % Pow2(len), i)
  {
    RdBits(y, mask, lo, len, w, i);
    BitMod(v, len, i);
    if i < len {
      WrBits(x, v, mask, w, i + lo);
      MaskBits(lo, len, i + lo);
      EncBits(v, mask, lo, len, w, i + lo);
    }
  }

  /** ROUND TRIP: what is written to a contiguous field is read back, reduced to its width. */
  lemma WrThenRd(x: nat, v: nat, mask: nat, lo: nat, len: nat, w: nat)
    requires len > 0 && lo + len <= w && mask == FieldMask(lo, len) && mask < Pow2(w) && x < Pow2(w)
    ensures LowBit(mask, w) > 0
    ensures FieldRd(FieldWr(x, v, mask, w), mask, w) == v % Pow2(len)
  {
    var y := FieldWr(x, v, mask, w);
    RdFits(y, mask, lo, len, w);
    ReducedFits(v, len, w);
    forall i | 0 <= i < w
      ensures Bit(FieldRd(y, mask, w), i) == Bit(v % Pow2(len), i)
    {
      RdBackBit(x, v, mask, lo, len, w, y, i);
    }
    SameBits(FieldRd(y, mask, w), v % Pow2(len), w);
  }

  lemma ReducedFits(v: nat, len: nat, w: nat)
    requires len <= w
    ensures v % Pow2(len) < Pow2(w)
  {
    if len < w {
      Pow2Mono(len, w);
    }
  }

  /** ROUND TRIP: writing back what was read changes nothing. */
  lemma RdThenWr(x: nat, mask: nat, lo: nat, len: nat, w: nat)
    requires len > 0 && lo + len <= w && mask == FieldMask(lo, len) && mask < Pow2(w) && x < Pow2(w)
    ensures LowBit(mask, w) > 0
    ensures FieldWr(x, FieldRd(x, mask, w), mask, w) == x
  {
    RdFits(x, mask, lo, len, w);
    var v := FieldRd(x, mask, w);
    forall i | 0 <= i < w
      ensures Bit(FieldWr(x, v, mask, w), i) == Bit(x, i)
    {
      WrBits(x, v, mask, w, i);
      MaskBits(lo, len, i);
      if lo <= i < lo + len {
        EncBits(v, mask, lo, len, w, i);
        RdBits(x, mask, lo, len, w, i - lo);
      }
    }
    SameBits(FieldWr(x, v, mask, w), x, w);
  }

  /** An unsigned variable of `w` bits, written in place by DEF_BIT_FIELD_WR. */
  class Variable {
    const w: nat
    var value: nat

    ghost predicate Valid()
      reads this
    {
      value < Pow2(w)
    }

    method WriteField(v: nat, mask: nat)
      requires Valid() && mask < Pow2(w)
      modifies this
      ensures Valid() && value == FieldWr(old(value), v, mask, w)
      ensures And(value, Not(mask, w)) == And(old(value), Not(mask, w))
    {
      WrFrame(value, v, mask, w);
      value := FieldWr(value, v, mask, w);
    }

    /** DEF_BIT_FIELD_WR followed by DEF_BIT_FIELD_RD of the same contiguous field. */
    method WriteThenRead(v: nat, mask: nat, lo: nat, len: nat) returns (r: nat)
      requires Valid() && mask < Pow2(w) && len > 0 && lo + len <= w && mask == FieldMask(lo, len)
      modifies this
      ensures Valid() && r == v % Pow2(len)
      ensures And(value, Not(mask, w)) == And(old(value), Not(mask, w))
    {
      WrThenRd(value, v, mask, lo, len, w);
      WriteField(v, mask);
      r := FieldRd(value, mask, w);
    }
  }
}
