/** Interrupt priorities of the Cortex-M4: encoding, decoding and the priority registers. */
module Nvic {
  import opened Arith
  import opened Bits
  import opened Machine

  /** Bits for the preemption level and for the subpriority, of `bits` implemented priority bits. */
  function PreemptBits(group: Word, bits: nat): nat {
    var g := And(group, 7);
    if 7 - g > bits then bits else 7 - g
  }

  function SubBits(group: Word, bits: nat): nat {
    var g := And(group, 7);
    if g + bits < 7 then 0 else g + bits - 7
  }

  /** The two fields share the implemented bits. */
  lemma BitsAddUp(group: Word, bits: nat)
    requires 1 <= bits <= 8
    ensures PreemptBits(group, bits) + SubBits(group, bits) == bits
    ensures Pow2(PreemptBits(group, bits)) * Pow2(SubBits(group, bits)) == Pow2(bits)
  {
    Pow2Add(PreemptBits(group, bits), SubBits(group, bits));
  }

  /** NVIC_EncodePriority. */
  function Encode(group: Word, bits: nat, preempt: Word, sub: Word): nat
    requires 1 <= bits <= 8
  {
    Join(preempt, PreemptBits(group, bits), sub, SubBits(group, bits))
  }

  /** The low `p` bits of one value above the low `s` bits of another. */
  function Join(preempt: Word, p: nat, sub: Word, s: nat): nat {
    Or(And(preempt, Pow2(p) - 1) * Pow2(s), And(sub, Pow2(s) - 1))
  }

  lemma JoinIs(preempt: Word, p: nat, sub: Word, s: nat)
    ensures Join(preempt, p, sub, s) == (preempt % Pow2(p)) * Pow2(s) + sub % Pow2(s)
  {
    AndLow(preempt, p);
    AndLow(sub, s);
    OrFields(preempt % Pow2(p), sub % Pow2(s), s);
  }

  /** NVIC_DecodePriority: preemption level and subpriority. */
  function Decode(prio: Word, group: Word, bits: nat): (nat, nat)
    requires 1 <= bits <= 8
  {
    var s := SubBits(group, bits);
    (And(Quot(prio, Pow2(s)), Pow2(PreemptBits(group, bits)) - 1), And(prio, Pow2(s) - 1))
  }

  /** Or of a shifted field and one that fits below it is their sum. */
  lemma {:induction false} OrFields(a: nat, c: nat, s: nat)
    requires c < Pow2(s)
    ensures Or(a * Pow2(s), c) == a * Pow2(s) + c
    decreases s
  {
    if a == 0 {
    } else if s == 0 {
      OrZero(a);
    } else {
      var h := Pow2(s - 1);
      assert a * Pow2(s) == 2 * (a * h);
      OrFields(a, c / 2, s - 1);
      OrEven(a * h, c);
    }
  }

  lemma {:induction false} OrZero(a: nat)
    ensures Or(a, 0) == a
  {
    if a != 0 {
      OrZero(a / 2);
    }
  }

  lemma OrEven(x: nat, c: nat)
    requires x > 0
    ensures Or(2 * x, c) == c % 2 + 2 * Or(x, c / 2)
  {
  }

  /** The encoding as arithmetic. */
  lemma EncodeIs(group: Word, bits: nat, preempt: Word, sub: Word)
    requires 1 <= bits <= 8
    ensures var p, s := Pow2(PreemptBits(group, bits)), Pow2(SubBits(group, bits));
            Encode(group, bits, preempt, sub) == (preempt % p) * s + sub % s
  {
    JoinIs(preempt, PreemptBits(group, bits), sub, SubBits(group, bits));
  }

  lemma DecodeIs(prio: Word, group: Word, bits: nat)
    requires 1 <= bits <= 8
    ensures var p, s := Pow2(PreemptBits(group, bits)), Pow2(SubBits(group, bits));
            Decode(prio, group, bits) == (prio / s % p, prio % s)
  {
    AndLow(Quot(prio, Pow2(SubBits(group, bits))), PreemptBits(group, bits));
    AndLow(prio, SubBits(group, bits));
  }

  lemma FieldsBelow(a: nat, c: nat, p: nat, s: nat)
    requires a < p && c < s
    ensures a * s + c < p * s
  {
    MulMono(a + 1, p, s);
    assert (a + 1) * s == a * s + s;
  }

  lemma EncodeRange(group: Word, bits: nat, preempt: Word, sub: Word)
    requires 1 <= bits <= 8
    ensures Encode(group, bits, preempt, sub) < Pow2(bits) <= 256
  {
    EncodeIs(group, bits, preempt, sub);
    BitsAddUp(group, bits);
    var p, s := Pow2(PreemptBits(group, bits)), Pow2(SubBits(group, bits));
    FieldsBelow(preempt % p, sub % s, p, s);
    assert Pow2(8) == 256;
    if bits < 8 {
      Pow2Mono(bits, 8);
    }
  }

  /** ROUND TRIP: decoding an encoded priority gives the two values, cut to their fields. */
  lemma DecodeEncode(group: Word, bits: nat, preempt: Word, sub: Word)
    requires 1 <= bits <= 8
    ensures var p, s := Pow2(PreemptBits(group, bits)), Pow2(SubBits(group, bits));
            && Encode(group, bits, preempt, sub) < WORD
            && Decode(Encode(group, bits, preempt, sub), group, bits) == (preempt % p, sub % s)
  {
    var p, s := Pow2(PreemptBits(group, bits)), Pow2(SubBits(group, bits));
    EncodeRange(group, bits, preempt, sub);
    EncodeIs(group, bits, preempt, sub);
    DecodeIs(Encode(group, bits, preempt, sub), group, bits);
    DivModUnique(Encode(group, bits, preempt, sub), s, preempt % p, sub % s);
    DivModUnique(preempt % p, p, 0, preempt % p);
  }

  lemma SplitFields(n: nat, p: nat, s: nat)
    requires p > 0 && s > 0
    ensures (n / s % p) * s + n % s == n % (p * s)
  {
    var m := n / s;
    assert n == m * s + n % s && m == m / p * p + m % p;
    JoinFields(n, p, s, m, m % p, n % s, m / p);
  }

  lemma JoinFields(n: nat, p: nat, s: nat, m: int, a: nat, c: nat, q: int)
    requires a < p && c < s && n == m * s + c && m == q * p + a
    ensures a * s + c == n % (p * s)
  {
    Regroup(q, p, s, a, c);
    FieldsBelow(a, c, p, s);
    DivModUnique(n, p * s, q, a * s + c);
  }

  lemma DecodeSmall(prio: Word, group: Word, bits: nat)
    requires 1 <= bits <= 8
    ensures var (pre, sub) := Decode(prio, group, bits); pre < WORD && sub < WORD
  {
  }

  /** ROUND TRIP: encoding a decoded priority gives it back, cut to the implemented bits. */
  lemma EncodeDecode(group: Word, bits: nat, prio: Word)
    requires 1 <= bits <= 8
    ensures var (pre, sub) := Decode(prio, group, bits);
            pre < WORD && sub < WORD && Encode(group, bits, pre, sub) == prio % Pow2(bits)
  {
    var p, s := Pow2(PreemptBits(group, bits)), Pow2(SubBits(group, bits));
    DecodeIs(prio, group, bits);
    DecodeSmall(prio, group, bits);
    BitsAddUp(group, bits);
    var (pre, sub) := Decode(prio, group, bits);
    EncodeIs(group, bits, pre, sub);
    DivModUnique(pre, p, 0, pre);
    DivModUnique(sub, s, 0, sub);
    SplitFields(prio, p, s);
  }

  lemma Regroup(q: int, p: nat, s: nat, a: nat, c: nat)
    ensures (q * p + a) * s + c == q * (p * s) + (a * s + c)
  {
  }

  // ---------- the split as the group register defines it ----------

  /** The priority as it stands in its byte: `bits` implemented bits at the top. */
  function InByte(prio: nat, bits: nat): nat
    requires bits <= 8
  {
    prio * Pow2(8 - bits)
  }

  /** What the group register says of a byte: the bits above bit g are the preemption level, the
      implemented bits from g down the subpriority. When no implemented bit lies below the split, all of
      them are the preemption level. */
  ghost predicate Splits(byte: nat, g: nat, bits: nat, pre: nat, sub: nat)
    requires bits <= 8
  {
    if g + bits < 7 then byte == pre * Pow2(8 - bits) && sub == 0
    else pre == byte / Pow2(g + 1) && sub * Pow2(8 - bits) == byte % Pow2(g + 1)
  }

  /** The two shifts, of `8 - bits` and of the subpriority bits, place the preemption level above bit g. */
  lemma SplitPoint(group: Word, bits: nat)
    requires 1 <= bits <= 8
    ensures var s := SubBits(group, bits);
            && (group % 8 + bits < 7 ==> s == 0)
            && (group % 8 + bits >= 7 ==> Pow2(s) * Pow2(8 - bits) == Pow2(group % 8 + 1))
  {
    assert Pow2(3) == 8;
    AndLow(group, 3);
    if group % 8 + bits >= 7 {
      Pow2Add(SubBits(group, bits), 8 - bits);
    }
  }

  /** DECODE: the two values are the parts into which the group register splits the byte of an
      implemented priority. */
  lemma DecodeSplits(prio: Word, group: Word, bits: nat)
    requires 1 <= bits <= 8 && prio < Pow2(bits)
    ensures var (pre, sub) := Decode(prio, group, bits); Splits(InByte(prio, bits), group % 8, bits, pre, sub)
  {
    var ps := Pow2(SubBits(group, bits));
    DecodeIs(prio, group, bits);
    BitsAddUp(group, bits);
    SplitPoint(group, bits);
    QuotFits(prio, Pow2(PreemptBits(group, bits)), ps);
    SplitAt(prio, group % 8, bits, ps, prio / ps, prio % ps, Pow2(8 - bits), Pow2(group % 8 + 1));
  }

  /** Cutting the byte at bit g is cutting the priority at `ps`. */
  lemma SplitAt(prio: nat, g: nat, bits: nat, ps: nat, pre: int, sub: nat, k: nat, cut: nat)
    requires bits <= 8 && ps > 0 && pre == prio / ps && sub == prio % ps && pre >= 0
    requires k == Pow2(8 - bits) && cut == Pow2(g + 1)
    requires if g + bits < 7 then ps == 1 else ps * k == cut
    ensures Splits(InByte(prio, bits), g, bits, pre, sub)
  {
    ScaledParts(prio, ps, k);
  }

  /** Scaling a number scales the modulus and the remainder. */
  lemma ScaledParts(n: nat, p: nat, k: nat)
    requires p > 0 && k > 0
    ensures p * k > 0 && (n * k) / (p * k) == n / p && (n * k) % (p * k) == (n % p) * k
  {
    var q, r := n / p, n % p;
    assert n == q * p + r;
    Rescale(q, p, r, k);
    FieldsBelow(r, 0, p, k);
    DivModUnique(n * k, p * k, q, r * k);
  }

  /** A value of two fields divided by the lower one is the upper one. */
  lemma QuotFits(prio: nat, p: nat, s: nat)
    requires p > 0 && s > 0 && prio < p * s
    ensures prio / s % p == prio / s
  {
    DivBounds(prio, p, s);
    DivBounds(prio, 0, s);
    DivModUnique(prio / s, p, 0, prio / s);
  }

  /** ENCODE: the byte of an encoded priority is split by the group register into the two values, each
      cut to the bits that are on its side of the split. */
  lemma EncodeSplits(group: Word, bits: nat, pre: Word, sub: Word)
    requires 1 <= bits <= 8
    ensures var g := group % 8;
            Splits(InByte(Encode(group, bits, pre, sub), bits), g, bits,
                   if g + bits < 7 then pre % Pow2(bits) else pre % Pow2(7 - g),
                   if g + bits < 7 then 0 else sub % Pow2(g + bits - 7))
  {
    assert Pow2(3) == 8;
    AndLow(group, 3);
    EncodeRange(group, bits, pre, sub);
    DecodeEncode(group, bits, pre, sub);
    DecodeSplits(Encode(group, bits, pre, sub), group, bits);
  }

  /** ORDER: encoded priorities compare as their pairs do, preemption level first. */
  lemma EncodeOrder(group: Word, bits: nat, pre1: Word, sub1: Word, pre2: Word, sub2: Word)
    requires 1 <= bits <= 8
    requires pre1 < Pow2(PreemptBits(group, bits)) && pre2 < Pow2(PreemptBits(group, bits))
    requires sub1 < Pow2(SubBits(group, bits)) && sub2 < Pow2(SubBits(group, bits))
    ensures Encode(group, bits, pre1, sub1) < Encode(group, bits, pre2, sub2)
            <==> pre1 < pre2 || (pre1 == pre2 && sub1 < sub2)
  {
    var p, s := Pow2(PreemptBits(group, bits)), Pow2(SubBits(group, bits));
    EncodeIs(group, bits, pre1, sub1);
    EncodeIs(group, bits, pre2, sub2);
    DivModUnique(pre1, p, 0, pre1);
    DivModUnique(pre2, p, 0, pre2);
    DivModUnique(sub1, s, 0, sub1);
    DivModUnique(sub2, s, 0, sub2);
    if pre1 < pre2 {
      FieldsBelow(pre1, sub1, pre2, s);
    } else if pre2 < pre1 {
      FieldsBelow(pre2, sub2, pre1, s);
    }
  }

  type Byte = x: nat | x < 256

  /** The priority registers: NVIC->IP for external, SCB->SHP for core interrupts. */
  class Registers {
    const prioBits: nat
    const ip: array<Byte>
    const shp: array<Byte>

    ghost predicate Valid()
      reads this
    {
      1 <= prioBits <= 8 && ip.Length == 240 && shp.Length == 12 && ip != shp
    }

    constructor (bits: nat)
      requires 1 <= bits <= 8
      ensures Valid() && prioBits == bits && fresh(ip) && fresh(shp)
    {
      prioBits := bits;
      ip := new Byte[240](_ => 0);
      shp := new Byte[12](_ => 0);
    }

    /** NVIC_SetPriority. Core interrupts -12 to -1 have bytes 0 to 11 in order. */
    method SetPriority(irq: int, priority: Word)
      requires Valid() && -12 <= irq < 240
      modifies ip, shp
      ensures irq < 0 ==>
                && ip[..] == old(ip[..])
                && shp[..] == old(shp[..])[irq + 12 := priority * Pow2(8 - prioBits) % 256]
      ensures irq >= 0 ==>
                && shp[..] == old(shp[..])
                && ip[..] == old(ip[..])[irq := priority * Pow2(8 - prioBits) % 256]
    {
      ShiftedByte(priority, prioBits);
      HandlerByte(irq);
      var byte := And(priority * Pow2(8 - prioBits) % WORD, 0xFF);
      if irq < 0 {
        shp[irq % 16 - 4] := byte;
      } else {
        ip[irq] := byte;
      }
    }

    /** NVIC_GetPriority. */
    method GetPriority(irq: int) returns (r: nat)
      requires Valid() && -12 <= irq < 240
      ensures r == Quot(if irq < 0 then shp[irq + 12] else ip[irq], Pow2(8 - prioBits))
      ensures r < Pow2(prioBits)
    {
      var unit := Pow2(8 - prioBits);
      ghost var reg: nat := if irq < 0 then shp[irq + 12] else ip[irq];
      TopBits(reg, prioBits);
      HandlerByte(irq);
      if irq < 0 {
        r := Quot(shp[irq % 16 - 4], unit);
      } else {
        r := Quot(ip[irq], unit);
      }
    }

    /** A priority survives being set and read back, cut to the implemented bits. */
    method SetThenGet(irq: int, priority: Word) returns (r: nat)
      requires Valid() && -12 <= irq < 240
      modifies ip, shp
      ensures r == priority % Pow2(prioBits)
    {
      SetPriority(irq, priority);
      StoredPriority(priority, prioBits);
      r := GetPriority(irq);
    }
  }

  /** (irq & 15) - 4 for a system handler. */
  lemma HandlerByte(irq: int)
    ensures -12 <= irq < 0 ==> irq % 16 - 4 == irq + 12
  {
  }

  /** The top bits of a byte. */
  lemma TopBits(reg: nat, bits: nat)
    requires reg < 256 && 1 <= bits <= 8
    ensures Quot(reg, Pow2(8 - bits)) < Pow2(bits)
  {
    Pow2Add(bits, 8 - bits);
    assert Pow2(8) == 256;
    DivBounds(reg, Pow2(bits), Pow2(8 - bits));
  }

  lemma ShiftedByte(priority: Word, bits: nat)
    requires 1 <= bits <= 8
    ensures And(priority * Pow2(8 - bits) % WORD, 0xFF) == priority * Pow2(8 - bits) % 256
  {
    var n := priority * Pow2(8 - bits);
    assert Pow2(8) == 256;
    AndLow(n % WORD, 8);
    ModMod(n, WORD, 256);
  }

  lemma StoredPriority(priority: Word, bits: nat)
    requires 1 <= bits <= 8
    ensures priority * Pow2(8 - bits) % 256 / Pow2(8 - bits) == priority % Pow2(bits)
  {
    Pow2Add(bits, 8 - bits);
    assert Pow2(8) == 256;
    ShiftedBack(priority, Pow2(bits), Pow2(8 - bits));
  }

  lemma ShiftedBack(n: nat, b: nat, k: nat)
    requires b > 0 && k > 0
    ensures b * k > 0 && n * k % (b * k) / k == n % b
  {
    ScaledParts(n, b, k);
    ModMultiple(k, n % b);
  }

  lemma Rescale(q: int, b: nat, r: nat, k: nat)
    ensures (q * b + r) * k == q * (b * k) + r * k
  {
  }
}
