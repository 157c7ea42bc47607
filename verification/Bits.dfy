/** Bitwise operators of unsigned machine words, bit by bit on naturals. */
module Bits {
  import opened Arith

  /** The lowest bit of a conjunction. */
  function BothOdd(a: nat, b: nat): nat {
    if a % 2 == 1 && b % 2 == 1 then 1 else 0
  }

  function And(a: nat, b: nat): (r: nat)
    ensures r <= a && r <= b
  {
    if a == 0 || b == 0 then 0
    else BothOdd(a, b) + 2 * And(a / 2, b / 2)
  }

  function Or(a: nat, b: nat): nat
    decreases a
  {
    if a == 0 then b
    else Max(a % 2, b % 2) + 2 * Or(a / 2, b / 2)
  }

  /** One's complement in a word of `w` bits. */
  function Not(a: nat, w: nat): nat
    requires a < Pow2(w)
  {
    Pow2(w) - 1 - a
  }

  /** Complement undoes one bit at a time. */
  lemma NotHalf(a: nat, w: nat)
    requires w > 0 && a < Pow2(w)
    ensures a / 2 < Pow2(w - 1)
    ensures Not(a, w) / 2 == Not(a / 2, w - 1) && Not(a, w) % 2 == 1 - a % 2
  {
  }

  lemma {:induction false} AndComm(a: nat, b: nat)
    ensures And(a, b) == And(b, a)
  {
    if a != 0 && b != 0 {
      AndComm(a / 2, b / 2);
    }
  }

  lemma {:induction false} AndNot(a: nat, w: nat)
    requires a < Pow2(w)
    ensures And(a, Not(a, w)) == 0
  {
    if a != 0 && Not(a, w) != 0 {
      NotHalf(a, w);
      AndNot(a / 2, w - 1);
    }
  }

  /** Masking with 2^k - 1 is reduction modulo 2^k. */
  lemma {:induction false} AndLow(n: nat, k: nat)
    ensures And(n, Pow2(k) - 1) == n % Pow2(k)
  {
    if k == 0 {
    } else if n == 0 {
      ZeroMod(Pow2(k));
    } else {
      AndLow(n / 2, k - 1);
      AndLowStep(n, Pow2(k - 1), 2 * Pow2(k - 1) - 1);
    }
  }

  lemma AndLowStep(n: nat, h: nat, m: nat)
    requires n > 0 && h > 0 && m == 2 * h - 1 && And(n / 2, h - 1) == n / 2 % h
    ensures And(n, m) == n % (2 * h)
  {
    OddHalf(h);
    AndHalves(n, m);
    HalfMod(n, h);
    var a := And(n, m);
    assert a == 2 * (a / 2) + a % 2;
  }

  lemma AndStep(a: nat, b: nat)
    requires a > 0 && b > 0
    ensures And(a, b) == BothOdd(a, b) + 2 * And(a / 2, b / 2)
  {
  }

  lemma OddHalf(h: nat)
    requires h > 0
    ensures (2 * h - 1) / 2 == h - 1 && (2 * h - 1) % 2 == 1
  {
  }

  lemma AndHalves(a: nat, b: nat)
    requires a > 0 && b > 0
    ensures And(a, b) / 2 == And(a / 2, b / 2)
    ensures And(a, b) % 2 == if a % 2 == 1 && b % 2 == 1 then 1 else 0
  {
    AndStep(a, b);
  }

  lemma ZeroMod(p: nat)
    requires p > 0
    ensures 0 % p == 0
  {
  }

  /** Masking with the complement of 2^k - 1 clears the low bits. */
  lemma {:induction false} AndHigh(n: nat, k: nat, w: nat)
    requires k <= w && n < Pow2(w) && Pow2(k) <= Pow2(w)
    ensures And(n, Not(Pow2(k) - 1, w)) == n - n % Pow2(k)
  {
    var m := Not(Pow2(k) - 1, w);
    if n == 0 {
      ZeroMod(Pow2(k));
    } else if k == 0 {
      AndLow(n, w);
      DivModUnique(n, Pow2(w), 0, n);
    } else {
      NotHalf(Pow2(k) - 1, w);
      AndHigh(n / 2, k - 1, w - 1);
      HalfMod(n, Pow2(k - 1));
      assert m / 2 == Not(Pow2(k - 1) - 1, w - 1) && m % 2 == 0;
      assert And(n, m) == 2 * And(n / 2, m / 2);
    }
  }
}
