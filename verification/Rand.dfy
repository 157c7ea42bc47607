/** The pseudo-random number generator of lib_math.c: a linear congruential generator with a proof
    that its period is full. */
module Rand {
  import opened Arith
  import opened Machine

  const LCG_M: Word := 0x7FFF_FFFF // RAND_LCG_PARAM_M
  const LCG_A: Word := 1103515245  // RAND_LCG_PARAM_A
  const LCG_B: Word := 12345       // RAND_LCG_PARAM_B
  const SEED_INIT: Word := 1       // RAND_SEED_INIT_VAL

  /** Math_RandSeed, in 32-bit wrapping arithmetic. */
  function MathRandSeed(seed: Word): (r: Word)
    ensures r <= LCG_M
  {
    ((LCG_A * seed % WORD) + LCG_B) % WORD % (LCG_M + 1)
  }

  /** The wrap of the 32-bit multiply and add never shows in the result. */
  lemma WrapInvisible(seed: Word)
    ensures MathRandSeed(seed) == (LCG_A * seed + LCG_B) % (LCG_M + 1)
  {
    WrapInside(LCG_A * seed, LCG_B, WORD, LCG_M + 1);
  }

  lemma WrapInside(n: int, b: int, w: int, p: int)
    requires p > 0 && w > 0 && w % p == 0
    ensures (n % w + b) % w % p == (n + b) % p
  {
    ModMod(n % w + b, w, p);
    ModShift(n % w + b, w, n / w);
    assert n + b == (n % w + b) + n / w * w;
    ModMod(n + b, w, p);
  }

  /** The recurrence in numbers. */
  lemma RecurrenceIs(seed: Word)
    ensures MathRandSeed(seed) == (1103515245 * seed + 12345) % 0x8000_0000
  {
    WrapInvisible(seed);
  }

  /** The `n`-th number after `seed`. */
  function Nth(seed: Word, n: nat): Word {
    if n == 0 then seed else MathRandSeed(Nth(seed, n - 1))
  }

  // ---------- the exact affine map and its powers of two ----------

  /** The unreduced generator. */
  function Affine(x: nat, n: nat): nat {
    if n == 0 then x else LCG_A * Affine(x, n - 1) + LCG_B
  }

  lemma AffineAdd(x: nat, m: nat, n: nat)
    ensures Affine(x, m + n) == Affine(Affine(x, m), n)
  {
  }

  /** Iterating 2^k times multiplies by `Mul(k)` and adds `Inc(k)`. */
  function Mul(k: nat): nat {
    if k == 0 then LCG_A else Mul(k - 1) * Mul(k - 1)
  }

  function Inc(k: nat): nat {
    if k == 0 then LCG_B else Mul(k - 1) * Inc(k - 1) + Inc(k - 1)
  }

  lemma {:induction false} AffinePow2(x: nat, k: nat)
    ensures Affine(x, Pow2(k)) == Mul(k) * x + Inc(k)
    decreases k
  {
    if k == 0 {
      assert Affine(x, 1) == LCG_A * Affine(x, 0) + LCG_B;
    } else {
      var y := Affine(x, Pow2(k - 1));
      AffineAdd(x, Pow2(k - 1), Pow2(k - 1));
      AffinePow2(x, k - 1);
      AffinePow2(y, k - 1);
      Compose(Mul(k - 1), Inc(k - 1), x);
    }
  }

  lemma Compose(m: nat, c: nat, x: nat)
    ensures m * (m * x + c) + c == (m * m) * x + (m * c + c)
  {
  }

  /** Mul(k) is 1 modulo 2^(k+2): the multiplier is 1 modulo 4. Inc(k) is an odd multiple of 2^k:
      the increment is odd. */
  lemma {:induction false} PowersOfTwo(k: nat) returns (t: int, u: int)
    ensures Mul(k) == 1 + 4 * Pow2(k) * t
    ensures Inc(k) == Pow2(k) * (2 * u + 1)
  {
    if k == 0 {
      t, u := (LCG_A - 1) / 4, (LCG_B - 1) / 2;
    } else {
      var t0, u0 := PowersOfTwo(k - 1);
      var p := Pow2(k - 1);
      t := t0 + 2 * p * t0 * t0;
      u := u0 + 2 * p * t0 * u0 + p * t0;
      SquareStep(p, t0);
      IncStep(p, t0, u0);
    }
  }

  lemma SquareStep(p: int, t: int)
    ensures (1 + 4 * p * t) * (1 + 4 * p * t) == 1 + 4 * (2 * p) * (t + 2 * p * t * t)
  {
  }

  lemma IncStep(p: int, t: int, u: int)
    ensures (1 + 4 * p * t) * (p * (2 * u + 1)) + p * (2 * u + 1)
            == (2 * p) * (2 * (u + 2 * p * t * u + p * t) + 1)
  {
  }

  /** 2^k iterations move every value by an odd multiple of 2^k. */
  lemma Shift(x: nat, k: nat) returns (v: int)
    ensures Affine(x, Pow2(k)) == x + Pow2(k) * (2 * v + 1)
  {
    var t, u := PowersOfTwo(k);
    AffinePow2(x, k);
    v := 2 * t * x + u;
    ShiftStep(Pow2(k), t, u, x, v);
  }

  lemma ShiftStep(p: int, t: int, u: int, x: int, v: int)
    requires v == 2 * t * x + u
    ensures (1 + 4 * p * t) * x + p * (2 * u + 1) == x + p * (2 * v + 1)
  {
  }

  // ---------- full period modulo 2^k ----------

  /** A residue modulo 2h is a residue modulo h or that plus h. */
  lemma HalfResidues(x: int, y: int, h: nat)
    requires h > 0
    ensures x % (2 * h) == y % (2 * h) ==> x % h == y % h
    ensures x % h == y % h ==> x % (2 * h) == y % (2 * h) || (x + h) % (2 * h) == y % (2 * h)
    ensures (x + h) % (2 * h) != x % (2 * h)
  {
    ModMultiple(h, 2);
    ModMod(x, 2 * h, h);
    ModMod(y, 2 * h, h);
    Halves(x, h);
    Halves(y, h);
  }

  lemma Halves(x: int, h: nat)
    requires h > 0
    ensures x % h <= x % (2 * h) && (x % (2 * h) == x % h || x % (2 * h) == x % h + h)
    ensures (x + h) % (2 * h) == if x % (2 * h) < h then x % (2 * h) + h else x % (2 * h) - h
  {
    var q, r := x / (2 * h), x % (2 * h);
    assert x == q * (2 * h) + r;
    if r < h {
      assert x == (2 * q) * h + r && x + h == q * (2 * h) + (r + h);
      DivModUnique(x, h, 2 * q, r);
      DivModUnique(x + h, 2 * h, q, r + h);
    } else {
      assert x == (2 * q + 1) * h + (r - h) && x + h == (q + 1) * (2 * h) + (r - h);
      DivModUnique(x, h, 2 * q + 1, r - h);
      DivModUnique(x + h, 2 * h, q + 1, r - h);
    }
  }

  /** 2^k steps: half a turn modulo 2^(k+1), a full turn modulo 2^k. */
  lemma Turn(x: nat, k: nat)
    ensures Affine(x, Pow2(k)) % Pow2(k) == x % Pow2(k)
    ensures Affine(x, Pow2(k)) % (2 * Pow2(k)) == (x + Pow2(k)) % (2 * Pow2(k))
  {
    var v := Shift(x, k);
    var p := Pow2(k);
    assert p * (2 * v + 1) == (2 * v + 1) * p;
    ModShift(x, p, 2 * v + 1);
    assert x + p * (2 * v + 1) == (x + p) + v * (2 * p);
    ModShift(x + p, 2 * p, v);
  }

  /** No value returns before 2^k steps. */
  lemma {:induction false} NoReturn(x: nat, n: nat, k: nat)
    requires 0 < n < Pow2(k)
    ensures Affine(x, n) % Pow2(k) != x % Pow2(k)
    decreases k
  {
    var h := Pow2(k - 1);
    HalfResidues(Affine(x, n), x, h);
    if n < h {
      NoReturn(x, n, k - 1);
    } else {
      var y := Affine(x, h);
      Turn(x, k - 1);
      if n == h {
        HalfResidues(x, x, h);
      } else {
        AffineAdd(x, h, n - h);
        NoReturn(y, n - h, k - 1);
      }
    }
  }

  /** Half a turn more reaches the other residue of the pair. */
  lemma ReachesHalf(x: nat, v: nat, k: nat, n: nat) returns (n': nat)
    requires Affine(x, n) % Pow2(k) == v % Pow2(k)
    ensures n' == n || n' == n + Pow2(k)
    ensures Affine(x, n') % (2 * Pow2(k)) == v % (2 * Pow2(k))
  {
    var h, y := Pow2(k), Affine(x, n);
    HalfResidues(y, v, h);
    if y % (2 * h) == v % (2 * h) {
      n' := n;
    } else {
      n' := n + h;
      AffineAdd(x, n, h);
      Turn(y, k);
    }
  }

  /** Every residue is reached within 2^k steps. */
  lemma {:induction false} Reaches(x: nat, v: nat, k: nat) returns (n: nat)
    ensures n < Pow2(k) && Affine(x, n) % Pow2(k) == v % Pow2(k)
    decreases k
  {
    if k == 0 {
      n := 0;
    } else {
      var m := Reaches(x, v, k - 1);
      n := ReachesHalf(x, v, k - 1, m);
    }
  }

  // ---------- back to the machine ----------

  /** The modulus is 2^k, for k = 31. */
  lemma Modulus() returns (k: nat)
    ensures Pow2(k) == LCG_M + 1
  {
    WordIsPow2();
    k := 31;
  }

  lemma {:induction false} NthIsAffine(seed: Word, n: nat)
    requires n > 0
    ensures Nth(seed, n) == Affine(seed, n) % (LCG_M + 1)
  {
    var x := Affine(seed, n - 1);
    WrapInvisible(Nth(seed, n - 1));
    if n > 1 {
      NthIsAffine(seed, n - 1);
      AffineMod(x);
    }
  }

  lemma AffineMod(x: nat)
    ensures (LCG_A * (x % (LCG_M + 1)) + LCG_B) % (LCG_M + 1) == (LCG_A * x + LCG_B) % (LCG_M + 1)
  {
    var m, q := LCG_M + 1, x / (LCG_M + 1);
    assert LCG_A * x + LCG_B == (LCG_A * (x % m) + LCG_B) + (LCG_A * q) * m;
    ModShift(LCG_A * (x % m) + LCG_B, m, LCG_A * q);
  }

  /** Two numbers less than a period apart differ. */
  lemma Distinct(seed: Word, m: nat, n: nat)
    requires 0 < m < n < m + (LCG_M + 1)
    ensures Nth(seed, m) != Nth(seed, n)
  {
    var k := Modulus();
    NthIsAffine(seed, m);
    NthIsAffine(seed, n);
    AffineAdd(seed, m, n - m);
    NoReturn(Affine(seed, m), n - m, k);
  }

  /** Among the first 2^31 numbers, `v` is number `n` and no other. */
  ghost predicate OnlyAt(seed: Word, v: Word, n: nat) {
    && 1 <= n <= LCG_M + 1 && Nth(seed, n) == v
    && (forall m :: 1 <= m <= LCG_M + 1 && m != n ==> Nth(seed, m) != v)
  }

  lemma Produced(seed: Word, v: Word) returns (n: nat)
    requires v <= LCG_M
    ensures 1 <= n <= LCG_M + 1 && Nth(seed, n) == v
  {
    var k := Modulus();
    var i := Reaches(Affine(seed, 1), v, k);
    n := 1 + i;
    AffineAdd(seed, 1, i);
    NthIsAffine(seed, n);
    DivModUnique(v, Pow2(k), 0, v);
  }

  /** The first draws from seeds 0 and 1. */
  lemma FirstDraws()
    ensures Nth(0, 1) == 12345 && Nth(1, 1) == 1103527590
  {
    RecurrenceIs(0);
    RecurrenceIs(1);
  }

  /** FULL PERIOD: from any 32-bit seed, each value of [0, 2^31 - 1] is produced exactly once among
      the first 2^31 numbers. */
  lemma FullPeriod(seed: Word, v: Word)
    requires v <= LCG_M
    ensures exists n :: OnlyAt(seed, v, n)
  {
    var n := Produced(seed, v);
    forall m | 1 <= m <= LCG_M + 1 && m != n
      ensures Nth(seed, m) != v
    {
      if m < n {
        Distinct(seed, m, n);
      } else {
        Distinct(seed, n, m);
      }
    }
    assert OnlyAt(seed, v, n);
  }

  /** The sequence repeats after 2^31 numbers. */
  lemma Repeats(seed: Word, n: nat)
    requires n > 0
    ensures Nth(seed, n + (LCG_M + 1)) == Nth(seed, n)
  {
    var k := Modulus();
    NthIsAffine(seed, n);
    NthIsAffine(seed, n + (LCG_M + 1));
    AffineAdd(seed, n, Pow2(k));
    Turn(Affine(seed, n), k);
  }

  /** The module's state: the current number of the sequence that its last seed started. */
  class MathModule {
    var randSeedCur: Word // Math_RandSeedCur
    ghost var seed: Word
    ghost var drawn: nat

    ghost predicate Valid()
      reads this
    {
      randSeedCur == Nth(seed, drawn)
    }

    /** Math_Init. */
    constructor ()
      ensures Valid() && seed == 1 && drawn == 0
    {
      randSeedCur, seed, drawn := SEED_INIT, SEED_INIT, 0;
    }

    /** Math_RandSetSeed. */
    method RandSetSeed(s: Word)
      modifies this
      ensures Valid() && seed == s && drawn == 0
    {
      randSeedCur, seed, drawn := s, s, 0;
    }

    /** Math_Rand: the next number of the sequence. */
    method Rand() returns (r: Word)
      requires Valid()
      modifies this
      ensures Valid() && seed == old(seed) && drawn == old(drawn) + 1
      ensures r == Nth(seed, drawn) && r <= LCG_M
    {
      r := MathRandSeed(randSeedCur);
      randSeedCur := r;
      drawn := drawn + 1;
    }
  }
}
