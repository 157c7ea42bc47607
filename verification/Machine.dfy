/** The 32-bit machine word, and the power-of-two macros of lib_math.h. */
module Machine {
  import opened Arith
  import opened Bits

  const WORD_BITS: nat := 32
  const WORD: nat := 0x1_0000_0000

  type Word = x: nat | x < WORD

  lemma WordIsPow2()
    ensures Pow2(WORD_BITS) == WORD && IsPow2(WORD)
  {
    assert Pow2(4) == 16;
    Pow2Add(4, 4);
    Pow2Add(8, 8);
    Pow2Add(16, 16);
  }

  /** MATH_IS_PWR2. */
  predicate MathIsPwr2(n: Word) {
    n != 0 && And(n, n - 1) == 0
  }

  lemma {:induction false} AndSelf(n: nat)
    ensures And(n, n) == n
  {
    if n != 0 {
      AndSelf(n / 2);
    }
  }

  lemma IsPow2Half(n: nat)
    requires n > 1
    ensures IsPow2(n) <==> n % 2 == 0 && IsPow2(n / 2)
  {
    if IsPow2(n) {
      var k: nat :| n == Pow2(k);
      assert n / 2 == Pow2(k - 1);
    }
    if n % 2 == 0 && IsPow2(n / 2) {
      var k: nat :| n / 2 == Pow2(k);
      assert n == Pow2(k + 1);
    }
  }

  /** The bit trick accepts exactly the powers of two. */
  lemma {:induction false} MathIsPwr2Exact(n: Word)
    ensures MathIsPwr2(n) <==> IsPow2(n)
  {
    if n == 0 {
    } else if n == 1 {
      assert Pow2(0) == 1;
    } else {
      IsPow2Half(n);
      AndStep(n, n - 1);
      if n % 2 == 0 {
        MathIsPwr2Exact(n / 2);
      } else {
        AndSelf(n / 2);
      }
    }
  }

  /** ~n in a word. */
  function NotWord(n: Word): Word {
    WORD - 1 - n
  }

  /** MATH_ROUND_INC_UP_PWR2 in wrapping word arithmetic. */
  function MathRoundIncUpPwr2(n: Word, inc: Word): Word
    requires inc > 0
  {
    (And(n, NotWord(inc - 1)) + if And(n, inc - 1) == 0 then 0 else inc) % WORD
  }

  /** The least multiple of `p` that is not below `n`. */
  function RoundUp(n: nat, p: nat): (r: nat)
    requires p > 0
    ensures r % p == 0 && n <= r < n + p
  {
    RoundUpMultiple(n, p);
    if n % p == 0 then n else n - n % p + p
  }

  lemma RoundUpMultiple(n: nat, p: nat)
    requires p > 0
    ensures (n - n % p) % p == 0 && (n - n % p + p) % p == 0
  {
    ModMultiple(p, n / p);
    ModMultiple(p, n / p + 1);
    assert n - n % p == (n / p) * p;
    assert n - n % p + p == (n / p + 1) * p;
  }

  lemma RoundUpLeast(n: nat, p: nat, m: nat)
    requires p > 0 && m % p == 0 && n <= m
    ensures RoundUp(n, p) <= m
  {
    if m < RoundUp(n, p) {
      MultiplesApart(m, RoundUp(n, p), p);
      assert false;
    }
  }

  lemma RoundUpOne(n: nat)
    ensures RoundUp(n, 1) == n
  {
  }

  lemma WordMod(n: nat, p: Word)
    requires IsPow2(p)
    ensures p > 0 && WORD % p == 0 && (n % WORD) % p == n % p
  {
    WordIsPow2();
    Pow2Divides(p, WORD);
    ModMod(n, WORD, p);
  }

  lemma BitsOfWord(p: Word, k: nat, w: nat)
    requires p == Pow2(k) && Pow2(w) == WORD
    ensures k <= w
  {
    if k > w {
      Pow2Mono(w, k);
    }
  }

  /** Masking with ~(p - 1) takes the remainder off. */
  lemma HighPart(m: Word, p: Word, k: nat, w: nat)
    requires p == Pow2(k) && k <= w && Pow2(w) == WORD
    ensures And(m, NotWord(p - 1)) == m - m % p
  {
    AndHigh(m, k, w);
  }

  lemma LowPart(m: Word, p: Word, k: nat)
    requires p == Pow2(k)
    ensures And(m, p - 1) == m % p
  {
    AndLow(m, k);
  }

  /** Without a wrap of its argument the macro is the wrapped exact rounding. */
  lemma MachineRound(m: Word, p: Word, k: nat)
    requires p == Pow2(k)
    ensures MathRoundIncUpPwr2(m, p) == RoundUp(m, p) % WORD
  {
    WordIsPow2();
    BitsOfWord(p, k, WORD_BITS);
    HighPart(m, p, k, WORD_BITS);
    LowPart(m, p, k);
  }

  lemma RoundShift(n: nat, p: Word)
    requires IsPow2(p)
    ensures p > 0 && RoundUp(n, p) == RoundUp(n % WORD, p) + n / WORD * WORD
  {
    WordMod(n, p);
  }

  /** Power-of-two rounding commutes with reduction modulo the word: the macro applied to a
      wrapped address is the wrapped exact rounding. */
  lemma RoundCommutesWithWrap(n: nat, p: Word)
    requires IsPow2(p)
    ensures p > 0 && MathRoundIncUpPwr2(n % WORD, p) == RoundUp(n, p) % WORD
  {
    var k: nat :| p == Pow2(k);
    MachineRound(n % WORD, p, k);
    RoundShift(n, p);
    ModShift(RoundUp(n % WORD, p), WORD, n / WORD);
  }
}
