/** Division facts about a variable modulus, and powers of two. */
module Arith {

  function Pow2(k: nat): (r: nat)
    ensures r > 0
  {
    if k == 0 then 1 else 2 * Pow2(k - 1)
  }

  ghost predicate IsPow2(n: int) {
    exists k: nat :: n == Pow2(k)
  }

  function Max(a: int, b: int): int {
    if a >= b then a else b
  }

  function Product(a: nat, b: nat): nat {
    a * b
  }

  lemma MulBound(d: int, p: int)
    requires p > 0
    ensures d >= 1 ==> d * p >= p
    ensures d == 0 ==> d * p == 0
  {
  }

  lemma MulMono(a: nat, b: nat, c: nat)
    requires a <= b
    ensures a * c <= b * c
  {
  }

  lemma DivBounds(n: int, k: int, p: int)
    requires p > 0
    ensures n < k * p <==> n / p < k
  {
    var d := n / p - k;
    assert n == (n / p) * p + n % p;
    assert n - k * p == d * p + n % p;
    MulBound(d, p);
    MulBound(-d, p);
  }

  lemma DivModUnique(n: int, p: int, q: int, r: int)
    requires 0 <= r < p && n == q * p + r
    ensures n / p == q && n % p == r
  {
    var d := n / p - q;
    assert d * p == r - n % p by {
      assert n == (n / p) * p + n % p;
    }
    MulBound(d, p);
    MulBound(-d, p);
  }

  /** The quotient of naturals. */
  function Quot(n: nat, p: nat): (r: nat)
    requires p > 0
    ensures r == n / p && r <= n
  {
    DivBounds(n, n + 1, p);
    MulMono(1, p, n + 1);
    DivBounds(n, 0, p);
    n / p
  }

  /** Adding a multiple of the modulus changes the quotient only. */
  lemma ModShift(n: int, p: int, k: int)
    requires p > 0
    ensures (n + k * p) % p == n % p
    ensures (n + k * p) / p == n / p + k
  {
    assert n + k * p == (n / p + k) * p + n % p by {
      assert n == (n / p) * p + n % p;
    }
    DivModUnique(n + k * p, p, n / p + k, n % p);
  }

  lemma ModMultiple(p: int, k: int)
    requires p > 0
    ensures (k * p) % p == 0 && (k * p) / p == k
  {
    DivModUnique(k * p, p, k, 0);
  }

  /** Sums and differences of multiples are multiples. */
  lemma ModSum(a: int, b: int, p: int)
    requires p > 0 && b % p == 0
    ensures (a + b) % p == a % p && (a - b) % p == a % p
  {
    var k := b / p;
    assert b == k * p;
    Opposite(k, p);
    ModShift(a, p, k);
    ModShift(a, p, -k);
  }

  lemma Opposite(k: int, p: int)
    ensures -k * p == -(k * p)
  {
  }

  /** Reduction modulo a multiple of `p` does not change the residue modulo `p`. */
  lemma ModMod(n: int, m: int, p: int)
    requires p > 0 && m > 0 && m % p == 0
    ensures (n % m) % p == n % p
  {
    var k, j := n / m, m / p;
    assert n == k * m + n % m && m == j * p;
    assert n == n % m + (k * j) * p;
    ModShift(n % m, p, k * j);
  }

  lemma ModTrans(n: int, q: int, p: int)
    requires p > 0 && q > 0 && n % q == 0 && q % p == 0
    ensures n % p == 0
  {
    ModMod(n, q, p);
  }

  /** Two multiples of `p` that are not equal are at least `p` apart. */
  lemma MultiplesApart(a: int, b: int, p: int)
    requires p > 0 && a % p == 0 && b % p == 0 && a < b
    ensures a + p <= b
  {
    ModSum(b, a, p);
    var k := (b - a) / p;
    assert b - a == k * p;
    MulBound(k, p);
    MulBound(-k, p);
  }

  /** Halving first and then dividing by `h` is dividing by `2 * h`. */
  lemma HalfMod(n: nat, h: nat)
    requires h > 0
    ensures n % (2 * h) == 2 * (n / 2 % h) + n % 2
  {
    var q, r := n / 2 / h, n / 2 % h;
    assert n / 2 == q * h + r;
    assert n == q * (2 * h) + (2 * r + n % 2) by {
      assert q * (2 * h) == 2 * (q * h);
    }
    DivModUnique(n, 2 * h, q, 2 * r + n % 2);
  }

  lemma Pow2Add(a: nat, b: nat)
    ensures Pow2(a + b) == Pow2(a) * Pow2(b)
  {
    if a == 0 {
    } else {
      Pow2Add(a - 1, b);
      assert Pow2(a + b) == 2 * Pow2(a - 1 + b);
    }
  }

  lemma Pow2Mono(a: nat, b: nat)
    requires a < b
    ensures 2 * Pow2(a) <= Pow2(b)
  {
    if a + 1 < b {
      Pow2Mono(a, b - 1);
    }
  }

  /** Of two powers of two the smaller divides the larger. */
  lemma Pow2Divides(p: int, q: int)
    requires IsPow2(p) && IsPow2(q) && p <= q
    ensures p > 0 && q % p == 0
  {
    var a: nat :| p == Pow2(a);
    var b: nat :| q == Pow2(b);
    if b < a {
      Pow2Mono(b, a);
    } else {
      Pow2Add(b - a, a);
      ModMultiple(p, Pow2(b - a));
    }
  }

  lemma SubsetSize(a: set<int>, b: set<int>)
    requires a <= b
    ensures |a| <= |b|
  {
    assert b == a + (b - a);
  }

  lemma SubsetBy(a: set<int>, b: set<int>)
    requires forall i :: i in a ==> i in b
    ensures |a| <= |b|
  {
    forall i | i in a
      ensures i in b
    {
    }
    SubsetSize(a, b);
  }

  /** A member of a set that is not empty. */
  lemma Some(a: set<int>) returns (i: int)
    requires |a| > 0
    ensures i in a
  {
    if forall j :: j !in a {
      SubsetBy(a, {});
    }
    i :| i in a;
  }

  /** A number above every member of a set. */
  lemma {:induction false} Above(a: set<int>) returns (t: int)
    ensures t !in a && forall i :: i in a ==> i < t
    decreases |a|
  {
    t := 0;
    if |a| > 0 {
      var i := Some(a);
      var u := Above(a - {i});
      t := Max(u, i + 1);
      assert forall j :: j in a ==> j == i || j in a - {i};
    }
  }
}
