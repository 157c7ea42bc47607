/** CPU timestamps: a narrow wrapping timer extended into a wide accumulator by periodic reads. */
module TimeStamp {
  import opened Arith

  /** Accumulator and previous timer value; the timer counts modulo `tmr`, the accumulator modulo
      `acc`. */
  datatype Ts = Ts(accum: nat, prev: nat)

  /** CPU_TS_Get32 and CPU_TS_Get64 for a timer narrower than the timestamp. */
  function Get(ts: Ts, cur: nat, tmr: nat, acc: nat): Ts
    requires tmr > 0 && acc > 0
  {
    var delta := (cur - ts.prev) % tmr;
    Ts((ts.accum + delta) % acc, cur)
  }

  /** True tick counts of the reads, the first being CPU_TS_Init. */
  ghost predicate Times(ts: seq<nat>) {
    |ts| > 0 && forall i :: 0 < i < |ts| ==> ts[i - 1] <= ts[i]
  }

  function Last(ts: seq<nat>): nat
    requires |ts| > 0
  {
    ts[|ts| - 1]
  }

  /** The timestamp after CPU_TS_Init at ts[0] and a read at each later time. */
  function Run(ts: seq<nat>, tmr: nat, acc: nat): Ts
    requires |ts| > 0 && tmr > 0 && acc > 0
  {
    if |ts| == 1 then Ts(0, ts[0] % tmr)
    else Get(Run(ts[..|ts| - 1], tmr, acc), Last(ts) % tmr, tmr, acc)
  }

  /** Whole turns of the timer that no read has seen. */
  function LostTurns(ts: seq<nat>, tmr: nat): int
    requires |ts| > 0 && tmr > 0
  {
    if |ts| == 1 then 0
    else LostTurns(ts[..|ts| - 1], tmr) + (Last(ts) - Last(ts[..|ts| - 1])) / tmr
  }

  lemma DeltaIsGap(cur: nat, prev: nat, tmr: nat)
    requires tmr > 0
    ensures (cur % tmr - prev % tmr) % tmr == (cur - prev) % tmr
  {
    var a, b := cur / tmr, prev / tmr;
    assert cur == a * tmr + cur % tmr && prev == b * tmr + prev % tmr;
    assert cur - prev == (cur % tmr - prev % tmr) + (a - b) * tmr by {
      assert (a - b) * tmr == a * tmr - b * tmr;
    }
    ModShift(cur % tmr - prev % tmr, tmr, a - b);
  }

  lemma SumMod(a: int, b: int, m: nat)
    requires m > 0
    ensures (a % m + b) % m == (a + b) % m
  {
    var q := a / m;
    assert a == q * m + a % m;
    assert a + b == (a % m + b) + q * m;
    ModShift(a % m + b, m, q);
  }

  ghost predicate Counts(ts: seq<nat>, tmr: nat, acc: nat, t: Ts)
    requires |ts| > 0 && tmr > 0 && acc > 0
  {
    && t.prev == Last(ts) % tmr
    && t.accum == (Last(ts) - ts[0] - LostTurns(ts, tmr) * tmr) % acc
  }

  lemma ReadCounts(pre: seq<nat>, ts: seq<nat>, tmr: nat, acc: nat, t: Ts)
    requires Times(ts) && |ts| > 1 && pre == ts[..|ts| - 1] && tmr > 0 && acc > 0
    requires Counts(pre, tmr, acc, t)
    ensures Counts(ts, tmr, acc, Get(t, Last(ts) % tmr, tmr, acc))
  {
    var e := Last(pre) - ts[0] - LostTurns(pre, tmr) * tmr;
    TicksAdd(e, Last(pre), Last(ts), tmr, acc, t.accum);
    TurnsAdd(ts[0], Last(pre), Last(ts), LostTurns(pre, tmr), tmr);
  }

  /** The timestamp is the ticks elapsed less the turns lost, modulo the accumulator. */
  lemma {:induction false} RunCounts(ts: seq<nat>, tmr: nat, acc: nat)
    requires Times(ts) && tmr > 0 && acc > 0
    ensures Run(ts, tmr, acc).prev == Last(ts) % tmr
    ensures Run(ts, tmr, acc).accum == (Last(ts) - ts[0] - LostTurns(ts, tmr) * tmr) % acc
  {
    if |ts| == 1 {
      NothingElapsed(acc);
    } else {
      var pre := ts[..|ts| - 1];
      RunCounts(pre, tmr, acc);
      ReadCounts(pre, ts, tmr, acc, Run(pre, tmr, acc));
    }
  }

  /** One read adds the ticks since the read before, less the turns in between. */
  lemma TicksAdd(e: int, prev: nat, last: nat, tmr: nat, acc: nat, a: nat)
    requires tmr > 0 && acc > 0 && a == e % acc
    ensures (a + (last % tmr - prev % tmr) % tmr) % acc == (e + (last - prev) % tmr) % acc
  {
    DeltaIsGap(last, prev, tmr);
    SumMod(e, (last - prev) % tmr, acc);
  }

  lemma TurnsAdd(first: nat, prev: nat, last: nat, lost: int, tmr: nat)
    requires prev <= last && tmr > 0
    ensures prev - first - lost * tmr + (last - prev) % tmr == last - first - (lost + (last - prev) / tmr) * tmr
  {
    GapIs(last - prev, tmr);
    LostStep(prev - first, last - prev, lost, (last - prev) / tmr, (last - prev) % tmr, tmr);
  }

  lemma GapIs(n: nat, p: nat)
    requires p > 0
    ensures n == n / p * p + n % p
  {
  }

  lemma NothingElapsed(acc: nat)
    requires acc > 0
    ensures 0 % acc == 0
  {
    DivModUnique(0, acc, 0, 0);
  }

  lemma LostStep(e: int, gap: int, lost: int, q: int, r: int, tmr: int)
    requires gap == q * tmr + r
    ensures (e - lost * tmr) + r == (e + gap) - (lost + q) * tmr
  {
    assert (lost + q) * tmr == lost * tmr + q * tmr;
  }

  /** CONGRUENCE: whatever the gaps between reads, the timestamp differs from the ticks elapsed at
      the last read by whole turns of the timer. */
  lemma AlwaysCongruent(ts: seq<nat>, tmr: nat, acc: nat)
    requires Times(ts) && tmr > 0 && acc > 0 && acc % tmr == 0
    ensures Run(ts, tmr, acc).accum % tmr == (Last(ts) - ts[0]) % tmr
  {
    RunCounts(ts, tmr, acc);
    var e, lost := Last(ts) - ts[0], LostTurns(ts, tmr);
    ModMod(e - lost * tmr, acc, tmr);
    assert e - lost * tmr == e + (-lost) * tmr;
    ModShift(e, tmr, -lost);
  }

  /** Every read comes before the timer has gone round since the previous one. */
  ghost predicate InTime(ts: seq<nat>, tmr: nat) {
    forall i :: 0 < i < |ts| ==> ts[i] - ts[i - 1] < tmr
  }

  lemma {:induction false} LostIff(ts: seq<nat>, tmr: nat)
    requires Times(ts) && tmr > 0
    ensures 0 <= LostTurns(ts, tmr) * tmr <= Last(ts) - ts[0]
    ensures LostTurns(ts, tmr) == 0 <==> InTime(ts, tmr)
    ensures LostTurns(ts, tmr) >= 0
  {
    if |ts| > 1 {
      var pre := ts[..|ts| - 1];
      LostIff(pre, tmr);
      LostBounds(LostTurns(pre, tmr), Last(pre) - ts[0], Last(ts) - Last(pre), tmr);
      InTimeStep(ts, tmr);
    }
  }

  lemma LostBounds(lost: nat, e: int, gap: nat, tmr: nat)
    requires tmr > 0 && lost * tmr <= e
    ensures 0 <= (lost + gap / tmr) * tmr <= e + gap
    ensures gap / tmr >= 0 && (gap / tmr == 0 <==> gap < tmr)
  {
    var q := gap / tmr;
    DivBounds(gap, 1, tmr);
    DivBounds(gap, 0, tmr);
    assert gap == q * tmr + gap % tmr;
    assert (lost + q) * tmr == lost * tmr + q * tmr;
    MulMono(0, q, tmr);
    MulMono(0, lost, tmr);
  }

  lemma InTimeStep(ts: seq<nat>, tmr: nat)
    requires |ts| > 1
    ensures InTime(ts, tmr) <==> InTime(ts[..|ts| - 1], tmr) && ts[|ts| - 1] - ts[|ts| - 2] < tmr
  {
    var pre := ts[..|ts| - 1];
    if InTime(pre, tmr) && ts[|ts| - 1] - ts[|ts| - 2] < tmr {
      forall i | 0 < i < |ts|
        ensures ts[i] - ts[i - 1] < tmr
      {
        if i < |ts| - 1 {
          assert pre[i] - pre[i - 1] < tmr;
        }
      }
    }
    if InTime(ts, tmr) {
      forall i | 0 < i < |pre|
        ensures pre[i] - pre[i - 1] < tmr
      {
        assert ts[i] - ts[i - 1] < tmr;
      }
    }
  }

  /** EXACTNESS: with every read in time the timestamp is the ticks elapsed, modulo its width; and
      until the accumulator itself goes round, only then. */
  lemma ExactIffInTime(ts: seq<nat>, tmr: nat, acc: nat)
    requires Times(ts) && tmr > 0 && acc > 0
    ensures InTime(ts, tmr) ==> Run(ts, tmr, acc).accum == (Last(ts) - ts[0]) % acc
    ensures Last(ts) - ts[0] < acc ==> (Run(ts, tmr, acc).accum == Last(ts) - ts[0] <==> InTime(ts, tmr))
  {
    RunCounts(ts, tmr, acc);
    LostIff(ts, tmr);
    var e, lost := Last(ts) - ts[0], LostTurns(ts, tmr);
    if e < acc {
      DivModUnique(e - lost * tmr, acc, 0, e - lost * tmr);
    }
    if lost > 0 {
      MulBound(lost, tmr);
    }
  }

  /** Whatever the accumulator does, the timestamp is right exactly when the turns lost make up whole
      rounds of the accumulator. */
  lemma ExactIff(ts: seq<nat>, tmr: nat, acc: nat)
    requires Times(ts) && tmr > 0 && acc > 0
    ensures Run(ts, tmr, acc).accum == (Last(ts) - ts[0]) % acc <==> LostTurns(ts, tmr) * tmr % acc == 0
  {
    RunCounts(ts, tmr, acc);
    SameResidueIff(Last(ts) - ts[0], LostTurns(ts, tmr) * tmr, acc);
  }

  lemma SameResidueIff(e: int, d: int, m: nat)
    requires m > 0
    ensures (e - d) % m == e % m <==> d % m == 0
  {
    if d % m == 0 {
      ModSum(e, d, m);
    }
    if (e - d) % m == e % m {
      var a, b := e / m, (e - d) / m;
      assert e == a * m + e % m && e - d == b * m + (e - d) % m;
      assert d == (a - b) * m;
      ModMultiple(m, a - b);
    }
  }

  /** `r` is a word below `acc`, and the ticks elapsed modulo `acc` when all reads came in time. */
  ghost predicate CountsTicks(ts: seq<nat>, tmr: nat, acc: nat, r: nat)
    requires |ts| > 0 && acc > 0
  {
    r < acc && (InTime(ts, tmr) ==> r == (Last(ts) - ts[0]) % acc)
  }

  /** One read, at true tick count `now`, of a timestamp whose earlier reads were `ts`. */
  method Read(t: Ts, ghost ts: seq<nat>, now: nat, tmr: nat, acc: nat) returns (t': Ts)
    requires Times(ts) && Last(ts) <= now && tmr > 0 && acc > 0 && t == Run(ts, tmr, acc)
    ensures Times(ts + [now]) && t' == Run(ts + [now], tmr, acc) && CountsTicks(ts + [now], tmr, acc, t'.accum)
  {
    assert (ts + [now])[..|ts|] == ts;
    t' := Get(t, now % tmr, tmr, acc);
    RunCounts(ts + [now], tmr, acc);
    ExactIffInTime(ts + [now], tmr, acc);
  }

  /** The 32-bit and 64-bit timestamps of a timer with 2^w < 2^32 counts. */
  class CpuTs {
    const tmr: nat
    var ts32: Ts
    var ts64: Ts
    ghost var reads32: seq<nat>
    ghost var reads64: seq<nat>

    ghost predicate Valid()
      reads this
    {
      && tmr > 0 && Times(reads32) && Times(reads64)
      && ts32 == Run(reads32, tmr, ACC32) && ts64 == Run(reads64, tmr, ACC64)
    }

    /** CPU_TS_Init at true tick count `now`. */
    constructor (tmr: nat, now: nat)
      requires tmr > 0
      ensures Valid() && this.tmr == tmr && reads32 == [now] && reads64 == [now]
    {
      this.tmr := tmr;
      var cnts := now % tmr;
      ts32, ts64 := Ts(0, cnts), Ts(0, cnts);
      reads32, reads64 := [now], [now];
    }

    /** CPU_TS_Get32. */
    method Get32(now: nat) returns (r: nat)
      requires Valid() && Last(reads32) <= now
      modifies this`ts32, this`reads32
      ensures Valid() && reads32 == old(reads32) + [now] && r == Run(reads32, tmr, ACC32).accum
      ensures CountsTicks(reads32, tmr, 0x1_0000_0000, r)
    {
      ts32 := Read(ts32, reads32, now, tmr, ACC32);
      reads32 := reads32 + [now];
      r := ts32.accum;
    }

    /** CPU_TS_Get64. */
    method Get64(now: nat) returns (r: nat)
      requires Valid() && Last(reads64) <= now
      modifies this`ts64, this`reads64
      ensures Valid() && reads64 == old(reads64) + [now] && r == Run(reads64, tmr, ACC64).accum
      ensures CountsTicks(reads64, tmr, 0x1_0000_0000_0000_0000, r)
    {
      ts64 := Read(ts64, reads64, now, tmr, ACC64);
      reads64 := reads64 + [now];
      r := ts64.accum;
    }

    /** CPU_TS_Update: one read of each. */
    method Update(now32: nat, now64: nat)
      requires Valid() && Last(reads32) <= now32 && Last(reads64) <= now64
      modifies this
      ensures Valid() && reads32 == old(reads32) + [now32] && reads64 == old(reads64) + [now64]
    {
      var r := Get32(now32);
      r := Get64(now64);
    }
  }

  const ACC32: nat := 0x1_0000_0000
  const ACC64: nat := 0x1_0000_0000_0000_0000
}
