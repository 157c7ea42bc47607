/** Interrupt-disabled-time measurement: nested critical sections timed by a wrapping counter. */
module IntDisMeas {
  import opened Arith
  import opened Machine

  const NEST_MOD: nat := 0x1_0000 // CPU_INT16U

  datatype Event =
    | Enter(cnt: nat)  // CPU_CRITICAL_ENTER with the timer at `cnt`
    | Exit(cnt: nat)   // CPU_CRITICAL_EXIT
    | Clear            // the reset of CPU_IntDisMeasMaxCurReset

  /** CPU_IntDisNestCtr, CPU_IntDisMeasStart_cnts, CPU_IntDisMeasMaxCur_cnts, CPU_IntDisMeasMax_cnts. */
  datatype Meas = Meas(nest: nat, start: nat, maxCur: nat, max: nat)

  /** CPU_IntDisMeasStart. */
  function Start(m: Meas, cnt: nat): Meas {
    Meas((m.nest + 1) % NEST_MOD, if m.nest == 0 then cnt else m.start, m.maxCur, m.max)
  }

  /** CPU_IntDisMeasStop. */
  function Stop(m: Meas, cnt: nat, tmr: nat): Meas
    requires tmr > 0
  {
    var nest := (m.nest - 1) % NEST_MOD;
    if nest != 0 then m.(nest := nest)
    else
      var time := (cnt - m.start) % tmr;
      Meas(0, m.start, if m.maxCur < time then time else m.maxCur, if m.max < time then time else m.max)
  }

  function Apply(m: Meas, e: Event, tmr: nat): Meas
    requires tmr > 0
  {
    match e
    case Enter(c) => Start(m, c)
    case Exit(c) => Stop(m, c, tmr)
    case Clear => m.(maxCur := 0)
  }

  /** The state after the first `n` events since initialisation. */
  function After(ev: seq<Event>, n: nat, tmr: nat): Meas
    requires n <= |ev| && tmr > 0
  {
    if n == 0 then Meas(0, 0, 0, 0) else Apply(After(ev, n - 1, tmr), ev[n - 1], tmr)
  }

  // ---------- what is measured, without reference to the counters ----------

  function Depth(ev: seq<Event>, n: nat): int
    requires n <= |ev|
  {
    if n == 0 then 0
    else Depth(ev, n - 1) + (if ev[n - 1].Enter? then 1 else if ev[n - 1].Exit? then -1 else 0)
  }

  ghost predicate WellNested(ev: seq<Event>) {
    forall n :: 0 <= n <= |ev| ==> 0 <= Depth(ev, n) < 0x1_0000
  }

  /** In every run, well nested or not, the counter is the depth in a 16-bit word. */
  lemma {:induction false} NestWraps(ev: seq<Event>, n: nat, tmr: nat)
    requires n <= |ev| && tmr > 0
    ensures After(ev, n, tmr).nest == Depth(ev, n) % 0x1_0000
  {
    if n > 0 {
      NestWraps(ev, n - 1, tmr);
    }
  }

  /** Interrupts have been disabled without a break since event `i`. */
  ghost predicate OpenSince(ev: seq<Event>, i: nat, n: nat) {
    && i < n <= |ev| && ev[i].Enter? && Depth(ev, i) == 0
    && (forall k :: i < k <= n ==> Depth(ev, k) > 0)
  }

  /** Events `i` and `j` delimit an outermost critical section. */
  ghost predicate Section(ev: seq<Event>, i: nat, j: nat) {
    j < |ev| && OpenSince(ev, i, j) && ev[j].Exit? && Depth(ev, j + 1) == 0
  }

  function Duration(ev: seq<Event>, i: nat, j: nat, tmr: nat): nat
    requires i < |ev| && j < |ev| && ev[i].Enter? && ev[j].Exit? && tmr > 0
  {
    (ev[j].cnt - ev[i].cnt) % tmr
  }

  /** `m` is the largest duration of the outermost sections that ended at an event in [from, n). */
  ghost predicate IsLargest(ev: seq<Event>, from: nat, n: nat, tmr: nat, m: nat)
    requires tmr > 0
  {
    && (forall i, j :: from <= j < n && Section(ev, i, j) ==> Duration(ev, i, j, tmr) <= m)
    && (m == 0 || exists i, j :: from <= j < n && Section(ev, i, j) && Duration(ev, i, j, tmr) == m)
  }

  /** One past the last Clear among the first `n` events. */
  function LastClear(ev: seq<Event>, n: nat): (c: nat)
    requires n <= |ev|
    ensures c <= n
  {
    if n == 0 then 0 else if ev[n - 1].Clear? then n else LastClear(ev, n - 1)
  }

  lemma OneOpening(ev: seq<Event>, i: nat, i': nat, n: nat)
    requires OpenSince(ev, i, n) && OpenSince(ev, i', n)
    ensures i == i'
  {
  }

  /** The counters say how deep the nesting is and when the outermost section began. */
  ghost predicate TracksNesting(ev: seq<Event>, n: nat, m: Meas)
    requires n <= |ev|
  {
    && m.nest == Depth(ev, n)
    && (m.nest > 0 ==> exists i: nat :: OpenSince(ev, i, n) && ev[i].cnt == m.start)
  }

  /** The counters after `n` events say what the events say. */
  ghost predicate Tracks(ev: seq<Event>, n: nat, tmr: nat)
    requires n <= |ev| && tmr > 0
  {
    var m := After(ev, n, tmr);
    && TracksNesting(ev, n, m)
    && IsLargest(ev, 0, n, tmr, m.max)
    && IsLargest(ev, LastClear(ev, n), n, tmr, m.maxCur)
    && m.maxCur <= m.max
  }

  /** An event that ends no outermost section changes no maximum. */
  lemma LargestStays(ev: seq<Event>, from: nat, n: nat, tmr: nat, m: nat)
    requires n < |ev| && tmr > 0 && IsLargest(ev, from, n, tmr, m)
    requires !ev[n].Exit? || Depth(ev, n + 1) != 0
    ensures IsLargest(ev, from, n + 1, tmr, m)
  {
  }

  /** The section that ends at event `n` enters the maximum. */
  lemma LargestGrows(ev: seq<Event>, from: nat, n: nat, tmr: nat, m: nat, i: nat)
    requires n < |ev| && tmr > 0 && from <= n && IsLargest(ev, from, n, tmr, m) && Section(ev, i, n)
    ensures var d := Duration(ev, i, n, tmr); IsLargest(ev, from, n + 1, tmr, if m < d then d else m)
  {
    var d := Duration(ev, i, n, tmr);
    var m' := if m < d then d else m;
    forall a, j | from <= j < n + 1 && Section(ev, a, j)
      ensures Duration(ev, a, j, tmr) <= m'
    {
      if j == n {
        OneOpening(ev, a, i, n);
      }
    }
    if m < d {
      assert from <= n < n + 1 && Section(ev, i, n) && Duration(ev, i, n, tmr) == m';
    }
  }

  lemma OpenStays(ev: seq<Event>, i: nat, n: nat)
    requires OpenSince(ev, i, n) && n < |ev| && Depth(ev, n + 1) > 0
    ensures OpenSince(ev, i, n + 1)
  {
  }

  lemma EnterNests(ev: seq<Event>, n: nat, m: Meas)
    requires WellNested(ev) && n < |ev| && ev[n].Enter? && TracksNesting(ev, n, m)
    ensures TracksNesting(ev, n + 1, Start(m, ev[n].cnt))
  {
    assert 0 <= Depth(ev, n + 1) < NEST_MOD;
    if m.nest == 0 {
      assert OpenSince(ev, n, n + 1);
    } else {
      var i: nat :| OpenSince(ev, i, n) && ev[i].cnt == m.start;
      OpenStays(ev, i, n);
    }
  }

  lemma EnterTracks(ev: seq<Event>, n: nat, tmr: nat)
    requires WellNested(ev) && n < |ev| && tmr > 0 && ev[n].Enter? && Tracks(ev, n, tmr)
    ensures Tracks(ev, n + 1, tmr)
  {
    var m := After(ev, n, tmr);
    EnterNests(ev, n, m);
    LargestStays(ev, 0, n, tmr, m.max);
    LargestStays(ev, LastClear(ev, n), n, tmr, m.maxCur);
  }

  lemma ExitInner(ev: seq<Event>, n: nat, tmr: nat)
    requires WellNested(ev) && n < |ev| && tmr > 0 && ev[n].Exit? && Tracks(ev, n, tmr) && Depth(ev, n + 1) != 0
    ensures Tracks(ev, n + 1, tmr)
  {
    var m := After(ev, n, tmr);
    assert 0 <= Depth(ev, n) < NEST_MOD && 0 <= Depth(ev, n + 1) < NEST_MOD;
    var i: nat :| OpenSince(ev, i, n) && ev[i].cnt == m.start;
    OpenStays(ev, i, n);
    LargestStays(ev, 0, n, tmr, m.max);
    LargestStays(ev, LastClear(ev, n), n, tmr, m.maxCur);
  }

  lemma ClosesOutermost(ev: seq<Event>, n: nat, m: Meas) returns (i: nat)
    requires WellNested(ev) && n < |ev| && ev[n].Exit? && TracksNesting(ev, n, m) && Depth(ev, n + 1) == 0
    ensures m.nest == 1 && Section(ev, i, n) && ev[i].cnt == m.start
  {
    i :| OpenSince(ev, i, n) && ev[i].cnt == m.start;
  }

  lemma ExitOuter(ev: seq<Event>, n: nat, tmr: nat)
    requires WellNested(ev) && n < |ev| && tmr > 0 && ev[n].Exit? && Tracks(ev, n, tmr) && Depth(ev, n + 1) == 0
    ensures Tracks(ev, n + 1, tmr)
  {
    var m := After(ev, n, tmr);
    var i := ClosesOutermost(ev, n, m);
    StopOuter(m, ev[n].cnt, tmr, Duration(ev, i, n, tmr));
    LargestGrows(ev, 0, n, tmr, m.max, i);
    LargestGrows(ev, LastClear(ev, n), n, tmr, m.maxCur, i);
    assert After(ev, n + 1, tmr) == Stop(m, ev[n].cnt, tmr);
    assert LastClear(ev, n + 1) == LastClear(ev, n);
  }

  /** The end of an outermost section that lasted `d`. */
  lemma StopOuter(m: Meas, cnt: nat, tmr: nat, d: nat)
    requires tmr > 0 && m.nest == 1 && d == (cnt - m.start) % tmr
    ensures Stop(m, cnt, tmr) == Meas(0, m.start, if m.maxCur < d then d else m.maxCur, if m.max < d then d else m.max)
  {
  }

  lemma ExitTracks(ev: seq<Event>, n: nat, tmr: nat)
    requires WellNested(ev) && n < |ev| && tmr > 0 && ev[n].Exit? && Tracks(ev, n, tmr)
    ensures Tracks(ev, n + 1, tmr)
  {
    if Depth(ev, n + 1) == 0 {
      ExitOuter(ev, n, tmr);
    } else {
      ExitInner(ev, n, tmr);
    }
  }

  lemma ClearTracks(ev: seq<Event>, n: nat, tmr: nat)
    requires WellNested(ev) && n < |ev| && tmr > 0 && ev[n].Clear? && Tracks(ev, n, tmr)
    ensures Tracks(ev, n + 1, tmr)
  {
    var m := After(ev, n, tmr);
    LargestStays(ev, 0, n, tmr, m.max);
    if m.nest > 0 {
      var i: nat :| OpenSince(ev, i, n) && ev[i].cnt == m.start;
      OpenStays(ev, i, n);
    }
  }

  /** MAXIMA: over every well-nested run the counters hold the largest modular duration of any
      outermost section, over all time and since the last clear. */
  lemma {:induction false} EveryRunTracks(ev: seq<Event>, n: nat, tmr: nat)
    requires WellNested(ev) && n <= |ev| && tmr > 0
    ensures Tracks(ev, n, tmr)
  {
    if n > 0 {
      EveryRunTracks(ev, n - 1, tmr);
      match ev[n - 1]
      case Enter(_) => EnterTracks(ev, n - 1, tmr);
      case Exit(_) => ExitTracks(ev, n - 1, tmr);
      case Clear => ClearTracks(ev, n - 1, tmr);
    }
  }

  // ---------- overhead ----------

  /** CPU_IntDisMeasMaxCalc. */
  function MaxCalc(time: nat, ovrhd: nat): nat {
    if time > ovrhd then time - ovrhd else 0
  }

  /** `m` is the largest duration of the outermost sections that ended at an event in [from, n), each
      less the overhead and none below zero: every section is at most `ovrhd` longer than `m`, and one
      is exactly that unless `m` is 0. */
  ghost predicate IsLargestCorrected(ev: seq<Event>, from: nat, n: nat, tmr: nat, ovrhd: nat, m: nat)
    requires tmr > 0
  {
    && (forall i, j :: from <= j < n && Section(ev, i, j) ==> Duration(ev, i, j, tmr) <= m + ovrhd)
    && (m == 0 || exists i, j :: from <= j < n && Section(ev, i, j) && Duration(ev, i, j, tmr) == m + ovrhd)
  }

  /** Subtracting the overhead when the maximum is read is taking the maximum of the corrected
      durations: CPU_IntDisMeasMaxGet and CPU_IntDisMeasMaxCurGet. */
  lemma CorrectedAtRead(ev: seq<Event>, n: nat, tmr: nat, ovrhd: nat)
    requires WellNested(ev) && n <= |ev| && tmr > 0
    ensures var m := After(ev, n, tmr);
            && IsLargestCorrected(ev, 0, n, tmr, ovrhd, MaxCalc(m.max, ovrhd))
            && IsLargestCorrected(ev, LastClear(ev, n), n, tmr, ovrhd, MaxCalc(m.maxCur, ovrhd))
  {
    EveryRunTracks(ev, n, tmr);
    var m := After(ev, n, tmr);
    Correct(ev, 0, n, tmr, ovrhd, m.max);
    Correct(ev, LastClear(ev, n), n, tmr, ovrhd, m.maxCur);
  }

  lemma Correct(ev: seq<Event>, from: nat, n: nat, tmr: nat, ovrhd: nat, m: nat)
    requires tmr > 0 && IsLargest(ev, from, n, tmr, m)
    ensures IsLargestCorrected(ev, from, n, tmr, ovrhd, MaxCalc(m, ovrhd))
  {
    if m > ovrhd {
      var i, j :| from <= j < n && Section(ev, i, j) && Duration(ev, i, j, tmr) == m;
      assert Duration(ev, i, j, tmr) == MaxCalc(m, ovrhd) + ovrhd;
    }
  }

  // ---------- reset under interference ----------

  ghost predicate NoClear(ev: seq<Event>, n: nat, c: nat)
    requires n <= c <= |ev|
  {
    forall k :: n <= k < c ==> !ev[k].Clear?
  }

  lemma {:induction false} LastClearStays(ev: seq<Event>, n: nat, c: nat)
    requires n <= c <= |ev| && NoClear(ev, n, c)
    ensures LastClear(ev, c) == LastClear(ev, n)
    decreases c
  {
    if n < c {
      LastClearStays(ev, n, c - 1);
    }
  }

  /** What CPU_IntDisMeasMaxCurGet answers after `n` events. */
  function Reading(ev: seq<Event>, n: nat, tmr: nat, ovrhd: nat): nat
    requires n <= |ev| && tmr > 0
  {
    MaxCalc(After(ev, n, tmr).maxCur, ovrhd)
  }

  /** No outermost section that ended at an event in [from, c) was longer than `r`, overhead taken off. */
  ghost predicate NoneLonger(ev: seq<Event>, from: nat, c: nat, tmr: nat, ovrhd: nat, r: nat)
    requires tmr > 0
  {
    forall i, j :: from <= j < c && Section(ev, i, j) ==> Duration(ev, i, j, tmr) <= r + ovrhd
  }

  ghost predicate SomeAsLong(ev: seq<Event>, from: nat, c: nat, tmr: nat, ovrhd: nat, r: nat)
    requires tmr > 0
  {
    exists i, j :: from <= j < c && Section(ev, i, j) && Duration(ev, i, j, tmr) == r + ovrhd
  }

  /** CPU_IntDisMeasMaxCurReset reads after `n` events and clears after `c`. It returns what it erases
      if and only if: when nobody else clears in between, no section that ended there was longer than
      what it returns; when somebody does, what it returns is still the longest since that clear. */
  lemma ResetIff(ev: seq<Event>, n: nat, c: nat, tmr: nat, ovrhd: nat)
    requires WellNested(ev) && n <= c <= |ev| && tmr > 0
    ensures var r, f := Reading(ev, n, tmr, ovrhd), LastClear(ev, c);
            r == Reading(ev, c, tmr, ovrhd) <==>
              if NoClear(ev, n, c) then NoneLonger(ev, n, c, tmr, ovrhd, r)
              else NoneLonger(ev, f, c, tmr, ovrhd, r) && (r == 0 || SomeAsLong(ev, f, c, tmr, ovrhd, r))
  {
    var r, r' := Reading(ev, n, tmr, ovrhd), Reading(ev, c, tmr, ovrhd);
    CorrectedAtRead(ev, n, tmr, ovrhd);
    CorrectedAtRead(ev, c, tmr, ovrhd);
    if NoClear(ev, n, c) {
      LastClearStays(ev, n, c);
      LargestTwice(ev, LastClear(ev, n), n, c, tmr, ovrhd, r, r');
    } else {
      LargestIs(ev, LastClear(ev, c), c, tmr, ovrhd, r, r');
    }
  }

  /** Two maxima of growing runs. */
  lemma LargestTwice(ev: seq<Event>, from: nat, n: nat, c: nat, tmr: nat, ovrhd: nat, m: nat, m': nat)
    requires from <= n <= c <= |ev| && tmr > 0
    requires IsLargestCorrected(ev, from, n, tmr, ovrhd, m) && IsLargestCorrected(ev, from, c, tmr, ovrhd, m')
    ensures m == m' <==> NoneLonger(ev, n, c, tmr, ovrhd, m)
  {
    if m > 0 {
      var i, j :| from <= j < n && Section(ev, i, j) && Duration(ev, i, j, tmr) == m + ovrhd;
      assert Duration(ev, i, j, tmr) <= m' + ovrhd;
    }
    if m' > 0 {
      var i, j :| from <= j < c && Section(ev, i, j) && Duration(ev, i, j, tmr) == m' + ovrhd;
      assert j < n ==> Duration(ev, i, j, tmr) <= m + ovrhd;
    }
  }

  /** A maximum is known by its two properties. */
  lemma LargestIs(ev: seq<Event>, from: nat, c: nat, tmr: nat, ovrhd: nat, m: nat, m': nat)
    requires c <= |ev| && tmr > 0 && IsLargestCorrected(ev, from, c, tmr, ovrhd, m')
    ensures m == m' <==>
              NoneLonger(ev, from, c, tmr, ovrhd, m) && (m == 0 || SomeAsLong(ev, from, c, tmr, ovrhd, m))
  {
    if m' > 0 {
      var i, j :| from <= j < c && Section(ev, i, j) && Duration(ev, i, j, tmr) == m' + ovrhd;
      assert NoneLonger(ev, from, c, tmr, ovrhd, m) ==> m' <= m;
    }
  }

  /** A section of five ticks that ends between the two sections of a reset is erased unreported. */
  lemma ResetLosesSection()
    ensures var ev := [Enter(0), Exit(5)];
            WellNested(ev) && NoClear(ev, 0, 2) && Reading(ev, 0, 100, 0) == 0 && Reading(ev, 2, 100, 0) == 5
  {
    var ev := [Enter(0), Exit(5)];
    assert Depth(ev, 0) == 0 && Depth(ev, 1) == 1 && Depth(ev, 2) == 0;
    assert After(ev, 1, 100) == Meas(1, 0, 0, 0);
    assert After(ev, 2, 100) == Meas(0, 0, 5, 5);
  }

  /** Two resets that cross report the same section twice: the second one to clear erases nothing. */
  lemma ResetsCross()
    ensures var ev := [Enter(0), Exit(5), Clear];
            WellNested(ev) && !NoClear(ev, 2, 3) && Reading(ev, 2, 100, 0) == 5 && Reading(ev, 3, 100, 0) == 0
  {
    var ev := [Enter(0), Exit(5), Clear];
    assert Depth(ev, 0) == 0 && Depth(ev, 1) == 1 && Depth(ev, 2) == 0 && Depth(ev, 3) == 0;
    assert After(ev, 1, 100) == Meas(1, 0, 0, 0);
    assert After(ev, 2, 100) == Meas(0, 0, 5, 5);
    assert After(ev, 3, 100) == Meas(0, 0, 0, 5);
    assert ev[2].Clear?;
  }

  // ---------- the module state ----------

  /** Durations of the start/stop pairs read while the overhead is measured. */
  function Overheads(pairs: seq<(nat, nat)>, tmr: nat): nat
    requires tmr > 0
  {
    if pairs == [] then 0
    else Overheads(pairs[..|pairs| - 1], tmr) + (pairs[|pairs| - 1].1 - pairs[|pairs| - 1].0) % tmr
  }

  /** `q` is within half of the average of `n` durations that sum up to `sum`. */
  ghost predicate IsNearest(q: nat, sum: nat, n: nat) {
    2 * sum <= 2 * (q * n) + n && 2 * (q * n) <= 2 * sum + n
  }

  lemma Rounded(sum: nat, n: nat, tmr: nat)
    requires n > 0 && sum < tmr && sum + n / 2 < WORD
    ensures IsNearest((sum % tmr + n / 2) % WORD / n % tmr, sum, n)
  {
    DivModUnique(sum, tmr, 0, sum);
    DivModUnique(sum + n / 2, WORD, 0, sum + n / 2);
    NotAbove(sum, n);
    DivModUnique((sum + n / 2) / n, tmr, 0, (sum + n / 2) / n);
    Nearest(sum, n, (sum + n / 2) / n, (sum + n / 2) % n);
  }

  lemma Nearest(sum: nat, n: nat, q: nat, r: nat)
    requires sum + n / 2 == q * n + r && r < n
    ensures IsNearest(q, sum, n)
  {
  }

  lemma NotAbove(sum: nat, n: nat)
    requires n > 0
    ensures 0 <= (sum + n / 2) / n <= sum
  {
    DivBounds(sum + n / 2, sum + 1, n);
    DivBounds(sum + n / 2, 0, n);
    MulMono(1, n, sum);
    assert (sum + 1) * n == sum * n + n;
  }

  class Module {
    const tmr: nat
    var meas: Meas
    var ovrhd: nat
    ghost var events: seq<Event>

    ghost predicate Valid()
      reads this
    {
      tmr > 0 && WellNested(events) && meas == After(events, |events|, tmr)
    }

    /** CPU_IntDisMeasInit: the overhead is the rounded average of the measured pairs, their sum
        being kept in a timer word. */
    constructor (tmr: nat, pairs: seq<(nat, nat)>)
      requires 0 < tmr <= WORD && 0 < |pairs| < NEST_MOD
      ensures Valid() && this.tmr == tmr && events == []
      ensures ovrhd == (Overheads(pairs, tmr) % tmr + |pairs| / 2) % WORD / |pairs| % tmr
      ensures Overheads(pairs, tmr) < tmr && Overheads(pairs, tmr) + |pairs| / 2 < WORD ==>
                IsNearest(ovrhd, Overheads(pairs, tmr), |pairs|)
    {
      this.tmr := tmr;
      meas := Meas(0, 0, 0, 0);
      ovrhd := 0;
      events := [];
      new;
      var tot, i := 0, 0;
      assert 0 % tmr == 0 by {
        DivModUnique(0, tmr, 0, 0);
      }
      while i < |pairs|
        modifies this`meas
        invariant i <= |pairs| && meas.nest == 0
        invariant tot == Overheads(pairs[..i], tmr) % tmr
      {
        OnePair(meas.(maxCur := 0), pairs[i].0, pairs[i].1, tmr);
        meas := meas.(maxCur := 0);
        meas := Start(meas, pairs[i].0);
        meas := Stop(meas, pairs[i].1, tmr);
        AverageStep(pairs, i, tmr);
        tot := (tot + meas.maxCur) % tmr;
        i := i + 1;
      }
      assert pairs[..|pairs|] == pairs;
      ovrhd := (tot + |pairs| / 2) % WORD / |pairs| % tmr;
      if Overheads(pairs, tmr) < tmr && Overheads(pairs, tmr) + |pairs| / 2 < WORD {
        Rounded(Overheads(pairs, tmr), |pairs|, tmr);
      }
      meas := Meas(0, 0, 0, 0);
    }

    /** CPU_IntDisMeasStart, called by CPU_CRITICAL_ENTER with the timer at `cnt`. */
    method MeasStart(cnt: nat)
      requires Valid() && Depth(events, |events|) + 1 < NEST_MOD
      modifies this`meas, this`events
      ensures Valid() && events == old(events) + [Enter(cnt)]
    {
      Extend(events, Enter(cnt), tmr);
      meas := Start(meas, cnt);
      events := events + [Enter(cnt)];
    }

    /** CPU_IntDisMeasStop, called by CPU_CRITICAL_EXIT of an open section. */
    method MeasStop(cnt: nat)
      requires Valid() && Depth(events, |events|) > 0
      modifies this`meas, this`events
      ensures Valid() && events == old(events) + [Exit(cnt)]
    {
      Extend(events, Exit(cnt), tmr);
      meas := Stop(meas, cnt, tmr);
      events := events + [Exit(cnt)];
    }

    /** CPU_IntDisMeasMaxGet. */
    method MaxGet() returns (r: nat)
      requires Valid()
      ensures IsLargestCorrected(events, 0, |events|, tmr, ovrhd, r)
    {
      CorrectedAtRead(events, |events|, tmr, ovrhd);
      r := MaxCalc(meas.max, ovrhd);
    }

    /** CPU_IntDisMeasMaxCurGet. */
    method MaxCurGet() returns (r: nat)
      requires Valid()
      ensures IsLargestCorrected(events, LastClear(events, |events|), |events|, tmr, ovrhd, r)
    {
      CorrectedAtRead(events, |events|, tmr, ovrhd);
      r := MaxCalc(meas.maxCur, ovrhd);
    }

    /** The second section of CPU_IntDisMeasMaxCurReset. */
    method MaxCurClear()
      requires Valid()
      modifies this`meas, this`events
      ensures Valid() && events == old(events) + [Clear]
    {
      Extend(events, Clear, tmr);
      meas := meas.(maxCur := 0);
      events := events + [Clear];
    }

    /** CPU_IntDisMeasMaxCurReset without interference between its read and its clear; ResetIff says
        what interference does. */
    method MaxCurReset() returns (r: nat)
      requires Valid()
      modifies this`meas, this`events
      ensures Valid() && events == old(events) + [Clear]
      ensures IsLargestCorrected(old(events), LastClear(old(events), |old(events)|), |old(events)|, tmr, ovrhd, r)
    {
      r := MaxCurGet();
      MaxCurClear();
    }
  }

  /** One start and stop outside any section measures the time between them. */
  lemma OnePair(m: Meas, cnt0: nat, cnt1: nat, tmr: nat)
    requires tmr > 0 && m.nest == 0 && m.maxCur == 0
    ensures Stop(Start(m, cnt0), cnt1, tmr).nest == 0
    ensures Stop(Start(m, cnt0), cnt1, tmr).maxCur == (cnt1 - cnt0) % tmr
  {
  }

  lemma AverageStep(pairs: seq<(nat, nat)>, i: nat, tmr: nat)
    requires i < |pairs| && tmr > 0
    ensures Overheads(pairs[..i + 1], tmr) == Overheads(pairs[..i], tmr) + (pairs[i].1 - pairs[i].0) % tmr
    ensures (Overheads(pairs[..i], tmr) % tmr + (pairs[i].1 - pairs[i].0) % tmr) % tmr
            == Overheads(pairs[..i + 1], tmr) % tmr
  {
    assert pairs[..i + 1][..i] == pairs[..i];
    var s, d := Overheads(pairs[..i], tmr), (pairs[i].1 - pairs[i].0) % tmr;
    assert s + d == (s % tmr + d) + s / tmr * tmr;
    ModShift(s % tmr + d, tmr, s / tmr);
  }

  lemma {:induction false} SamePrefix(ev: seq<Event>, e: Event, n: nat, tmr: nat)
    requires n <= |ev| && tmr > 0
    ensures After(ev + [e], n, tmr) == After(ev, n, tmr) && Depth(ev + [e], n) == Depth(ev, n)
  {
    if n > 0 {
      SamePrefix(ev, e, n - 1, tmr);
    }
  }

  /** Appending an event to a run. */
  lemma Extend(ev: seq<Event>, e: Event, tmr: nat)
    requires WellNested(ev) && tmr > 0
    requires e.Enter? ==> Depth(ev, |ev|) + 1 < NEST_MOD
    requires e.Exit? ==> Depth(ev, |ev|) > 0
    ensures WellNested(ev + [e])
    ensures After(ev + [e], |ev| + 1, tmr) == Apply(After(ev, |ev|, tmr), e, tmr)
  {
    forall n | 0 <= n <= |ev|
      ensures Depth(ev + [e], n) == Depth(ev, n)
    {
      SamePrefix(ev, e, n, tmr);
    }
    SamePrefix(ev, e, |ev|, tmr);
  }
}
