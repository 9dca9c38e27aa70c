/**
 The conversion schedule of the stand-alone barometer: a loop that wakes when it can,
 counts the time into the current sampling period and latches at most one conversion
 a wake, dropping what it is behind by. Times are exact seconds.
 */
module Pacing {

  /** One turn of the loop: the clock, what the part asks for, and whether a stop was requested. */
  datatype Wake = Wake(now: real, forced: bool, periodUs: nat, stop: bool)

  /** A conversion latched into the part, stamped with the microseconds since the start. */
  datatype Latch = Latch(stampUs: int, forced: bool)

  datatype Pacer = Pacer(previous: real, residual: real, latches: seq<Latch>)

  function Seconds(periodUs: nat): (p: real)
    ensures periodUs > 0 ==> p > 0.0
  {
    periodUs as real * 0.000001
  }

  function Times(n: int, p: real): real { n as real * p }

  /** How many whole periods fit. */
  function Quotient(x: real, p: real): int
    requires p > 0.0
  {
    (x / p).Floor
  }

  /** std::fmod, for a dividend that is not negative. */
  function Fmod(x: real, p: real): real
    requires p > 0.0
  {
    x - Times(Quotient(x, p), p)
  }

  function Stamp(start: real, now: real): int {
    ((now - start) * 1000000.0).Floor
  }

  function Turn(start: real, s: Pacer, w: Wake): Pacer {
    var stamp := Stamp(start, w.now);
    var latches := s.latches + if w.forced then [Latch(stamp, true)] else [];
    if w.periodUs == 0 then Pacer(w.now, 0.0, latches)
    else
      var (into, p) := (s.residual + (w.now - s.previous), Seconds(w.periodUs));
      if into >= p then Pacer(w.now, Fmod(into, p), latches + [Latch(stamp, false)])
      else Pacer(w.now, into, latches)
  }

  function Run(start: real, s: Pacer, wakes: seq<Wake>): Pacer
    decreases |wakes|
  {
    if wakes == [] then s else Turn(start, Run(start, s, wakes[..|wakes| - 1]), wakes[|wakes| - 1])
  }

  /** The loop ends after this turn. */
  predicate Ends(start: real, w: Wake, durationS: int) {
    w.stop || (durationS > 0 && w.now - start > durationS as real)
  }

  /** The loop of the source, over the turns it is given until one of them ends it. */
  method Pace(start: real, wakes: seq<Wake>, durationS: int) returns (latches: seq<Latch>, turns: nat)
    ensures turns <= |wakes|
    ensures forall k :: 0 <= k < turns - 1 ==>
              !wakes[k].stop && (durationS > 0 ==> wakes[k].now <= start + durationS as real)
    ensures turns < |wakes| ==>
              && turns > 0
              && (wakes[turns - 1].stop || (durationS > 0 && wakes[turns - 1].now > start + durationS as real))
    ensures latches == Run(start, Pacer(start, 0.0, []), wakes[..turns]).latches
  {
    hide Stamp, Seconds, Fmod, Run;
    var previous := start;
    var timeIntoPeriod := 0.0;
    latches, turns := [], 0;
    NothingRun(start, wakes);
    while turns < |wakes|
      invariant turns <= |wakes|
      invariant forall k :: 0 <= k < turns ==> !Ends(start, wakes[k], durationS)
      invariant Run(start, Pacer(start, 0.0, []), wakes[..turns]) == Pacer(previous, timeIntoPeriod, latches)
    {
      var w := wakes[turns];
      RunSnoc(start, Pacer(start, 0.0, []), wakes, turns);
      var dt := w.now - previous;
      previous := w.now;
      var elapsedUs := Stamp(start, w.now);
      if w.forced {
        latches := latches + [Latch(elapsedUs, true)];
      }
      if w.periodUs == 0 {
        timeIntoPeriod := 0.0;
      } else {
        timeIntoPeriod := timeIntoPeriod + dt;
        if timeIntoPeriod >= Seconds(w.periodUs) {
          latches := latches + [Latch(elapsedUs, false)];
          timeIntoPeriod := Fmod(timeIntoPeriod, Seconds(w.periodUs));
        }
      }
      turns := turns + 1;
      if Ends(start, w, durationS) {
        break;
      }
    }
  }

  lemma NothingRun(start: real, wakes: seq<Wake>)
    ensures Run(start, Pacer(start, 0.0, []), wakes[..0]) == Pacer(start, 0.0, [])
  {
  }

  lemma RunSnoc(start: real, s: Pacer, wakes: seq<Wake>, k: nat)
    requires k < |wakes|
    ensures Run(start, s, wakes[..k + 1]) == Turn(start, Run(start, s, wakes[..k]), wakes[k])
  {
    assert wakes[..k + 1][..k] == wakes[..k];
  }

  // ---------------------------------------------------------------------------
  // Whole periods
  // ---------------------------------------------------------------------------

  lemma TimesAdds(m: int, n: int, p: real)
    ensures Times(m + n, p) == Times(m, p) + Times(n, p)
    ensures Times(m - n, p) == Times(m, p) - Times(n, p)
    ensures Times(1, p) == p && Times(0, p) == 0.0
  {
  }

  lemma Sign(x: real, p: real)
    requires p > 0.0
    ensures x > 0.0 <==> x * p > 0.0
    ensures x == 0.0 <==> x * p == 0.0
  {
    if x < 0.0 {
      assert -x * p > 0.0;
    }
  }

  lemma Scaled(a: real, b: real, p: real)
    requires p > 0.0
    ensures a < b <==> a * p < b * p
    ensures a <= b <==> a * p <= b * p
  {
    assert (b - a) * p == b * p - a * p;
    Sign(b - a, p);
  }

  lemma TimesOrdered(m: int, n: int, p: real)
    requires p > 0.0
    ensures m < n <==> Times(m, p) < Times(n, p)
    ensures m <= n <==> Times(m, p) <= Times(n, p)
  {
    Scaled(m as real, n as real, p);
  }

  lemma Undone(x: real, p: real)
    requires p > 0.0
    ensures x / p * p == x
  {
  }

  lemma FloorIs(y: real, q: int)
    ensures y.Floor == q <==> q as real <= y < (q + 1) as real
  {
  }

  lemma TimesBelow(q: int, y: real, p: real)
    requires p > 0.0
    ensures q as real <= y <==> Times(q, p) <= y * p
    ensures y < q as real <==> y * p < Times(q, p)
  {
    Scaled(q as real, y, p);
    Scaled(y, q as real, p);
  }

  lemma FloorTimes(y: real, p: real, q: int)
    requires p > 0.0
    ensures y.Floor == q <==> Times(q, p) <= y * p < Times(q + 1, p)
  {
    hide Times;
    FloorIs(y, q);
    TimesBelow(q, y, p);
    TimesBelow(q + 1, y, p);
  }

  /** The quotient is the number of whole periods below. */
  lemma QuotientIs(x: real, p: real, q: int)
    requires p > 0.0
    ensures Quotient(x, p) == q <==> Times(q, p) <= x < Times(q + 1, p)
  {
    Undone(x, p);
    FloorTimes(x / p, p, q);
    hide Times;
  }

  lemma QuotientBounds(x: real, p: real)
    requires p > 0.0
    ensures Times(Quotient(x, p), p) <= x < Times(Quotient(x, p), p) + p
  {
    QuotientIs(x, p, Quotient(x, p));
    TimesAdds(Quotient(x, p), 1, p);
    hide Quotient, Times;
  }

  /** Taking whole periods off takes as many from the quotient. */
  lemma QuotientLess(x: real, p: real, q: int)
    requires p > 0.0
    ensures Quotient(x - Times(q, p), p) == Quotient(x, p) - q
    ensures Fmod(x - Times(q, p), p) == Fmod(x, p)
  {
    hide Quotient, Times;
    var n := Quotient(x, p);
    QuotientIs(x, p, n);
    TimesAdds(n, q, p);
    TimesAdds(n + 1, q, p);
    QuotientIs(x - Times(q, p), p, n - q);
  }

  lemma FmodRange(x: real, p: real)
    requires p > 0.0 && x >= 0.0
    ensures 0.0 <= Fmod(x, p) < p
    ensures if x < p then Fmod(x, p) == x && Quotient(x, p) == 0 else Quotient(x, p) >= 1
  {
    hide Quotient, Times;
    QuotientBounds(x, p);
    QuotientIs(x, p, 0);
    TimesAdds(0, 1, p);
    TimesAdds(Quotient(x, p), 0, p);
    TimesOrdered(0, Quotient(x, p) + 1, p);
    TimesAdds(Quotient(x, p), 1, p);
  }

  // ---------------------------------------------------------------------------
  // Every run
  // ---------------------------------------------------------------------------

  /** The clock before turn `k`. */
  function Before(from: real, wakes: seq<Wake>, k: nat): real
    requires k <= |wakes|
  {
    if k == 0 then from else wakes[k - 1].now
  }

  /** The clock does not run backwards. */
  predicate Steady(from: real, wakes: seq<Wake>) {
    forall k :: 0 <= k < |wakes| ==> Before(from, wakes, k) <= wakes[k].now
  }

  lemma SteadyPrefix(from: real, wakes: seq<Wake>, n: nat)
    requires Steady(from, wakes) && n <= |wakes|
    ensures Steady(from, wakes[..n]) && Before(from, wakes[..n], n) == Before(from, wakes, n)
  {
    forall k | 0 <= k < n ensures Before(from, wakes[..n], k) <= wakes[..n][k].now {
      assert Before(from, wakes[..n], k) == Before(from, wakes, k);
    }
  }

  lemma PreviousIsLast(start: real, s: Pacer, wakes: seq<Wake>)
    ensures Run(start, s, wakes).previous == Before(s.previous, wakes, |wakes|)
  {
  }

  lemma TurnBelowPeriod(start: real, s: Pacer, w: Wake)
    requires s.residual >= 0.0 && s.previous <= w.now
    ensures var residual := Turn(start, s, w).residual;
            residual >= 0.0 && if w.periodUs == 0 then residual == 0.0 else residual < Seconds(w.periodUs)
  {
    hide Fmod, Seconds, Stamp;
    if w.periodUs > 0 {
      FmodRange(s.residual + (w.now - s.previous), Seconds(w.periodUs));
    }
  }

  /** The residual is never negative and, after a turn, below the period of that turn: nothing is owed twice. */
  lemma {:induction false} ResidualBelowPeriod(start: real, s: Pacer, wakes: seq<Wake>)
    requires s.residual >= 0.0 && Steady(s.previous, wakes)
    ensures var residual := Run(start, s, wakes).residual;
            && residual >= 0.0
            && (wakes != [] ==> var w := wakes[|wakes| - 1];
                  if w.periodUs == 0 then residual == 0.0 else residual < Seconds(w.periodUs))
    decreases |wakes|
  {
    if wakes != [] {
      var n := |wakes| - 1;
      hide Turn, Seconds;
      SteadyPrefix(s.previous, wakes, n);
      ResidualBelowPeriod(start, s, wakes[..n]);
      PreviousIsLast(start, s, wakes[..n]);
      assert Before(s.previous, wakes, n) <= wakes[n].now;
      TurnBelowPeriod(start, Run(start, s, wakes[..n]), wakes[n]);
    }
  }

  // ---------------------------------------------------------------------------
  // A stretch with one period
  // ---------------------------------------------------------------------------

  predicate Awake(wakes: seq<Wake>, periodUs: nat) {
    forall k :: 0 <= k < |wakes| ==> wakes[k].periodUs == periodUs
  }

  /** All the time to account for: what was left and what has passed since. */
  function Total(s: Pacer, wakes: seq<Wake>): real {
    s.residual + if wakes == [] then 0.0 else wakes[|wakes| - 1].now - s.previous
  }

  /** Conversions that have fallen due by the last turn. */
  function Due(s: Pacer, wakes: seq<Wake>, p: real): int
    requires p > 0.0
  {
    if wakes == [] then 0 else Quotient(Total(s, wakes), p)
  }

  /** What a turn is behind by, beyond the one conversion it latches; over all turns. */
  function Dropped(s: Pacer, wakes: seq<Wake>, p: real): int
    requires p > 0.0
    decreases |wakes|
  {
    if wakes == [] then 0
    else
      var before := wakes[..|wakes| - 1];
      var grown := Due(s, wakes, p) - Due(s, before, p);
      Dropped(s, before, p) + if grown > 0 then grown - 1 else 0
  }

  /** Conversions latched on schedule, the forced ones aside. */
  function Scheduled(latches: seq<Latch>): nat {
    if latches == [] then 0
    else Scheduled(latches[..|latches| - 1]) + if latches[|latches| - 1].forced then 0 else 1
  }

  lemma ScheduledSnoc(latches: seq<Latch>, latch: Latch)
    ensures Scheduled(latches + [latch]) == Scheduled(latches) + if latch.forced then 0 else 1
  {
    assert (latches + [latch])[..|latches|] == latches;
  }

  /** A turn with `due` conversions credited before it. */
  lemma TurnCredits(start: real, s: Pacer, w: Wake, total: real, due: int)
    requires w.periodUs > 0 && s.residual >= 0.0 && s.previous <= w.now
    requires s.residual == total - Times(due, Seconds(w.periodUs))
    ensures var (p, total') := (Seconds(w.periodUs), total + (w.now - s.previous));
            var (s', due') := (Turn(start, s, w), Quotient(total', p));
            && s'.residual == Fmod(total', p) && due' >= due
            && Scheduled(s'.latches) == Scheduled(s.latches) + if due' > due then 1 else 0
  {
    hide Quotient, Times, Fmod, Seconds, Scheduled, Stamp;
    var (p, into) := (Seconds(w.periodUs), s.residual + (w.now - s.previous));
    TurnLatches(start, s, w);
    assert into == total + (w.now - s.previous) - Times(due, p);
    QuotientLess(total + (w.now - s.previous), p, due);
    FmodRange(into, p);
  }

  lemma TurnLatches(start: real, s: Pacer, w: Wake)
    requires w.periodUs > 0
    ensures Scheduled(Turn(start, s, w).latches) == Scheduled(s.latches)
            + if s.residual + (w.now - s.previous) >= Seconds(w.periodUs) then 1 else 0
  {
    hide Fmod, Seconds, Scheduled, Stamp;
    var stamp := Stamp(start, w.now);
    ScheduledSnoc(s.latches, Latch(stamp, true));
    var latches := s.latches + if w.forced then [Latch(stamp, true)] else [];
    assert !w.forced ==> latches == s.latches;
    ScheduledSnoc(latches, Latch(stamp, false));
  }

  /** What a stretch amounts to: the remainder of the time passed, and every conversion due accounted for. */
  predicate Accounted(s: Pacer, wakes: seq<Wake>, p: real, r: Pacer)
    requires p > 0.0
  {
    && Scheduled(r.latches) - Scheduled(s.latches) + Dropped(s, wakes, p) == Due(s, wakes, p)
    && r.residual == Total(s, wakes) - Times(Due(s, wakes, p), p)
    && (wakes != [] ==> r.residual == Fmod(Total(s, wakes), p))
  }

  lemma NothingPassed(s: Pacer, p: real)
    requires p > 0.0
    ensures Accounted(s, [], p, s)
  {
  }

  lemma TurnAccounted(start: real, s: Pacer, wakes: seq<Wake>, n: nat, r: Pacer)
    requires n < |wakes| && wakes[n].periodUs > 0 && Steady(s.previous, wakes)
    requires r.residual >= 0.0 && r.previous == Before(s.previous, wakes, n)
    requires Accounted(s, wakes[..n], Seconds(wakes[n].periodUs), r)
    ensures var (p, r') := (Seconds(wakes[n].periodUs), Turn(start, r, wakes[n]));
            && Accounted(s, wakes[..n + 1], p, r')
            && Scheduled(r'.latches) == Scheduled(r.latches)
               + (if Due(s, wakes[..n + 1], p) > Due(s, wakes[..n], p) then 1 else 0)
            && Due(s, wakes[..n + 1], p) >= Due(s, wakes[..n], p)
  {
    hide Quotient, Times, Fmod, Seconds, Scheduled, Turn;
    var (w, p) := (wakes[n], Seconds(wakes[n].periodUs));
    assert r.previous <= w.now;
    TurnCredits(start, r, w, Total(s, wakes[..n]), Due(s, wakes[..n], p));
    TotalGrows(s, wakes, n);
    DroppedSnoc(s, wakes, n, p);
    FmodIs(Total(s, wakes[..n + 1]), p);
    hide Total, Dropped;
  }

  lemma FmodIs(x: real, p: real)
    requires p > 0.0
    ensures Fmod(x, p) == x - Times(Quotient(x, p), p)
  {
  }

  lemma TotalGrows(s: Pacer, wakes: seq<Wake>, n: nat)
    requires n < |wakes|
    ensures Total(s, wakes[..n + 1]) == Total(s, wakes[..n]) + (wakes[n].now - Before(s.previous, wakes, n))
  {
  }

  lemma DroppedSnoc(s: Pacer, wakes: seq<Wake>, n: nat, p: real)
    requires n < |wakes| && p > 0.0
    ensures var grown := Due(s, wakes[..n + 1], p) - Due(s, wakes[..n], p);
            Dropped(s, wakes[..n + 1], p) == Dropped(s, wakes[..n], p) + if grown > 0 then grown - 1 else 0
  {
    assert wakes[..n + 1][..n] == wakes[..n];
    hide Due;
  }

  lemma {:induction false} RunAccounted(start: real, s: Pacer, wakes: seq<Wake>, periodUs: nat, n: nat)
    requires s.residual >= 0.0 && Steady(s.previous, wakes) && Awake(wakes, periodUs) && periodUs > 0
    requires n <= |wakes|
    ensures var r := Run(start, s, wakes[..n]);
            Accounted(s, wakes[..n], Seconds(periodUs), r) && r.residual >= 0.0
            && r.previous == Before(s.previous, wakes, n)
  {
    hide Accounted, Seconds, Turn;
    SteadyPrefix(s.previous, wakes, n);
    ResidualBelowPeriod(start, s, wakes[..n]);
    PreviousIsLast(start, s, wakes[..n]);
    if n == 0 {
      NothingPassed(s, Seconds(periodUs));
      assert wakes[..n] == [];
    } else {
      RunAccounted(start, s, wakes, periodUs, n - 1);
      assert wakes[n - 1].periodUs == periodUs;
      TurnAccounted(start, s, wakes, n - 1, Run(start, s, wakes[..n - 1]));
      RunSnoc(start, s, wakes, n - 1);
    }
  }

  /**
   Over a stretch with one period, from any state: after every turn the residual is
   the remainder of all the time that has passed, and each conversion that has fallen
   due is either latched or dropped, whatever the lengths of the turns.
   */
  lemma TimeIsConserved(start: real, s: Pacer, wakes: seq<Wake>, periodUs: nat)
    requires s.residual >= 0.0 && Steady(s.previous, wakes) && Awake(wakes, periodUs) && periodUs > 0
    ensures var (p, r) := (Seconds(periodUs), Run(start, s, wakes));
            var latched := Scheduled(r.latches) - Scheduled(s.latches);
            && latched + Dropped(s, wakes, p) == Due(s, wakes, p)
            && Total(s, wakes) == Times(latched + Dropped(s, wakes, p), p) + r.residual
            && (wakes != [] ==> r.residual == Fmod(Total(s, wakes), p))
  {
    RunAccounted(start, s, wakes, periodUs, |wakes|);
    assert wakes[..|wakes|] == wakes;
    hide Run, Scheduled, Dropped, Due, Total, Fmod, Times, Seconds;
  }

  /** A conversion is latched in a turn exactly when another one has fallen due in it. */
  lemma LatchedIffDue(start: real, s: Pacer, wakes: seq<Wake>, periodUs: nat, k: nat)
    requires s.residual >= 0.0 && Steady(s.previous, wakes) && Awake(wakes, periodUs) && periodUs > 0
    requires k < |wakes|
    ensures var p := Seconds(periodUs);
            Scheduled(Run(start, s, wakes[..k + 1]).latches) - Scheduled(Run(start, s, wakes[..k]).latches)
            == if Due(s, wakes[..k + 1], p) > Due(s, wakes[..k], p) then 1 else 0
  {
    RunAccounted(start, s, wakes, periodUs, k);
    RunSnoc(start, s, wakes, k);
    hide Run, Scheduled, Dropped, Due, Total, Fmod, Times, Seconds, Turn, Accounted;
    assert wakes[k].periodUs == periodUs;
    TurnAccounted(start, s, wakes, k, Run(start, s, wakes[..k]));
  }

  /** The time into the period that turn `k` finds. */
  function Found(start: real, s: Pacer, wakes: seq<Wake>, k: nat): real
    requires k < |wakes|
  {
    var r := Run(start, s, wakes[..k]);
    r.residual + (wakes[k].now - r.previous)
  }

  /** A turn brings no second conversion exactly when it finds less than two periods. */
  lemma OneDueIff(start: real, s: Pacer, wakes: seq<Wake>, periodUs: nat, k: nat)
    requires s.residual >= 0.0 && Steady(s.previous, wakes) && Awake(wakes, periodUs) && periodUs > 0
    requires k < |wakes|
    ensures var p := Seconds(periodUs);
            Due(s, wakes[..k + 1], p) <= Due(s, wakes[..k], p) + 1 <==> Found(start, s, wakes, k) < Times(2, p)
  {
    var p := Seconds(periodUs);
    RunAccounted(start, s, wakes, periodUs, k);
    TotalGrows(s, wakes, k);
    var (due, due', total) := (Due(s, wakes[..k], p), Due(s, wakes[..k + 1], p), Total(s, wakes[..k + 1]));
    assert Found(start, s, wakes, k) == total - Times(due, p);
    hide Quotient, Times, Seconds, Run, Total;
    QuotientBounds(total, p);
    TimesAdds(due', 1, p);
    TimesAdds(due, 2, p);
    TimesOrdered(due', due + 2, p);
    TimesOrdered(due + 2, due' + 1, p);
    TimesOrdered(due + 2, due', p);
  }

  /** Nothing is dropped exactly when no turn finds as much as two periods to account for. */
  lemma {:induction false} NothingDroppedIff(start: real, s: Pacer, wakes: seq<Wake>, periodUs: nat, n: nat)
    requires s.residual >= 0.0 && Steady(s.previous, wakes) && Awake(wakes, periodUs) && periodUs > 0
    requires n <= |wakes|
    ensures var p := Seconds(periodUs);
            && Dropped(s, wakes[..n], p) >= 0
            && (Dropped(s, wakes[..n], p) == 0 <==>
                forall k :: 0 <= k < n ==> Found(start, s, wakes, k) < Times(2, p))
  {
    hide Due, Seconds, Dropped, Found, Times;
    if n == 0 {
      NoneDropped(s, Seconds(periodUs));
      assert wakes[..n] == [];
    } else {
      NothingDroppedIff(start, s, wakes, periodUs, n - 1);
      DroppedSnoc(s, wakes, n - 1, Seconds(periodUs));
      OneDueIff(start, s, wakes, periodUs, n - 1);
    }
  }

  lemma NoneDropped(s: Pacer, p: real)
    requires p > 0.0
    ensures Dropped(s, [], p) == 0
  {
  }

  /** A turn no longer than a period finds less than two. */
  lemma PromptTurnFinds(start: real, s: Pacer, wakes: seq<Wake>, periodUs: nat, k: nat)
    requires periodUs > 0 && 0.0 <= s.residual < Seconds(periodUs) && Steady(s.previous, wakes)
    requires Awake(wakes, periodUs) && k < |wakes|
    requires wakes[k].now - Before(s.previous, wakes, k) <= Seconds(periodUs)
    ensures Found(start, s, wakes, k) < Times(2, Seconds(periodUs))
  {
    var p := Seconds(periodUs);
    SteadyPrefix(s.previous, wakes, k);
    ResidualBelowPeriod(start, s, wakes[..k]);
    PreviousIsLast(start, s, wakes[..k]);
    TimesAdds(1, 1, p);
    assert k > 0 ==> wakes[..k][k - 1].periodUs == periodUs;
    assert k == 0 ==> wakes[..k] == [];
    hide Times, Seconds, Turn;
  }

  /** Turns no longer than a period drop nothing: what has fallen due has been latched. */
  lemma PromptTurnsDropNothing(start: real, s: Pacer, wakes: seq<Wake>, periodUs: nat)
    requires periodUs > 0 && 0.0 <= s.residual < Seconds(periodUs) && Steady(s.previous, wakes)
    requires Awake(wakes, periodUs)
    requires forall k :: 0 <= k < |wakes| ==> wakes[k].now - Before(s.previous, wakes, k) <= Seconds(periodUs)
    ensures var p := Seconds(periodUs);
            && Dropped(s, wakes, p) == 0
            && Scheduled(Run(start, s, wakes).latches) - Scheduled(s.latches) == Due(s, wakes, p)
  {
    hide *;
    forall k | 0 <= k < |wakes| ensures Found(start, s, wakes, k) < Times(2, Seconds(periodUs)) {
      PromptTurnFinds(start, s, wakes, periodUs, k);
    }
    NothingDroppedIff(start, s, wakes, periodUs, |wakes|);
    TimeIsConserved(start, s, wakes, periodUs);
    assert wakes[..|wakes|] == wakes;
  }

  // ---------------------------------------------------------------------------
  // Changing periods
  // ---------------------------------------------------------------------------

  /** The whole periods, of its own length, that turn `k` completes; none asleep. */
  function Completed(start: real, s: Pacer, wakes: seq<Wake>, k: nat): int
    requires k < |wakes|
  {
    if wakes[k].periodUs == 0 then 0 else Quotient(Found(start, s, wakes, k), Seconds(wakes[k].periodUs))
  }

  /** Conversions latched on schedule in turn `k`. */
  function LatchedIn(start: real, s: Pacer, wakes: seq<Wake>, k: nat): int
    requires k < |wakes|
  {
    Scheduled(Run(start, s, wakes[..k + 1]).latches) - Scheduled(Run(start, s, wakes[..k]).latches)
  }

  /** What turn `k` takes off the time found: its completed periods, or asleep all of it. */
  function TakenOff(start: real, s: Pacer, wakes: seq<Wake>, k: nat): real
    requires k < |wakes|
  {
    if wakes[k].periodUs == 0 then Found(start, s, wakes, k)
    else Times(Completed(start, s, wakes, k), Seconds(wakes[k].periodUs))
  }

  /** ... over the first `n` turns. */
  function AllTakenOff(start: real, s: Pacer, wakes: seq<Wake>, n: nat): real
    requires n <= |wakes|
  {
    if n == 0 then 0.0 else AllTakenOff(start, s, wakes, n - 1) + TakenOff(start, s, wakes, n - 1)
  }

  lemma TurnTakesOff(start: real, r: Pacer, w: Wake)
    requires r.residual >= 0.0 && r.previous <= w.now
    ensures var (found, r') := (r.residual + (w.now - r.previous), Turn(start, r, w));
            && r'.previous == w.now
            && (if w.periodUs == 0 then r'.residual == 0.0 && Scheduled(r'.latches) == Scheduled(r.latches)
                else
                  var q := Quotient(found, Seconds(w.periodUs));
                  && q >= 0
                  && r'.residual == found - Times(q, Seconds(w.periodUs))
                  && Scheduled(r'.latches) == Scheduled(r.latches) + if q >= 1 then 1 else 0)
  {
    hide Quotient, Times, Fmod, Seconds, Scheduled, Stamp;
    if w.periodUs > 0 {
      var (found, p) := (r.residual + (w.now - r.previous), Seconds(w.periodUs));
      TurnLatches(start, r, w);
      FmodRange(found, p);
      FmodIs(found, p);
      TimesAdds(0, 0, p);
    } else {
      ScheduledSnoc(r.latches, Latch(Stamp(start, w.now), true));
      assert !w.forced ==> Turn(start, r, w).latches == r.latches + [] == r.latches;
    }
  }

  /** At turn `k` of a run. */
  lemma TurnOfRun(start: real, s: Pacer, wakes: seq<Wake>, k: nat)
    requires s.residual >= 0.0 && Steady(s.previous, wakes) && k < |wakes|
    ensures var (r, r') := (Run(start, s, wakes[..k]), Run(start, s, wakes[..k + 1]));
            && r.previous == Before(s.previous, wakes, k) && r'.previous == Before(s.previous, wakes, k + 1)
            && r'.residual == Found(start, s, wakes, k) - TakenOff(start, s, wakes, k)
            && 0 <= LatchedIn(start, s, wakes, k) <= Completed(start, s, wakes, k)
            && (LatchedIn(start, s, wakes, k) == if Completed(start, s, wakes, k) >= 1 then 1 else 0)
  {
    SteadyPrefix(s.previous, wakes, k);
    ResidualBelowPeriod(start, s, wakes[..k]);
    PreviousIsLast(start, s, wakes[..k]);
    RunSnoc(start, s, wakes, k);
    assert Before(s.previous, wakes, k) <= wakes[k].now;
    hide Turn, Run, Scheduled, Quotient, Times, Seconds;
    TurnTakesOff(start, Run(start, s, wakes[..k]), wakes[k]);
  }

  lemma {:induction false} TimeTakenOff(start: real, s: Pacer, wakes: seq<Wake>, n: nat)
    requires s.residual >= 0.0 && Steady(s.previous, wakes) && n <= |wakes|
    ensures Before(s.previous, wakes, n) - s.previous
         == AllTakenOff(start, s, wakes, n) + (Run(start, s, wakes[..n]).residual - s.residual)
  {
    if n == 0 {
      assert wakes[..0] == [];
    } else {
      TimeTakenOff(start, s, wakes, n - 1);
      TurnOfRun(start, s, wakes, n - 1);
      hide Run, TakenOff, LatchedIn, Completed, Times, Quotient, Seconds, Before;
    }
  }

  /**
   Over any run, with changing periods and sleep: of the time passed, each awake turn
   takes off the periods it completes, each of them a conversion latched (at most one)
   or dropped; a turn asleep takes off all it finds; and the rest is the residual's change.
   */
  lemma TimeIsConservedThroughout(start: real, s: Pacer, wakes: seq<Wake>, n: nat)
    requires s.residual >= 0.0 && Steady(s.previous, wakes) && n <= |wakes|
    ensures Before(s.previous, wakes, n) - s.previous
         == AllTakenOff(start, s, wakes, n) + (Run(start, s, wakes[..n]).residual - s.residual)
    ensures forall k :: 0 <= k < n ==>
              var (latched, completed) := (LatchedIn(start, s, wakes, k), Completed(start, s, wakes, k));
              0 <= latched <= completed && (latched == if completed >= 1 then 1 else 0)
  {
    TimeTakenOff(start, s, wakes, n);
    hide *;
    forall k | 0 <= k < n
      ensures var (latched, completed) := (LatchedIn(start, s, wakes, k), Completed(start, s, wakes, k));
              0 <= latched <= completed && (latched == if completed >= 1 then 1 else 0)
    {
      TurnOfRun(start, s, wakes, k);
    }
  }

  // ---------------------------------------------------------------------------
  // What is latched, and when
  // ---------------------------------------------------------------------------

  /** The part's period is in microseconds. */
  lemma PeriodInSeconds(periodUs: nat)
    ensures Seconds(periodUs) * 1000000.0 == periodUs as real
  {
  }

  /**
   What turn `k` latches: a forced conversion if one was asked for, then the scheduled one
   if one is due, both stamped with the whole microseconds from the start to this turn.
   */
  lemma TurnLatchesExactly(start: real, s: Pacer, wakes: seq<Wake>, k: nat) returns (t: int)
    requires s.residual >= 0.0 && Steady(s.previous, wakes) && k < |wakes|
    ensures t as real <= (wakes[k].now - start) * 1000000.0 < (t + 1) as real
    ensures Run(start, s, wakes[..k + 1]).latches ==
            Run(start, s, wakes[..k]).latches
            + (if wakes[k].forced then [Latch(t, true)] else [])
            + (if Completed(start, s, wakes, k) >= 1 then [Latch(t, false)] else [])
  {
    t := Stamp(start, wakes[k].now);
    RunSnoc(start, s, wakes, k);
    DueIffCompleted(start, s, wakes, k);
    hide Run, Quotient, Times, Fmod, Seconds, Completed;
  }

  lemma DueIffCompleted(start: real, s: Pacer, wakes: seq<Wake>, k: nat)
    requires s.residual >= 0.0 && Steady(s.previous, wakes) && k < |wakes|
    ensures Completed(start, s, wakes, k) >= 1 <==>
            var r := Run(start, s, wakes[..k]);
            wakes[k].periodUs > 0 && r.residual + (wakes[k].now - r.previous) >= Seconds(wakes[k].periodUs)
  {
    SteadyPrefix(s.previous, wakes, k);
    ResidualBelowPeriod(start, s, wakes[..k]);
    PreviousIsLast(start, s, wakes[..k]);
    assert Before(s.previous, wakes, k) <= wakes[k].now;
    hide Run, Quotient, Times, Fmod, Seconds;
    if wakes[k].periodUs > 0 {
      FmodRange(Found(start, s, wakes, k), Seconds(wakes[k].periodUs));
    }
  }

  function Forced(latches: seq<Latch>): nat {
    if latches == [] then 0 else Forced(latches[..|latches| - 1]) + if latches[|latches| - 1].forced then 1 else 0
  }

  function ForcedWakes(wakes: seq<Wake>): nat {
    if wakes == [] then 0 else ForcedWakes(wakes[..|wakes| - 1]) + if wakes[|wakes| - 1].forced then 1 else 0
  }

  lemma ForcedSnoc(latches: seq<Latch>, latch: Latch)
    ensures Forced(latches + [latch]) == Forced(latches) + if latch.forced then 1 else 0
  {
    assert (latches + [latch])[..|latches|] == latches;
  }

  lemma TurnForces(start: real, s: Pacer, w: Wake)
    ensures Forced(Turn(start, s, w).latches) == Forced(s.latches) + if w.forced then 1 else 0
  {
    hide Fmod, Seconds, Forced, Stamp;
    var stamp := Stamp(start, w.now);
    ForcedSnoc(s.latches, Latch(stamp, true));
    var latches := s.latches + if w.forced then [Latch(stamp, true)] else [];
    assert !w.forced ==> latches == s.latches;
    ForcedSnoc(latches, Latch(stamp, false));
  }

  /** Every forced conversion is latched, once, awake or asleep, on any run. */
  lemma {:induction false} ForcedAreLatched(start: real, s: Pacer, wakes: seq<Wake>)
    ensures Forced(Run(start, s, wakes).latches) == Forced(s.latches) + ForcedWakes(wakes)
    decreases |wakes|
  {
    if wakes != [] {
      var n := |wakes| - 1;
      hide Turn, Forced;
      ForcedAreLatched(start, s, wakes[..n]);
      TurnForces(start, Run(start, s, wakes[..n]), wakes[n]);
    }
  }
}
