/**
 `fix_validity_times`: the validity times of GPS fixes from their epoch indices and
 stamps, whichever of two conventions wrote the stamps. Arithmetic is exact.
 */
module FixTimes {

  /** Python's round: to the nearest integer, a tie to the even one. */
  function Round(x: real): int {
    var below := x.Floor;
    var over := x - below as real;
    if over < 0.5 then below
    else if over > 0.5 then below + 1
    else if below % 2 == 0 then below
    else below + 1
  }

  function Period(index: seq<real>, stamp: seq<real>): real
    requires 2 <= |index| == |stamp| && index[|index| - 1] != index[0]
  {
    (stamp[|stamp| - 1] - stamp[0]) / (index[|index| - 1] - index[0])
  }

  /** The log shows a period; otherwise its stamps are kept. */
  predicate Paced(index: seq<real>, stamp: seq<real>)
    requires |index| == |stamp|
  {
    |index| >= 2 && index[|index| - 1] != index[0] && Period(index, stamp) > 0.0
  }

  /** How many periods late the first stamp is. */
  function Lateness(index: seq<real>, stamp: seq<real>): real
    requires |index| == |stamp| && Paced(index, stamp)
  {
    var period := Period(index, stamp);
    (stamp[0] - (index[0] - 1.0) * period) / period
  }

  /** Stamps `n` periods earlier. */
  function Earlier(stamp: seq<real>, n: int, period: real): (r: seq<real>)
    ensures |r| == |stamp|
  {
    seq(|stamp|, i requires 0 <= i < |stamp| => stamp[i] - n as real * period)
  }

  function FixValidityTimes(index: seq<real>, stamp: seq<real>): (r: seq<real>)
    requires |index| == |stamp|
    ensures |r| == |stamp|
  {
    if Paced(index, stamp) then Earlier(stamp, Round(Lateness(index, stamp)), Period(index, stamp)) else stamp
  }

  // ---------------------------------------------------------------------------
  // Rounding
  // ---------------------------------------------------------------------------

  predicate Tie(x: real) {
    x - x.Floor as real == 0.5
  }

  predicate Even(n: int) {
    n % 2 == 0
  }

  lemma FloorMoved(x: real, n: int)
    ensures (x + n as real).Floor == x.Floor + n
  {
  }

  /** Rounding commutes with adding an integer, except that an odd one turns a tie around. */
  lemma RoundMovedIff(x: real, n: int)
    ensures Round(x + n as real) == Round(x) + n <==> (Tie(x) ==> Even(n))
  {
    FloorMoved(x, n);
  }

  /** What is left after rounding rounds to nothing, ties included. */
  lemma RoundSettles(x: real)
    ensures Round(x - Round(x) as real) == 0
  {
    var n := Round(x);
    FloorMoved(x, -n);
    assert x - n as real == x + (-n) as real;
  }

  // ---------------------------------------------------------------------------
  // Shifting a log
  // ---------------------------------------------------------------------------

  lemma Divided(a: real, n: real, p: real)
    requires p != 0.0
    ensures (a - n * p) / p == a / p - n
  {
    var q := a / p;
    assert a == q * p;
    assert a - n * p == (q - n) * p;
  }

  /** A shift by whole periods keeps the period and takes that much from the lateness. */
  lemma EarlierLog(index: seq<real>, stamp: seq<real>, n: int)
    requires |index| == |stamp| && Paced(index, stamp)
    ensures var shifted := Earlier(stamp, n, Period(index, stamp));
            && Paced(index, shifted)
            && Period(index, shifted) == Period(index, stamp)
            && Lateness(index, shifted) == Lateness(index, stamp) - n as real
  {
    var p := Period(index, stamp);
    var shifted := Earlier(stamp, n, p);
    assert shifted[|index| - 1] - shifted[0] == stamp[|index| - 1] - stamp[0];
    var first := stamp[0] - (index[0] - 1.0) * p;
    assert shifted[0] - (index[0] - 1.0) * p == first - n as real * p;
    Divided(first, n as real, p);
  }

  /** Normalising twice is normalising once, on every log. */
  lemma Idempotent(index: seq<real>, stamp: seq<real>)
    requires |index| == |stamp|
    ensures FixValidityTimes(index, FixValidityTimes(index, stamp)) == FixValidityTimes(index, stamp)
  {
    if Paced(index, stamp) {
      var late := Lateness(index, stamp);
      EarlierLog(index, stamp, Round(late));
      RoundSettles(late);
      hide Paced, Period, Lateness, Round;
      var once := FixValidityTimes(index, stamp);
      assert Earlier(once, 0, Period(index, stamp)) == once;
    }
  }

  /**
   Whole periods do not show in the result, whatever the log, except that an odd
   number of them does when the first stamp lies midway between two epochs.
   */
  lemma ShiftsDisappearIff(index: seq<real>, stamp: seq<real>, n: int)
    requires |index| == |stamp| && Paced(index, stamp)
    ensures FixValidityTimes(index, Earlier(stamp, -n, Period(index, stamp))) == FixValidityTimes(index, stamp)
            <==> (Tie(Lateness(index, stamp)) ==> Even(n))
  {
    var (p, late) := (Period(index, stamp), Lateness(index, stamp));
    var later := Earlier(stamp, -n, p);
    EarlierLog(index, stamp, -n);
    assert late - (-n) as real == late + n as real;
    RoundMovedIff(late, n);
    assert |stamp| >= 2 && p > 0.0;
    var (a, b) := (Round(late + n as real), Round(late));
    hide Paced, Period, Lateness, Round, Tie;
    assert FixValidityTimes(index, later) == Earlier(later, a, p);
    ShiftedTwice(stamp, n, a, b, p);
  }

  lemma ShiftedTwice(stamp: seq<real>, n: int, a: int, b: int, p: real)
    requires stamp != [] && p > 0.0
    ensures Earlier(Earlier(stamp, -n, p), a, p) == Earlier(stamp, b, p) <==> a == b + n
  {
    var (left, right) := (Earlier(Earlier(stamp, -n, p), a, p), Earlier(stamp, b, p));
    forall i | 0 <= i < |stamp| ensures left[i] - right[i] == (b + n - a) as real * p {
      assert left[i] == stamp[i] - (-n) as real * p - a as real * p;
    }
    if left == right {
      assert left[0] - right[0] == (b + n - a) as real * p == 0.0;
    }
  }

  /** Stamped from the index, `convention` periods after the validity time. */
  predicate Stamped(index: seq<real>, stamp: seq<real>, convention: int, period: real) {
    && |index| == |stamp|
    && forall k :: 0 <= k < |index| ==> stamp[k] == (index[k] - 1.0 + convention as real) * period
  }

  lemma StampedLog(index: seq<real>, stamp: seq<real>, convention: int, period: real)
    requires Stamped(index, stamp, convention, period) && period > 0.0
    requires |index| >= 2 && index[|index| - 1] != index[0]
    ensures Paced(index, stamp) && Period(index, stamp) == period
    ensures Lateness(index, stamp) == convention as real
  {
    var (i, j, c) := (index[0], index[|index| - 1], convention as real);
    assert (j - 1.0 + c) * period - (i - 1.0 + c) * period == period * (j - i);
    assert period * (j - i) / (j - i) == period;
    assert (i - 1.0 + c) * period - (i - 1.0) * period == c * period;
    assert c * period / period == c;
  }

  /**
   The result is the validity time itself, whichever convention wrote the log and
   whichever epochs it lost.
   */
  lemma ConventionIndependent(index: seq<real>, stamp: seq<real>, convention: int, period: real)
    requires Stamped(index, stamp, convention, period) && period > 0.0
    requires |index| >= 2 && index[|index| - 1] != index[0]
    ensures forall k :: 0 <= k < |index| ==> FixValidityTimes(index, stamp)[k] == (index[k] - 1.0) * period
  {
    StampedLog(index, stamp, convention, period);
    assert Round(convention as real) == convention;
    hide Paced, Period, Lateness, Round;
    forall k | 0 <= k < |index| ensures FixValidityTimes(index, stamp)[k] == (index[k] - 1.0) * period {
      assert (index[k] - 1.0 + convention as real) * period - convention as real * period == (index[k] - 1.0) * period;
    }
  }

  // ---------------------------------------------------------------------------
  // What the result is, on any log
  // ---------------------------------------------------------------------------

  /** Rounding goes to the nearest integer, and from midway between two to the even one. */
  lemma RoundIsNearest(x: real)
    ensures -0.5 <= x - Round(x) as real <= 0.5
    ensures x - Round(x) as real in {-0.5, 0.5} ==> Even(Round(x))
  {
  }

  /** The stamps `n` periods earlier, counting epochs from the period `p`: how late the first then is. */
  function Left(index: seq<real>, stamp: seq<real>, p: real, n: int): real
    requires 0 < |index| == |stamp|
  {
    stamp[0] - n as real * p - (index[0] - 1.0) * p
  }

  /**
   On any log of at least two epochs whose stamps rise with their indices, the mean step
   between the first and the last epoch is taken off the stamps a whole number of times,
   so often that the first one is at most half a step early or late; midway, an even number.
   */
  lemma NormalisedToTheNearest(index: seq<real>, stamp: seq<real>, p: real) returns (n: int)
    requires |index| == |stamp| >= 2 && index[|index| - 1] != index[0]
    requires p == (stamp[|stamp| - 1] - stamp[0]) / (index[|index| - 1] - index[0]) && p > 0.0
    ensures forall k :: 0 <= k < |stamp| ==> FixValidityTimes(index, stamp)[k] == stamp[k] - n as real * p
    ensures -0.5 * p <= Left(index, stamp, p, n) <= 0.5 * p
    ensures Left(index, stamp, p, n) in {-0.5 * p, 0.5 * p} ==> Even(n)
  {
    var late := Lateness(index, stamp);
    n := Round(late);
    RoundIsNearest(late);
    var first := stamp[0] - (index[0] - 1.0) * p;
    assert late * p == first;
    hide Round, Even;
    Fraction(first, late, n as real, p);
  }

  lemma Fraction(first: real, late: real, n: real, p: real)
    requires p > 0.0 && late * p == first
    ensures -0.5 <= late - n <= 0.5 ==> -0.5 * p <= first - n * p <= 0.5 * p
    ensures first - n * p == -0.5 * p ==> late - n == -0.5
    ensures first - n * p == 0.5 * p ==> late - n == 0.5
  {
    var d := late - n;
    assert d * p == first - n * p;
    assert (d + 0.5) * p == d * p + 0.5 * p && (0.5 - d) * p == 0.5 * p - d * p;
    SignTimes(d + 0.5, p);
    SignTimes(0.5 - d, p);
  }

  lemma SignTimes(x: real, p: real)
    requires p > 0.0
    ensures x >= 0.0 ==> x * p >= 0.0
    ensures x * p == 0.0 ==> x == 0.0
  {
  }

  /** Any other log is left alone. */
  lemma KeptWithoutAPeriod(index: seq<real>, stamp: seq<real>)
    requires |index| == |stamp|
    requires |index| >= 2 && index[|index| - 1] != index[0] ==>
               (stamp[|stamp| - 1] - stamp[0]) / (index[|index| - 1] - index[0]) <= 0.0
    ensures FixValidityTimes(index, stamp) == stamp
  {
  }
}
