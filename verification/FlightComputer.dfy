/**
 The flight computer's GPS log: `feed_gps` numbers the epochs the receiver reports,
 stamps them from that number and keeps its own account of the outage, and
 `read_gaps` reads the same log back.
 */
module FlightComputer {
  import opened FixTimes
  import opened OutageReader

  datatype FixType = NoFix | Fix2D | Fix3D

  /** What the receiver driver makes of one byte. */
  datatype FeedResult = Incomplete | Fix(fixType: FixType) | ChecksumMismatch | UnsupportedMessage | Malformed

  /** The columns of a logged row that are not measurements. */
  datatype Row = Row(index: nat, nominalTime: real, fixType: nat)

  function FixTypeValue(fixType: FixType): nat {
    match fixType
    case NoFix => 0
    case Fix2D => 1
    case Fix3D => 2
  }

  /** The first and the last outage time on the summary line, -1 before any. */
  datatype Outage = Outage(first: real, last: real)

  // ---------------------------------------------------------------------------
  // What the bytes so far amount to
  // ---------------------------------------------------------------------------

  /** The epochs decoded from the bytes, in order. */
  function Epochs(fed: seq<FeedResult>): seq<FixType> {
    if fed == [] then []
    else
      var last := fed[|fed| - 1];
      Epochs(fed[..|fed| - 1]) + if last.Fix? then [last.fixType] else []
  }

  function Mismatches(fed: seq<FeedResult>): nat {
    if fed == [] then 0
    else Mismatches(fed[..|fed| - 1]) + if fed[|fed| - 1].ChecksumMismatch? then 1 else 0
  }

  /** How many rows carry no measurement. */
  function Count(silent: seq<bool>): nat {
    if silent == [] then 0 else Count(silent[..|silent| - 1]) + if silent[|silent| - 1] then 1 else 0
  }

  /** Which epochs carried no fix. */
  function Lost(epochs: seq<FixType>): (r: seq<bool>)
    ensures |r| == |epochs|
  {
    seq(|epochs|, k requires 0 <= k < |epochs| => epochs[k] == NoFix)
  }

  /** The validity time of epoch `k`, counted from 0. */
  function Stamp(k: nat, period: real): real {
    k as real * period
  }

  /** Every epoch has its row: numbered from 1, stamped one period earlier. */
  function Rows(epochs: seq<FixType>, period: real): (r: seq<Row>)
    ensures |r| == |epochs|
  {
    seq(|epochs|, k requires 0 <= k < |epochs| => Row(k + 1, Stamp(k, period), FixTypeValue(epochs[k])))
  }

  predicate First(silent: seq<bool>, k: nat) {
    k < |silent| && silent[k] && forall j :: 0 <= j < k ==> !silent[j]
  }

  predicate Last(silent: seq<bool>, k: nat) {
    k < |silent| && silent[k] && forall j :: k < j < |silent| ==> !silent[j]
  }

  /**
   The outage on the summary line.  The code takes a negative first time for "none
   yet", so a negative period, which the option parser lets through, makes it forget.
   */
  function OutageOf(first: nat, last: nat, period: real): Outage {
    Outage(Stamp(if period >= 0.0 || first == 0 then first else last, period), Stamp(last, period))
  }

  ghost predicate IsOutage(silent: seq<bool>, period: real, outage: Outage) {
    if forall k :: 0 <= k < |silent| ==> !silent[k] then outage == Outage(-1.0, -1.0)
    else exists first: nat, last: nat ::
           First(silent, first) && Last(silent, last) && outage == OutageOf(first, last, period)
  }

  // ---------------------------------------------------------------------------
  // feed_gps
  // ---------------------------------------------------------------------------

  class GpsLog {
    /** --fix-period */
    const period: real
    var fixCount: nat
    var validFixCount: nat
    var checksumErrors: nat
    var firstOutage: real
    var lastOutage: real
    var rows: seq<Row>

    /** Every byte's result so far. */
    ghost var fed: seq<FeedResult>

    ghost predicate Valid()
      reads this
    {
      var epochs := Epochs(fed);
      && fixCount == |epochs|
      && fixCount == validFixCount + Count(Lost(epochs))
      && checksumErrors == Mismatches(fed)
      && rows == Rows(epochs, period)
      && IsOutage(Lost(epochs), period, Outage(firstOutage, lastOutage))
    }

    constructor (period: real)
      ensures Valid() && fed == [] && this.period == period
    {
      this.period := period;
      fixCount, validFixCount, checksumErrors := 0, 0, 0;
      firstOutage, lastOutage := -1.0, -1.0;
      rows, fed := [], [];
    }

    /** The results of the bytes of one datagram, in order. */
    method FeedGps(results: seq<FeedResult>)
      requires Valid()
      modifies this
      ensures Valid() && fed == old(fed) + results
    {
      for i := 0 to |results|
        invariant Valid() && fed == old(fed) + results[..i]
      {
        assert results[..i + 1] == results[..i] + [results[i]];
        FeedByte(results[i]);
      }
      assert results[..|results|] == results;
    }

    method FeedByte(result: FeedResult)
      requires Valid()
      modifies this
      ensures Valid() && fed == old(fed) + [result]
    {
      FedSnoc(fed, result);
      hide IsOutage, Epochs, Mismatches, Count, Rows, Lost;
      ghost var epochs := Epochs(fed);
      fed := fed + [result];
      if result.Fix? {
        fixCount := fixCount + 1;
        var nominalTime := Stamp(fixCount - 1, period);
        EpochsSnoc(epochs, result.fixType, period);
        OutageSnoc(Lost(epochs), period, Outage(firstOutage, lastOutage), result.fixType == NoFix);
        if result.fixType == NoFix {
          if firstOutage < 0.0 {
            firstOutage := nominalTime;
          }
          lastOutage := nominalTime;
        } else {
          validFixCount := validFixCount + 1;
        }
        rows := rows + [Row(fixCount, nominalTime, FixTypeValue(result.fixType))];
      } else if result.ChecksumMismatch? {
        checksumErrors := checksumErrors + 1;
      }
    }
  }

  /**
   The logged column is the enumeration's value: 0 without a fix, 1 for a horizontal and 2
   for a full position.  Epoch `k`, counted from 0, is row `k`, numbered from 1.
   */
  lemma RowOfEpoch(log: GpsLog, k: nat)
    requires log.Valid() && k < |Epochs(log.fed)|
    ensures k < |log.rows|
    ensures var (row, epoch) := (log.rows[k], Epochs(log.fed)[k]);
            && row.index == k + 1 && row.nominalTime == k as real * log.period
            && (row.fixType == 0 <==> epoch == NoFix)
            && (row.fixType == 1 <==> epoch == Fix2D)
            && (row.fixType == 2 <==> epoch == Fix3D)
  {
    hide Epochs, Mismatches, Count, Lost, IsOutage;
  }

  /** The counts of the summary line, from the fed bytes and the epochs alone. */
  lemma CountsAreExact(log: GpsLog)
    requires log.Valid()
    ensures log.checksumErrors == multiset(log.fed)[ChecksumMismatch]
    ensures log.fixCount == |Epochs(log.fed)|
    ensures log.fixCount - log.validFixCount == multiset(Epochs(log.fed))[NoFix]
  {
    MismatchesCounted(log.fed);
    LossesCounted(Epochs(log.fed));
    hide Epochs, Mismatches, Count, Lost, IsOutage, Rows;
  }

  lemma {:induction false} MismatchesCounted(fed: seq<FeedResult>)
    ensures Mismatches(fed) == multiset(fed)[ChecksumMismatch]
  {
    if fed != [] {
      var n := |fed| - 1;
      MismatchesCounted(fed[..n]);
      assert fed == fed[..n] + [fed[n]];
    }
  }

  lemma {:induction false} LossesCounted(epochs: seq<FixType>)
    ensures Count(Lost(epochs)) == multiset(epochs)[NoFix]
  {
    if epochs != [] {
      var n := |epochs| - 1;
      LossesCounted(epochs[..n]);
      assert epochs == epochs[..n] + [epochs[n]];
      assert Lost(epochs)[..n] == Lost(epochs[..n]);
    }
  }

  lemma FedSnoc(fed: seq<FeedResult>, result: FeedResult)
    ensures Epochs(fed + [result]) == Epochs(fed) + if result.Fix? then [result.fixType] else []
    ensures Mismatches(fed + [result]) == Mismatches(fed) + if result.ChecksumMismatch? then 1 else 0
    ensures !result.Fix? ==> Epochs(fed + [result]) == Epochs(fed)
  {
    assert (fed + [result])[..|fed|] == fed;
  }

  lemma EpochsSnoc(epochs: seq<FixType>, fixType: FixType, period: real)
    ensures Lost(epochs + [fixType]) == Lost(epochs) + [fixType == NoFix]
    ensures Count(Lost(epochs + [fixType])) == Count(Lost(epochs)) + if fixType == NoFix then 1 else 0
    ensures Rows(epochs + [fixType], period)
         == Rows(epochs, period) + [Row(|epochs| + 1, Stamp(|epochs|, period), FixTypeValue(fixType))]
  {
    hide Stamp;
    var lost := Lost(epochs + [fixType]);
    assert lost == Lost(epochs) + [fixType == NoFix];
    assert lost[..|epochs|] == Lost(epochs);
  }

  lemma SignOfStamp(k: nat, period: real)
    ensures Stamp(k, period) < 0.0 <==> k > 0 && period < 0.0
  {
    if k > 0 && period < 0.0 {
      assert k as real * period <= period;
    }
  }

  /** The first lost epoch. */
  lemma OutageBegins(silent: seq<bool>, period: real)
    requires forall k :: 0 <= k < |silent| ==> !silent[k]
    ensures IsOutage(silent + [true], period, Outage(Stamp(|silent|, period), Stamp(|silent|, period)))
  {
    var longer := silent + [true];
    assert longer[|silent|] && First(longer, |silent|) && Last(longer, |silent|);
    hide Stamp;
  }

  /** A later epoch, lost or not. */
  lemma OutageGoesOn(silent: seq<bool>, period: real, now: bool, first: nat, last: nat)
    requires First(silent, first) && Last(silent, last)
    ensures IsOutage(silent + [now], period, OutageOf(first, if now then |silent| else last, period))
  {
    var longer := silent + [now];
    assert longer[first] && First(longer, first) && Last(longer, if now then |silent| else last);
    hide OutageOf;
  }

  lemma OutageSnoc(silent: seq<bool>, period: real, outage: Outage, now: bool)
    requires IsOutage(silent, period, outage)
    ensures var time := Stamp(|silent|, period);
            IsOutage(silent + [now], period,
                     if now then Outage(if outage.first < 0.0 then time else outage.first, time) else outage)
  {
    if forall k :: 0 <= k < |silent| ==> !silent[k] {
      if now {
        OutageBegins(silent, period);
      }
    } else {
      var first: nat, last: nat :|
        First(silent, first) && Last(silent, last) && outage == OutageOf(first, last, period);
      SignOfStamp(first, period);
      SignOfStamp(last, period);
      OutageGoesOn(silent, period, now, first, last);
      hide IsOutage, Stamp;
    }
  }

  /** The flight computer's own account is that of the first and the last lost epoch. */
  lemma OutageIsFirstAndLast(silent: seq<bool>, period: real, outage: Outage, first: nat, last: nat)
    requires IsOutage(silent, period, outage) && First(silent, first) && Last(silent, last)
    ensures outage == OutageOf(first, last, period)
  {
    hide OutageOf;
    assert silent[first];
    var f: nat, l: nat :| First(silent, f) && Last(silent, l) && outage == OutageOf(f, l, period);
    assert silent[f] && silent[l];
    assert f == first && l == last;
  }

  // ---------------------------------------------------------------------------
  // The log read back
  // ---------------------------------------------------------------------------

  /** The reader's view of the rows. */
  function Records(rows: seq<Row>): (r: seq<Record>)
    ensures |r| == |rows|
  {
    seq(|rows|, k requires 0 <= k < |rows| =>
      Record(rows[k].index as real, rows[k].nominalTime, rows[k].fixType as real))
  }

  /** The reader leaves the writer's stamps alone. */
  lemma StampsAreKept(epochs: seq<FixType>, period: real)
    ensures var times := Times(Records(Rows(epochs, period)), true);
            |times| == |epochs| && forall k :: 0 <= k < |epochs| ==> times[k] == Stamp(k, period)
  {
    var records := Records(Rows(epochs, period));
    var index := seq(|records|, i requires 0 <= i < |records| => records[i].index);
    var stamp := seq(|records|, i requires 0 <= i < |records| => records[i].time);
    assert Times(records, true) == FixValidityTimes(index, stamp);
    hide Times, FixValidityTimes, Stamp;
    forall k | 0 <= k < |index|
      ensures index[k] == (k + 1) as real && stamp[k] == Stamp(k, period)
      ensures stamp[k] == (index[k] - 1.0 + 0 as real) * period
    {
      StampOfIndex(k, period);
    }
    if |index| < 2 {
      NothingToNormalise(index, stamp);
    } else {
      if period > 0.0 {
        ConventionIndependent(index, stamp, 0, period);
      } else {
        Unpaced(index, stamp, period);
      }
    }
  }

  lemma StampOfIndex(k: nat, period: real)
    ensures ((k + 1) as real - 1.0 + 0 as real) * period == Stamp(k, period)
  {
  }

  lemma NothingToNormalise(index: seq<real>, stamp: seq<real>)
    requires |index| == |stamp| < 2
    ensures FixValidityTimes(index, stamp) == stamp
  {
  }

  /** With a period that is not positive no convention is looked for. */
  lemma Unpaced(index: seq<real>, stamp: seq<real>, period: real)
    requires |index| == |stamp| >= 2 && period <= 0.0
    requires forall k :: 0 <= k < |index| ==> index[k] == (k + 1) as real && stamp[k] == Stamp(k, period)
    ensures FixValidityTimes(index, stamp) == stamp
  {
    var last := |index| - 1;
    assert stamp[last] - stamp[0] == period * last as real && index[last] - index[0] == last as real;
    Quotient(period, last as real);
  }

  lemma Quotient(x: real, n: real)
    requires n != 0.0
    ensures x * n / n == x
  {
  }

  /** One step of the log; the reader has a default for a single row. */
  function LogStep(rows: nat, period: real): real {
    if rows < 2 then 0.1 else period
  }

  lemma StepIsPeriod(times: seq<real>, period: real)
    requires forall k :: 0 <= k < |times| ==> times[k] == Stamp(k, period)
    ensures MinStep(times) == LogStep(|times|, period)
  {
    forall k | 0 <= k < |times| - 1 ensures Gap(times, k) == period {
      assert (k + 1) as real * period == k as real * period + period;
    }
    hide MinStep;
  }

  lemma LostIsSilent(epochs: seq<FixType>, period: real)
    ensures Silent(Records(Rows(epochs, period))) == Lost(epochs)
  {
  }

  /** The windows read back are the maximal runs of lost epochs, in the writer's times. */
  lemma GapsOfLog(epochs: seq<FixType>, period: real)
    ensures var (gaps, runs) := (Gaps(Records(Rows(epochs, period)), true), RunsOf(Lost(epochs)));
            && AreRuns(Lost(epochs), runs)
            && |gaps| == |runs|
            && forall i :: 0 <= i < |runs| ==>
                 gaps[i] == Window(Stamp(runs[i].first, period),
                                   Stamp(runs[i].last, period) + LogStep(|epochs|, period))
  {
    var records := Records(Rows(epochs, period));
    LostIsSilent(epochs, period);
    StampsAreKept(epochs, period);
    StepIsPeriod(Times(records, true), period);
    RunsOfAreRuns(Lost(epochs));
    RunsFit(Lost(epochs));
    hide Times, MinStep, RunsOf, AreRuns, Lost, Rows, Stamp;
  }

  /** The first run opens with the first lost epoch, the last one ends with the last. */
  lemma RunsReachFirstAndLast(silent: seq<bool>, runs: seq<Run>, first: nat, last: nat)
    requires AreRuns(silent, runs) && First(silent, first) && Last(silent, last)
    ensures runs != [] && runs[0].first == first && runs[|runs| - 1].last == last
  {
    assert Covers(runs, first) && Covers(runs, last);
    var i :| 0 <= i < |runs| && runs[i].first <= first <= runs[i].last;
    var j :| 0 <= j < |runs| && runs[j].first <= last <= runs[j].last;
    assert Maximal(silent, runs[0]) && Maximal(silent, runs[|runs| - 1]);
    assert Maximal(silent, runs[i]) && Maximal(silent, runs[j]);
    assert silent[runs[0].first] && silent[runs[|runs| - 1].last];
  }

  lemma {:induction false} FirstLost(silent: seq<bool>, k: nat) returns (first: nat)
    requires k < |silent| && silent[k]
    ensures First(silent, first)
    decreases k
  {
    first := k;
    if j: nat :| j < k && silent[j] {
      first := FirstLost(silent, j);
    }
  }

  lemma {:induction false} LastLost(silent: seq<bool>, k: nat) returns (last: nat)
    requires k < |silent| && silent[k]
    ensures Last(silent, last)
    decreases |silent| - k
  {
    last := k;
    if j: nat :| k < j < |silent| && silent[j] {
      last := LastLost(silent, j);
    }
  }

  /**
   Writer and reader agree: the reader finds a window exactly when an epoch was lost,
   and the last one ends one step after the flight computer's last outage time.  The
   first one starts at its first outage time exactly when the period is not negative,
   or the first epoch of all was lost, or only one was.
   */
  lemma ReaderAgreesWithWriter(epochs: seq<FixType>, period: real, outage: Outage, lost: nat)
    returns (first: nat, last: nat)
    requires IsOutage(Lost(epochs), period, outage)
    requires lost < |epochs| && epochs[lost] == NoFix
    ensures First(Lost(epochs), first) && Last(Lost(epochs), last)
    ensures var gaps := Gaps(Records(Rows(epochs, period)), true);
            && gaps != []
            && gaps[|gaps| - 1].end == outage.last + LogStep(|epochs|, period)
            && (gaps[0].start == outage.first <==> period >= 0.0 || first == 0 || first == last)
  {
    first := FirstLost(Lost(epochs), lost);
    last := LastLost(Lost(epochs), lost);
    OutageIsFirstAndLast(Lost(epochs), period, outage, first, last);
    GapsOfLog(epochs, period);
    RunsReachFirstAndLast(Lost(epochs), RunsOf(Lost(epochs)), first, last);
    hide RunsOf, AreRuns, Gaps, Rows, First, Last, IsOutage, Stamp;
    DistinctStamps(first, last, period);
  }

  /**
   A negative period and a first fix: the flight computer forgets the first of two lost
   epochs, the reader does not.
   */
  lemma NegativePeriodForgets()
    ensures var (epochs, outage) := ([Fix3D, NoFix, NoFix], Outage(-0.2, -0.2));
            var gaps := Gaps(Records(Rows(epochs, -0.1)), true);
            IsOutage(Lost(epochs), -0.1, outage) && gaps != [] && gaps[0].start != outage.first
  {
    var (epochs, outage) := ([Fix3D, NoFix, NoFix], Outage(-0.2, -0.2));
    assert Lost(epochs) == [false, true, true];
    assert Lost(epochs)[1] && First(Lost(epochs), 1) && Last(Lost(epochs), 2) && outage == OutageOf(1, 2, -0.1);
    assert IsOutage(Lost(epochs), -0.1, outage);
    var first, last := ReaderAgreesWithWriter(epochs, -0.1, outage, 1);
    hide Gaps, IsOutage;
  }

  lemma DistinctStamps(j: nat, k: nat, period: real)
    ensures Stamp(j, period) == Stamp(k, period) <==> j == k || period == 0.0
  {
    assert (j as real - k as real) * period == Stamp(j, period) - Stamp(k, period);
  }

  /** A window is read back exactly when an epoch was lost. */
  lemma WindowIffLost(epochs: seq<FixType>, period: real)
    ensures Gaps(Records(Rows(epochs, period)), true) != [] <==> NoFix in epochs
  {
    GapsOfLog(epochs, period);
    var (lost, runs) := (Lost(epochs), RunsOf(Lost(epochs)));
    hide RunsOf, Gaps, Rows;
    if runs != [] {
      assert Maximal(lost, runs[0]);
      assert lost[runs[0].first];
    }
    if k :| 0 <= k < |epochs| && epochs[k] == NoFix {
      assert lost[k] && Covers(runs, k);
    }
  }

  // ---------------------------------------------------------------------------
  // Outage time is conserved
  // ---------------------------------------------------------------------------

  function Covered(runs: seq<Run>): int {
    if runs == [] then 0
    else Covered(runs[..|runs| - 1]) + runs[|runs| - 1].last - runs[|runs| - 1].first + 1
  }

  lemma CoveredSnoc(runs: seq<Run>, r: Run)
    ensures Covered(runs + [r]) == Covered(runs) + r.last - r.first + 1
  {
    assert (runs + [r])[..|runs|] == runs;
  }

  lemma NextCovers(silent: seq<bool>, runs: seq<Run>, now: bool)
    requires AreRuns(silent, runs)
    ensures Covered(NextRuns(silent, runs, now)) == Covered(runs) + if now then 1 else 0
  {
    var n := |silent|;
    if now && silent != [] && silent[n - 1] {
      LastRun(silent, runs);
      CoveredSnoc(runs[..|runs| - 1], Run(runs[|runs| - 1].first, n));
    } else if now {
      CoveredSnoc(runs, Run(n, n));
    }
    hide AreRuns;
  }

  lemma {:induction false} RunsCoverTheCount(silent: seq<bool>)
    ensures Covered(RunsOf(silent)) == Count(silent)
  {
    if silent != [] {
      hide AreRuns, Covered, NextRuns;
      var before := silent[..|silent| - 1];
      RunsCoverTheCount(before);
      RunsOfAreRuns(before);
      NextCovers(before, RunsOf(before), silent[|silent| - 1]);
    }
  }

  function Length(windows: seq<Window>): real {
    if windows == [] then 0.0
    else Length(windows[..|windows| - 1]) + (windows[|windows| - 1].end - windows[|windows| - 1].start)
  }

  lemma {:induction false} LengthOfRuns(windows: seq<Window>, runs: seq<Run>, period: real)
    requires |windows| == |runs|
    requires forall i :: 0 <= i < |runs| ==>
               windows[i] == Window(Stamp(runs[i].first, period), Stamp(runs[i].last, period) + period)
    ensures Length(windows) == Covered(runs) as real * period
    decreases |runs|
  {
    if runs != [] {
      var n := |runs| - 1;
      LengthOfRuns(windows[..n], runs[..n], period);
      var (first, last) := (runs[n].first as real, runs[n].last as real);
      assert last * period + period - first * period == (last - first + 1.0) * period;
      var rest := Covered(runs[..n]) as real;
      assert rest * period + (last - first + 1.0) * period == (rest + last - first + 1.0) * period;
    }
  }

  /** The windows are as long together as the lost epochs: nothing is merged twice or left out. */
  lemma OutageTimeIsConserved(epochs: seq<FixType>, period: real)
    requires |epochs| >= 2
    ensures Length(Gaps(Records(Rows(epochs, period)), true)) == Count(Lost(epochs)) as real * period
  {
    GapsOfLog(epochs, period);
    RunsCoverTheCount(Lost(epochs));
    hide RunsOf, AreRuns, Gaps, Rows, Count, Lost;
    LengthOfRuns(Gaps(Records(Rows(epochs, period)), true), RunsOf(Lost(epochs)), period);
  }

  lemma {:induction false} CountedIffLost(silent: seq<bool>)
    ensures Count(silent) > 0 <==> exists k :: 0 <= k < |silent| && silent[k]
  {
    if silent != [] {
      var before := silent[..|silent| - 1];
      CountedIffLost(before);
      assert forall k :: 0 <= k < |before| ==> before[k] == silent[k];
    }
  }

  lemma LossIsCounted(epochs: seq<FixType>)
    ensures Count(Lost(epochs)) > 0 <==> NoFix in epochs
  {
    CountedIffLost(Lost(epochs));
    hide Count;
    if k :| 0 <= k < |epochs| && epochs[k] == NoFix {
      assert Lost(epochs)[k];
    }
  }

  lemma WindowTimesAgree(epochs: seq<FixType>, period: real, outage: Outage)
    requires NoFix in epochs && IsOutage(Lost(epochs), period, outage)
    ensures var gaps := Gaps(Records(Rows(epochs, period)), true);
            && gaps != []
            && gaps[|gaps| - 1].end == outage.last + LogStep(|epochs|, period)
            && (period >= 0.0 ==> gaps[0].start == outage.first)
  {
    var k :| 0 <= k < |epochs| && epochs[k] == NoFix;
    hide Gaps, Rows, Lost, IsOutage, First, Last;
    var first, last := ReaderAgreesWithWriter(epochs, period, outage, k);
  }

  /**
   The summary line against the log it was printed beside: epochs without a fix are
   counted exactly when the reader finds a window, the window times are the reader's,
   and the counted epochs last as long as the windows together.
   */
  lemma SummaryAgreesWithReader(log: GpsLog)
    requires log.Valid()
    ensures var gaps := Gaps(Records(log.rows), true);
            && (gaps != [] <==> log.validFixCount < log.fixCount)
            && (gaps != [] ==>
                  && gaps[|gaps| - 1].end == log.lastOutage + LogStep(log.fixCount, log.period)
                  && (log.period >= 0.0 ==> gaps[0].start == log.firstOutage))
            && (log.fixCount >= 2 ==> Length(gaps) == (log.fixCount - log.validFixCount) as real * log.period)
  {
    hide Gaps, Rows, Lost, Records, Count, Epochs, Length, LogStep, Mismatches, IsOutage;
    var epochs := Epochs(log.fed);
    WindowIffLost(epochs, log.period);
    LossIsCounted(epochs);
    if log.fixCount >= 2 {
      OutageTimeIsConserved(epochs, log.period);
    }
    if NoFix in epochs {
      WindowTimesAgree(epochs, log.period, Outage(log.firstOutage, log.lastOutage));
    }
  }
}
