/**
 `read_gaps`: the windows in which a sensor log carries no usable measurement.
 */
module OutageReader {
  import opened FixTimes

  /** What the reader takes from a row: its epoch index, its time, and the fix or validity flag. */
  datatype Record = Record(index: real, time: real, flag: real)

  datatype Window = Window(start: real, end: real)

  datatype Option<T> = None | Some(value: T)

  function Silent(records: seq<Record>): (r: seq<bool>)
    ensures |r| == |records|
  {
    seq(|records|, i requires 0 <= i < |records| => records[i].flag <= 0.0)
  }

  /** The time of each row; a log with epoch indices has its convention normalised. */
  function Times(records: seq<Record>, indexed: bool): (r: seq<real>)
    ensures |r| == |records|
  {
    var times := seq(|records|, i requires 0 <= i < |records| => records[i].time);
    if indexed then
      FixValidityTimes(seq(|records|, i requires 0 <= i < |records| => records[i].index), times)
    else times
  }

  function Gap(times: seq<real>, k: nat): real
    requires k + 1 < |times|
  {
    times[k + 1] - times[k]
  }

  /** The smallest step between neighbouring times; a single row has none and gets 0.1. */
  function MinStep(times: seq<real>): (step: real)
    ensures |times| < 2 ==> step == 0.1
    ensures forall k :: 0 <= k < |times| - 1 ==> step <= Gap(times, k)
    ensures |times| >= 2 ==> exists k :: 0 <= k < |times| - 1 && step == Gap(times, k)
  {
    if |times| < 2 then 0.1
    else
      var n := |times| - 1;
      var step := Gap(times, n - 1);
      if n == 1 then step
      else
        var before := MinStep(times[..n]);
        assert forall k :: 0 <= k < n - 1 ==> Gap(times[..n], k) == Gap(times, k);
        if step < before then step else before
  }

  // ---------------------------------------------------------------------------
  // Maximal runs
  // ---------------------------------------------------------------------------

  /** Rows `first` to `last`. */
  datatype Run = Run(first: nat, last: nat)

  predicate Maximal(silent: seq<bool>, r: Run) {
    && r.first <= r.last < |silent|
    && (forall k :: r.first <= k <= r.last ==> silent[k])
    && (r.first > 0 ==> !silent[r.first - 1])
    && (r.last + 1 < |silent| ==> !silent[r.last + 1])
  }

  predicate Covers(runs: seq<Run>, k: nat) {
    exists i :: 0 <= i < |runs| && runs[i].first <= k <= runs[i].last
  }

  /** One run for every maximal stretch of silence, in order. */
  predicate AreRuns(silent: seq<bool>, runs: seq<Run>) {
    && (forall i :: 0 <= i < |runs| ==> Maximal(silent, runs[i]))
    && (forall i, j :: 0 <= i < j < |runs| ==> runs[i].last + 1 < runs[j].first)
    && (forall k :: 0 <= k < |silent| && silent[k] ==> Covers(runs, k))
  }

  function NextRuns(silent: seq<bool>, runs: seq<Run>, now: bool): seq<Run> {
    if !now then runs
    else if silent != [] && silent[|silent| - 1] && runs != []
    then runs[..|runs| - 1] + [Run(runs[|runs| - 1].first, |silent|)]
    else runs + [Run(|silent|, |silent|)]
  }

  function RunsOf(silent: seq<bool>): seq<Run> {
    if silent == [] then []
    else
      var before := silent[..|silent| - 1];
      NextRuns(before, RunsOf(before), silent[|silent| - 1])
  }

  /** A log that ends in silence ends with its last run. */
  lemma LastRun(silent: seq<bool>, runs: seq<Run>)
    requires AreRuns(silent, runs) && silent != [] && silent[|silent| - 1]
    ensures runs != [] && runs[|runs| - 1].last == |silent| - 1
  {
    assert Covers(runs, |silent| - 1);
    var i :| 0 <= i < |runs| && runs[i].first <= |silent| - 1 <= runs[i].last;
    assert Maximal(silent, runs[i]) && Maximal(silent, runs[|runs| - 1]);
  }

  /** A run that does not reach the end stays maximal. */
  lemma MaximalStays(silent: seq<bool>, r: Run, now: bool)
    requires Maximal(silent, r) && (r.last + 1 == |silent| ==> !now)
    ensures Maximal(silent + [now], r)
  {
  }

  lemma AfterFix(silent: seq<bool>, runs: seq<Run>)
    requires AreRuns(silent, runs)
    ensures AreRuns(silent + [false], runs)
  {
    forall i | 0 <= i < |runs| ensures Maximal(silent + [false], runs[i]) {
      MaximalStays(silent, runs[i], false);
    }
    hide Maximal, Covers;
  }

  lemma RunOpens(silent: seq<bool>, runs: seq<Run>)
    requires AreRuns(silent, runs) && (silent != [] ==> !silent[|silent| - 1])
    ensures AreRuns(silent + [true], runs + [Run(|silent|, |silent|)])
  {
    var (longer, next) := (silent + [true], runs + [Run(|silent|, |silent|)]);
    forall i | 0 <= i < |next|
      ensures Maximal(longer, next[i]) && (i < |runs| ==> next[i].last + 1 < |silent|)
    {
      if i < |runs| {
        assert Maximal(silent, runs[i]);
        MaximalStays(silent, runs[i], true);
      }
    }
    forall k | 0 <= k < |longer| && longer[k] ensures Covers(next, k) {
      if k < |silent| {
        assert Covers(runs, k);
        var i :| 0 <= i < |runs| && runs[i].first <= k <= runs[i].last;
        assert next[i] == runs[i];
      } else {
        assert next[|runs|].first <= k;
      }
    }
  }

  lemma RunGrows(silent: seq<bool>, runs: seq<Run>)
    requires AreRuns(silent, runs) && silent != [] && silent[|silent| - 1]
    requires runs != [] && runs[|runs| - 1].last == |silent| - 1
    ensures AreRuns(silent + [true], runs[..|runs| - 1] + [Run(runs[|runs| - 1].first, |silent|)])
  {
    var n := |runs| - 1;
    var (longer, next) := (silent + [true], runs[..n] + [Run(runs[n].first, |silent|)]);
    assert Maximal(silent, runs[n]);
    forall i | 0 <= i < |next| ensures Maximal(longer, next[i]) {
      if i < n {
        assert next[i] == runs[i] && Maximal(silent, runs[i]) && runs[i].last + 1 < runs[n].first;
        MaximalStays(silent, runs[i], true);
      }
    }
    forall i, j | 0 <= i < j < |next| ensures next[i].last + 1 < next[j].first {
      assert next[i] == runs[i] && next[j].first == runs[j].first;
    }
    forall k | 0 <= k < |longer| && longer[k] ensures Covers(next, k) {
      assert k < |silent| ==> Covers(runs, k);
      GrownCovers(runs, |silent|, k);
    }
    hide Covers;
  }

  lemma GrownCovers(runs: seq<Run>, end: nat, k: nat)
    requires runs != [] && runs[|runs| - 1].first <= runs[|runs| - 1].last < end
    requires k <= end && (k < end ==> Covers(runs, k))
    ensures Covers(runs[..|runs| - 1] + [Run(runs[|runs| - 1].first, end)], k)
  {
    var n := |runs| - 1;
    var next := runs[..n] + [Run(runs[n].first, end)];
    if k < end {
      var i :| 0 <= i < |runs| && runs[i].first <= k <= runs[i].last;
      assert next[i].first <= k <= next[i].last;
    } else {
      assert next[n].first <= k <= next[n].last;
    }
  }

  lemma NextAreRuns(silent: seq<bool>, runs: seq<Run>, now: bool)
    requires AreRuns(silent, runs)
    ensures AreRuns(silent + [now], NextRuns(silent, runs, now))
  {
    hide AreRuns;
    if !now {
      AfterFix(silent, runs);
    } else if silent != [] && silent[|silent| - 1] {
      LastRun(silent, runs);
      RunGrows(silent, runs);
    } else {
      RunOpens(silent, runs);
    }
  }

  lemma {:induction false} RunsOfAreRuns(silent: seq<bool>)
    ensures AreRuns(silent, RunsOf(silent))
  {
    if silent != [] {
      var before := silent[..|silent| - 1];
      RunsOfAreRuns(before);
      NextAreRuns(before, RunsOf(before), silent[|silent| - 1]);
      assert before + [silent[|silent| - 1]] == silent;
    }
  }

  lemma MaximalMeet(silent: seq<bool>, r: Run, s: Run, k: nat)
    requires Maximal(silent, r) && Maximal(silent, s)
    requires r.first <= k <= r.last && s.first <= k <= s.last
    ensures r == s
  {
  }

  lemma SameRunAt(silent: seq<bool>, a: seq<Run>, b: seq<Run>, i: nat)
    requires AreRuns(silent, a) && AreRuns(silent, b)
    requires i < |a| && i <= |b| && a[..i] == b[..i]
    ensures i < |b| && a[i] == b[i]
  {
    assert forall j :: 0 <= j < i ==> a[..i][j] == b[..i][j];
    var j := Partner(silent, a, b, i);
    assert j >= i;
    if j > i {
      var m := Partner(silent, b, a, i);
      assert m >= i;
    }
  }

  /** Every run of one list is in the other. */
  lemma Partner(silent: seq<bool>, a: seq<Run>, b: seq<Run>, i: nat) returns (j: nat)
    requires AreRuns(silent, a) && AreRuns(silent, b) && i < |a|
    ensures j < |b| && b[j] == a[i]
  {
    assert Maximal(silent, a[i]);
    assert silent[a[i].first] && Covers(b, a[i].first);
    j :| 0 <= j < |b| && b[j].first <= a[i].first <= b[j].last;
    MaximalMeet(silent, a[i], b[j], a[i].first);
  }

  lemma {:induction false} SamePrefix(silent: seq<bool>, a: seq<Run>, b: seq<Run>, i: nat)
    requires AreRuns(silent, a) && AreRuns(silent, b) && i <= |a|
    ensures i <= |b| && a[..i] == b[..i]
  {
    if i > 0 {
      SamePrefix(silent, a, b, i - 1);
      SameRunAt(silent, a, b, i - 1);
      assert a[..i] == a[..i - 1] + [a[i - 1]] && b[..i] == b[..i - 1] + [b[i - 1]];
    }
  }

  /** The runs of a log are determined by it. */
  lemma RunsAreUnique(silent: seq<bool>, runs: seq<Run>)
    ensures AreRuns(silent, runs) <==> runs == RunsOf(silent)
  {
    hide RunsOf, AreRuns;
    RunsOfAreRuns(silent);
    if AreRuns(silent, runs) {
      var others := RunsOf(silent);
      SamePrefix(silent, runs, others, |runs|);
      SamePrefix(silent, others, runs, |others|);
      assert runs[..|runs|] == runs && others[..|others|] == others;
    }
  }

  // ---------------------------------------------------------------------------
  // Windows
  // ---------------------------------------------------------------------------

  /** The runs lie among the first `n` rows. */
  predicate Within(runs: seq<Run>, n: nat) {
    forall i :: 0 <= i < |runs| ==> runs[i].first <= runs[i].last < n
  }

  /** From the first row of each run to one step after its last. */
  function Windows(runs: seq<Run>, times: seq<real>, step: real): (r: seq<Window>)
    requires Within(runs, |times|)
    ensures |r| == |runs|
  {
    seq(|runs|, i requires 0 <= i < |runs| => Window(times[runs[i].first], times[runs[i].last] + step))
  }

  lemma RunsFit(silent: seq<bool>)
    ensures Within(RunsOf(silent), |silent|)
  {
    RunsOfAreRuns(silent);
    forall i | 0 <= i < |RunsOf(silent)|
      ensures RunsOf(silent)[i].first <= RunsOf(silent)[i].last < |silent|
    {
      assert Maximal(silent, RunsOf(silent)[i]);
    }
  }

  /** What `read_gaps` returns. */
  function Gaps(records: seq<Record>, indexed: bool): seq<Window> {
    var (silent, times) := (Silent(records), Times(records, indexed));
    RunsFit(silent);
    Windows(RunsOf(silent), times, MinStep(times))
  }

  predicate Increasing(times: seq<real>) {
    forall i, j :: 0 <= i < j < |times| ==> times[i] < times[j]
  }

  predicate Inside(windows: seq<Window>, t: real) {
    exists i :: 0 <= i < |windows| && windows[i].start <= t < windows[i].end
  }

  lemma StepFits(times: seq<real>)
    requires Increasing(times)
    ensures MinStep(times) > 0.0
    ensures forall i, j :: 0 <= i < j < |times| ==> times[i] + MinStep(times) <= times[j]
  {
    hide MinStep;
    forall i, j | 0 <= i < j < |times| ensures times[i] + MinStep(times) <= times[j] {
      assert MinStep(times) <= Gap(times, i);
    }
  }

  /** An epoch lies in some window exactly when it carried no measurement. */
  lemma InsideIffSilent(records: seq<Record>, indexed: bool, k: nat)
    requires k < |records| && Increasing(Times(records, indexed))
    ensures Inside(Gaps(records, indexed), Times(records, indexed)[k]) <==> records[k].flag <= 0.0
  {
    var (silent, times) := (Silent(records), Times(records, indexed));
    var (runs, step) := (RunsOf(silent), MinStep(times));
    RunsOfAreRuns(silent);
    RunsFit(silent);
    StepFits(times);
    InsideIffCovered(silent, runs, times, step, k);
  }

  lemma InsideIffCovered(silent: seq<bool>, runs: seq<Run>, times: seq<real>, step: real, k: nat)
    requires AreRuns(silent, runs) && k < |silent| == |times| && Increasing(times) && step > 0.0
    requires forall i, j :: 0 <= i < j < |times| ==> times[i] + step <= times[j]
    requires Within(runs, |times|)
    ensures Inside(Windows(runs, times, step), times[k]) <==> silent[k]
  {
    var windows := Windows(runs, times, step);
    forall i | 0 <= i < |runs|
      ensures windows[i].start <= times[k] < windows[i].end <==> runs[i].first <= k <= runs[i].last
      ensures runs[i].first <= k <= runs[i].last ==> silent[k]
    {
      assert Maximal(silent, runs[i]);
    }
    if silent[k] {
      assert Covers(runs, k);
    }
  }

  /** The windows are non-empty, in order, and do not touch. */
  lemma WindowsAreApart(records: seq<Record>, indexed: bool)
    requires Increasing(Times(records, indexed))
    ensures var windows := Gaps(records, indexed);
            && (forall i :: 0 <= i < |windows| ==> windows[i].start < windows[i].end)
            && (forall i, j :: 0 <= i < j < |windows| ==> windows[i].end < windows[j].start)
  {
    var (silent, times) := (Silent(records), Times(records, indexed));
    var (runs, windows) := (RunsOf(silent), Gaps(records, indexed));
    RunsOfAreRuns(silent);
    RunsFit(silent);
    StepFits(times);
    hide RunsOf, MinStep, Times;
    WindowsOfRuns(silent, runs, times, MinStep(times));
  }

  lemma WindowsOfRuns(silent: seq<bool>, runs: seq<Run>, times: seq<real>, step: real)
    requires AreRuns(silent, runs) && Within(runs, |times|) && Increasing(times) && step > 0.0
    requires forall i, j :: 0 <= i < j < |times| ==> times[i] + step <= times[j]
    ensures var windows := Windows(runs, times, step);
            && (forall i :: 0 <= i < |windows| ==> windows[i].start < windows[i].end)
            && (forall i, j :: 0 <= i < j < |windows| ==> windows[i].end < windows[j].start)
  {
    hide Maximal, Covers;
    var windows := Windows(runs, times, step);
    forall i, j | 0 <= i < j < |windows| ensures windows[i].end < windows[j].start {
      var (next, first) := (runs[i].last + 1, runs[j].first);
      assert next < first < |times|;
      assert times[runs[i].last] + step <= times[next] < times[first];
    }
    forall i | 0 <= i < |windows| ensures windows[i].start < windows[i].end {
      assert runs[i].first < runs[i].last ==> times[runs[i].first] < times[runs[i].last];
    }
  }

  // ---------------------------------------------------------------------------
  // In whose times the windows are
  // ---------------------------------------------------------------------------

  function Indices(records: seq<Record>): (r: seq<real>)
    ensures |r| == |records|
  {
    seq(|records|, i requires 0 <= i < |records| => records[i].index)
  }

  function Stamps(records: seq<Record>): (r: seq<real>)
    ensures |r| == |records|
  {
    seq(|records|, i requires 0 <= i < |records| => records[i].time)
  }

  /** A log without epoch indices, and one with a single row, is read in its own times. */
  lemma GapsInOwnTimes(records: seq<Record>, indexed: bool)
    requires !indexed || |records| < 2
    ensures var (gaps, runs) := (Gaps(records, indexed), RunsOf(Silent(records)));
            && |gaps| == |runs| && Within(runs, |records|)
            && forall i :: 0 <= i < |runs| ==>
                 gaps[i] == Window(records[runs[i].first].time,
                                   records[runs[i].last].time + MinStep(Stamps(records)))
  {
    RunsFit(Silent(records));
    assert Times(records, indexed) == Stamps(records);
    hide RunsOf, MinStep;
  }

  /** The validity time of an epoch, counted from 1. */
  function ValidityTime(index: real, p: real): real {
    (index - 1.0) * p
  }

  function Scaled(x: real, p: real): real {
    x * p
  }

  lemma StepScaled(a: real, b: real, p: real)
    ensures ValidityTime(b, p) - ValidityTime(a, p) == Scaled(b - a, p)
  {
  }

  lemma ScaledInOrder(x: real, y: real, p: real)
    requires x <= y && p > 0.0
    ensures Scaled(x, p) <= Scaled(y, p)
  {
    assert (y - x) * p >= 0.0;
  }

  /** The least step between validity times is that many periods as the least step of the indices. */
  lemma ScaledStep(index: seq<real>, times: seq<real>, p: real)
    requires |index| == |times| >= 2 && p > 0.0
    requires forall k :: 0 <= k < |index| ==> times[k] == ValidityTime(index[k], p)
    ensures MinStep(times) == Scaled(MinStep(index), p)
  {
    hide MinStep, Scaled, ValidityTime;
    forall k | 0 <= k < |index| - 1 ensures Gap(times, k) == Scaled(Gap(index, k), p) {
      StepScaled(index[k], index[k + 1], p);
    }
    hide Gap;
    var i :| 0 <= i < |index| - 1 && MinStep(index) == Gap(index, i);
    var j :| 0 <= j < |times| - 1 && MinStep(times) == Gap(times, j);
    assert MinStep(times) <= Gap(times, i) && MinStep(index) <= Gap(index, j);
    ScaledInOrder(MinStep(index), Gap(index, j), p);
  }

  /** Stamped a whole number `convention` of periods after the validity times. */
  predicate StampedWith(records: seq<Record>, convention: int, p: real) {
    forall k :: 0 <= k < |records| ==> records[k].time == (records[k].index - 1.0 + convention as real) * p
  }

  /**
   An indexed log whose epochs are stamped by any convention and of which any are missing:
   the windows are in the validity times, and one step is the least step of the indices.
   */
  lemma GapsInValidityTimes(records: seq<Record>, convention: int, p: real)
    requires |records| >= 2 && p > 0.0 && StampedWith(records, convention, p)
    requires forall i, j :: 0 <= i < j < |records| ==> records[i].index < records[j].index
    ensures var (gaps, runs) := (Gaps(records, true), RunsOf(Silent(records)));
            && |gaps| == |runs| && Within(runs, |records|)
            && forall i :: 0 <= i < |runs| ==>
                 gaps[i] == Window(ValidityTime(records[runs[i].first].index, p),
                                   ValidityTime(records[runs[i].last].index, p) + Scaled(MinStep(Indices(records)), p))
  {
    hide RunsOf, MinStep, Times, ValidityTime, Scaled, StampedWith;
    RunsFit(Silent(records));
    var times := Times(records, true);
    IndexedTimes(records, convention, p);
    ScaledStep(Indices(records), times, p);
  }

  lemma IndexedTimes(records: seq<Record>, convention: int, p: real)
    requires |records| >= 2 && p > 0.0 && records[|records| - 1].index != records[0].index
    requires StampedWith(records, convention, p)
    ensures forall k :: 0 <= k < |records| ==> Times(records, true)[k] == ValidityTime(records[k].index, p)
  {
    assert Times(records, true) == FixValidityTimes(Indices(records), Stamps(records));
    hide Times, FixValidityTimes;
    ConventionIndependent(Indices(records), Stamps(records), convention, p);
  }

  // ---------------------------------------------------------------------------
  // The loop
  // ---------------------------------------------------------------------------

  lemma RunsSnoc(silent: seq<bool>, k: nat)
    requires k < |silent|
    ensures RunsOf(silent[..k + 1]) == NextRuns(silent[..k], RunsOf(silent[..k]), silent[k])
  {
    assert silent[..k + 1][..k] == silent[..k];
  }

  /** All the runs but the one still open. */
  function Closed(runs: seq<Run>, open: bool): (r: seq<Run>)
    requires open ==> runs != []
    ensures forall n: nat :: Within(runs, n) ==> Within(r, n)
  {
    if open then runs[..|runs| - 1] else runs
  }

  /** The open run, if there is one, began at `start` and was last seen at `previous`; the others are closed. */
  ghost predicate Pending(runs: seq<Run>, times: seq<real>, step: real,
                          start: Option<real>, previous: real, intervals: seq<Window>)
  {
    && Within(runs, |times|)
    && (start.Some? ==>
          && runs != []
          && var r := runs[|runs| - 1];
             r.first < |times| && r.last < |times| && start.value == times[r.first] && previous == times[r.last])
    && intervals == Windows(Closed(runs, start.Some?), times, step)
  }

  /** The intervals when the open run, if there is one, is closed. */
  function ClosedUp(step: real, start: Option<real>, previous: real, intervals: seq<Window>): seq<Window> {
    if start.Some? then intervals + [Window(start.value, previous + step)] else intervals
  }

  lemma PendingCloses(runs: seq<Run>, times: seq<real>, step: real,
                      start: Option<real>, previous: real, intervals: seq<Window>)
    requires Pending(runs, times, step, start, previous, intervals)
    ensures Within(runs, |times|) && ClosedUp(step, start, previous, intervals) == Windows(runs, times, step)
    ensures Pending(runs, times, step, None, previous, ClosedUp(step, start, previous, intervals))
  {
    if start.Some? {
      WindowClosed(runs, times, step);
    }
    hide Windows;
  }

  lemma WindowClosed(runs: seq<Run>, times: seq<real>, step: real)
    requires runs != [] && Within(runs, |times|)
    ensures var r := runs[|runs| - 1];
            && r.first < |times| && r.last < |times|
            && Windows(runs, times, step)
            == Windows(Closed(runs, true), times, step) + [Window(times[r.first], times[r.last] + step)]
  {
  }

  lemma PendingOpens(runs: seq<Run>, times: seq<real>, step: real, previous: real, intervals: seq<Window>, k: nat)
    requires Pending(runs, times, step, None, previous, intervals) && k < |times|
    ensures Pending(runs + [Run(k, k)], times, step, Some(times[k]), times[k], intervals)
  {
    assert (runs + [Run(k, k)])[..|runs|] == runs;
    hide Windows;
  }

  lemma PendingGrows(runs: seq<Run>, times: seq<real>, step: real,
                     start: Option<real>, previous: real, intervals: seq<Window>, k: nat)
    requires Pending(runs, times, step, start, previous, intervals) && start.Some?
    requires runs[|runs| - 1].first <= k < |times|
    ensures Pending(runs[..|runs| - 1] + [Run(runs[|runs| - 1].first, k)], times, step, start, times[k], intervals)
  {
    var n := |runs| - 1;
    var next := runs[..n] + [Run(runs[n].first, k)];
    assert next[..n] == runs[..n];
    hide Windows;
  }

  /** After `k` rows: the runs so far are closed but for one that ends with the last of these rows. */
  ghost predicate Scanned(silent: seq<bool>, times: seq<real>, step: real, k: nat,
                          start: Option<real>, previous: real, intervals: seq<Window>)
    requires k <= |silent| == |times|
  {
    && (start.Some? <==> k > 0 && silent[k - 1])
    && Pending(RunsOf(silent[..k]), times, step, start, previous, intervals)
    && Within(RunsOf(silent[..k]), k)
  }

  lemma SilenceScanned(silent: seq<bool>, times: seq<real>, step: real, k: nat,
                       start: Option<real>, previous: real, intervals: seq<Window>)
    requires k < |silent| == |times| && silent[k]
    requires Scanned(silent, times, step, k, start, previous, intervals)
    ensures Scanned(silent, times, step, k + 1, if start.None? then Some(times[k]) else start, times[k], intervals)
  {
    RunsSnoc(silent, k);
    RunsFit(silent[..k + 1]);
    assert k > 0 ==> silent[..k][k - 1] == silent[k - 1];
    var runs := RunsOf(silent[..k]);
    if start.None? {
      PendingOpens(runs, times, step, previous, intervals, k);
    } else {
      OpenIsLast(runs, times, step, start, previous, intervals, k);
      PendingGrows(runs, times, step, start, previous, intervals, k);
    }
    hide RunsOf, Pending, Within;
  }

  lemma OpenIsLast(runs: seq<Run>, times: seq<real>, step: real,
                   start: Option<real>, previous: real, intervals: seq<Window>, k: nat)
    requires Pending(runs, times, step, start, previous, intervals) && start.Some? && Within(runs, k)
    ensures runs != [] && runs[|runs| - 1].first <= k
  {
  }

  lemma FixScanned(silent: seq<bool>, times: seq<real>, step: real, k: nat,
                   start: Option<real>, previous: real, intervals: seq<Window>)
    requires k < |silent| == |times| && !silent[k]
    requires Scanned(silent, times, step, k, start, previous, intervals)
    ensures Scanned(silent, times, step, k + 1, None, previous, ClosedUp(step, start, previous, intervals))
  {
    RunsSnoc(silent, k);
    RunsFit(silent[..k + 1]);
    PendingCloses(RunsOf(silent[..k]), times, step, start, previous, intervals);
    hide RunsOf, Pending, Within, ClosedUp;
  }

  lemma AllScanned(silent: seq<bool>, times: seq<real>, step: real,
                   start: Option<real>, previous: real, intervals: seq<Window>)
    requires |silent| == |times| && Scanned(silent, times, step, |silent|, start, previous, intervals)
    ensures Within(RunsOf(silent), |times|)
    ensures ClosedUp(step, start, previous, intervals) == Windows(RunsOf(silent), times, step)
  {
    assert silent[..|silent|] == silent;
    PendingCloses(RunsOf(silent), times, step, start, previous, intervals);
    hide RunsOf, Pending, Within, ClosedUp;
  }

  /** The loop of the source: one open start, the latest silent time, the intervals closed so far. */
  method ScanRows(records: seq<Record>, times: seq<real>, step: real) returns (intervals: seq<Window>)
    requires 0 < |records| == |times|
    ensures var runs := RunsOf(Silent(records));
            Within(runs, |times|) && intervals == Windows(runs, times, step)
  {
    hide RunsOf, Windows, Scanned, Closed;
    ghost var silent := Silent(records);
    intervals := [];
    var start: Option<real> := None;
    var previous := times[0];
    NothingScanned(silent, times, step, previous);
    for k := 0 to |records|
      invariant Scanned(silent, times, step, k, start, previous, intervals)
    {
      var t := times[k];
      if records[k].flag <= 0.0 {
        SilenceScanned(silent, times, step, k, start, previous, intervals);
        if start.None? {
          start := Some(t);
        }
        previous := t;
      } else {
        FixScanned(silent, times, step, k, start, previous, intervals);
        if start.Some? {
          intervals := intervals + [Window(start.value, previous + step)];
          start := None;
        }
      }
    }
    AllScanned(silent, times, step, start, previous, intervals);
    if start.Some? {
      intervals := intervals + [Window(start.value, previous + step)];
    }
  }

  /** One window for every maximal run of silent rows. */
  method ReadGaps(records: seq<Record>, indexed: bool) returns (intervals: seq<Window>)
    ensures intervals == Gaps(records, indexed)
  {
    if records == [] {
      return [];
    }
    hide RunsOf, MinStep, Times, Windows;
    var times := Times(records, indexed);
    intervals := ScanRows(records, times, MinStep(times));
  }

  lemma NothingScanned(silent: seq<bool>, times: seq<real>, step: real, previous: real)
    requires |silent| == |times|
    ensures Scanned(silent, times, step, 0, None, previous, [])
  {
    assert silent[..0] == [];
  }
}
