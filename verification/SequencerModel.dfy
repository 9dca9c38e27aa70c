/**
 The regulator sequencer on values, on the source's 32-bit clock or on an unbounded
 one, and what its run means: which rails have confirmed, and for how long the one
 being enabled has not.
 */
module SequencerModel {
  import opened Words

  /** kMaxRails */
  const MAX_RAILS: nat := 8

  datatype Error = NoError | NoRails | TooManyRails | AlreadyRunning

  datatype Phase = Idle | Enabling | Complete | Faulted

  datatype Sequencer = Sequencer(rails: seq<Byte>, timeout: U32, index: nat, elapsed: nat, phase: Phase)

  const FRESH := Sequencer([], 0, 0, 0, Idle)

  /** What every operation keeps. */
  predicate Valid(s: Sequencer) {
    && |s.rails| <= MAX_RAILS
    && s.index <= |s.rails|
    && s.elapsed < TWO_32
    && (s.phase == Enabling ==> s.index < |s.rails| && s.elapsed <= s.timeout)
    && (s.phase == Faulted ==> s.index < |s.rails|)
    && (s.phase == Complete ==> s.index == |s.rails|)
    && (s.phase == Idle ==> s.index == 0)
  }

  function ConfigureError(s: Sequencer, count: nat): Error {
    if s.phase == Enabling then AlreadyRunning
    else if count == 0 then NoRails
    else if count > MAX_RAILS then TooManyRails
    else NoError
  }

  /**
   The errors the header lists for a call of `configure` with these arguments; it does not
   say which of several is returned.
   */
  function ListedErrors(s: Sequencer, nullIds: bool, count: nat): set<Error> {
    (if s.phase == Enabling then {AlreadyRunning} else {})
    + (if count == 0 || nullIds then {NoRails} else {})
    + (if count > 8 then {TooManyRails} else {})
  }

  /** The code returns a listed error, or none where none is listed. */
  predicate AsListed(s: Sequencer, nullIds: bool, count: nat) {
    var (error, listed) := (ConfigureError(s, count), ListedErrors(s, nullIds, count));
    if error == NoError then listed == {} else error in listed
  }

  /**
   The checks of `configure` keep to the header exactly when they do not let a null
   pointer through: one that comes with an acceptable count while nothing is running.
   */
  lemma NullIdsSlipThroughIff(s: Sequencer, nullIds: bool, count: nat)
    ensures AsListed(s, nullIds, count) <==> !(nullIds && s.phase != Enabling && 1 <= count <= 8)
    ensures s.phase == Enabling ==> ConfigureError(s, count) == AlreadyRunning
  {
    if nullIds && s.phase != Enabling && 1 <= count <= MAX_RAILS {
      assert NoRails in ListedErrors(s, nullIds, count);
    }
  }

  /** Such a call: the first one on a fresh sequencer, a null pointer and one rail. */
  lemma NullIdsSlipThrough()
    ensures ConfigureError(FRESH, 1) == NoError && ListedErrors(FRESH, true, 1) == {NoRails}
    ensures !AsListed(FRESH, true, 1)
  {
    NullIdsSlipThroughIff(FRESH, true, 1);
  }

  function StartError(s: Sequencer): Error {
    if s.rails == [] then NoRails else if s.phase == Enabling then AlreadyRunning else NoError
  }

  /** The state an accepted `start` enters. */
  function Started(rails: seq<Byte>, timeout: U32): Sequencer {
    Sequencer(rails, timeout, 0, 0, Enabling)
  }

  /** The arguments of one `step`. */
  datatype Tick = Tick(dt: U32, good: bool)

  function Step(clock: Clock, s: Sequencer, t: Tick): Sequencer {
    if s.phase != Enabling then s
    else if t.good then
      s.(index := s.index + 1, elapsed := 0, phase := if s.index + 1 >= |s.rails| then Complete else Enabling)
    else
      var elapsed := Advance(clock, s.elapsed, t.dt);
      s.(elapsed := elapsed, phase := if elapsed > s.timeout then Faulted else Enabling)
  }

  function Run(clock: Clock, s: Sequencer, ticks: seq<Tick>): Sequencer
    decreases |ticks|
  {
    if ticks == [] then s else Step(clock, Run(clock, s, ticks[..|ticks| - 1]), ticks[|ticks| - 1])
  }

  /** `index < rail_count <= kMaxRails` while enabling, over every run. */
  lemma {:induction false} RunKeepsValid(s: Sequencer, ticks: seq<Tick>)
    requires Valid(s)
    ensures Valid(Run(Wrapping, s, ticks))
    ensures Run(Wrapping, s, ticks).rails == s.rails && Run(Wrapping, s, ticks).timeout == s.timeout
    decreases |ticks|
  {
    if ticks != [] {
      RunKeepsValid(s, ticks[..|ticks| - 1]);
    }
  }

  /** Complete, faulted and idle absorb every step. */
  lemma {:induction false} StepsAreAbsorbed(clock: Clock, s: Sequencer, ticks: seq<Tick>, k: nat)
    requires k <= |ticks| && Run(clock, s, ticks[..k]).phase != Enabling
    ensures Run(clock, s, ticks) == Run(clock, s, ticks[..k])
    decreases |ticks|
  {
    if k == |ticks| {
      assert ticks[..k] == ticks;
    } else {
      var before := ticks[..|ticks| - 1];
      assert before[..k] == ticks[..k];
      StepsAreAbsorbed(clock, s, before, k);
    }
  }

  // ---------------------------------------------------------------------------
  // What a run means
  // ---------------------------------------------------------------------------

  /** Confirmations since the start. */
  function Confirmed(ticks: seq<Tick>): nat
    decreases |ticks|
  {
    if ticks == [] then 0 else Confirmed(ticks[..|ticks| - 1]) + if ticks[|ticks| - 1].good then 1 else 0
  }

  /** Total time reported not good since the last confirmation. */
  function Silence(ticks: seq<Tick>): nat
    decreases |ticks|
  {
    if ticks == [] || ticks[|ticks| - 1].good then 0
    else Silence(ticks[..|ticks| - 1]) + ticks[|ticks| - 1].dt
  }

  /** No rail has kept the sequencer waiting beyond the timeout. */
  ghost predicate Prompt(ticks: seq<Tick>, timeout: nat) {
    forall k :: 0 <= k <= |ticks| ==> Silence(ticks[..k]) <= timeout
  }

  ghost predicate Completes(ticks: seq<Tick>, rails: nat, timeout: nat) {
    exists k :: 0 <= k <= |ticks| && Confirmed(ticks[..k]) == rails && Prompt(ticks[..k], timeout)
  }

  ghost predicate Faults(ticks: seq<Tick>, rails: nat, timeout: nat) {
    exists k :: 0 <= k <= |ticks| && Silence(ticks[..k]) > timeout && Confirmed(ticks[..k]) < rails
  }

  lemma {:induction false} ConfirmedGrows(ticks: seq<Tick>, k: nat)
    requires k <= |ticks|
    ensures Confirmed(ticks[..k]) <= Confirmed(ticks)
    decreases |ticks|
  {
    if k == |ticks| {
      assert ticks[..k] == ticks;
    } else {
      assert ticks[..|ticks| - 1][..k] == ticks[..k];
      ConfirmedGrows(ticks[..|ticks| - 1], k);
    }
  }

  /** Where a run still enabling stands. */
  lemma {:induction false} EnablingStands(rails: seq<Byte>, timeout: U32, ticks: seq<Tick>)
    requires rails != []
    ensures var s := Run(Unbounded, Started(rails, timeout), ticks);
            s.rails == rails && s.timeout == timeout &&
            (s.phase == Enabling ==>
              && s.index == Confirmed(ticks) < |rails|
              && s.elapsed == Silence(ticks)
              && Prompt(ticks, timeout))
    decreases |ticks|
  {
    if ticks == [] {
      assert forall k :: 0 <= k <= |ticks| ==> ticks[..k] == [];
    } else {
      var before := ticks[..|ticks| - 1];
      EnablingStands(rails, timeout, before);
      if Run(Unbounded, Started(rails, timeout), ticks).phase == Enabling {
        forall k | 0 <= k <= |ticks| ensures Silence(ticks[..k]) <= timeout {
          if k < |ticks| {
            assert before[..k] == ticks[..k];
          } else {
            assert ticks[..k] == ticks;
          }
        }
      }
    }
  }

  /** Faulted: some rail's silence exceeded the timeout before every rail had confirmed. */
  lemma {:induction false} FaultedHasCause(rails: seq<Byte>, timeout: U32, ticks: seq<Tick>)
    requires rails != [] && Run(Unbounded, Started(rails, timeout), ticks).phase == Faulted
    ensures Faults(ticks, |rails|, timeout)
    decreases |ticks|
  {
    var before := ticks[..|ticks| - 1];
    EnablingStands(rails, timeout, before);
    assert ticks[..|ticks|] == ticks;
    if Run(Unbounded, Started(rails, timeout), before).phase == Faulted {
      FaultedHasCause(rails, timeout, before);
      var k :| 0 <= k <= |before| && Silence(before[..k]) > timeout && Confirmed(before[..k]) < |rails|;
      assert ticks[..k] == before[..k];
    }
  }

  /** The first `k` steps end with the first silence beyond the timeout. */
  ghost predicate FirstLate(ticks: seq<Tick>, k: nat, timeout: nat)
    requires 0 < k <= |ticks|
  {
    Silence(ticks[..k]) > timeout && Prompt(ticks[..k - 1], timeout)
  }

  /** A faulted sequencer keeps pointing at the rail that was late first. */
  lemma {:induction false} FaultKeepsTheRail(rails: seq<Byte>, timeout: U32, ticks: seq<Tick>)
    requires rails != [] && Run(Unbounded, Started(rails, timeout), ticks).phase == Faulted
    ensures exists k :: 0 < k <= |ticks| && FirstLate(ticks, k, timeout)
                        && Confirmed(ticks[..k]) == Run(Unbounded, Started(rails, timeout), ticks).index < |rails|
    decreases |ticks|
  {
    var before := ticks[..|ticks| - 1];
    EnablingStands(rails, timeout, before);
    assert ticks[..|ticks|] == ticks;
    if Run(Unbounded, Started(rails, timeout), before).phase == Faulted {
      FaultKeepsTheRail(rails, timeout, before);
      var k :| 0 < k <= |before| && FirstLate(before, k, timeout)
               && Confirmed(before[..k]) == Run(Unbounded, Started(rails, timeout), before).index < |rails|;
      assert ticks[..k] == before[..k] && ticks[..k - 1] == before[..k - 1];
    } else {
      assert FirstLate(ticks, |ticks|, timeout);
    }
  }

  /** What `current_rail_id` returns: of an array that starts as zeros, the slot at the index. */
  function CurrentRail(s: Sequencer): Byte {
    if s.rails == [] then 0 else s.rails[if s.index < |s.rails| then s.index else 0]
  }

  /** What the header promises of it whenever the sequencer is not enabling. */
  function FirstRail(s: Sequencer): Byte {
    if s.rails == [] then 0 else s.rails[0]
  }

  /**
   While enabling it is the rail that follows the confirmed ones; otherwise it is the
   first one, as the header promises, exactly when no rail was late or the late one has
   the first one's id.
   */
  lemma FirstRailIff(rails: seq<Byte>, timeout: U32, ticks: seq<Tick>)
    requires 0 < |rails| <= MAX_RAILS
    ensures var s := Run(Wrapping, Started(rails, timeout), ticks);
            && (s.phase in {Enabling, Faulted} ==> s.index < |rails| && CurrentRail(s) == rails[s.index])
            && (s.phase != Enabling ==>
                  (CurrentRail(s) == FirstRail(s) <==> s.phase != Faulted || rails[s.index] == rails[0]))
  {
    RunKeepsValid(Started(rails, timeout), ticks);
    NeverIdle(Wrapping, rails, timeout, ticks);
    hide Run;
  }

  /** The first rail confirms, the second is late: the code returns the second one's id. */
  lemma LateSecondRail()
    ensures var s := Run(Wrapping, Started([7, 9], 0), [Tick(1, true), Tick(1, false)]);
            s.phase == Faulted && CurrentRail(s) == 9 && FirstRail(s) == 7
  {
    var ticks := [Tick(1, true), Tick(1, false)];
    assert ticks[..1] == [Tick(1, true)] && ticks[..1][..0] == [];
    assert Run(Wrapping, Started([7, 9], 0), ticks[..1]).index == 1;
  }

  /** Complete: every rail confirmed, none of them late. */
  lemma {:induction false} CompleteHasCause(rails: seq<Byte>, timeout: U32, ticks: seq<Tick>)
    requires rails != [] && Run(Unbounded, Started(rails, timeout), ticks).phase == Complete
    ensures Completes(ticks, |rails|, timeout)
    decreases |ticks|
  {
    var before := ticks[..|ticks| - 1];
    EnablingStands(rails, timeout, before);
    assert ticks[..|ticks|] == ticks;
    if Run(Unbounded, Started(rails, timeout), before).phase == Complete {
      CompleteHasCause(rails, timeout, before);
      var k :| 0 <= k <= |before| && Confirmed(before[..k]) == |rails| && Prompt(before[..k], timeout);
      assert ticks[..k] == before[..k];
    } else {
      forall k | 0 <= k <= |ticks| ensures Silence(ticks[..k]) <= timeout {
        if k < |ticks| {
          assert before[..k] == ticks[..k];
        }
      }
    }
  }

  /** A run cannot both have completed and have been late before that. */
  lemma NotBoth(ticks: seq<Tick>, rails: nat, timeout: nat)
    requires Completes(ticks, rails, timeout)
    ensures !Faults(ticks, rails, timeout)
  {
    var c :| 0 <= c <= |ticks| && Confirmed(ticks[..c]) == rails && Prompt(ticks[..c], timeout);
    forall k | 0 <= k <= |ticks| ensures !(Silence(ticks[..k]) > timeout && Confirmed(ticks[..k]) < rails) {
      if k <= c {
        assert ticks[..c][..k] == ticks[..k];
      } else {
        assert ticks[..k][..c] == ticks[..c];
        ConfirmedGrows(ticks[..k], c);
      }
    }
  }

  lemma StillEnabling(ticks: seq<Tick>, rails: nat, timeout: nat)
    requires Confirmed(ticks) < rails && Prompt(ticks, timeout)
    ensures !Completes(ticks, rails, timeout) && !Faults(ticks, rails, timeout)
  {
    forall k | 0 <= k <= |ticks| ensures Confirmed(ticks[..k]) < rails {
      ConfirmedGrows(ticks, k);
    }
  }

  /**
   The phase of a started sequencer, from the inputs alone: faulted exactly when some
   rail stayed silent beyond the timeout before all had confirmed, complete exactly
   when all confirmed in time, enabling otherwise. While enabling it waits for
   the rail that follows the confirmed ones in the configured order.
   */
  lemma PhaseIsItsHistory(rails: seq<Byte>, timeout: U32, ticks: seq<Tick>)
    requires rails != []
    ensures var s := Run(Unbounded, Started(rails, timeout), ticks);
            && (s.phase == Faulted <==> Faults(ticks, |rails|, timeout))
            && (s.phase == Complete <==> Completes(ticks, |rails|, timeout))
            && (s.phase == Enabling ==> s.index == Confirmed(ticks) < |rails|)
  {
    hide Faults, Completes, Prompt, Confirmed, Silence;
    var s := Run(Unbounded, Started(rails, timeout), ticks);
    EnablingStands(rails, timeout, ticks);
    NeverIdle(Unbounded, rails, timeout, ticks);
    match s.phase
    case Enabling => StillEnabling(ticks, |rails|, timeout);
    case Faulted =>
      FaultedHasCause(rails, timeout, ticks);
      if Completes(ticks, |rails|, timeout) {
        NotBoth(ticks, |rails|, timeout);
      }
    case Complete =>
      CompleteHasCause(rails, timeout, ticks);
      NotBoth(ticks, |rails|, timeout);
  }

  lemma {:induction false} NeverIdle(clock: Clock, rails: seq<Byte>, timeout: U32, ticks: seq<Tick>)
    ensures Run(clock, Started(rails, timeout), ticks).phase != Idle
    decreases |ticks|
  {
    if ticks != [] {
      NeverIdle(clock, rails, timeout, ticks[..|ticks| - 1]);
    }
  }

  // ---------------------------------------------------------------------------
  // The wrapping clock
  // ---------------------------------------------------------------------------

  /** No step overflows the counter while a rail is being enabled. */
  predicate StepsFit(s: Sequencer, ticks: seq<Tick>)
    decreases |ticks|
  {
    ticks == [] ||
    (var (before, t) := (ticks[..|ticks| - 1], ticks[|ticks| - 1]);
     StepsFit(s, before) && TickFits(Run(Unbounded, s, before), t))
  }

  predicate TickFits(s: Sequencer, t: Tick) {
    s.phase == Enabling && !t.good ==> s.elapsed + t.dt < TWO_32
  }

  /** A bound in the configured timeout alone: dt + timeout < 2^32 on every step that accumulates. */
  predicate StepsBounded(ticks: seq<Tick>, timeout: U32) {
    forall k :: 0 <= k < |ticks| && !ticks[k].good ==> ticks[k].dt + timeout < TWO_32
  }

  /** The 32-bit sequencer is the unbounded one, over runs of any length whose steps fit. */
  lemma {:induction false} WrapIsHarmless(s: Sequencer, ticks: seq<Tick>)
    requires Valid(s) && StepsFit(s, ticks)
    ensures Run(Wrapping, s, ticks) == Run(Unbounded, s, ticks)
    decreases |ticks|
  {
    if ticks != [] {
      WrapIsHarmless(s, ticks[..|ticks| - 1]);
    }
  }

  /** A step that overflows makes a late rail go unnoticed. */
  lemma OverflowShows(s: Sequencer, t: Tick)
    requires Valid(s) && !TickFits(s, t)
    ensures Step(Unbounded, s, t).phase == Faulted && Step(Wrapping, s, t).phase == Enabling
  {
    assert Advance(Wrapping, s.elapsed, t.dt) == s.elapsed + t.dt - TWO_32 < s.elapsed;
  }

  lemma {:induction false} FitsPrefix(s: Sequencer, ticks: seq<Tick>, k: nat)
    requires StepsFit(s, ticks) && k <= |ticks|
    ensures StepsFit(s, ticks[..k])
    decreases |ticks|
  {
    if k == |ticks| {
      assert ticks[..k] == ticks;
    } else {
      FitsPrefix(s, ticks[..|ticks| - 1], k);
      assert ticks[..|ticks| - 1][..k] == ticks[..k];
    }
  }

  lemma {:induction false} FirstOverflow(s: Sequencer, ticks: seq<Tick>) returns (k: nat)
    requires !StepsFit(s, ticks)
    ensures k < |ticks| && StepsFit(s, ticks[..k]) && !TickFits(Run(Unbounded, s, ticks[..k]), ticks[k])
    decreases |ticks|
  {
    k := |ticks| - 1;
    if !StepsFit(s, ticks[..k]) {
      var n := k;
      k := FirstOverflow(s, ticks[..n]);
      assert ticks[..n][..k] == ticks[..k];
    }
  }

  /** Through a whole run the 32-bit sequencer's phase is the unbounded one's exactly when every step fits. */
  lemma WrapIsHarmlessIff(s: Sequencer, ticks: seq<Tick>)
    requires Valid(s)
    ensures StepsFit(s, ticks) <==>
            forall k :: 0 <= k <= |ticks| ==> Run(Wrapping, s, ticks[..k]).phase == Run(Unbounded, s, ticks[..k]).phase
  {
    hide Run, Step, TickFits;
    if StepsFit(s, ticks) {
      forall k | 0 <= k <= |ticks|
        ensures Run(Wrapping, s, ticks[..k]).phase == Run(Unbounded, s, ticks[..k]).phase
      {
        FitsPrefix(s, ticks, k);
        WrapIsHarmless(s, ticks[..k]);
      }
    } else {
      var k := FirstOverflow(s, ticks);
      WrapIsHarmless(s, ticks[..k]);
      RunKeepsValid(s, ticks[..k]);
      OverflowShows(Run(Unbounded, s, ticks[..k]), ticks[k]);
      RunSnoc(Wrapping, s, ticks[..k], ticks[k]);
      RunSnoc(Unbounded, s, ticks[..k], ticks[k]);
      assert ticks[..k + 1] == ticks[..k] + [ticks[k]];
    }
  }

  /** The bound in the timeout is enough. */
  lemma {:induction false} BoundedStepsFit(s: Sequencer, ticks: seq<Tick>)
    requires Valid(s) && StepsBounded(ticks, s.timeout)
    ensures StepsFit(s, ticks)
    decreases |ticks|
  {
    if ticks != [] {
      var before := ticks[..|ticks| - 1];
      BoundedStepsFit(s, before);
      WrapIsHarmless(s, before);
      RunKeepsValid(s, before);
    }
  }

  /** At the bound a late rail goes unnoticed: a silence of the whole timeout, then one step. */
  lemma BoundIsExact(rails: seq<Byte>, timeout: U32, dt: U32)
    requires rails != []
    ensures var ticks := [Tick(timeout, false), Tick(dt, false)];
            Run(Wrapping, Started(rails, timeout), ticks).phase == Run(Unbounded, Started(rails, timeout), ticks).phase
            <==> dt + timeout < TWO_32
  {
    var ticks := [Tick(timeout, false), Tick(dt, false)];
    var s := Started(rails, timeout);
    assert ticks[..1] == [Tick(timeout, false)] && ticks[..1][..0] == [];
    assert Run(Wrapping, s, ticks[..1]) == Run(Unbounded, s, ticks[..1]) == s.(elapsed := timeout);
  }

  /**
   The 32-bit sequencer enters a phase exactly when the inputs, in unbounded time, say so.
   */
  lemma WrappingPhaseIsItsHistory(rails: seq<Byte>, timeout: U32, ticks: seq<Tick>)
    requires 0 < |rails| <= MAX_RAILS && StepsFit(Started(rails, timeout), ticks)
    ensures var s := Run(Wrapping, Started(rails, timeout), ticks);
            && (s.phase == Faulted <==> Faults(ticks, |rails|, timeout))
            && (s.phase == Complete <==> Completes(ticks, |rails|, timeout))
            && (s.phase == Enabling ==> s.index == Confirmed(ticks) < |rails|)
  {
    hide Faults, Completes, Run, Confirmed;
    WrapIsHarmless(Started(rails, timeout), ticks);
    PhaseIsItsHistory(rails, timeout, ticks);
  }

  // ---------------------------------------------------------------------------
  // Termination
  // ---------------------------------------------------------------------------

  /** Every step takes time. */
  predicate TimePasses(ticks: seq<Tick>) {
    forall k :: 0 <= k < |ticks| ==> ticks[k].dt >= 1
  }

  /** Enabling: the number of steps is covered by the rails confirmed and the time waited. */
  lemma {:induction false} StepsAreCovered(rails: seq<Byte>, timeout: U32, ticks: seq<Tick>)
    requires 0 < |rails| <= MAX_RAILS && StepsFit(Started(rails, timeout), ticks) && TimePasses(ticks)
    ensures var s := Run(Wrapping, Started(rails, timeout), ticks);
            s.phase == Enabling ==> |ticks| <= s.index * (timeout + 1) + s.elapsed
    decreases |ticks|
  {
    if ticks != [] {
      var before := ticks[..|ticks| - 1];
      StepsAreCovered(rails, timeout, before);
      RunKeepsValid(Started(rails, timeout), before);
      WrapIsHarmless(Started(rails, timeout), before);
      var s := Run(Wrapping, Started(rails, timeout), before);
      StepIsCovered(s, ticks[|ticks| - 1], |before|);
    }
  }

  lemma StepIsCovered(s: Sequencer, t: Tick, n: nat)
    requires Valid(s) && t.dt >= 1 && TickFits(s, t)
    requires s.phase == Enabling ==> n <= s.index * (s.timeout + 1) + s.elapsed
    ensures var r := Step(Wrapping, s, t);
            r.phase == Enabling ==> n + 1 <= r.index * (s.timeout + 1) + r.elapsed
  {
    if t.good {
      assert (s.index + 1) * (s.timeout + 1) == s.index * (s.timeout + 1) + s.timeout + 1;
    }
  }

  /** Whatever the rails do, enabling is over within rail_count * (timeout + 1) steps. */
  lemma EnablingEnds(rails: seq<Byte>, timeout: U32, ticks: seq<Tick>)
    requires 0 < |rails| <= MAX_RAILS && StepsFit(Started(rails, timeout), ticks) && TimePasses(ticks)
    requires |ticks| >= |rails| * (timeout + 1)
    ensures Run(Wrapping, Started(rails, timeout), ticks).phase in {Complete, Faulted}
  {
    StepsAreCovered(rails, timeout, ticks);
    RunKeepsValid(Started(rails, timeout), ticks);
    NeverIdle(Wrapping, rails, timeout, ticks);
    hide Run, StepsFit, TimePasses;
    var s := Run(Wrapping, Started(rails, timeout), ticks);
    Covers(s.index, |rails|, timeout);
  }

  /** A run that keeps every rail waiting as long as the timeout allows, one millisecond a step. */
  function SlowTicks(timeout: U32, index: nat, elapsed: nat): seq<Tick>
    decreases index, elapsed
  {
    if elapsed > 0 then SlowTicks(timeout, index, elapsed - 1) + [Tick(1, false)]
    else if index > 0 then SlowTicks(timeout, index - 1, timeout) + [Tick(1, true)]
    else []
  }

  lemma RunSnoc(clock: Clock, s: Sequencer, ticks: seq<Tick>, t: Tick)
    ensures Run(clock, s, ticks + [t]) == Step(clock, Run(clock, s, ticks), t)
  {
    assert (ticks + [t])[..|ticks|] == ticks;
  }

  lemma {:induction false} SlowTicksCount(timeout: U32, index: nat, elapsed: nat)
    ensures |SlowTicks(timeout, index, elapsed)| == index * (timeout + 1) + elapsed
    decreases index, elapsed
  {
    if elapsed > 0 {
      SlowTicksCount(timeout, index, elapsed - 1);
    } else if index > 0 {
      SlowTicksCount(timeout, index - 1, timeout);
      assert index * (timeout + 1) == (index - 1) * (timeout + 1) + timeout + 1;
    }
  }

  /** The bound is reached: one step short of it a sequencer can still be enabling. */
  lemma {:induction false} SlowTicksKeepEnabling(rails: seq<Byte>, timeout: U32, index: nat, elapsed: nat)
    requires index < |rails| <= MAX_RAILS && elapsed <= timeout
    ensures Run(Wrapping, Started(rails, timeout), SlowTicks(timeout, index, elapsed))
            == Sequencer(rails, timeout, index, elapsed, Enabling)
    decreases index, elapsed
  {
    hide Run;
    if elapsed > 0 {
      SlowTicksKeepEnabling(rails, timeout, index, elapsed - 1);
      RunSnoc(Wrapping, Started(rails, timeout), SlowTicks(timeout, index, elapsed - 1), Tick(1, false));
    } else if index > 0 {
      SlowTicksKeepEnabling(rails, timeout, index - 1, timeout);
      RunSnoc(Wrapping, Started(rails, timeout), SlowTicks(timeout, index - 1, timeout), Tick(1, true));
    } else {
      NothingRun(Started(rails, timeout));
    }
  }

  lemma NothingRun(s: Sequencer)
    ensures Run(Wrapping, s, []) == s
  {
  }

  lemma BoundIsReached(rails: seq<Byte>, timeout: U32)
    requires 0 < |rails| <= MAX_RAILS
    ensures exists ticks :: |ticks| == |rails| * (timeout + 1) - 1 && TimePasses(ticks)
                            && Run(Wrapping, Started(rails, timeout), ticks).phase == Enabling
  {
    hide *;
    var ticks := SlowTicks(timeout, |rails| - 1, timeout);
    SlowTicksCount(timeout, |rails| - 1, timeout);
    SlowTicksKeepEnabling(rails, timeout, |rails| - 1, timeout);
    SlowTicksPass(timeout, |rails| - 1, timeout);
    OneShort(|rails|, timeout);
  }

  lemma OneShort(rails: nat, timeout: nat)
    ensures (rails - 1) * (timeout + 1) + timeout == rails * (timeout + 1) - 1
  {
  }

  lemma {:induction false} SlowTicksPass(timeout: U32, index: nat, elapsed: nat)
    ensures TimePasses(SlowTicks(timeout, index, elapsed))
    decreases index, elapsed
  {
    if elapsed > 0 {
      SlowTicksPass(timeout, index, elapsed - 1);
    } else if index > 0 {
      SlowTicksPass(timeout, index - 1, timeout);
    }
  }

  lemma {:induction false} Covers(index: nat, rails: nat, timeout: nat)
    ensures index < rails ==> index * (timeout + 1) + timeout < rails * (timeout + 1)
  {
    var window := timeout + 1;
    assert rails * window == (rails - 1) * window + window;
    if index + 1 < rails {
      Covers(index, rails - 1, timeout);
    }
  }
}
