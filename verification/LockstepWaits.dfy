/**
 What the waits of either side may say: shutdown only if it was requested, timed out
 only if a deadline passed, ready only with something received or taken.
 */
module LockstepWaits {
  import opened Lockstep

  const REQUEST_SHUTDOWN := Master(RequestShutdown)

  /** Nobody has requested shutdown, and nobody has been told so. */
  ghost predicate Running(s: State) {
    && s.region.phase != ShutdownRequested
    && Shutdown !in s.history.masterWaits
    && Shutdown !in s.history.plantWaits
  }

  lemma RunningNext(s: State, c: Choice)
    requires InBounds(s) && Running(s) && c != REQUEST_SHUTDOWN
    ensures Running(Next(s, c))
  {
  }

  /** No wait says `Shutdown` on a run on which nobody requested it. */
  lemma {:induction false} ShutdownOnlyIfRequested(schedule: seq<Choice>)
    requires REQUEST_SHUTDOWN !in schedule
    ensures Running(Run(schedule))
    decreases |schedule|
  {
    if schedule != [] {
      var n := |schedule| - 1;
      hide Next, Running;
      assert REQUEST_SHUTDOWN !in schedule[..n] && schedule[n] in schedule;
      ShutdownOnlyIfRequested(schedule[..n]);
      RunningNext(Run(schedule[..n]), schedule[n]);
    } else {
      NothingRun(Initial());
    }
  }

  lemma MasterTimesOut(s: State, c: Choice)
    requires InBounds(s) && TimedOut !in s.history.masterWaits && c != Master(MasterGo(true))
    ensures TimedOut !in Next(s, c).history.masterWaits
  {
  }

  lemma PlantTimesOut(s: State, c: Choice)
    requires InBounds(s) && TimedOut !in s.history.plantWaits && c != Plant(PlantGo(true))
    ensures TimedOut !in Next(s, c).history.plantWaits
  {
  }

  /** No wait says `TimedOut` on a run on which no deadline of its side passed. */
  lemma {:induction false} TimedOutOnlyAtADeadline(schedule: seq<Choice>)
    ensures Master(MasterGo(true)) !in schedule ==> TimedOut !in Run(schedule).history.masterWaits
    ensures Plant(PlantGo(true)) !in schedule ==> TimedOut !in Run(schedule).history.plantWaits
    decreases |schedule|
  {
    if schedule != [] {
      var n := |schedule| - 1;
      hide Next;
      TimedOutOnlyAtADeadline(schedule[..n]);
      assert schedule[n] in schedule && forall c :: c in schedule[..n] ==> c in schedule;
      if Master(MasterGo(true)) !in schedule {
        MasterTimesOut(Run(schedule[..n]), schedule[n]);
      }
      if Plant(PlantGo(true)) !in schedule {
        PlantTimesOut(Run(schedule[..n]), schedule[n]);
      }
    }
  }

  /** As many ready waits as frames received, and as steps taken. */
  ghost predicate ReadyCounts(s: State) {
    && multiset(s.history.masterWaits)[Ready] == |s.history.received|
    && multiset(s.history.plantWaits)[Ready] == |s.history.taken|
  }

  lemma ReadyCountsMaster(s: State, input: MasterInput)
    requires InBounds(s) && ReadyCounts(s)
    ensures ReadyCounts(MasterStep(s, input))
  {
  }

  lemma ReadyCountsPlant(s: State, input: PlantInput)
    requires InBounds(s) && ReadyCounts(s)
    ensures ReadyCounts(PlantStep(s, input))
  {
  }

  lemma {:induction false} ReadyIsReceived(schedule: seq<Choice>)
    ensures ReadyCounts(Run(schedule))
    decreases |schedule|
  {
    if schedule != [] {
      var n := |schedule| - 1;
      hide MasterStep, PlantStep, ReadyCounts;
      ReadyIsReceived(schedule[..n]);
      match schedule[n]
      case Master(input) => ReadyCountsMaster(Run(schedule[..n]), input);
      case Plant(input) => ReadyCountsPlant(Run(schedule[..n]), input);
    } else {
      NothingRun(Initial());
    }
  }

  /**
   A wait returns at its first look at what it waits for, at shutdown or at a look after
   its deadline, and says which; otherwise it goes on waiting.
   */
  lemma OneLook(s: State, deadlinePassed: bool)
    requires InBounds(s)
    ensures s.master == WaitOutputs ==>
              var s' := Next(s, Master(MasterGo(deadlinePassed)));
              var said := s'.history.masterWaits;
              if s.region.phase == OutputsPosted then s'.master == TakeOutputs([]) && said == s.history.masterWaits
              else if s.region.phase == ShutdownRequested then
                s'.master == Outside && said == s.history.masterWaits + [Shutdown]
              else if deadlinePassed then s'.master == Outside && said == s.history.masterWaits + [TimedOut]
              else s' == s
    ensures s.plant == WaitInputs ==>
              var s' := Next(s, Plant(PlantGo(deadlinePassed)));
              var said := s'.history.plantWaits;
              if s.region.phase == InputsPosted then s'.plant == TakeInputs([]) && said == s.history.plantWaits
              else if s.region.phase == ShutdownRequested then
                s'.plant == Away && said == s.history.plantWaits + [Shutdown]
              else if deadlinePassed then s'.plant == Away && said == s.history.plantWaits + [TimedOut]
              else s' == s
  {
  }
}
