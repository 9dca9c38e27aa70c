/**
 `request_shutdown`: when the shutdown phase stays, and when the plant's answer to
 the step it holds overwrites it.
 */
module LockstepShutdown {
  import opened Words
  import opened Lockstep
  import opened LockstepSafety
  import opened LockstepCalls

  /** The master posts nothing. */
  predicate NoPosts(schedule: seq<Choice>) {
    forall c :: c in schedule ==> !(c.Master? && c.minput.PostInputs?)
  }

  /** Shut down, and nobody is past its look at the phase. */
  ghost predicate ShutDown(s: State) {
    && s.region.phase == ShutdownRequested
    && (s.master == Outside || s.master == WaitOutputs)
    && (s.plant == Away || s.plant == WaitInputs)
  }

  /** Every wait that has returned since `s` returned shutdown. */
  ghost predicate AllShutdown(s: State, s': State) {
    var (h, h') := (s.history, s'.history);
    && |h.plantWaits| <= |h'.plantWaits| && |h.masterWaits| <= |h'.masterWaits|
    && (forall j :: |h.plantWaits| <= j < |h'.plantWaits| ==> h'.plantWaits[j] == Shutdown)
    && (forall j :: |h.masterWaits| <= j < |h'.masterWaits| ==> h'.masterWaits[j] == Shutdown)
  }

  lemma ShutDownNext(s: State, s': State, c: Choice)
    requires InBounds(s') && ShutDown(s') && AllShutdown(s, s')
    requires !(c.Master? && c.minput.PostInputs?)
    ensures ShutDown(Next(s', c)) && AllShutdown(s, Next(s', c))
  {
  }

  lemma {:induction false} RunShutDown(s: State, schedule: seq<Choice>)
    requires InBounds(s) && ShutDown(s) && NoPosts(schedule)
    ensures ShutDown(RunFrom(s, schedule)) && AllShutdown(s, RunFrom(s, schedule))
    decreases |schedule|
  {
    if schedule != [] {
      var n := |schedule| - 1;
      hide Next, ShutDown, AllShutdown;
      assert forall c :: c in schedule[..n] ==> c in schedule;
      AllShutdownSelf(s);
      RunShutDown(s, schedule[..n]);
      assert schedule[n] in schedule;
      ShutDownNext(s, RunFrom(s, schedule[..n]), schedule[n]);
    }
  }

  lemma AllShutdownSelf(s: State)
    ensures AllShutdown(s, s)
  {
  }

  const REQUEST := Master(RequestShutdown)

  /** A master outside its calls may request shutdown; between steps the plant holds nothing. */
  lemma RequestedBetweenSteps(schedule: seq<Choice>)
    requires InTurn(schedule) && Run(schedule).master == Outside && !Outstanding(Run(schedule).history)
    ensures ShutDown(Run(schedule + [REQUEST]))
  {
    RunSnoc(Initial(), schedule, REQUEST);
    RunKeeps(schedule);
    hide Run, RunFrom;
  }

  /**
   Requested between steps, with nothing posted afterwards, shutdown is final: the
   phase is never overwritten and every wait of either side that returns from then
   on returns `Shutdown`.
   */
  lemma ShutdownBetweenStepsIsFinal(before: seq<Choice>, after: seq<Choice>)
    requires InTurn(before) && Run(before).master == Outside && !Outstanding(Run(before).history)
    requires NoPosts(after)
    ensures var s, s' := Run(before + [REQUEST]), Run(before + [REQUEST] + after);
            s'.region.phase == ShutdownRequested && AllShutdown(s, s')
  {
    RequestedBetweenSteps(before);
    RunShutDown(Run(before + [REQUEST]), after);
    RunConcat(Initial(), before + [REQUEST], after);
  }

  // ---------------------------------------------------------------------------
  // Requested in the middle of a step
  // ---------------------------------------------------------------------------

  /** The plant's next move, answering with zeros when it comes to that. */
  const PROCEED := Plant(PostOutputs(Zeros(FRAME_WORDS)))

  lemma AnswerNearer(s: State)
    requires InBounds(s) && WillAnswer(s.plant)
    ensures var s' := Next(s, PROCEED);
            if s.plant.StoreOutputs? then s'.region.phase == OutputsPosted
            else WillAnswer(s'.plant) && AnswerIn(s'.plant) < AnswerIn(s.plant)
  {
  }

  lemma {:induction false} AnswerComes(s: State) returns (schedule: seq<Choice>)
    requires InBounds(s) && WillAnswer(s.plant)
    ensures NoPosts(schedule) && RunFrom(s, schedule).region.phase == OutputsPosted
    decreases AnswerIn(s.plant)
  {
    AnswerNearer(s);
    var s' := Next(s, PROCEED);
    RunSnoc(s, [], PROCEED);
    assert [] + [PROCEED] == [PROCEED];
    if s.plant.StoreOutputs? {
      schedule := [PROCEED];
    } else {
      hide Next;
      var rest := AnswerComes(s');
      schedule := [PROCEED] + rest;
      RunConcat(s, [PROCEED], rest);
    }
  }

  /**
   The header calls the shutdown phase terminal.  Requested at a moment of the
   master's choosing, it is final without further posts exactly when the plant has
   not begun to take the posted step or has answered it.
   */
  lemma ShutdownIsFinalIff(before: seq<Choice>)
    requires Run(before).master == Outside
    ensures !WillAnswer(Run(before).plant) <==>
            forall after :: NoPosts(after) ==> Run(before + [REQUEST] + after).region.phase == ShutdownRequested
  {
    RunSnoc(Initial(), before, REQUEST);
    var s := Run(before + [REQUEST]);
    assert s == MasterStep(Run(before), RequestShutdown);
    hide Next, RunFrom;
    if WillAnswer(Run(before).plant) {
      var after := AnswerComes(s);
      RunConcat(Initial(), before + [REQUEST], after);
      assert NoPosts(after) && Run(before + [REQUEST] + after).region.phase != ShutdownRequested;
    } else {
      forall after | NoPosts(after)
        ensures Run(before + [REQUEST] + after).region.phase == ShutdownRequested
      {
        RunShutDown(s, after);
        RunConcat(Initial(), before + [REQUEST], after);
      }
    }
  }

  /** The smallest case: post, let the plant look at the phase, request shutdown. */
  lemma ShutdownMidStepIsOverwritten(step: Step) returns (before: seq<Choice>, after: seq<Choice>)
    ensures Run(before).master == Outside && Outstanding(Run(before).history)
    ensures NoPosts(after)
    ensures Run(before + [REQUEST]).region.phase == ShutdownRequested
    ensures Run(before + [REQUEST] + after).region.phase == OutputsPosted
  {
    var more, s := PostAll(Initial(), step);
    before := more + [Plant(WaitForInputs)] + [PLANT_GO];
    RunSnoc(Initial(), more, Plant(WaitForInputs));
    RunSnoc(Initial(), more + [Plant(WaitForInputs)], PLANT_GO);
    RunSnoc(Initial(), before, REQUEST);
    after := AnswerComes(Run(before + [REQUEST]));
    RunConcat(Initial(), before + [REQUEST], after);
  }
}
