/**
 What `stop()` guarantees on every schedule, deadlines passed or not, and what it
 does not: the shutdown phase itself can be overwritten.
 */
module I2cLinkShutdown {
  import opened Words
  import opened I2cTransaction
  import opened I2cRegion
  import opened I2cLink

  // ---------------------------------------------------------------------------
  // After stop() has returned
  // ---------------------------------------------------------------------------

  /** A call that began after `stop()` returned can get no further than waiting. */
  predicate LateStaysOut(c: ControllerPc) {
    !c.TakeResult? && !c.CopyRead? && !c.Release?
  }

  ghost predicate Stopped(s: State) {
    && (s.stopper.ClearReady? || s.stopper.StoreShutdown? || s.flags.stopReturned ==> s.service.Done?)
    && (s.stopper.StoreShutdown? || s.flags.stopReturned ==> !s.bus.ready)
    && (!s.bus.ready ==> s.service.Done?)
    && (s.bus.phase == ShutdownRequested ==> s.flags.stopReturned)
    && (s.flags.stopReturned ==> s.bus.phase != TransactionComplete)
    && (s.controller != Out && s.flags.late ==> s.flags.stopReturned && LateStaysOut(s.controller))
    && (forall c :: c in s.history.calls && c.late ==> c.result == BusFault && c.got == [])
  }

  lemma StoppedService(dev: Device, s: State)
    requires InBounds(s) && Stopped(s)
    ensures Stopped(ServiceStep(dev, s))
  {
    ServiceFrame(dev, s);
    ServiceBus(dev, s);
    hide ServiceStep;
  }

  lemma StoppedStopper(s: State)
    requires InBounds(s) && Stopped(s)
    ensures Stopped(StopperStep(s))
  {
  }

  lemma StoppedNext(dev: Device, s: State, c: Choice)
    requires InBounds(s) && Stopped(s)
    ensures Stopped(Next(dev, s, c))
  {
    hide Stopped, InBounds;
    match c
    case Controller(input) => StoppedController(s, input);
    case Service => StoppedService(dev, s);
    case Stopper => StoppedStopper(s);
  }

  lemma StoppedController(s: State, input: ControllerInput)
    requires InBounds(s) && Stopped(s)
    ensures Stopped(ControllerStep(s, input))
  {
    hide Stopped;
    if s.controller.Checking? || s.controller.Waiting? {
      StoppedLooks(s, input);
    } else {
      StoppedGoesOn(s, input);
    }
  }

  /** Looking at the phase. */
  lemma StoppedLooks(s: State, input: ControllerInput)
    requires InBounds(s) && Stopped(s) && (s.controller.Checking? || s.controller.Waiting?)
    ensures Stopped(ControllerStep(s, input))
  {
  }

  lemma StoppedGoesOn(s: State, input: ControllerInput)
    requires InBounds(s) && Stopped(s) && !s.controller.Checking? && !s.controller.Waiting?
    ensures Stopped(ControllerStep(s, input))
  {
  }

  lemma {:induction false} RunStopped(dev: Device, schedule: seq<Choice>)
    ensures Stopped(Run(dev, schedule))
    decreases |schedule|
  {
    if schedule != [] {
      var n := |schedule| - 1;
      hide Next, Stopped;
      RunStopped(dev, schedule[..n]);
      StoppedNext(dev, Run(dev, schedule[..n]), schedule[n]);
    }
  }

  /** Silent from `s` on: the part's log is that of `s`, and calls begun since are late. */
  ghost predicate SilentSince(s: State, s': State) {
    && s'.flags.stopReturned && s'.service.Done?
    && s'.log == s.log
    && s.history.calls <= s'.history.calls
    && (s.controller == Out ==>
          && (s'.controller != Out ==> s'.flags.late)
          && forall j :: |s.history.calls| <= j < |s'.history.calls| ==> s'.history.calls[j].late)
  }

  lemma SilentController(s: State, s': State, input: ControllerInput)
    requires InBounds(s') && SilentSince(s, s')
    ensures SilentSince(s, ControllerStep(s', input))
  {
    ControllerFrame(s', input);
    ControllerCalls(s', input);
    ControllerLate(s', input);
    hide ControllerStep;
  }

  lemma SilentOthers(dev: Device, s: State, s': State, c: Choice)
    requires InBounds(s') && SilentSince(s, s') && !c.Controller?
    ensures SilentSince(s, Next(dev, s', c))
  {
    ServiceFrame(dev, s');
    StopperFrame(s');
    hide ServiceStep, StopperStep;
  }

  lemma SilentNext(dev: Device, s: State, s': State, c: Choice)
    requires InBounds(s') && SilentSince(s, s')
    ensures SilentSince(s, Next(dev, s', c))
  {
    hide SilentSince;
    if c.Controller? {
      SilentController(s, s', c.input);
    } else {
      SilentOthers(dev, s, s', c);
    }
  }

  lemma {:induction false} RunSilent(dev: Device, s: State, schedule: seq<Choice>)
    requires InBounds(s) && s.flags.stopReturned && s.service.Done?
    ensures SilentSince(s, RunFrom(dev, s, schedule))
    decreases |schedule|
  {
    if schedule != [] {
      var n := |schedule| - 1;
      hide Next, SilentSince;
      RunSilent(dev, s, schedule[..n]);
      SilentNext(dev, s, RunFrom(dev, s, schedule[..n]), schedule[n]);
    }
  }

  /**
   Once `stop()` has returned the part sees no further bus event, whatever is
   scheduled, and every call that begins from then on returns a bus fault.
   */
  lemma AfterStop(dev: Device, before: seq<Choice>, after: seq<Choice>)
    requires Run(dev, before).flags.stopReturned
    ensures var s, s' := Run(dev, before), Run(dev, before + after);
            && s'.log == s.log
            && s.history.calls <= s'.history.calls
            && (s.controller == Out ==>
                  forall j :: |s.history.calls| <= j < |s'.history.calls| ==> s'.history.calls[j].result == BusFault)
  {
    hide RunFrom;
    RunConcat(dev, Initial(), before, after);
    RunStopped(dev, before);
    RunStopped(dev, before + after);
    RunSilent(dev, Run(dev, before), after);
  }

  // ---------------------------------------------------------------------------
  // After the ready flag has been cleared
  // ---------------------------------------------------------------------------

  /** Deserted from `s` on: the part's log is that of `s`, and calls begun since fault. */
  ghost predicate DesertedSince(s: State, s': State) {
    && s'.service.Done? && s'.log == s.log && (!s.bus.ready ==> !s'.bus.ready)
    && s.history.calls <= s'.history.calls
    && (s.controller == Out ==>
          && LateStaysOut(s'.controller)
          && (s'.controller.Waiting? ==> s'.bus.phase != TransactionComplete)
          && forall j :: |s.history.calls| <= j < |s'.history.calls| ==> s'.history.calls[j].result == BusFault)
  }

  lemma DesertedController(s: State, s': State, input: ControllerInput)
    requires InBounds(s') && DesertedSince(s, s')
    ensures DesertedSince(s, ControllerStep(s', input))
  {
    ControllerFrame(s', input);
    ControllerBus(s', input);
    ControllerCalls(s', input);
    if s.controller == Out {
      StaysOut(s', input);
    }
    hide ControllerStep;
  }

  lemma StaysOut(s: State, input: ControllerInput)
    requires InBounds(s) && LateStaysOut(s.controller)
    requires s.controller.Waiting? ==> s.bus.phase != TransactionComplete
    ensures var s' := ControllerStep(s, input);
            LateStaysOut(s'.controller) && (s'.controller.Waiting? ==> s'.bus.phase != TransactionComplete)
  {
  }

  lemma DesertedOthers(dev: Device, s: State, s': State, c: Choice)
    requires InBounds(s') && DesertedSince(s, s') && !c.Controller?
    ensures DesertedSince(s, Next(dev, s', c))
  {
    ServiceFrame(dev, s');
    StopperFrame(s');
    StopperPhase(s');
    hide ServiceStep, StopperStep;
  }

  lemma StopperPhase(s: State)
    requires InBounds(s)
    ensures StopperStep(s).bus.phase in {s.bus.phase, ShutdownRequested}
    ensures !s.bus.ready ==> !StopperStep(s).bus.ready
  {
  }

  lemma {:induction false} RunDeserted(dev: Device, s: State, schedule: seq<Choice>)
    requires InBounds(s) && s.service.Done?
    ensures DesertedSince(s, RunFrom(dev, s, schedule))
    decreases |schedule|
  {
    if schedule != [] {
      var n := |schedule| - 1;
      hide DesertedSince, ControllerStep, ServiceStep, StopperStep;
      RunDeserted(dev, s, schedule[..n]);
      match schedule[n]
      case Controller(input) => DesertedController(s, RunFrom(dev, s, schedule[..n]), input);
      case _ => DesertedOthers(dev, s, RunFrom(dev, s, schedule[..n]), schedule[n]);
    }
  }

  /**
   A part found not to be ready is gone for good, `stop()` having returned or not, and
   whatever deadlines have passed: it sees no further bus event, and every call that
   begins from then on returns a bus fault.
   */
  lemma NotReadyIsForGood(dev: Device, before: seq<Choice>, after: seq<Choice>)
    requires !Run(dev, before).bus.ready
    ensures var s, s' := Run(dev, before), Run(dev, before + after);
            && s'.log == s.log && !s'.bus.ready
            && s.history.calls <= s'.history.calls
            && (s.controller == Out ==>
                  forall j :: |s.history.calls| <= j < |s'.history.calls| ==> s'.history.calls[j].result == BusFault)
  {
    hide RunFrom;
    RunConcat(dev, Initial(), before, after);
    RunStopped(dev, before);
    RunDeserted(dev, Run(dev, before), after);
  }

  // ---------------------------------------------------------------------------
  // The transaction index
  // ---------------------------------------------------------------------------

  /** The index counts the STOPs the part has seen, modulo 2^64. */
  ghost predicate IndexCounts(s: State) {
    var uncounted := if s.service.StoreResult? || s.service.BumpIndex? then 1 else 0;
    && Stops(s.log) == |s.history.executions| + uncounted
    && s.bus.index == |s.history.executions| % TWO_64
  }

  lemma IndexBump(dev: Device, s: State)
    requires InBounds(s) && IndexCounts(s) && s.service.BumpIndex?
    ensures IndexCounts(ServiceStep(dev, s))
  {
    hide Stops;
  }

  /** Every other step leaves the index alone and adds at most one event: a STOP when stopping. */
  lemma EventsOfAStep(dev: Device, s: State)
    requires InBounds(s) && !s.service.BumpIndex?
    ensures var s' := ServiceStep(dev, s);
            && s'.history == s.history && s'.bus.index == s.bus.index
            && (if s.service.Stopping? then s'.log == s.log + [Stop] && s'.service.StoreResult?
                else
                  && (s'.service.BumpIndex? == s.service.StoreResult?) && !s'.service.StoreResult?
                  && Stops(s'.log) == Stops(s.log))
  {
    hide Stops;
    match s.service
    case StartWrite(a, w, r) => StopsOfExtension(s.log, StartEvent(dev, s.log, a, false));
    case Writing(a, w, r, i) =>
      if i < w {
        StopsOfExtension(s.log, WriteEvent(dev, s.log, s.bus.writeBytes[i]));
      }
    case StartRead(a, r) => StopsOfExtension(s.log, StartEvent(dev, s.log, a, true));
    case Reading(r, i) => StopsOfExtension(s.log, ReadEvent(dev, s.log, i + 1 == r));
    case _ =>
  }

  lemma IndexService(dev: Device, s: State)
    requires InBounds(s) && IndexCounts(s)
    ensures IndexCounts(ServiceStep(dev, s))
  {
    if s.service.BumpIndex? {
      hide IndexCounts;
      IndexBump(dev, s);
    } else {
      hide Stops, ServiceStep;
      EventsOfAStep(dev, s);
      StopsOfExtension(s.log, Stop);
    }
  }

  lemma IndexElsewhere(dev: Device, s: State, c: Choice)
    requires InBounds(s) && c != Service
    ensures var s' := Next(dev, s, c);
            && s'.log == s.log && s'.service == s.service
            && s'.history.executions == s.history.executions && s'.bus.index == s.bus.index
  {
    hide ControllerStep, StopperStep;
    match c
    case Controller(input) =>
      ControllerFrame(s, input);
      ControllerBus(s, input);
    case Stopper => StopperFrame(s);
  }

  lemma IndexNext(dev: Device, s: State, c: Choice)
    requires InBounds(s) && IndexCounts(s)
    ensures IndexCounts(Next(dev, s, c))
  {
    if c == Service {
      hide IndexCounts;
      IndexService(dev, s);
    } else {
      IndexElsewhere(dev, s, c);
      hide Stops, Next;
    }
  }

  /** On every schedule, with or without deadlines passed: completed executions, modulo 2^64. */
  lemma {:induction false} TransactionIndex(dev: Device, schedule: seq<Choice>)
    ensures IndexCounts(Run(dev, schedule))
    decreases |schedule|
  {
    if schedule != [] {
      var n := |schedule| - 1;
      hide Next, IndexCounts;
      TransactionIndex(dev, schedule[..n]);
      IndexNext(dev, Run(dev, schedule[..n]), schedule[n]);
    }
  }

  // ---------------------------------------------------------------------------
  // The shutdown phase is not terminal
  // ---------------------------------------------------------------------------

  /** Past the check of the phase, before the store that follows it. */
  predicate WillStore(c: ControllerPc) {
    !c.Out? && !c.Checking? && !c.Waiting?
  }

  predicate ShutDown(s: State) {
    s.bus.phase == ShutdownRequested && s.service.Done?
  }

  lemma ShutDownKept(dev: Device, s: State, c: Choice)
    requires InBounds(s) && ShutDown(s) && !WillStore(s.controller)
    ensures ShutDown(Next(dev, s, c)) && !WillStore(Next(dev, s, c).controller)
  {
  }

  lemma {:induction false} RunShutDown(dev: Device, s: State, schedule: seq<Choice>)
    requires InBounds(s) && ShutDown(s) && !WillStore(s.controller)
    ensures ShutDown(RunFrom(dev, s, schedule)) && !WillStore(RunFrom(dev, s, schedule).controller)
    decreases |schedule|
  {
    if schedule != [] {
      var n := |schedule| - 1;
      hide Next, ShutDown;
      RunShutDown(dev, s, schedule[..n]);
      ShutDownKept(dev, RunFrom(dev, s, schedule[..n]), schedule[n]);
    }
  }

  /** Controller steps left until the store to the phase. */
  function StoreIn(c: ControllerPc): nat
    requires ControllerInBounds(c)
  {
    match c
    case CopyWrite(req, copied) => req.writeLength - copied + 4
    case PutWriteLength(_) => 3
    case PutReadLength(_) => 2
    case Post(_) => 1
    case TakeResult(req) => req.readLength + 3
    case CopyRead(req, _, got) => req.readLength - |got| + 2
    case Release(_, _, _) => 1
    case _ => 0
  }

  lemma StoreNearer(s: State)
    requires InBounds(s) && WillStore(s.controller)
    ensures var s' := ControllerStep(s, Continue(false));
            if StoreIn(s.controller) == 1 then s'.bus.phase == TransactionPosted || s'.bus.phase == Idle
            else WillStore(s'.controller) && StoreIn(s'.controller) < StoreIn(s.controller)
  {
  }

  lemma {:induction false} StoreComes(dev: Device, s: State) returns (schedule: seq<Choice>)
    requires InBounds(s) && WillStore(s.controller)
    ensures RunFrom(dev, s, schedule).bus.phase != ShutdownRequested
    decreases StoreIn(s.controller)
  {
    StoreNearer(s);
    var s' := Next(dev, s, GO);
    RunSnoc(dev, s, [], GO);
    assert RunFrom(dev, s, [GO]) == s' by { assert [] + [GO] == [GO]; }
    if StoreIn(s.controller) == 1 {
      schedule := [GO];
    } else {
      var rest := StoreComes(dev, s');
      schedule := [GO] + rest;
      RunConcat(dev, s, [GO], rest);
    }
  }

  /**
   The protocol header calls the shutdown phase terminal.  Once stored it stays for
   good exactly when the controller is not past its check of the phase at that moment.
   */
  lemma ShutdownPhaseIsTerminalIff(dev: Device, schedule: seq<Choice>)
    requires Run(dev, schedule).bus.phase == ShutdownRequested
    ensures !WillStore(Run(dev, schedule).controller) <==>
            forall more :: Run(dev, schedule + more).bus.phase == ShutdownRequested
  {
    hide Next, RunFrom;
    RunStopped(dev, schedule);
    var s := Run(dev, schedule);
    if WillStore(s.controller) {
      var more := StoreComes(dev, s);
      RunConcat(dev, Initial(), schedule, more);
      assert Run(dev, schedule + more).bus.phase != ShutdownRequested;
    } else {
      forall more ensures Run(dev, schedule + more).bus.phase == ShutdownRequested {
        RunConcat(dev, Initial(), schedule, more);
        RunShutDown(dev, s, more);
      }
    }
  }

  /** An empty probe: no bytes either way. */
  const PROBE: Request := RawRequest(0, Null, 0, true, 0)

  const CHECKED := [Controller(Begin(PROBE)), GO]

  const CHECKED_THEN_STOPPED := CHECKED + [Stopper] + [Service] + [Stopper] + [Stopper] + [Stopper]

  lemma RunChecked(dev: Device)
    ensures Run(dev, CHECKED) == Initial().(controller := CopyWrite(PROBE, 0))
  {
    hide RunFrom;
    RunNothing(dev);
    var s := Reach(dev, [], Initial(), Controller(Begin(PROBE)));
    assert [] + [Controller(Begin(PROBE))] == [Controller(Begin(PROBE))];
    s := Reach(dev, [Controller(Begin(PROBE))], s, GO);
    assert [Controller(Begin(PROBE))] + [GO] == CHECKED;
  }

  lemma RunCheckedThenStopped(dev: Device)
    ensures var s := Run(dev, CHECKED_THEN_STOPPED);
            s.bus.phase == ShutdownRequested && s.controller == CopyWrite(PROBE, 0)
  {
    hide RunFrom;
    RunChecked(dev);
    var at := CHECKED;
    var s := Run(dev, at);
    s := Reach(dev, at, s, Stopper);
    at := at + [Stopper];
    s := Reach(dev, at, s, Service);
    at := at + [Service];
    s := Reach(dev, at, s, Stopper);
    at := at + [Stopper];
    s := Reach(dev, at, s, Stopper);
    at := at + [Stopper];
    s := Reach(dev, at, s, Stopper);
    assert at + [Stopper] == CHECKED_THEN_STOPPED;
  }

  /** Such a moment is reached: the call checks the phase, `stop()` runs, the call posts over it. */
  lemma ShutdownPhaseOverwritten(dev: Device)
    ensures Run(dev, CHECKED_THEN_STOPPED).bus.phase == ShutdownRequested
    ensures Run(dev, CHECKED_THEN_STOPPED + [GO] + [GO] + [GO] + [GO]).bus.phase == TransactionPosted
  {
    hide RunFrom;
    RunCheckedThenStopped(dev);
    var at := CHECKED_THEN_STOPPED;
    var s := Run(dev, at);
    s := Reach(dev, at, s, GO);
    at := at + [GO];
    s := Reach(dev, at, s, GO);
    at := at + [GO];
    s := Reach(dev, at, s, GO);
    at := at + [GO];
    s := Reach(dev, at, s, GO);
  }

  // ---------------------------------------------------------------------------
  // What the shutdown phase is for
  // ---------------------------------------------------------------------------

  /**
   A call that waits, or has yet to look at the phase, when the shutdown phase is stored
   fails at its next look, without waiting for its deadline.
   */
  lemma FailsFast(dev: Device, schedule: seq<Choice>)
    requires var s := Run(dev, schedule);
             s.bus.phase == ShutdownRequested && (s.controller.Checking? || s.controller.Waiting?)
    ensures var s, s' := Run(dev, schedule), Run(dev, schedule + [GO]);
            && s'.controller == Out && s'.flags.timedOut == s.flags.timedOut
            && |s'.history.calls| == |s.history.calls| + 1
            && var c := s'.history.calls[|s.history.calls|];
               c.request == s.controller.req && c.result == BusFault && c.got == []
  {
    hide RunFrom;
    var s' := Reach(dev, schedule, Run(dev, schedule), GO);
  }

  /** Nothing has been stopped. */
  ghost predicate Untouched(s: State) {
    s.stopper == Away && !s.stopRequested && s.bus.ready && !s.flags.stopReturned && s.bus.phase != ShutdownRequested
  }

  lemma UntouchedNext(dev: Device, s: State, c: Choice)
    requires InBounds(s) && Untouched(s) && c != Stopper
    ensures Untouched(Next(dev, s, c))
  {
    hide ControllerStep, ServiceStep;
    match c
    case Controller(input) =>
      ControllerFrame(s, input);
      ControllerBus(s, input);
      ControllerPhase(s, input);
    case Service =>
      ServiceFrame(dev, s);
      ServiceBus(dev, s);
  }

  lemma ControllerPhase(s: State, input: ControllerInput)
    requires InBounds(s)
    ensures ControllerStep(s, input).bus.phase in {s.bus.phase, TransactionPosted, Idle}
  {
  }

  /** A part is stopped, and a call told so, only where `stop()` is called. */
  lemma {:induction false} StoppedOnlyByStop(dev: Device, schedule: seq<Choice>)
    requires Stopper !in schedule
    ensures Untouched(Run(dev, schedule))
    decreases |schedule|
  {
    if schedule != [] {
      var n := |schedule| - 1;
      hide Next, Untouched;
      assert schedule[n] in schedule && forall c :: c in schedule[..n] ==> c in schedule;
      StoppedOnlyByStop(dev, schedule[..n]);
      UntouchedNext(dev, Run(dev, schedule[..n]), schedule[n]);
    } else {
      RunNothing(dev);
    }
  }

  lemma TimedOutNext(dev: Device, s: State, c: Choice)
    requires InBounds(s) && !s.flags.timedOut && c != Controller(Continue(true))
    ensures !Next(dev, s, c).flags.timedOut
  {
    hide ControllerStep, ServiceStep, StopperStep;
    match c
    case Controller(input) => DeadlineNeeded(s, input);
    case Service => ServiceFrame(dev, s);
    case Stopper => StopperFrame(s);
  }

  lemma DeadlineNeeded(s: State, input: ControllerInput)
    requires InBounds(s) && !s.flags.timedOut && input != Continue(true)
    ensures !ControllerStep(s, input).flags.timedOut
  {
  }

  /** A call gives up only where its deadline passes. */
  lemma {:induction false} TimedOutOnlyAtADeadline(dev: Device, schedule: seq<Choice>)
    requires Controller(Continue(true)) !in schedule
    ensures !Run(dev, schedule).flags.timedOut
    decreases |schedule|
  {
    if schedule != [] {
      var n := |schedule| - 1;
      hide Next;
      assert schedule[n] in schedule && forall c :: c in schedule[..n] ==> c in schedule;
      TimedOutOnlyAtADeadline(dev, schedule[..n]);
      TimedOutNext(dev, Run(dev, schedule[..n]), schedule[n]);
    } else {
      RunNothing(dev);
    }
  }
}
