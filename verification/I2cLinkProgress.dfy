/**
 Bounded completion: how many steps of the service thread a posted transaction,
 or the join inside `stop()`, can still take.
 */
module I2cLinkProgress {
  import opened I2cTransaction
  import opened I2cRegion
  import opened I2cLink
  import opened I2cLinkSafety

  /**
   Steps of the service thread until it publishes, when it next sees work; linear
   in the posted lengths.
   */
  function StepsToPublish(s: State): nat
    requires InBounds(s)
  {
    match s.service
    case Head => s.bus.writeLength + s.bus.readLength + 13
    case Poll => s.bus.writeLength + s.bus.readLength + 12
    case LoadAddress => s.bus.writeLength + s.bus.readLength + 11
    case LoadWriteLength(_) => s.bus.writeLength + s.bus.readLength + 10
    case LoadReadLength(_, w) => w + s.bus.readLength + 9
    case StartWrite(_, w, r) => w + r + 8
    case Writing(_, w, r, i) => w - i + r + 7
    case StartRead(_, r) => r + 6
    case Reading(r, i) => r - i + 5
    case Stopping(_) => 4
    case StoreResult(_) => 3
    case BumpIndex => 2
    case Publish => 1
    case Done => 0
  }

  /** The service thread has ended, or will before it looks at the phase again. */
  predicate Retired(s: State) {
    s.service.Done? || (s.service.Head? && s.stopRequested)
  }

  /** A posted transaction with the service thread behind it. */
  ghost predicate InService(s: State)
    requires InBounds(s)
  {
    && s.controller.Waiting?
    && s.bus.phase == TransactionPosted
    && !s.service.Done? && !s.stopRequested
  }

  /** What is posted is published, whether or not anybody waits for it. */
  lemma PostedNearer(dev: Device, s: State)
    requires InBounds(s) && s.bus.phase == TransactionPosted && !Retired(s)
    ensures var s' := ServiceStep(dev, s);
            if s.service.Publish? then s'.bus.phase == TransactionComplete
            else s'.bus.phase == TransactionPosted && !Retired(s') && StepsToPublish(s') < StepsToPublish(s)
  {
    if !s.service.Publish? {
      StaysPosted(dev, s);
      if Spinning(s.service) {
        SpinNearer(dev, s);
      } else if s.service.Writing? || s.service.Reading? {
        ByteNearer(dev, s);
      } else {
        WalkNearer(dev, s);
      }
    }
    hide StepsToPublish;
  }

  lemma StaysPosted(dev: Device, s: State)
    requires InBounds(s) && s.bus.phase == TransactionPosted && !Retired(s) && !s.service.Publish?
    ensures var s' := ServiceStep(dev, s); s'.bus.phase == TransactionPosted && !Retired(s')
  {
  }

  lemma SpinNearer(dev: Device, s: State)
    requires InBounds(s) && s.bus.phase == TransactionPosted && !Retired(s) && Spinning(s.service)
    ensures StepsToPublish(ServiceStep(dev, s)) < StepsToPublish(s)
  {
  }

  lemma ByteNearer(dev: Device, s: State)
    requires InBounds(s) && (s.service.Writing? || s.service.Reading?)
    ensures StepsToPublish(ServiceStep(dev, s)) < StepsToPublish(s)
  {
  }

  lemma WalkNearer(dev: Device, s: State)
    requires InBounds(s) && Executing(s.service) && !s.service.Writing? && !s.service.Reading?
    ensures StepsToPublish(ServiceStep(dev, s)) < StepsToPublish(s)
  {
  }

  /** Every step of the service thread brings the publication nearer. */
  lemma ServiceNearer(dev: Device, s: State)
    requires InBounds(s) && InService(s)
    ensures var s' := ServiceStep(dev, s);
            if s.service.Publish? then s'.bus.phase == TransactionComplete
            else InService(s') && StepsToPublish(s') < StepsToPublish(s)
  {
    PostedNearer(dev, s);
    hide StepsToPublish;
  }

  /** The waiting controller, until its deadline passes, does not move it away. */
  lemma WaitingHarmless(s: State, input: ControllerInput)
    requires InBounds(s) && InService(s) && input != Continue(true)
    ensures ControllerStep(s, input) == s
  {
  }

  function ServiceSteps(schedule: seq<Choice>): nat {
    if schedule == [] then 0
    else (if schedule[0] == Service then 1 else 0) + ServiceSteps(schedule[1..])
  }

  /** The caller's thread and the service thread only, and the deadline far away. */
  predicate Unhurried(schedule: seq<Choice>) {
    forall c :: c in schedule ==> c != Stopper && c != Controller(Continue(true))
  }

  /**
   Completion within a linear number of service steps, however the controller's
   polling is interleaved: some prefix of the schedule ends with the answer published.
   */
  lemma {:induction false} Completes(dev: Device, s: State, schedule: seq<Choice>) returns (k: nat)
    requires InBounds(s) && InService(s) && Unhurried(schedule)
    requires ServiceSteps(schedule) >= StepsToPublish(s)
    ensures k <= |schedule|
    ensures RunFrom(dev, s, schedule[..k]).bus.phase == TransactionComplete
    decreases |schedule|
  {
    NotYet(s);
    FirstChoice(schedule);
    hide Next, InService, RunFrom, StepsToPublish, InBounds, Run, Unhurried, ServiceSteps;
    var s' := Next(dev, s, schedule[0]);
    Nearer(dev, s, schedule[0]);
    if s'.bus.phase == TransactionComplete {
      k := 1;
      RunCons(dev, s, schedule, 0);
      NothingRun(dev, s');
    } else {
      k := Completes(dev, s', schedule[1..]);
      RunCons(dev, s, schedule, k);
      k := k + 1;
    }
  }

  lemma {:induction false} FirstChoice(schedule: seq<Choice>)
    requires Unhurried(schedule) && ServiceSteps(schedule) > 0
    ensures var c := schedule[0];
            && c != Stopper && c != Controller(Continue(true)) && Unhurried(schedule[1..])
            && ServiceSteps(schedule) == (if c == Service then 1 else 0) + ServiceSteps(schedule[1..])
  {
    assert schedule[0] in schedule && forall c :: c in schedule[1..] ==> c in schedule;
  }

  /** The first step, and then `k` more. */
  lemma RunCons(dev: Device, s: State, schedule: seq<Choice>, k: nat)
    requires InBounds(s) && k < |schedule|
    ensures RunFrom(dev, s, schedule[..k + 1]) == RunFrom(dev, Next(dev, s, schedule[0]), schedule[1..][..k])
  {
    hide RunFrom, Next, InBounds;
    var c, rest := schedule[0], schedule[1..][..k];
    assert schedule[..k + 1] == [c] + rest;
    OneStep(dev, s, c);
    RunConcat(dev, s, [c], rest);
  }

  lemma NotYet(s: State)
    requires InBounds(s) && InService(s)
    ensures StepsToPublish(s) > 0
  {
  }

  lemma OneStep(dev: Device, s: State, c: Choice)
    requires InBounds(s)
    ensures RunFrom(dev, s, [c]) == Next(dev, s, c)
  {
    hide Next;
    RunSnoc(dev, s, [], c);
    assert [] + [c] == [c];
  }

  lemma Nearer(dev: Device, s: State, c: Choice)
    requires InBounds(s) && InService(s) && c != Stopper && c != Controller(Continue(true))
    ensures var s' := Next(dev, s, c);
            s'.bus.phase != TransactionComplete ==>
              InService(s') && StepsToPublish(s') + (if c == Service then 1 else 0) <= StepsToPublish(s)
  {
    hide InService, StepsToPublish;
    if c == Service {
      ServiceNearer(dev, s);
    } else {
      WaitingHarmless(s, c.input);
    }
  }

  /** The bound, in the lengths of the posted call. */
  lemma CompletionIsLinear(dev: Device, schedule: seq<Choice>)
    requires var s := Run(dev, schedule); !s.flags.timedOut && InService(s)
    ensures var s := Run(dev, schedule);
            StepsToPublish(s) <= s.controller.req.writeLength + s.controller.req.readLength + 13
  {
    hide Run, HistoryOk, RunTransaction;
    RunKeeps(dev, schedule);
    var s := Run(dev, schedule);
    assert Holds(s.bus, PostedOf(s.controller.req));
    if Executing(s.service) {
      var req := WorkIsPosted(dev, s);
      assert StateUnderway(dev, s, PostedOf(req));
    }
  }

  // ---------------------------------------------------------------------------
  // The join
  // ---------------------------------------------------------------------------

  /** Steps of the service thread until it is done, once `stop()` has raised its flag. */
  function StepsToDone(v: ServicePc): nat
    requires ServiceInBounds(v)
  {
    match v
    case Done => 0
    case Head => 1
    case Publish => 2
    case BumpIndex => 3
    case StoreResult(_) => 4
    case Stopping(_) => 5
    case Reading(r, i) => r - i + 6
    case StartRead(_, r) => r + 7
    case Writing(_, w, r, i) => w - i + r + 8
    case StartWrite(_, w, r) => w + r + 9
    case LoadReadLength(_, w) => w + MAX_PHASE_BYTES + 10
    case LoadWriteLength(_) => 2 * MAX_PHASE_BYTES + 11
    case LoadAddress => 2 * MAX_PHASE_BYTES + 12
    case Poll => 2 * MAX_PHASE_BYTES + 13
  }

  lemma ServiceWindsDown(dev: Device, s: State)
    requires InBounds(s) && s.stopRequested
    ensures var s' := ServiceStep(dev, s);
            && s'.stopRequested
            && (if s.service.Done? then s'.service.Done? else StepsToDone(s'.service) < StepsToDone(s.service))
  {
  }

  lemma OthersLeaveService(dev: Device, s: State, c: Choice)
    requires InBounds(s) && s.stopRequested && c != Service
    ensures var s' := Next(dev, s, c); s'.stopRequested && s'.service == s.service
  {
    hide ControllerStep, StopperStep;
    match c
    case Controller(input) => ControllerFrame(s, input);
    case Stopper => StopperFrame(s);
  }

  /**
   The join ends: once the flag is up, 525 steps of the service thread finish it,
   whatever the controller posts meanwhile and whether or not it has given up.
   */
  lemma {:induction false} JoinEnds(dev: Device, s: State, schedule: seq<Choice>)
    requires InBounds(s) && s.stopRequested
    requires ServiceSteps(schedule) >= StepsToDone(s.service)
    ensures RunFrom(dev, s, schedule).service.Done?
    ensures StepsToDone(s.service) <= 525
    decreases |schedule|
  {
    WithinBound(s.service);
    hide Next, InBounds, StepsToDone, RunFrom, ServiceInBounds;
    if schedule == [] {
      NothingRun(dev, s);
    } else {
      WindsDown(dev, s, schedule[0]);
      RunCons(dev, s, schedule, |schedule| - 1);
      JoinEnds(dev, Next(dev, s, schedule[0]), schedule[1..]);
      assert schedule[..|schedule|] == schedule && schedule[1..][..|schedule| - 1] == schedule[1..];
    }
  }

  lemma NothingRun(dev: Device, s: State)
    requires InBounds(s)
    ensures RunFrom(dev, s, []) == s
  {
  }

  lemma WithinBound(v: ServicePc)
    requires ServiceInBounds(v)
    ensures StepsToDone(v) <= 525 && (StepsToDone(v) == 0 <==> v.Done?)
  {
  }

  /** Every step of the service thread until it is done brings that nearer; no other step delays it. */
  lemma WindsDown(dev: Device, s: State, c: Choice)
    requires InBounds(s) && s.stopRequested
    ensures var s' := Next(dev, s, c);
            && s'.stopRequested
            && StepsToDone(s'.service) + (if c == Service && !s.service.Done? then 1 else 0) <= StepsToDone(s.service)
  {
    hide StepsToDone, ServiceStep, ControllerStep, StopperStep;
    if c == Service {
      ServiceWindsDown(dev, s);
    } else {
      OthersLeaveService(dev, s, c);
    }
  }
}
