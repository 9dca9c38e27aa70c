/**
 What a call that gives up does to the association of calls with executions: exactly
 when it is harmless, and a run on which the next call answers for the one given up.
 */
module I2cLinkTimeout {
  import opened Words
  import opened I2cTransaction
  import opened I2cRegion
  import opened I2cLink
  import opened I2cLinkSafety
  import opened I2cLinkProgress

  function ProbeOf(address: Byte): Request {
    RawRequest(address, Null, 0, true, 0)
  }

  const GIVE_UP := Controller(Continue(true))

  const POSTING: seq<Choice> := [GO] + [GO] + [GO] + [GO] + [GO]

  const FINDING: seq<Choice> := [Service] + [Service] + [Service] + [Service] + [Service]

  const REFUSING: seq<Choice> := [Service] + [Service] + [Service] + [Service]

  /** From outside, `Begin` and five steps post a probe. */
  lemma Posts(dev: Device, schedule: seq<Choice>, s: State, address: Byte) returns (s': State)
    requires InBounds(s) && s == Run(dev, schedule)
    requires s.controller == Out && s.bus.phase != ShutdownRequested && address < 0x80
    ensures InBounds(s') && s' == Run(dev, schedule + [Controller(Begin(ProbeOf(address)))] + POSTING)
    ensures s' == s.(controller := Waiting(ProbeOf(address)),
                     bus := s.bus.(phase := TransactionPosted, address := address, writeLength := 0, readLength := 0),
                     history := s.history.(posted := s.history.posted + [Posted(address, [], 0)]),
                     flags := s.flags.(late := s.flags.stopReturned))
  {
    hide RunFrom;
    var at := schedule;
    s' := Reach(dev, at, s, Controller(Begin(ProbeOf(address))));
    at := at + [Controller(Begin(ProbeOf(address)))];
    var begun := at;
    s' := Reach(dev, at, s', GO);
    at := at + [GO];
    s' := Reach(dev, at, s', GO);
    at := at + [GO];
    s' := Reach(dev, at, s', GO);
    at := at + [GO];
    s' := Reach(dev, at, s', GO);
    at := at + [GO];
    s' := Reach(dev, at, s', GO);
    assert at + [GO] == begun + POSTING;
  }

  /** The service thread finds a probe. */
  lemma FindsProbe(dev: Device, schedule: seq<Choice>, s: State) returns (s': State)
    requires InBounds(s) && s == Run(dev, schedule)
    requires s.service == Head && !s.stopRequested && s.bus.phase == TransactionPosted
    requires s.bus.address < 0x80 && s.bus.writeLength == s.bus.readLength == 0
    ensures InBounds(s') && s' == Run(dev, schedule + FINDING)
    ensures s' == s.(service := StartWrite(s.bus.address, 0, 0), before := s.log)
  {
    hide RunFrom;
    var at := schedule;
    s' := Reach(dev, at, s, Service);
    at := at + [Service];
    s' := Reach(dev, at, s', Service);
    at := at + [Service];
    s' := Reach(dev, at, s', Service);
    at := at + [Service];
    s' := Reach(dev, at, s', Service);
    at := at + [Service];
    s' := Reach(dev, at, s', Service);
    assert at + [Service] == schedule + FINDING;
  }

  /** The part refuses it, and the service thread stops short of publishing. */
  lemma Refuses(dev: Device, schedule: seq<Choice>, s: State) returns (s': State)
    requires InBounds(s) && s == Run(dev, schedule)
    requires s.bus.address < 0x80 && s.service == StartWrite(s.bus.address, 0, 0)
    requires !dev.startAck(s.log, s.bus.address, false)
    ensures InBounds(s') && s' == Run(dev, schedule + REFUSING)
    ensures s'.service == Publish && s'.bus == s.bus.(word := 1, index := s'.bus.index)
    ensures s'.log == s.log + [Start(s.bus.address, false, false), Stop]
    ensures s'.controller == s.controller && s'.history.calls == s.history.calls && s'.flags == s.flags
  {
    hide RunFrom;
    var at := schedule;
    s' := Reach(dev, at, s, Service);
    at := at + [Service];
    s' := Reach(dev, at, s', Service);
    at := at + [Service];
    s' := Reach(dev, at, s', Service);
    at := at + [Service];
    s' := Reach(dev, at, s', Service);
    assert at + [Service] == schedule + REFUSING;
  }

  /** The late publication reaches the waiting call. */
  lemma AnswersWrongly(dev: Device, schedule: seq<Choice>, s: State) returns (s': State)
    requires InBounds(s) && s == Run(dev, schedule)
    requires s.service == Publish && s.controller == Waiting(ProbeOf(2))
    ensures InBounds(s') && s' == Run(dev, schedule + [Service] + [GO] + [GO] + [GO])
    ensures s'.log == s.log && s'.flags == s.flags && s'.history.executions == s.history.executions
    ensures |s'.history.calls| == |s.history.calls| + 1
    ensures var c := s'.history.calls[|s.history.calls|];
            && c.request == ProbeOf(2) && c.result == CallResultOf(s.bus.word)
            && c.posting == |s.history.posted| - 1
  {
    hide RunFrom;
    s' := Reach(dev, schedule, s, Service);
    s' := Reach(dev, schedule + [Service], s', GO);
    s' := Reach(dev, schedule + [Service] + [GO], s', GO);
    s' := Reach(dev, schedule + [Service] + [GO] + [GO], s', GO);
  }

  /**
   On a part that refuses address 1: a probe of address 1 is given up, a probe of
   address 2 follows, and is told "address not acknowledged" although the part has
   never been asked about address 2.
   */
  lemma GivingUpBreaksAssociation(dev: Device) returns (schedule: seq<Choice>)
    requires !dev.startAck([], 1, false)
    ensures var s := Run(dev, schedule);
            && s.flags.timedOut
            && |s.history.calls| == 2
            && s.history.calls[1].request == ProbeOf(2)
            && s.history.calls[1].result == AddressNacked
            && s.log == [Start(1, false, false), Stop]
  {
    hide RunFrom, Next;
    RunNothing(dev);
    var s := Posts(dev, [], Initial(), 1);
    schedule := [] + [Controller(Begin(ProbeOf(1)))] + POSTING;
    s := GivesUp(dev, schedule, s);
    schedule := schedule + [GIVE_UP];
    s := FindsProbe(dev, schedule, s);
    schedule := schedule + FINDING;
    s := Refuses(dev, schedule, s);
    schedule := schedule + REFUSING;
    s := Posts(dev, schedule, s, 2);
    schedule := schedule + [Controller(Begin(ProbeOf(2)))] + POSTING;
    s := AnswersWrongly(dev, schedule, s);
    schedule := schedule + [Service] + [GO] + [GO] + [GO];
  }

  lemma GivesUp(dev: Device, schedule: seq<Choice>, s: State) returns (s': State)
    requires InBounds(s) && s == Run(dev, schedule)
    requires s.controller.Waiting? && s.bus.phase == TransactionPosted
    ensures InBounds(s') && s' == Run(dev, schedule + [GIVE_UP])
    ensures s' == s.(controller := Out, flags := s.flags.(timedOut := true), history := s'.history)
    ensures s'.history == s.history.(calls := s.history.calls + [
              Call(s.controller.req, BusFault, [], |s.history.posted| - 1, s.flags.late)])
  {
    s' := Reach(dev, schedule, s, GIVE_UP);
  }

  // ---------------------------------------------------------------------------
  // Exactly when it is harmless
  // ---------------------------------------------------------------------------

  /** No execution will follow, and nobody will be told of one. */
  ghost predicate Abandoned(dev: Device, s: State) {
    && Retired(s)
    && s.stopRequested
    && s.bus.phase != TransactionComplete
    && !s.controller.TakeResult? && !s.controller.CopyRead? && !s.controller.Release?
    && HistoryOk(dev, s.history)
    && (s.controller.Waiting? ==> forall c :: c in s.history.calls ==> c.posting < |s.history.posted| - 1)
  }

  /** A call that returns a fault leaves the association as it is. */
  lemma AbandonedReturns(dev: Device, s: State, input: ControllerInput)
    requires InBounds(s) && Abandoned(dev, s) && s.controller != Out && ControllerStep(s, input).controller == Out
    ensures Abandoned(dev, ControllerStep(s, input))
  {
    hide HistoryOk;
    var posting := if s.controller.Waiting? then |s.history.posted| - 1 else -1;
    HistoryReturns(dev, s.history, Call(s.controller.req, BusFault, [], posting, s.flags.late));
  }

  lemma AbandonedPosts(dev: Device, s: State, input: ControllerInput)
    requires InBounds(s) && Abandoned(dev, s) && s.controller.Post?
    ensures Abandoned(dev, ControllerStep(s, input))
  {
    PostStep(s, input);
    PostingsSoFar(dev, s.history);
    HistoryPosts(dev, s.history, PostedOf(s.controller.req));
    hide HistoryOk, ControllerStep;
  }

  lemma AbandonedGoesOn(dev: Device, s: State, input: ControllerInput)
    requires InBounds(s) && Abandoned(dev, s) && !s.controller.Post?
    requires s.controller == Out || ControllerStep(s, input).controller != Out
    ensures Abandoned(dev, ControllerStep(s, input))
  {
    hide HistoryOk, Data;
  }

  lemma AbandonedOthers(dev: Device, s: State, c: Choice)
    requires InBounds(s) && Abandoned(dev, s) && !c.Controller?
    ensures Abandoned(dev, Next(dev, s, c))
  {
    hide HistoryOk;
  }

  lemma AbandonedNext(dev: Device, s: State, c: Choice)
    requires InBounds(s) && Abandoned(dev, s)
    ensures Abandoned(dev, Next(dev, s, c))
  {
    hide Abandoned, ControllerStep, InBounds;
    match c
    case Controller(input) =>
      if s.controller.Post? {
        AbandonedPosts(dev, s, input);
      } else if s.controller != Out && ControllerStep(s, input).controller == Out {
        AbandonedReturns(dev, s, input);
      } else {
        AbandonedGoesOn(dev, s, input);
      }
    case _ => AbandonedOthers(dev, s, c);
  }

  lemma {:induction false} RunAbandoned(dev: Device, s: State, schedule: seq<Choice>)
    requires InBounds(s) && Abandoned(dev, s)
    ensures Abandoned(dev, RunFrom(dev, s, schedule))
    decreases |schedule|
  {
    if schedule != [] {
      var n := |schedule| - 1;
      hide Next, Abandoned;
      RunAbandoned(dev, s, schedule[..n]);
      AbandonedNext(dev, RunFrom(dev, s, schedule[..n]), schedule[n]);
    }
  }

  /** A posting nobody waits for that is, or will be, published. */
  ghost predicate Orphaned(s: State) {
    && s.controller == Out && s.bus.phase == TransactionPosted && !Retired(s)
    && |s.history.executions| <= |s.history.posted| - (if s.service.Publish? then 0 else 1)
  }

  lemma OrphanedNext(dev: Device, s: State)
    requires InBounds(s) && Orphaned(s) && !s.service.Publish?
    ensures var s' := ServiceStep(dev, s); Orphaned(s') && StepsToPublish(s') < StepsToPublish(s)
  {
    PostedNearer(dev, s);
    hide StepsToPublish;
  }

  lemma {:induction false} ReachesPublish(dev: Device, schedule: seq<Choice>, s: State)
    returns (schedule': seq<Choice>, s': State)
    requires InBounds(s) && s == Run(dev, schedule) && Orphaned(s)
    ensures schedule <= schedule'
    ensures InBounds(s') && s' == Run(dev, schedule') && Orphaned(s') && s'.service == Publish
    decreases StepsToPublish(s)
  {
    schedule', s' := schedule, s;
    if s.service != Publish {
      OrphanedNext(dev, s);
      hide RunFrom, StepsToPublish, Orphaned;
      s' := Reach(dev, schedule, s, Service);
      schedule', s' := ReachesPublish(dev, schedule + [Service], s');
    }
  }

  /** An orphaned posting answers the next call that posts, which is never executed. */
  lemma OrphanAnswers(dev: Device, schedule: seq<Choice>, s: State) returns (more: seq<Choice>)
    requires InBounds(s) && s == Run(dev, schedule) && Orphaned(s)
    ensures !AnswersAreExecutions(dev, Run(dev, schedule + more).history)
  {
    hide RunFrom, Next, StepsToPublish;
    var at, s' := ReachesPublish(dev, schedule, s);
    s' := Posts(dev, at, s', 2);
    at := at + [Controller(Begin(ProbeOf(2)))] + POSTING;
    s' := AnswersWrongly(dev, at, s');
    at := at + [Service] + [GO] + [GO] + [GO];
    more := at[|schedule|..];
    assert schedule + more == at;
    hide AnswersAreExecutions;
    NotExecuted(dev, s'.history);
  }

  lemma NotExecuted(dev: Device, h: History)
    requires h.calls != []
    requires var c := h.calls[|h.calls| - 1]; c.result != BusFault && c.posting >= |h.executions|
    ensures !AnswersAreExecutions(dev, h)
  {
    assert h.calls[|h.calls| - 1] in h.calls;
  }

  lemma GivenUpIsAbandoned(dev: Device, s: State, s': State)
    requires InBounds(s) && Invariant(dev, s) && s.controller.Waiting? && s.bus.phase == TransactionPosted
    requires Retired(s) && s' == s.(controller := Out, flags := s'.flags, history := s'.history)
    requires s'.history == s.history.(calls := s.history.calls + [
               Call(s.controller.req, BusFault, [], |s.history.posted| - 1, s.flags.late)])
    ensures Abandoned(dev, s')
  {
    hide HistoryOk, RunTransaction, Underway;
    HistoryReturns(dev, s.history, Call(s.controller.req, BusFault, [], |s.history.posted| - 1, s.flags.late));
  }

  lemma GivenUpIsOrphaned(dev: Device, s: State, s': State)
    requires InBounds(s) && Invariant(dev, s) && s.controller.Waiting? && s.bus.phase == TransactionPosted
    requires !Retired(s) && s' == s.(controller := Out, flags := s'.flags, history := s'.history)
    requires s'.history.posted == s.history.posted && s'.history.executions == s.history.executions
    ensures Orphaned(s')
  {
    hide HistoryOk, RunTransaction, Underway;
  }

  /**
   At the first deadline passed: every call, before and after, on every schedule that
   follows, is still answered by its own execution exactly when the service thread has
   ended or is about to.
   */
  lemma GivingUpIsHarmlessIff(dev: Device, at: seq<Choice>)
    requires var s := Run(dev, at);
             !s.flags.timedOut && s.controller.Waiting? && s.bus.phase == TransactionPosted
    ensures Retired(Run(dev, at)) <==>
            forall more :: AnswersAreExecutions(dev, Run(dev, at + [GIVE_UP] + more).history)
  {
    hide RunFrom, Next, AnswersAreExecutions;
    RunKeeps(dev, at);
    var s := Run(dev, at);
    var given := GivesUp(dev, at, s);
    if Retired(s) {
      GivenUpIsAbandoned(dev, s, given);
      forall more ensures AnswersAreExecutions(dev, Run(dev, at + [GIVE_UP] + more).history) {
        RunConcat(dev, Initial(), at + [GIVE_UP], more);
        RunAbandoned(dev, given, more);
        HistoryAnswers(dev, RunFrom(dev, given, more).history);
      }
    } else {
      GivenUpIsOrphaned(dev, s, given);
      var more := OrphanAnswers(dev, at + [GIVE_UP], given);
      assert !AnswersAreExecutions(dev, Run(dev, at + [GIVE_UP] + more).history);
    }
  }
}
