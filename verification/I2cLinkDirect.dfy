/**
 While no call gives up and `stop()` is not called, the handshake is invisible:
 the calls answer as if each had run its transaction on the part itself.
 */
module I2cLinkDirect {
  import opened Words
  import opened I2cTransaction
  import opened I2cLink
  import opened I2cLinkSafety

  datatype Direct = Direct(log: Log, result: CallResult, got: seq<Byte>)

  /** One call, without the shared memory: inadmissible arguments fault and reach nobody. */
  function DirectCall(dev: Device, log: Log, req: Request): Direct {
    if !Admissible(req) then Direct(log, BusFault, [])
    else
      var o := RunTransaction(dev, log, PostedOf(req));
      var (result, got) := AnswerOf(req, o);
      Direct(o.log, result, got)
  }

  /** The part's log after a sequence of calls. */
  function DirectLog(dev: Device, calls: seq<Call>): Log
    decreases |calls|
  {
    if calls == [] then []
    else DirectCall(dev, DirectLog(dev, calls[..|calls| - 1]), calls[|calls| - 1].request).log
  }

  /** Every call returned what it would have returned on the part itself. */
  ghost predicate AsDirect(dev: Device, calls: seq<Call>) {
    forall k :: 0 <= k < |calls| ==>
      var d := DirectCall(dev, DirectLog(dev, calls[..k]), calls[k].request);
      calls[k].result == d.result && calls[k].got == d.got
  }

  lemma AsDirectSnoc(dev: Device, calls: seq<Call>, c: Call)
    requires AsDirect(dev, calls)
    requires var d := DirectCall(dev, DirectLog(dev, calls), c.request);
             c.result == d.result && c.got == d.got
    ensures AsDirect(dev, calls + [c])
    ensures DirectLog(dev, calls + [c]) == DirectCall(dev, DirectLog(dev, calls), c.request).log
  {
    hide DirectCall, DirectLog;
    var all := calls + [c];
    forall k | 0 <= k < |all|
      ensures var d := DirectCall(dev, DirectLog(dev, all[..k]), all[k].request);
              all[k].result == d.result && all[k].got == d.got
    {
      assert all[..k] == if k < |calls| then calls[..k] else calls;
    }
    DirectLogSnoc(dev, calls, c);
  }

  lemma DirectLogSnoc(dev: Device, calls: seq<Call>, c: Call)
    ensures DirectLog(dev, calls + [c]) == DirectCall(dev, DirectLog(dev, calls), c.request).log
  {
    hide DirectCall;
    assert (calls + [c])[..|calls|] == calls;
  }

  /** The part's log when the running call began, or now if none is past its posting. */
  function CallsLog(s: State): Log {
    var e := s.history.executions;
    if PostingOpen(s.controller) && |e| == |s.history.posted| > 0 then e[|e| - 1].before else EndLog(e)
  }

  ghost predicate Undisturbed(dev: Device, s: State) {
    AsDirect(dev, s.history.calls) && CallsLog(s) == DirectLog(dev, s.history.calls)
  }

  /** The call being released draws the answer of a direct call. */
  lemma ReleasedIsDirect(dev: Device, s: State, c: Call)
    requires InBounds(s) && Invariant(dev, s) && s.controller.Release?
    requires var (req, word, got) := (s.controller.req, s.controller.word, s.controller.got);
             c.request == req && c.result == CallResultOf(word) && c.got == got
    ensures var d := DirectCall(dev, CallsLog(s), c.request);
            c.result == d.result && c.got == d.got && d.log == EndLog(s.history.executions)
  {
    hide RunTransaction, AnswerOf;
    var h := s.history;
    var n := |h.executions| - 1;
    assert Matches(dev, h.posted[n], h.executions[n]);
    hide HistoryOk;
    DrawsTheAnswer(dev, c, h.executions[n]);
  }

  lemma UndisturbedRelease(dev: Device, s: State, input: ControllerInput)
    requires InBounds(s) && Invariant(dev, s) && Undisturbed(dev, s) && s.controller.Release?
    ensures Undisturbed(dev, ControllerStep(s, input))
  {
    hide Invariant, AsDirect, DirectLog, DirectCall;
    var h, h' := s.history, ControllerStep(s, input).history;
    var c := h'.calls[|h.calls|];
    ReleasedIsDirect(dev, s, c);
    AsDirectSnoc(dev, h.calls, c);
  }

  /** Without a deadline passed or a shutdown, a call that does not release was refused. */
  lemma ReturnsFromChecking(dev: Device, s: State, input: ControllerInput)
    requires InBounds(s) && Invariant(dev, s) && !s.stopRequested
    requires var s' := ControllerStep(s, input);
             !s'.flags.timedOut && s.controller != Out && s'.controller == Out && !s.controller.Release?
    ensures s.controller.Checking? && !Admissible(s.controller.req)
  {
    hide RunTransaction, HistoryOk;
  }

  lemma UndisturbedReturn(dev: Device, s: State, input: ControllerInput)
    requires InBounds(s) && Invariant(dev, s) && Undisturbed(dev, s) && !s.stopRequested
    requires var s' := ControllerStep(s, input);
             !s'.flags.timedOut && s.controller != Out && s'.controller == Out
    ensures Undisturbed(dev, ControllerStep(s, input))
  {
    hide Invariant, AsDirect, DirectLog, RunTransaction;
    if s.controller.Release? {
      hide Undisturbed;
      UndisturbedRelease(dev, s, input);
    } else {
      ReturnsFromChecking(dev, s, input);
      var h' := ControllerStep(s, input).history;
      AsDirectSnoc(dev, s.history.calls, h'.calls[|s.history.calls|]);
    }
  }

  /** A step inside a call leaves the calls, and the log they began with, alone. */
  lemma CallsLogKept(s: State, input: ControllerInput)
    requires InBounds(s) && |s.history.executions| <= |s.history.posted|
    requires ControllerStep(s, input).controller != Out || s.controller == Out
    ensures var s' := ControllerStep(s, input);
            s'.history.calls == s.history.calls && CallsLog(s') == CallsLog(s)
  {
    InsideStep(s, input);
    hide ControllerStep, EndLog;
  }

  lemma InsideStep(s: State, input: ControllerInput)
    requires InBounds(s)
    requires ControllerStep(s, input).controller != Out || s.controller == Out
    ensures var s' := ControllerStep(s, input);
            && s'.history.calls == s.history.calls && s'.history.executions == s.history.executions
            && PostingOpen(s'.controller) == (PostingOpen(s.controller) || s.controller.Post?)
            && |s'.history.posted| == |s.history.posted| + (if s.controller.Post? then 1 else 0)
  {
    ControllerFrame(s, input);
    ControllerCalls(s, input);
    PostingOpens(s, input);
    hide ControllerStep;
  }

  lemma PostingOpens(s: State, input: ControllerInput)
    requires InBounds(s)
    requires ControllerStep(s, input).controller != Out || s.controller == Out
    ensures var s' := ControllerStep(s, input);
            && PostingOpen(s'.controller) == (PostingOpen(s.controller) || s.controller.Post?)
            && |s'.history.posted| == |s.history.posted| + (if s.controller.Post? then 1 else 0)
  {
  }

  lemma UndisturbedInside(dev: Device, s: State, input: ControllerInput)
    requires InBounds(s) && Invariant(dev, s) && Undisturbed(dev, s)
    requires ControllerStep(s, input).controller != Out || s.controller == Out
    ensures Undisturbed(dev, ControllerStep(s, input))
  {
    PostingsSoFar(dev, s.history);
    hide InBounds, Invariant, AsDirect, DirectLog, CallsLog, ControllerStep;
    CallsLogKept(s, input);
  }

  lemma UndisturbedService(dev: Device, s: State)
    requires InBounds(s) && Invariant(dev, s) && Undisturbed(dev, s)
    ensures Undisturbed(dev, ServiceStep(dev, s))
  {
    if s.service.BumpIndex? {
      UndisturbedBump(dev, s);
    } else {
      hide Invariant, AsDirect, DirectLog, EndLog;
      ExecutionsGrowAtBump(dev, s);
      hide ServiceStep;
    }
  }

  lemma ExecutionsGrowAtBump(dev: Device, s: State)
    requires InBounds(s) && !s.service.BumpIndex?
    ensures var s' := ServiceStep(dev, s); s'.history == s.history && s'.controller == s.controller
  {
  }

  lemma UndisturbedBump(dev: Device, s: State)
    requires InBounds(s) && Invariant(dev, s) && Undisturbed(dev, s) && s.service.BumpIndex?
    ensures Undisturbed(dev, ServiceStep(dev, s))
  {
    hide RunTransaction, AsDirect, DirectLog, HistoryOk;
    var req := WorkIsPosted(dev, s);
  }

  lemma UndisturbedNext(dev: Device, s: State, choice: Choice)
    requires InBounds(s) && Invariant(dev, s) && Undisturbed(dev, s) && !s.stopRequested
    requires !Next(dev, s, choice).flags.timedOut
    ensures Undisturbed(dev, Next(dev, s, choice))
  {
    hide Invariant, Undisturbed;
    match choice
    case Controller(input) =>
      if s.controller != Out && ControllerStep(s, input).controller == Out {
        UndisturbedReturn(dev, s, input);
      } else {
        UndisturbedInside(dev, s, input);
      }
    case Service => UndisturbedService(dev, s);
    case Stopper => UndisturbedStopper(dev, s);
  }

  lemma UndisturbedStopper(dev: Device, s: State)
    requires InBounds(s) && Undisturbed(dev, s)
    ensures Undisturbed(dev, StopperStep(s))
  {
    hide AsDirect, DirectLog;
  }

  lemma {:induction false} RunUndisturbed(dev: Device, schedule: seq<Choice>)
    requires var s := Run(dev, schedule); !s.flags.timedOut && !s.stopRequested
    ensures Undisturbed(dev, Run(dev, schedule))
    decreases |schedule|
  {
    if schedule != [] {
      var n := |schedule| - 1;
      var s := Run(dev, schedule[..n]);
      LatchesHold(dev, s, schedule[n]);
      hide Next, Invariant, Undisturbed;
      RunUndisturbed(dev, schedule[..n]);
      RunKeeps(dev, schedule[..n]);
      UndisturbedNext(dev, s, schedule[n]);
    }
  }

  lemma LatchesHold(dev: Device, s: State, c: Choice)
    requires InBounds(s)
    ensures var s' := Next(dev, s, c);
            && (s.flags.timedOut ==> s'.flags.timedOut)
            && (s.stopRequested ==> s'.stopRequested)
            && (s.flags.stopReturned ==> s'.flags.stopReturned)
  {
    hide ControllerStep, ServiceStep, StopperStep;
    match c
    case Controller(input) => ControllerFrame(s, input);
    case Service => ServiceFrame(dev, s);
    case Stopper => StopperFrame(s);
  }

  /**
   On every schedule without a deadline passed or a `stop()`, each call returns
   what it would return on the part itself, and between calls the part has seen
   exactly what those direct calls would have shown it.
   */
  lemma CallsAreDirect(dev: Device, schedule: seq<Choice>)
    requires var s := Run(dev, schedule); !s.flags.timedOut && !s.stopRequested
    ensures var s := Run(dev, schedule);
            && AsDirect(dev, s.history.calls)
            && (s.controller == Out ==> s.log == DirectLog(dev, s.history.calls))
  {
    hide Run, HistoryOk, RunTransaction, AsDirect, DirectLog;
    RunKeeps(dev, schedule);
    RunUndisturbed(dev, schedule);
  }
}
