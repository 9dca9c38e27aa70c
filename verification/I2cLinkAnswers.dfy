/**
 What a call answers, in terms of its arguments and of the bus events alone: which calls
 are refused, and what the result and the bytes of every other one say.
 */
module I2cLinkAnswers {
  import opened Words
  import opened I2cTransaction
  import opened I2cLink
  import opened I2cLinkSafety
  import opened I2cLinkDirect

  // ---------------------------------------------------------------------------
  // Refused calls
  // ---------------------------------------------------------------------------

  /** Over-long in either phase, or bytes to write and no buffer to take them from. */
  predicate Unacceptable(req: Request) {
    req.writeLength > 256 || req.readLength > 256 || (req.writeLength > 0 && req.write.Null?)
  }

  /** Returned without a posting. */
  ghost predicate Refused(c: Call) {
    c.result == BusFault && c.got == [] && c.posting == -1
  }

  ghost predicate RefusalsHold(s: State) {
    && (s.controller.Out? || s.controller.Checking? || !Unacceptable(s.controller.req))
    && (forall c :: c in s.history.calls && Unacceptable(c.request) ==> Refused(c))
  }

  lemma RefusalsCheck(s: State, input: ControllerInput)
    requires InBounds(s) && RefusalsHold(s) && s.controller.Checking?
    ensures RefusalsHold(ControllerStep(s, input))
  {
  }

  lemma RefusalsElsewhere(s: State, input: ControllerInput)
    requires InBounds(s) && RefusalsHold(s) && !s.controller.Checking?
    ensures RefusalsHold(ControllerStep(s, input))
  {
    ControllerCalls(s, input);
    SameRequest(s, input);
    hide ControllerStep;
  }

  lemma SameRequest(s: State, input: ControllerInput)
    requires InBounds(s)
    ensures var s' := ControllerStep(s, input);
            s.controller != Out && s'.controller != Out ==> s'.controller.req == s.controller.req
    ensures var s' := ControllerStep(s, input);
            s.controller == Out ==> s'.controller.Out? || s'.controller.Checking?
  {
    hide Data;
  }

  /**
   On every schedule, deadlines passed or not: unacceptable arguments are refused with a
   bus fault, nothing is posted for them and nothing stored.
   */
  lemma {:induction false} UnacceptableIsRefused(dev: Device, schedule: seq<Choice>)
    ensures RefusalsHold(Run(dev, schedule))
    decreases |schedule|
  {
    if schedule != [] {
      var n := |schedule| - 1;
      var s := Run(dev, schedule[..n]);
      hide RefusalsHold, ControllerStep, ServiceStep, StopperStep;
      UnacceptableIsRefused(dev, schedule[..n]);
      match schedule[n]
      case Controller(input) =>
        if s.controller.Checking? {
          RefusalsCheck(s, input);
        } else {
          RefusalsElsewhere(s, input);
        }
      case _ => RefusalsOthers(dev, s, schedule[n]);
    } else {
      RunNothing(dev);
    }
  }

  lemma RefusalsOthers(dev: Device, s: State, c: Choice)
    requires InBounds(s) && RefusalsHold(s) && !c.Controller?
    ensures RefusalsHold(Next(dev, s, c))
  {
    ServiceFrame(dev, s);
    StopperFrame(s);
    hide ServiceStep, StopperStep;
  }

  /**
   Without a deadline passed or a `stop()` a call faults exactly when its arguments are
   unacceptable; a register write without a read buffer, or a probe, is not.
   */
  lemma FaultsIffUnacceptable(dev: Device, schedule: seq<Choice>)
    requires var s := Run(dev, schedule); !s.flags.timedOut && !s.stopRequested
    ensures forall c :: c in Run(dev, schedule).history.calls ==>
              (c.result == BusFault <==>
               || c.request.writeLength > 256
               || c.request.readLength > 256
               || (c.request.writeLength > 0 && c.request.write.Null?))
  {
    CallsAreDirect(dev, schedule);
    hide Run, RunTransaction, DirectLog;
  }

  // ---------------------------------------------------------------------------
  // Every other call and its own events
  // ---------------------------------------------------------------------------

  function BytesToWrite(req: Request): seq<Byte> {
    if req.writeLength > 0 && req.write.Bytes? then req.write.data[..req.writeLength] else []
  }

  /**
   The events from `before` to `after` are the call's: a transaction with its seven-bit
   address, its bytes and its read length, in bus-event order and answered by the part.
   Its result names the answer that ended it, and it got the bytes the part drove.
   */
  ghost predicate Tells(dev: Device, c: Call, before: Log, after: Log) {
    && before <= after
    && var trace := after[|before|..];
       && I2cTransaction.Answered(dev, before, trace)
       && (c.result == AddressNacked <==> StartRefused(trace))
       && (c.result == DataNacked <==> ByteRefused(trace))
       && c.result != BusFault
       && exists ended, driven :: TellsBytes(c, trace, ended, driven)
  }

  ghost predicate TellsBytes(c: Call, trace: Log, ended: TransactionResult, driven: seq<Byte>) {
    && OnTheBus(Posted(c.request.address % 0x80, BytesToWrite(c.request), c.request.readLength), trace, ended, driven)
    && c.got == if c.request.noReadBuffer then [] else driven
  }

  lemma DirectTells(dev: Device, c: Call, before: Log, after: Log)
    requires Admissible(c.request)
    requires var o := RunTransaction(dev, before, PostedOf(c.request));
             after == o.log && (c.result, c.got) == AnswerOf(c.request, o)
    ensures Tells(dev, c, before, after)
  {
    var p := PostedOf(c.request);
    var o := RunTransaction(dev, before, p);
    var trace := TransactionFits(dev, before, p);
    assert after[|before|..] == trace;
    BytesRead(dev, before, p);
    ResultIsTheLastAnswer(p, trace, o.result, o.bytes);
    assert p == Posted(c.request.address % 0x80, BytesToWrite(c.request), c.request.readLength);
    hide RunTransaction, OnTheBus, StartRefused, ByteRefused;
    assert TellsBytes(c, trace, o.result, o.bytes);
  }

  /** On every schedule, up to the first deadline passed: each call that did not fault tells of its own execution. */
  lemma CallsTell(dev: Device, schedule: seq<Choice>)
    requires !Run(dev, schedule).flags.timedOut
    ensures var h := Run(dev, schedule).history;
            forall c :: c in h.calls && c.result != BusFault ==>
              && 0 <= c.posting < |h.executions|
              && Tells(dev, c, h.executions[c.posting].before, h.executions[c.posting].after)
  {
    CallsAreExecutions(dev, schedule);
    hide Run, RunTransaction, AnswerOf, Tells;
    var h := Run(dev, schedule).history;
    forall c | c in h.calls && c.result != BusFault
      ensures 0 <= c.posting < |h.executions|
      ensures Tells(dev, c, h.executions[c.posting].before, h.executions[c.posting].after)
    {
      DirectTells(dev, c, h.executions[c.posting].before, h.executions[c.posting].after);
    }
  }
}
