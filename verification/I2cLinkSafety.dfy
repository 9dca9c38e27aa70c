/**
 Safety of the shared-memory bus over every schedule: who owns the region, and
 which execution on the part a returned call belongs to.
 */
module I2cLinkSafety {
  import opened Words
  import opened I2cTransaction
  import opened I2cRegion
  import opened I2cLink

  // ---------------------------------------------------------------------------
  // What the history promises
  // ---------------------------------------------------------------------------

  /** The log after the completed executions. */
  function EndLog(executions: seq<Execution>): Log {
    if executions == [] then [] else executions[|executions| - 1].after
  }

  /** An observed execution is that of `p`, walked directly from the log it began with. */
  ghost predicate Matches(dev: Device, p: Posted, e: Execution) {
    var o := RunTransaction(dev, e.before, p);
    && e.after == o.log
    && e.word == ResultValue(o.result)
    && |e.buffer| == MAX_PHASE_BYTES
    && o.bytes <= e.buffer
  }

  /** Executions answer the postings in order, each starting where the previous one ended. */
  ghost predicate InOrder(dev: Device, posted: seq<Posted>, executions: seq<Execution>) {
    && |executions| <= |posted|
    && (forall k :: 0 <= k < |executions| ==>
          && Matches(dev, posted[k], executions[k])
          && executions[k].before == EndLog(executions[..k]))
  }

  /** The answer a call draws from an execution. */
  predicate Draws(c: Call, e: Execution) {
    && c.result == CallResultOf(e.word)
    && c.request.readLength <= |e.buffer|
    && c.got == if CopiesOut(c.request, e.word) then e.buffer[..c.request.readLength] else []
  }

  /** A call that did not fault has its own posting, and answers with its execution. */
  ghost predicate Associated(h: History, c: Call) {
    && c.posting < |h.posted|
    && (if c.result == BusFault then c.got == []
        else
          && 0 <= c.posting < |h.executions|
          && Admissible(c.request)
          && h.posted[c.posting] == PostedOf(c.request)
          && Draws(c, h.executions[c.posting]))
  }

  /** Postings are never shared: a later call that posted has a later posting. */
  ghost predicate DistinctPostings(calls: seq<Call>) {
    forall i, j :: 0 <= i < j < |calls| && calls[j].posting >= 0 ==> calls[i].posting < calls[j].posting
  }

  ghost predicate HistoryOk(dev: Device, h: History) {
    && InOrder(dev, h.posted, h.executions)
    && (forall c :: c in h.calls ==> Associated(h, c))
    && DistinctPostings(h.calls)
  }

  // ---------------------------------------------------------------------------
  // What each actor may rely on
  // ---------------------------------------------------------------------------

  /** The region holds `p`, as the controller published it. */
  predicate Holds(bus: Bus, p: Posted) {
    && bus.address == p.address < 0x80
    && bus.writeLength == |p.writes| <= MAX_PHASE_BYTES
    && bus.readLength == p.readLength <= MAX_PHASE_BYTES
    && p.writes <= bus.writeBytes
  }

  predicate Spinning(v: ServicePc) {
    v.Head? || v.Poll?
  }

  predicate Executing(v: ServicePc) {
    !Spinning(v) && !v.Publish? && !v.Done?
  }

  /** Mid-execution of `p`: what is left to do ends in the outcome of the whole walk. */
  ghost predicate Underway(dev: Device, v: ServicePc, readBytes: seq<Byte>, log: Log, before: Log, p: Posted) {
    var o := RunTransaction(dev, before, p);
    match v
    case LoadAddress => log == before
    case LoadWriteLength(a) => log == before && a == p.address
    case LoadReadLength(a, w) => log == before && a == p.address && w == |p.writes|
    case StartWrite(a, w, r) => log == before && a == p.address && w == |p.writes| && r == p.readLength
    case Writing(a, w, r, i) =>
      a == p.address && i <= w == |p.writes| && r == p.readLength && FromWrite(dev, log, p, i) == o
    case StartRead(a, r) => a == p.address && r == p.readLength && FromReadStart(dev, log, p) == o
    case Reading(r, i) =>
      r == p.readLength && i <= r <= |readBytes| && FromRead(dev, log, r - i, readBytes[..i]) == o
    case Stopping(outcome) => o.log == log + [Stop] && o.result == outcome && o.bytes <= readBytes
    case StoreResult(outcome) => o.log == log && o.result == outcome && o.bytes <= readBytes
    case BumpIndex => o.log == log && o.bytes <= readBytes
    case _ => false
  }

  ghost predicate StateUnderway(dev: Device, s: State, p: Posted) {
    && Underway(dev, s.service, s.bus.readBytes, s.log, s.before, p)
    && (s.service.BumpIndex? ==> s.bus.word == ResultValue(RunTransaction(dev, s.before, p).result))
  }

  /** The last posting has been executed and the region still shows what it left. */
  predicate Answered(s: State) {
    var h := s.history;
    && |h.executions| == |h.posted| > 0
    && s.bus.word == h.executions[|h.executions| - 1].word
    && s.bus.readBytes == h.executions[|h.executions| - 1].buffer
  }

  /** The controller may use the region: the service thread has nothing to do. */
  predicate AtRest(s: State) {
    && (s.bus.phase == Idle || s.bus.phase == ShutdownRequested)
    && ((Spinning(s.service) && |s.history.executions| == |s.history.posted|) || s.service.Done?)
  }

  /** `req` is the last posting. */
  predicate IsPosted(s: State, req: Request) {
    && Admissible(req)
    && s.history.posted != []
    && s.history.posted[|s.history.posted| - 1] == PostedOf(req)
  }

  /** `req` is posted, and the region belongs to whom the phase names. */
  ghost predicate Handed(dev: Device, s: State, req: Request) {
    && IsPosted(s, req)
    && Holds(s.bus, PostedOf(req))
    && match s.bus.phase
       case Idle => false
       case TransactionPosted =>
         if s.service.Publish? then Answered(s)
         else
           && |s.history.executions| < |s.history.posted|
           && (!s.service.Done? ==> |s.history.executions| == |s.history.posted| - 1)
           && (Executing(s.service) ==> StateUnderway(dev, s, PostedOf(req)))
       case TransactionComplete => (Spinning(s.service) || s.service.Done?) && Answered(s)
       case ShutdownRequested => s.service.Done?
  }

  /** The answer to `req` is the controller's to read. */
  predicate Owned(s: State, req: Request) {
    && IsPosted(s, req)
    && (s.bus.phase == TransactionComplete || s.bus.phase == ShutdownRequested)
    && (Spinning(s.service) || s.service.Done?)
    && Answered(s)
  }

  ghost predicate ControllerOk(dev: Device, s: State) {
    match s.controller
    case Out => AtRest(s)
    case Checking(_) => AtRest(s)
    case CopyWrite(req, copied) =>
      AtRest(s) && Admissible(req) && copied <= req.writeLength && Data(req)[..copied] <= s.bus.writeBytes
    case PutWriteLength(req) =>
      AtRest(s) && Admissible(req) && Data(req) <= s.bus.writeBytes && s.bus.address == req.address % 0x80
    case PutReadLength(req) =>
      && AtRest(s) && Admissible(req) && Data(req) <= s.bus.writeBytes && s.bus.address == req.address % 0x80
      && s.bus.writeLength == req.writeLength
    case Post(req) => AtRest(s) && Admissible(req) && Holds(s.bus, PostedOf(req))
    case Waiting(req) => Handed(dev, s, req)
    case TakeResult(req) => Owned(s, req)
    case CopyRead(req, word, got) => Owned(s, req) && word == s.bus.word && got <= s.bus.readBytes
    case Release(req, word, got) => Owned(s, req) && word == s.bus.word && got <= s.bus.readBytes
  }

  /** The running call's posting, if it has one, is not yet in `calls`. */
  predicate PostingOpen(c: ControllerPc) {
    c.Waiting? || c.TakeResult? || c.CopyRead? || c.Release?
  }

  /** Up to the first call that gives up on its deadline. */
  ghost predicate Invariant(dev: Device, s: State) {
    && HistoryOk(dev, s.history)
    && ControllerOk(dev, s)
    && (if Executing(s.service) then s.before == EndLog(s.history.executions)
        else s.log == EndLog(s.history.executions))
    && (s.service.Done? ==> s.stopRequested)
    && (s.bus.phase == ShutdownRequested ==> s.service.Done?)
    && (s.stopper.ClearReady? || s.stopper.StoreShutdown? ==> s.service.Done?)
    && (PostingOpen(s.controller) ==> forall c :: c in s.history.calls ==> c.posting < |s.history.posted| - 1)
  }

  // ---------------------------------------------------------------------------
  // Every step keeps the invariant
  // ---------------------------------------------------------------------------

  lemma StopperKeeps(dev: Device, s: State)
    requires InBounds(s) && Invariant(dev, s)
    ensures Invariant(dev, StopperStep(s))
  {
    hide HistoryOk, Underway, RunTransaction, EndLog;
    match s.stopper
    case Away =>
    case Joining =>
    case ClearReady =>
    case StoreShutdown =>
  }

  /** Posted work is what the service thread executes, and only then. */
  lemma WorkIsPosted(dev: Device, s: State) returns (req: Request)
    requires InBounds(s) && Invariant(dev, s) && Executing(s.service)
    ensures s.controller == Waiting(req) && s.bus.phase == TransactionPosted && Handed(dev, s, req)
    ensures StateUnderway(dev, s, PostedOf(req)) && Holds(s.bus, PostedOf(req))
  {
    hide HistoryOk, Underway, RunTransaction;
    req := s.controller.req;
  }

  /** One step of the walk leaves the rest of the walk to be done. */
  lemma WalksToStart(dev: Device, s: State, p: Posted)
    requires InBounds(s) && StateUnderway(dev, s, p) && Holds(s.bus, p)
    requires s.service.LoadAddress? || s.service.LoadWriteLength? || s.service.LoadReadLength? || s.service.StartWrite?
    ensures StateUnderway(dev, ServiceStep(dev, s), p)
  {
    hide FromWrite, FromReadStart;
  }

  lemma WalksWrites(dev: Device, s: State, p: Posted)
    requires InBounds(s) && StateUnderway(dev, s, p) && Holds(s.bus, p)
    requires s.service.Writing?
    ensures StateUnderway(dev, ServiceStep(dev, s), p)
  {
    hide RunTransaction, FromRead;
  }

  lemma WalksToReads(dev: Device, s: State, p: Posted)
    requires InBounds(s) && StateUnderway(dev, s, p) && s.service.StartRead?
    ensures StateUnderway(dev, ServiceStep(dev, s), p)
  {
    hide RunTransaction, FromWrite;
    assert s.bus.readBytes[..0] == [];
  }

  lemma WalksReads(dev: Device, s: State, p: Posted)
    requires InBounds(s) && StateUnderway(dev, s, p) && s.service.Reading?
    ensures StateUnderway(dev, ServiceStep(dev, s), p)
  {
    hide RunTransaction, FromWrite, FromReadStart;
    if s.service.i < s.service.readLength {
      var i := s.service.i;
      var s' := ServiceStep(dev, s);
      assert s'.bus.readBytes[..i + 1] == s.bus.readBytes[..i] + [s'.bus.readBytes[i]];
    }
  }

  lemma Walks(dev: Device, s: State, p: Posted)
    requires InBounds(s) && StateUnderway(dev, s, p) && Holds(s.bus, p)
    requires Executing(s.service) && !s.service.BumpIndex?
    ensures StateUnderway(dev, ServiceStep(dev, s), p)
  {
    if s.service.Writing? {
      WalksWrites(dev, s, p);
    } else if s.service.StartRead? {
      WalksToReads(dev, s, p);
    } else if s.service.Reading? {
      WalksReads(dev, s, p);
    } else if s.service.Stopping? || s.service.StoreResult? {
      hide RunTransaction;
    } else {
      WalksToStart(dev, s, p);
    }
  }

  /** The service thread does not touch what the controller published. */
  lemma HoldsAfter(dev: Device, s: State, p: Posted)
    requires InBounds(s) && Holds(s.bus, p)
    ensures Holds(ServiceStep(dev, s).bus, p)
  {
  }

  lemma LeavesTheRest(dev: Device, s: State)
    requires InBounds(s) && Executing(s.service) && !s.service.BumpIndex?
    ensures var s' := ServiceStep(dev, s);
            && Executing(s'.service) && s'.before == s.before && s'.history == s.history
            && s'.controller == s.controller && s'.stopper == s.stopper && s'.stopRequested == s.stopRequested
            && s'.bus.phase == s.bus.phase
  {
  }

  lemma ServiceExecutes(dev: Device, s: State)
    requires InBounds(s) && Invariant(dev, s) && Executing(s.service) && !s.service.BumpIndex?
    ensures Invariant(dev, ServiceStep(dev, s))
  {
    hide HistoryOk, StateUnderway, Holds, RunTransaction;
    var req := WorkIsPosted(dev, s);
    Walks(dev, s, PostedOf(req));
    HoldsAfter(dev, s, PostedOf(req));
    LeavesTheRest(dev, s);
    hide ServiceStep;
  }

  lemma ServiceSpins(dev: Device, s: State)
    requires InBounds(s) && Invariant(dev, s) && !Executing(s.service)
    ensures Invariant(dev, ServiceStep(dev, s))
  {
    hide HistoryOk, RunTransaction, FromRead, FromWrite, FromReadStart, EndLog;
  }

  lemma ServiceBumps(dev: Device, s: State)
    requires InBounds(s) && Invariant(dev, s) && s.service.BumpIndex?
    ensures Invariant(dev, ServiceStep(dev, s))
  {
    hide HistoryOk, RunTransaction, StateUnderway;
    var req := WorkIsPosted(dev, s);
    HistoryBumps(dev, s, PostedOf(req));
  }

  lemma ServiceKeeps(dev: Device, s: State)
    requires InBounds(s) && Invariant(dev, s)
    ensures Invariant(dev, ServiceStep(dev, s))
  {
    hide *;
    if s.service.BumpIndex? {
      ServiceBumps(dev, s);
    } else if Executing(s.service) {
      ServiceExecutes(dev, s);
    } else {
      ServiceSpins(dev, s);
    }
  }

  lemma HistoryExecutes(dev: Device, h: History, e: Execution)
    requires HistoryOk(dev, h) && |h.executions| < |h.posted|
    requires Matches(dev, h.posted[|h.executions|], e) && e.before == EndLog(h.executions)
    ensures HistoryOk(dev, h.(executions := h.executions + [e]))
  {
    hide Matches, EndLog;
    var h' := h.(executions := h.executions + [e]);
    forall k | 0 <= k < |h'.executions|
      ensures Matches(dev, h'.posted[k], h'.executions[k])
           && h'.executions[k].before == EndLog(h'.executions[..k])
    {
      assert h'.executions[..k] == if k < |h.executions| then h.executions[..k] else h.executions;
    }
    forall c | c in h'.calls ensures Associated(h', c) {
      assert Associated(h, c);
    }
  }

  lemma HistoryBumps(dev: Device, s: State, p: Posted)
    requires InBounds(s) && HistoryOk(dev, s.history) && s.service.BumpIndex?
    requires StateUnderway(dev, s, p) && s.before == EndLog(s.history.executions)
    requires |s.history.executions| < |s.history.posted| && s.history.posted[|s.history.executions|] == p
    ensures HistoryOk(dev, ServiceStep(dev, s).history)
  {
    hide RunTransaction, HistoryOk, EndLog;
    HistoryExecutes(dev, s.history, Execution(s.before, s.log, s.bus.word, s.bus.readBytes));
  }

  lemma HistoryPosts(dev: Device, h: History, p: Posted)
    requires HistoryOk(dev, h)
    ensures HistoryOk(dev, h.(posted := h.posted + [p]))
  {
    hide Matches, EndLog;
    var h' := h.(posted := h.posted + [p]);
    forall c | c in h'.calls ensures Associated(h', c) {
      assert Associated(h, c);
    }
  }

  lemma HistoryReturns(dev: Device, h: History, c: Call)
    requires HistoryOk(dev, h) && Associated(h, c)
    requires c.posting >= 0 ==> forall d :: d in h.calls ==> d.posting < c.posting
    ensures HistoryOk(dev, h.(calls := h.calls + [c]))
  {
    hide InOrder;
    var h' := h.(calls := h.calls + [c]);
    forall d | d in h'.calls ensures Associated(h', d) {
      assert Associated(h, d);
    }
  }

  lemma ControllerCopies(dev: Device, s: State, input: ControllerInput)
    requires InBounds(s) && Invariant(dev, s)
    requires s.controller.CopyWrite? && s.controller.copied < s.controller.req.writeLength
    ensures Invariant(dev, ControllerStep(s, input))
  {
    hide HistoryOk, RunTransaction;
    var req, copied := s.controller.req, s.controller.copied;
    var writeBytes := ControllerStep(s, input).bus.writeBytes;
    assert Data(req)[..copied + 1] == Data(req)[..copied] + [req.write.data[copied]];
    assert writeBytes[..copied + 1] == s.bus.writeBytes[..copied] + [req.write.data[copied]];
  }

  lemma ControllerChecks(dev: Device, s: State, input: ControllerInput)
    requires InBounds(s) && Invariant(dev, s) && s.controller.Checking?
    ensures Invariant(dev, ControllerStep(s, input))
  {
    hide HistoryOk, RunTransaction;
    if ControllerStep(s, input).controller.Out? {
      HistoryReturns(dev, s.history, Call(s.controller.req, BusFault, [], -1, s.flags.late));
    }
  }

  /** Filling the lengths and the address, before the phase changes hands. */
  lemma ControllerFills(dev: Device, s: State, input: ControllerInput)
    requires InBounds(s) && Invariant(dev, s)
    requires s.controller.Out? || s.controller.PutWriteLength? || s.controller.PutReadLength?
          || (s.controller.CopyWrite? && s.controller.copied == s.controller.req.writeLength)
    ensures Invariant(dev, ControllerStep(s, input))
  {
    hide HistoryOk, RunTransaction;
  }

  lemma PostingsSoFar(dev: Device, h: History)
    requires HistoryOk(dev, h)
    ensures |h.executions| <= |h.posted| && forall c :: c in h.calls ==> c.posting < |h.posted|
  {
    forall c | c in h.calls ensures c.posting < |h.posted| {
      assert Associated(h, c);
    }
  }

  lemma PostStep(s: State, input: ControllerInput)
    requires InBounds(s) && s.controller.Post?
    ensures var req := s.controller.req;
            ControllerStep(s, input) ==
            s.(bus := s.bus.(phase := TransactionPosted), controller := Waiting(req),
               history := s.history.(posted := s.history.posted + [PostedOf(req)]))
  {
  }

  lemma ControllerPosts(dev: Device, s: State, input: ControllerInput)
    requires InBounds(s) && Invariant(dev, s) && s.controller.Post?
    ensures Invariant(dev, ControllerStep(s, input))
  {
    PostingsSoFar(dev, s.history);
    PostStep(s, input);
    hide HistoryOk, RunTransaction, StateUnderway, ControllerStep, EndLog;
    HistoryPosts(dev, s.history, PostedOf(s.controller.req));
  }

  lemma ControllerWaits(dev: Device, s: State, input: ControllerInput)
    requires InBounds(s) && Invariant(dev, s) && s.controller.Waiting?
    requires !ControllerStep(s, input).flags.timedOut
    ensures Invariant(dev, ControllerStep(s, input))
  {
    hide HistoryOk, RunTransaction;
    if s.bus.phase == ShutdownRequested {
      HistoryReturns(dev, s.history,
                     Call(s.controller.req, BusFault, [], |s.history.posted| - 1, s.flags.late));
    }
  }

  lemma ControllerTakes(dev: Device, s: State, input: ControllerInput)
    requires InBounds(s) && Invariant(dev, s) && (s.controller.TakeResult? || s.controller.CopyRead?)
    ensures Invariant(dev, ControllerStep(s, input))
  {
    hide HistoryOk, RunTransaction;
    if s.controller.CopyRead? && |s.controller.got| < s.controller.req.readLength {
      var got := s.controller.got;
      assert s.bus.readBytes[..|got| + 1] == got + [s.bus.readBytes[|got|]];
    }
  }

  lemma AnswerIsAssociated(dev: Device, h: History, c: Call)
    requires InOrder(dev, h.posted, h.executions)
    requires |h.executions| == |h.posted| > 0 && c.posting == |h.posted| - 1
    requires Admissible(c.request) && h.posted[c.posting] == PostedOf(c.request)
    requires var e := h.executions[c.posting];
             && c.result == CallResultOf(e.word) && c.got <= e.buffer
             && |c.got| == if CopiesOut(c.request, e.word) then c.request.readLength else 0
    ensures Associated(h, c)
  {
    assert Matches(dev, h.posted[c.posting], h.executions[c.posting]);
    hide Matches, EndLog;
  }

  lemma ControllerReleases(dev: Device, s: State, input: ControllerInput)
    requires InBounds(s) && Invariant(dev, s) && s.controller.Release?
    ensures Invariant(dev, ControllerStep(s, input))
  {
    hide RunTransaction, Associated, InOrder;
    var h := s.history;
    var c := Call(s.controller.req, CallResultOf(s.controller.word), s.controller.got, |h.posted| - 1, s.flags.late);
    AnswerIsAssociated(dev, h, c);
    hide HistoryOk;
    HistoryReturns(dev, h, c);
  }

  lemma ControllerKeeps(dev: Device, s: State, input: ControllerInput)
    requires InBounds(s) && Invariant(dev, s)
    requires !ControllerStep(s, input).flags.timedOut
    ensures Invariant(dev, ControllerStep(s, input))
  {
    hide Invariant, ControllerStep;
    match s.controller
    case Checking(_) => ControllerChecks(dev, s, input);
    case CopyWrite(req, copied) =>
      if copied < req.writeLength {
        ControllerCopies(dev, s, input);
      } else {
        ControllerFills(dev, s, input);
      }
    case Post(_) => ControllerPosts(dev, s, input);
    case Waiting(_) => ControllerWaits(dev, s, input);
    case TakeResult(_) => ControllerTakes(dev, s, input);
    case CopyRead(_, _, _) => ControllerTakes(dev, s, input);
    case Release(_, _, _) => ControllerReleases(dev, s, input);
    case _ => ControllerFills(dev, s, input);
  }

  // ---------------------------------------------------------------------------
  // Every schedule
  // ---------------------------------------------------------------------------

  lemma NextKeeps(dev: Device, s: State, c: Choice)
    requires InBounds(s) && !Next(dev, s, c).flags.timedOut
    requires !s.flags.timedOut ==> Invariant(dev, s)
    ensures !s.flags.timedOut && Invariant(dev, Next(dev, s, c))
  {
    hide Invariant, InBounds;
    match c
    case Controller(input) => ControllerKeeps(dev, s, input);
    case Service => ServiceKeeps(dev, s);
    case Stopper => StopperKeeps(dev, s);
  }

  lemma {:induction false} RunKeeps(dev: Device, schedule: seq<Choice>)
    requires !Run(dev, schedule).flags.timedOut
    ensures Invariant(dev, Run(dev, schedule))
    decreases |schedule|
  {
    if schedule != [] {
      var n := |schedule| - 1;
      hide Next, Invariant;
      if !Run(dev, schedule[..n]).flags.timedOut {
        RunKeeps(dev, schedule[..n]);
      }
      NextKeeps(dev, Run(dev, schedule[..n]), schedule[n]);
    }
  }

  /** The next step of the controller reads or writes the unguarded part of the region. */
  predicate ControllerTouches(c: ControllerPc) {
    c.CopyWrite? || c.PutWriteLength? || c.PutReadLength? || c.TakeResult? || c.CopyRead?
  }

  /** The next step of the service thread reads or writes the unguarded part of the region. */
  predicate ServiceTouches(v: ServicePc) {
    || v.LoadAddress? || v.LoadWriteLength? || v.LoadReadLength?
    || v.Writing? || v.Reading? || v.StoreResult?
  }

  /** The region has one owner at a time, and the phase says which. */
  lemma OneOwner(dev: Device, schedule: seq<Choice>)
    requires !Run(dev, schedule).flags.timedOut
    ensures var s := Run(dev, schedule);
            && !(ControllerTouches(s.controller) && ServiceTouches(s.service))
            && (ServiceTouches(s.service) ==> s.bus.phase == TransactionPosted)
            && (s.bus.phase == TransactionPosted ==> s.controller.Waiting?)
            && (s.bus.phase == TransactionComplete ==> PostingOpen(s.controller) && !Executing(s.service))
  {
    hide Run, HistoryOk, RunTransaction;
    RunKeeps(dev, schedule);
  }

  /** What a call with these arguments returns when its transaction ends in `o`. */
  function AnswerOf(req: Request, o: Outcome): (CallResult, seq<Byte>) {
    match o.result
    case Acknowledged => (Ok, if req.noReadBuffer then [] else o.bytes)
    case AddressNack => (AddressNacked, [])
    case DataNack => (DataNacked, [])
  }

  lemma DrawsTheAnswer(dev: Device, c: Call, e: Execution)
    requires Admissible(c.request) && Matches(dev, PostedOf(c.request), e) && Draws(c, e)
    ensures (c.result, c.got) == AnswerOf(c.request, RunTransaction(dev, e.before, PostedOf(c.request)))
  {
    BytesRead(dev, e.before, PostedOf(c.request));
    hide RunTransaction;
    var o := RunTransaction(dev, e.before, PostedOf(c.request));
    if o.result == Acknowledged {
      assert e.buffer[..c.request.readLength] == o.bytes;
    }
  }

  /**
   A call that returned anything but a bus fault had exactly its own arguments
   executed on the part, in the execution its posting is numbered after, and
   returned that execution's result and bytes.  No two calls share a posting.
   */
  ghost predicate AnswersAreExecutions(dev: Device, h: History) {
    && DistinctPostings(h.calls)
    && (forall c :: c in h.calls && c.result != BusFault ==>
          && 0 <= c.posting < |h.executions|
          && Admissible(c.request)
          && var e := h.executions[c.posting];
             var o := RunTransaction(dev, e.before, PostedOf(c.request));
             && e.after == o.log
             && (c.result, c.got) == AnswerOf(c.request, o))
  }

  lemma HistoryAnswers(dev: Device, h: History)
    requires HistoryOk(dev, h)
    ensures AnswersAreExecutions(dev, h)
  {
    hide RunTransaction, AnswerOf;
    forall c | c in h.calls && c.result != BusFault
      ensures 0 <= c.posting < |h.executions| && Admissible(c.request)
      ensures var e := h.executions[c.posting];
              var o := RunTransaction(dev, e.before, PostedOf(c.request));
              e.after == o.log && (c.result, c.got) == AnswerOf(c.request, o)
    {
      assert Associated(h, c);
      DrawsTheAnswer(dev, c, h.executions[c.posting]);
    }
  }

  /** Every interleaving, up to the first deadline passed. */
  lemma CallsAreExecutions(dev: Device, schedule: seq<Choice>)
    requires !Run(dev, schedule).flags.timedOut
    ensures AnswersAreExecutions(dev, Run(dev, schedule).history)
  {
    RunKeeps(dev, schedule);
    hide Run, HistoryOk, AnswersAreExecutions;
    HistoryAnswers(dev, Run(dev, schedule).history);
  }

  // What is left of a walk only adds to the log.

  lemma {:induction false} ReadsExtend(dev: Device, log: Log, left: nat, got: seq<Byte>)
    ensures log <= FromRead(dev, log, left, got).log
    decreases left
  {
    if left > 0 {
      var e := ReadEvent(dev, log, left == 1);
      ReadsExtend(dev, log + [e], left - 1, got + [e.data]);
    }
  }

  lemma ReadPhaseExtends(dev: Device, log: Log, p: Posted)
    ensures log <= FromReadStart(dev, log, p).log
  {
    ReadsExtend(dev, log + [StartEvent(dev, log, p.address, true)], p.readLength, []);
  }

  lemma {:induction false} WritesExtend(dev: Device, log: Log, p: Posted, i: nat)
    requires i <= |p.writes|
    ensures log <= FromWrite(dev, log, p, i).log
    decreases |p.writes| - i
  {
    ReadPhaseExtends(dev, log, p);
    if i < |p.writes| {
      WritesExtend(dev, log + [WriteEvent(dev, log, p.writes[i])], p, i + 1);
    }
  }

  lemma TransactionExtends(dev: Device, log: Log, p: Posted)
    ensures log <= RunTransaction(dev, log, p).log
  {
    hide FromWrite, FromReadStart;
    ReadPhaseExtends(dev, log, p);
    WritesExtend(dev, log + [StartEvent(dev, log, p.address, false)], p, 0);
  }

  lemma UnderwayIsFront(dev: Device, s: State, p: Posted)
    requires Executing(s.service) && StateUnderway(dev, s, p)
    ensures s.log <= RunTransaction(dev, s.before, p).log
  {
    TransactionExtends(dev, s.before, p);
    hide RunTransaction, FromRead, FromReadStart, FromWrite;
    match s.service
    case Writing(_, _, _, i) => WritesExtend(dev, s.log, p, i);
    case StartRead(_, _) => ReadPhaseExtends(dev, s.log, p);
    case Reading(r, i) => ReadsExtend(dev, s.log, r - i, s.bus.readBytes[..i]);
    case _ =>
  }

  lemma BeforeService(dev: Device, s: State)
    requires InBounds(s) && (Executing(s.service) ==> s.before <= s.log)
    ensures var s' := ServiceStep(dev, s); Executing(s'.service) ==> s'.before <= s'.log
  {
    LogGrows(dev, s);
    hide ServiceStep;
  }

  lemma LogGrows(dev: Device, s: State)
    requires InBounds(s)
    ensures var s' := ServiceStep(dev, s);
            && (s'.log == s.log || (s'.log != [] && s'.log[..|s'.log| - 1] == s.log))
            && (Executing(s'.service) ==> if Executing(s.service) then s'.before == s.before else s'.before == s'.log)
  {
    hide StartEvent, WriteEvent, ReadEvent;
    match s.service
    case StartWrite(a, _, _) => OneLonger(s.log, StartEvent(dev, s.log, a, false));
    case Writing(_, w, _, i) =>
      if i < w {
        OneLonger(s.log, WriteEvent(dev, s.log, s.bus.writeBytes[i]));
      }
    case StartRead(a, _) => OneLonger(s.log, StartEvent(dev, s.log, a, true));
    case Reading(r, i) => OneLonger(s.log, ReadEvent(dev, s.log, i + 1 == r));
    case Stopping(_) => OneLonger(s.log, Stop);
    case _ =>
  }

  lemma OneLonger(log: Log, e: Event)
    ensures log + [e] != [] && (log + [e])[..|log + [e]| - 1] == log
  {
  }

  lemma ServiceAlone(dev: Device, s: State, c: Choice)
    requires InBounds(s) && c != Service
    ensures var s' := Next(dev, s, c); s'.service == s.service && s'.before == s.before && s'.log == s.log
  {
    hide ControllerStep, StopperStep;
    match c
    case Controller(input) => ControllerFrame(s, input);
    case Stopper => StopperFrame(s);
  }

  lemma {:induction false} BeforeIsFront(dev: Device, schedule: seq<Choice>)
    ensures var s := Run(dev, schedule); Executing(s.service) ==> s.before <= s.log
    decreases |schedule|
  {
    if schedule != [] {
      var n := |schedule| - 1;
      hide ServiceStep, ControllerStep, StopperStep;
      BeforeIsFront(dev, schedule[..n]);
      if schedule[n] == Service {
        BeforeService(dev, Run(dev, schedule[..n]));
      } else {
        ServiceAlone(dev, Run(dev, schedule[..n]), schedule[n]);
      }
    }
  }

  /**
   The part's log is nothing but the postings executed one after the other, each
   once and in order, and in the middle of an execution a front of that execution's
   trace after them; a posting beyond that one has left no event.
   */
  lemma LogIsTheExecutions(dev: Device, schedule: seq<Choice>)
    requires !Run(dev, schedule).flags.timedOut
    ensures var s := Run(dev, schedule);
            var h := s.history;
            && |h.executions| <= |h.posted|
            && (if Executing(s.service) then
                  && |h.executions| < |h.posted|
                  && var o := RunTransaction(dev, EndLog(h.executions), h.posted[|h.executions|]);
                     EndLog(h.executions) <= s.log <= o.log
                else s.log == EndLog(h.executions))
            && (forall k :: 0 <= k < |h.executions| ==>
                  && h.executions[k].before == EndLog(h.executions[..k])
                  && h.executions[k].after == RunTransaction(dev, h.executions[k].before, h.posted[k]).log)
  {
    RunKeeps(dev, schedule);
    BeforeIsFront(dev, schedule);
    hide Run, RunTransaction;
    var s := Run(dev, schedule);
    if Executing(s.service) {
      var req := WorkIsPosted(dev, s);
      UnderwayIsFront(dev, s, PostedOf(req));
      hide StateUnderway;
    }
  }

  // ---------------------------------------------------------------------------
  // Every schedule, deadlines passed or not
  // ---------------------------------------------------------------------------

  /** A successful call with a read buffer fills all it asked for. */
  predicate Whole(c: Call) {
    c.result == Ok && !c.request.noReadBuffer ==> |c.got| == c.request.readLength
  }

  ghost predicate AnswersWhole(s: State) {
    && s.bus.word <= 2
    && (s.controller.Release? ==> s.controller.word <= 2)
    && (s.controller.CopyRead? ==> s.controller.word <= 2)
    && (forall c :: c in s.history.calls ==> Whole(c))
  }

  lemma WholeRelease(s: State, input: ControllerInput)
    requires InBounds(s) && AnswersWhole(s) && s.controller.Release?
    ensures AnswersWhole(ControllerStep(s, input))
  {
  }

  lemma WholeElsewhere(s: State, input: ControllerInput)
    requires InBounds(s) && AnswersWhole(s) && !s.controller.Release?
    ensures AnswersWhole(ControllerStep(s, input))
  {
  }

  lemma WholeController(s: State, input: ControllerInput)
    requires InBounds(s) && AnswersWhole(s)
    ensures AnswersWhole(ControllerStep(s, input))
  {
    hide AnswersWhole;
    if s.controller.Release? {
      WholeRelease(s, input);
    } else {
      WholeElsewhere(s, input);
    }
  }

  lemma WholeOthers(dev: Device, s: State, c: Choice)
    requires InBounds(s) && AnswersWhole(s) && !c.Controller?
    ensures AnswersWhole(Next(dev, s, c))
  {
    ServiceFrame(dev, s);
    ServiceWord(dev, s);
    StopperFrame(s);
    hide ServiceStep, StopperStep, Whole;
  }

  lemma ServiceWord(dev: Device, s: State)
    requires InBounds(s) && s.bus.word <= 2
    ensures ServiceStep(dev, s).bus.word <= 2
  {
  }

  lemma {:induction false} RunWhole(dev: Device, schedule: seq<Choice>)
    ensures AnswersWhole(Run(dev, schedule))
    decreases |schedule|
  {
    if schedule != [] {
      var n := |schedule| - 1;
      var s := Run(dev, schedule[..n]);
      hide AnswersWhole;
      RunWhole(dev, schedule[..n]);
      match schedule[n]
      case Controller(input) => WholeController(s, input);
      case _ => WholeOthers(dev, s, schedule[n]);
    }
  }

  predicate LengthsFit(s: State) {
    && s.bus.writeLength <= MAX_PHASE_BYTES
    && s.bus.readLength <= MAX_PHASE_BYTES
  }

  lemma LengthsController(s: State, input: ControllerInput)
    requires InBounds(s) && LengthsFit(s)
    ensures LengthsFit(ControllerStep(s, input))
  {
    hide Data;
    match s.controller
    case PutWriteLength(_) =>
    case PutReadLength(_) =>
    case _ =>
  }

  lemma LengthsOthers(dev: Device, s: State, c: Choice)
    requires InBounds(s) && LengthsFit(s) && !c.Controller?
    ensures LengthsFit(Next(dev, s, c))
  {
    ServiceBus(dev, s);
    StopperFrame(s);
    hide ServiceStep, StopperStep;
  }

  /** The service thread's clamp of the lengths never takes anything off. */
  lemma {:induction false} ClampIsIdle(dev: Device, schedule: seq<Choice>)
    ensures LengthsFit(Run(dev, schedule))
    decreases |schedule|
  {
    if schedule != [] {
      var n := |schedule| - 1;
      hide LengthsFit;
      ClampIsIdle(dev, schedule[..n]);
      match schedule[n]
      case Controller(input) => LengthsController(Run(dev, schedule[..n]), input);
      case _ => LengthsOthers(dev, Run(dev, schedule[..n]), schedule[n]);
    } else {
      RunNothing(dev);
    }
  }
}
