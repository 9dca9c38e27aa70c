/**
 The shared-memory I2C bus as a transition system.

 Three actors take turns in any order: the controller thread inside
 `transaction()`, the service thread inside `service_loop()`, and a thread inside
 `stop()`.  One step is one access to shared memory (an atomic load or store, or
 one element of a plain buffer) or one bus event; the atomics are sequentially
 consistent.  `Next` is total: an actor that cannot move leaves the state alone,
 so every schedule is a run and every run has a schedule.
 */
module I2cLink {
  import opened Words
  import opened I2cTransaction
  import opened I2cRegion

  // ---------------------------------------------------------------------------
  // Calls
  // ---------------------------------------------------------------------------

  datatype Buffer = Null | Bytes(data: seq<Byte>)

  /** The arguments of `transaction()`; `noReadBuffer` is a null `read_bytes`. */
  datatype RawRequest = RawRequest(
    address: Byte, write: Buffer, writeLength: nat, noReadBuffer: bool, readLength: nat)

  /** A caller passes a buffer at least as long as it says. */
  type Request = r: RawRequest | r.write.Bytes? ==> r.writeLength <= |r.write.data|
    witness RawRequest(0, Null, 0, true, 0)

  datatype CallResult = Ok | AddressNacked | DataNacked | BusFault

  /** The guards in front of the handshake: neither phase over-long, no null write buffer. */
  predicate Admissible(req: Request) {
    && req.writeLength <= MAX_PHASE_BYTES
    && req.readLength <= MAX_PHASE_BYTES
    && !(req.writeLength > 0 && req.write.Null?)
  }

  function Data(req: Request): seq<Byte>
    requires Admissible(req)
  {
    if req.writeLength == 0 then [] else req.write.data[..req.writeLength]
  }

  function PostedOf(req: Request): (p: Posted)
    requires Admissible(req)
    ensures |p.writes| == req.writeLength
  {
    Posted(req.address % 0x80, Data(req), req.readLength)
  }

  /** The final `switch`: any other word means success. */
  function CallResultOf(word: U32): CallResult {
    if word == 1 then AddressNacked else if word == 2 then DataNacked else Ok
  }

  /** Read bytes reach the caller only after an acknowledged read into a real buffer. */
  predicate CopiesOut(req: Request, word: U32) {
    word == 0 && req.readLength > 0 && !req.noReadBuffer
  }

  // ---------------------------------------------------------------------------
  // State
  // ---------------------------------------------------------------------------

  datatype ControllerPc =
    | Out
    | Checking(req: Request)
    | CopyWrite(req: Request, copied: nat)
    | PutWriteLength(req: Request)
    | PutReadLength(req: Request)
    | Post(req: Request)
    | Waiting(req: Request)
    | TakeResult(req: Request)
    | CopyRead(req: Request, word: U32, got: seq<Byte>)
    | Release(req: Request, word: U32, got: seq<Byte>)

  datatype ServicePc =
    | Head
    | Poll
    | LoadAddress
    | LoadWriteLength(address: Byte)
    | LoadReadLength(address: Byte, writeLength: nat)
    | StartWrite(address: Byte, writeLength: nat, readLength: nat)
    | Writing(address: Byte, writeLength: nat, readLength: nat, i: nat)
    | StartRead(address: Byte, readLength: nat)
    | Reading(readLength: nat, i: nat)
    | Stopping(outcome: TransactionResult)
    | StoreResult(outcome: TransactionResult)
    | BumpIndex
    | Publish
    | Done

  datatype StopperPc = Away | Joining | ClearReady | StoreShutdown

  /** One completed execution on the part, as observed. */
  datatype Execution = Execution(before: Log, after: Log, word: U32, buffer: seq<Byte>)

  /**
   One returned call: what it returned, the number of its posting (-1 when it
   never posted) and whether `stop()` had already returned when it began.
   */
  datatype Call = Call(request: Request, result: CallResult, got: seq<Byte>, posting: int, late: bool)

  /** The shared region. */
  datatype Bus = Bus(
    phase: BusPhase, ready: bool, index: nat,
    address: U32, writeLength: U32, readLength: U32, word: U32,
    writeBytes: seq<Byte>, readBytes: seq<Byte>)

  datatype History = History(posted: seq<Posted>, executions: seq<Execution>, calls: seq<Call>)

  /**
   `late`: stop() had returned when the running call began; `timedOut`: some call
   has given up on its deadline; `stopReturned`: stop() has returned.
   */
  datatype Flags = Flags(late: bool, timedOut: bool, stopReturned: bool)

  /** `before` is the part's log when the running execution began. */
  datatype State = State(
    bus: Bus, controller: ControllerPc, service: ServicePc, stopper: StopperPc,
    stopRequested: bool, log: Log, before: Log, history: History, flags: Flags)

  /** `start()` has returned: the region is fresh and the service thread runs. */
  function Initial(): State {
    State(Bus(Idle, true, 0, 0, 0, 0, 0, Zeros(MAX_PHASE_BYTES), Zeros(MAX_PHASE_BYTES)),
          Out, Head, Away, false, [], [], History([], [], []), Flags(false, false, false))
  }

  predicate BusInBounds(bus: Bus) {
    |bus.writeBytes| == MAX_PHASE_BYTES && |bus.readBytes| == MAX_PHASE_BYTES && bus.index < TWO_64
  }

  predicate ControllerInBounds(c: ControllerPc) {
    match c
    case Out => true
    case Checking(_) => true
    case CopyWrite(req, copied) => Admissible(req) && copied <= req.writeLength
    case CopyRead(req, word, got) => Admissible(req) && CopiesOut(req, word) && |got| <= req.readLength
    case Release(req, word, got) => Admissible(req) && |got| == if CopiesOut(req, word) then req.readLength else 0
    case _ => Admissible(c.req)
  }

  predicate ServiceInBounds(v: ServicePc) {
    match v
    case LoadReadLength(_, w) => w <= MAX_PHASE_BYTES
    case StartWrite(_, w, r) => w <= MAX_PHASE_BYTES && r <= MAX_PHASE_BYTES && (w > 0 || r == 0)
    case Writing(_, w, r, i) => i <= w <= MAX_PHASE_BYTES && r <= MAX_PHASE_BYTES
    case StartRead(_, r) => 0 < r <= MAX_PHASE_BYTES
    case Reading(r, i) => i <= r && 0 < r <= MAX_PHASE_BYTES
    case _ => true
  }

  /** The region's buffers have their fixed size and no counter points outside them. */
  predicate InBounds(s: State) {
    BusInBounds(s.bus) && ControllerInBounds(s.controller) && ServiceInBounds(s.service)
  }

  // ---------------------------------------------------------------------------
  // Steps
  // ---------------------------------------------------------------------------

  /** What the environment of the controller decides: the next call, or whether the deadline has passed. */
  datatype ControllerInput = Begin(req: Request) | Continue(deadlinePassed: bool)

  datatype Choice = Controller(input: ControllerInput) | Service | Stopper

  function Return(s: State, req: Request, result: CallResult, got: seq<Byte>, posting: int): State {
    s.(controller := Out,
       history := s.history.(calls := s.history.calls + [Call(req, result, got, posting, s.flags.late)]))
  }

  function ControllerStep(s: State, input: ControllerInput): (s': State)
    requires InBounds(s)
    ensures InBounds(s')
  {
    match s.controller
    case Out =>
      (match input
       case Begin(req) =>
         s.(controller := Checking(req), flags := s.flags.(late := s.flags.stopReturned))
       case Continue(_) => s)
    case Checking(req) =>
      if !Admissible(req) || s.bus.phase == ShutdownRequested then Return(s, req, BusFault, [], -1)
      else s.(controller := CopyWrite(req, 0))
    case CopyWrite(req, copied) =>
      if copied < req.writeLength then
        s.(bus := s.bus.(writeBytes := s.bus.writeBytes[copied := req.write.data[copied]]),
           controller := CopyWrite(req, copied + 1))
      else
        s.(bus := s.bus.(address := req.address % 0x80), controller := PutWriteLength(req))
    case PutWriteLength(req) =>
      s.(bus := s.bus.(writeLength := req.writeLength), controller := PutReadLength(req))
    case PutReadLength(req) =>
      s.(bus := s.bus.(readLength := req.readLength), controller := Post(req))
    case Post(req) =>
      s.(bus := s.bus.(phase := TransactionPosted), controller := Waiting(req),
         history := s.history.(posted := s.history.posted + [PostedOf(req)]))
    case Waiting(req) =>
      if s.bus.phase == TransactionComplete then s.(controller := TakeResult(req))
      else if s.bus.phase == ShutdownRequested then Return(s, req, BusFault, [], |s.history.posted| - 1)
      else if input == Continue(true) then
        Return(s.(flags := s.flags.(timedOut := true)), req, BusFault, [], |s.history.posted| - 1)
      else s
    case TakeResult(req) =>
      s.(controller := if CopiesOut(req, s.bus.word) then CopyRead(req, s.bus.word, [])
                       else Release(req, s.bus.word, []))
    case CopyRead(req, word, got) =>
      s.(controller := if |got| < req.readLength then CopyRead(req, word, got + [s.bus.readBytes[|got|]])
                       else Release(req, word, got))
    case Release(req, word, got) =>
      Return(s.(bus := s.bus.(phase := Idle)), req, CallResultOf(word), got, |s.history.posted| - 1)
  }

  function ServiceStep(dev: Device, s: State): (s': State)
    requires InBounds(s)
    ensures InBounds(s')
  {
    match s.service
    case Head => s.(service := if s.stopRequested then Done else Poll)
    case Poll =>
      if s.bus.phase != TransactionPosted then s.(service := Head)
      else s.(service := LoadAddress, before := s.log)
    case LoadAddress => s.(service := LoadWriteLength(s.bus.address % 0x80))
    case LoadWriteLength(a) => s.(service := LoadReadLength(a, Min(s.bus.writeLength, MAX_PHASE_BYTES)))
    case LoadReadLength(a, w) =>
      var r := Min(s.bus.readLength, MAX_PHASE_BYTES);
      s.(service := if w > 0 || r == 0 then StartWrite(a, w, r) else StartRead(a, r))
    case StartWrite(a, w, r) =>
      var e := StartEvent(dev, s.log, a, false);
      s.(log := s.log + [e], service := if e.ack then Writing(a, w, r, 0) else Stopping(AddressNack))
    case Writing(a, w, r, i) =>
      if i < w then
        var e := WriteEvent(dev, s.log, s.bus.writeBytes[i]);
        s.(log := s.log + [e], service := if e.ack then Writing(a, w, r, i + 1) else Stopping(DataNack))
      else
        s.(service := if r > 0 then StartRead(a, r) else Stopping(Acknowledged))
    case StartRead(a, r) =>
      var e := StartEvent(dev, s.log, a, true);
      s.(log := s.log + [e], service := if e.ack then Reading(r, 0) else Stopping(AddressNack))
    case Reading(r, i) =>
      if i < r then
        var e := ReadEvent(dev, s.log, i + 1 == r);
        s.(log := s.log + [e], bus := s.bus.(readBytes := s.bus.readBytes[i := e.data]), service := Reading(r, i + 1))
      else
        s.(service := Stopping(Acknowledged))
    case Stopping(outcome) => s.(log := s.log + [Stop], service := StoreResult(outcome))
    case StoreResult(outcome) => s.(bus := s.bus.(word := ResultValue(outcome)), service := BumpIndex)
    case BumpIndex =>
      var execution := Execution(s.before, s.log, s.bus.word, s.bus.readBytes);
      s.(bus := s.bus.(index := (s.bus.index + 1) % TWO_64), service := Publish,
         history := s.history.(executions := s.history.executions + [execution]))
    case Publish => s.(bus := s.bus.(phase := TransactionComplete), service := Head)
    case Done => s
  }

  /** `stop()` may be called again: the destructor does. */
  function StopperStep(s: State): (s': State)
    requires InBounds(s)
    ensures InBounds(s')
  {
    match s.stopper
    case Away => s.(stopRequested := true, stopper := Joining)
    case Joining => if s.service.Done? then s.(stopper := ClearReady) else s
    case ClearReady => s.(bus := s.bus.(ready := false), stopper := StoreShutdown)
    case StoreShutdown =>
      s.(bus := s.bus.(phase := ShutdownRequested), stopper := Away,
         flags := s.flags.(stopReturned := true))
  }

  // What a step leaves alone.

  lemma ServiceFrame(dev: Device, s: State)
    requires InBounds(s)
    ensures var s' := ServiceStep(dev, s);
            && s'.controller == s.controller && s'.stopper == s.stopper && s'.stopRequested == s.stopRequested
            && s'.flags == s.flags && s'.history.calls == s.history.calls && s'.history.posted == s.history.posted
            && (s.service.Done? ==> s' == s)
  {
  }

  lemma ServiceBus(dev: Device, s: State)
    requires InBounds(s)
    ensures var s' := ServiceStep(dev, s);
            && s'.bus == s.bus.(phase := s'.bus.phase, index := s'.bus.index,
                                word := s'.bus.word, readBytes := s'.bus.readBytes)
            && s'.bus.phase == (if s.service.Publish? then TransactionComplete else s.bus.phase)
  {
  }

  lemma ControllerFrame(s: State, input: ControllerInput)
    requires InBounds(s)
    ensures var s' := ControllerStep(s, input);
            && s'.service == s.service && s'.stopper == s.stopper && s'.stopRequested == s.stopRequested
            && s'.log == s.log && s'.before == s.before && s'.history.executions == s.history.executions
            && s'.flags.stopReturned == s.flags.stopReturned && (s.flags.timedOut ==> s'.flags.timedOut)
  {
    hide Data;
  }

  lemma ControllerBus(s: State, input: ControllerInput)
    requires InBounds(s)
    ensures var s' := ControllerStep(s, input);
            && s'.bus.ready == s.bus.ready && s'.bus.index == s.bus.index && s'.bus.word == s.bus.word
            && s'.bus.readBytes == s.bus.readBytes
  {
    hide Data;
  }

  lemma StopperFrame(s: State)
    requires InBounds(s)
    ensures var s' := StopperStep(s);
            && s'.controller == s.controller && s'.service == s.service && s'.history == s.history
            && s'.log == s.log && s'.before == s.before
            && (s.stopRequested ==> s'.stopRequested)
            && s'.flags.timedOut == s.flags.timedOut && s'.flags.late == s.flags.late
            && (s.flags.stopReturned ==> s'.flags.stopReturned)
            && s'.bus == s.bus.(phase := s'.bus.phase, ready := s'.bus.ready)
  {
  }

  /** Calls only grow, by the running one when it returns. */
  lemma ControllerCalls(s: State, input: ControllerInput)
    requires InBounds(s)
    ensures var s' := ControllerStep(s, input);
            if s.controller != Out && s'.controller == Out then
              && |s'.history.calls| == |s.history.calls| + 1 && s'.history.calls[..|s.history.calls|] == s.history.calls
              && var c := s'.history.calls[|s.history.calls|];
                 && c.request == s.controller.req && c.late == s.flags.late
                 && (s.controller.Release? || (c.result == BusFault && c.got == []))
            else s'.history.calls == s.history.calls
  {
  }

  /** A call is late from the moment it begins. */
  lemma ControllerLate(s: State, input: ControllerInput)
    requires InBounds(s)
    ensures var s' := ControllerStep(s, input);
            s'.flags.late == if s.controller == Out && s'.controller != Out then s.flags.stopReturned else s.flags.late
  {
  }

  function Next(dev: Device, s: State, c: Choice): (s': State)
    requires InBounds(s)
    ensures InBounds(s')
  {
    match c
    case Controller(input) => ControllerStep(s, input)
    case Service => ServiceStep(dev, s)
    case Stopper => StopperStep(s)
  }

  /** The state after a schedule, from `s`. */
  function RunFrom(dev: Device, s: State, schedule: seq<Choice>): (s': State)
    requires InBounds(s)
    ensures InBounds(s')
    decreases |schedule|
  {
    if schedule == [] then s
    else Next(dev, RunFrom(dev, s, schedule[..|schedule| - 1]), schedule[|schedule| - 1])
  }

  function Run(dev: Device, schedule: seq<Choice>): (s: State)
    ensures InBounds(s)
  {
    RunFrom(dev, Initial(), schedule)
  }

  lemma RunSnoc(dev: Device, s: State, schedule: seq<Choice>, c: Choice)
    requires InBounds(s)
    ensures RunFrom(dev, s, schedule + [c]) == Next(dev, RunFrom(dev, s, schedule), c)
  {
    hide Next;
    assert (schedule + [c])[..|schedule|] == schedule;
  }

  lemma {:induction false} RunConcat(dev: Device, s: State, a: seq<Choice>, b: seq<Choice>)
    requires InBounds(s)
    ensures RunFrom(dev, s, a + b) == RunFrom(dev, RunFrom(dev, s, a), b)
    decreases |b|
  {
    hide Next;
    if b == [] {
      assert a + b == a;
    } else {
      var c := b[|b| - 1];
      RunConcat(dev, s, a, b[..|b| - 1]);
      assert a + b == (a + b[..|b| - 1]) + [c];
      RunSnoc(dev, s, a + b[..|b| - 1], c);
    }
  }

  lemma RunNothing(dev: Device)
    ensures Run(dev, []) == Initial()
  {
  }

  /** One more step, for building a particular run. */
  lemma Reach(dev: Device, schedule: seq<Choice>, s: State, c: Choice) returns (s': State)
    requires InBounds(s) && s == Run(dev, schedule)
    ensures InBounds(s') && s' == Run(dev, schedule + [c]) && s' == Next(dev, s, c)
  {
    RunSnoc(dev, Initial(), schedule, c);
    s' := Run(dev, schedule + [c]);
  }

  /** A controller step before its deadline. */
  const GO := Controller(Continue(false))
}
