/**
 The endpoints as the source has them: `transaction()` as straight-line code over
 the region, the service thread and `stop()` as threads that may run any number
 of steps between two of its accesses.  Every access is tied to a step of the
 transition system, so what holds of every schedule holds of every execution.
 */
module I2cShmLink {
  import opened Words
  import opened I2cTransaction
  import opened I2cRegion
  import opened I2cLink

  class Link {
    const bus: BusRegion
    const device: Peripheral

    var service: ServicePc
    var stopper: StopperPc
    var stopRequested: bool

    // how the other threads are interleaved: before access number `tick`, the
    // service thread (true) and stop() (false) take the steps `plan(tick)`
    const plan: nat -> seq<bool>
    var tick: nat

    ghost var controller: ControllerPc
    ghost var before: Log
    ghost var history: History
    ghost var flags: Flags
    ghost var schedule: seq<Choice>

    ghost function BusView(): Bus
      reads bus, bus.writeBytes, bus.readBytes
    {
      Bus(bus.phase, bus.peripheralReady, bus.transactionIndex,
          bus.targetAddress, bus.writeLength, bus.readLength, bus.result,
          bus.writeBytes[..], bus.readBytes[..])
    }

    ghost function View(): State
      reads this, bus, bus.writeBytes, bus.readBytes, device
    {
      State(BusView(), controller, service, stopper, stopRequested, device.log, before, history, flags)
    }

    /** Everything this object consists of. */
    ghost function Parts(): set<object> {
      {this, bus, bus.writeBytes, bus.readBytes, device}
    }

    ghost predicate Valid()
      reads this, bus, bus.writeBytes, bus.readBytes, device
    {
      && bus.Valid()
      && View() == Run(device.model, schedule)
    }

    /** A fresh region and a part in front of which `start()` has just returned. */
    constructor (model: Device, plan: nat -> seq<bool>)
      ensures Valid() && fresh(Parts())
      ensures controller == Out && history == History([], [], []) && schedule == []
      ensures device.model == model && this.plan == plan
    {
      bus := new BusRegion();
      device := new Peripheral(model);
      service, stopper, stopRequested := Head, Away, false;
      this.plan, tick := plan, 0;
      controller, before, history, flags := Out, [], History([], [], []), Flags(false, false, false);
      schedule := [];
      new;
      bus.peripheralReady := true;
      assert bus.writeBytes[..] == Zeros(MAX_PHASE_BYTES) && bus.readBytes[..] == Zeros(MAX_PHASE_BYTES);
    }

    /** The service thread delivers a START or a STOP to the part. */
    method ConditionMove()
      requires bus.Valid() && InBounds(View())
      requires service.StartWrite? || service.StartRead? || service.Stopping?
      modifies `service, device
      ensures bus.Valid() && View() == ServiceStep(device.model, old(View()))
    {
      match service
      case StartWrite(a, w, r) =>
        var ack := device.Start(a, false);
        service := if ack then Writing(a, w, r, 0) else Stopping(AddressNack);
      case StartRead(a, r) =>
        var ack := device.Start(a, true);
        service := if ack then Reading(r, 0) else Stopping(AddressNack);
      case Stopping(outcome) =>
        device.Stop();
        service := StoreResult(outcome);
    }

    /** The service thread moves a byte to or from the part, or finds that there is none left. */
    method ByteMove()
      requires bus.Valid() && InBounds(View())
      requires service.Writing? || service.Reading?
      modifies `service, bus.readBytes, device
      ensures bus.Valid() && View() == ServiceStep(device.model, old(View()))
    {
      match service
      case Writing(a, w, r, i) =>
        if i < w {
          var ack := device.Write(bus.writeBytes[i]);
          service := if ack then Writing(a, w, r, i + 1) else Stopping(DataNack);
        } else {
          service := if r > 0 then StartRead(a, r) else Stopping(Acknowledged);
        }
      case Reading(r, i) =>
        if i < r {
          var data := device.Read(i + 1 == r);
          bus.readBytes[i] := data;
          service := Reading(r, i + 1);
        } else {
          service := Stopping(Acknowledged);
        }
    }

    /** The service thread stores the result, counts the transaction or publishes it. */
    method FinishMove()
      requires bus.Valid() && InBounds(View())
      requires service.StoreResult? || service.BumpIndex? || service.Publish?
      modifies `service, `history, bus
      ensures bus.Valid() && View() == ServiceStep(device.model, old(View()))
    {
      match service
      case StoreResult(outcome) =>
        bus.result := ResultValue(outcome);
        service := BumpIndex;
      case BumpIndex =>
        history := history.(executions := history.executions
                                          + [Execution(before, device.log, bus.result, bus.readBytes[..])]);
        bus.transactionIndex := (bus.transactionIndex + 1) % TWO_64;
        service := Publish;
      case Publish =>
        bus.phase := TransactionComplete;
        service := Head;
    }

    /** One step of the service thread. */
    method ServiceMove()
      requires bus.Valid() && InBounds(View())
      modifies this, bus, bus.readBytes, device
      ensures bus.Valid() && View() == ServiceStep(device.model, old(View()))
      ensures schedule == old(schedule) && tick == old(tick)
    {
      match service
      case Head => service := if stopRequested then Done else Poll;
      case Poll =>
        if bus.phase != TransactionPosted {
          service := Head;
        } else {
          service, before := LoadAddress, device.log;
        }
      case LoadAddress => service := LoadWriteLength(bus.targetAddress % 0x80);
      case LoadWriteLength(a) => service := LoadReadLength(a, Min(bus.writeLength, MAX_PHASE_BYTES));
      case LoadReadLength(a, w) =>
        var r := Min(bus.readLength, MAX_PHASE_BYTES);
        service := if w > 0 || r == 0 then StartWrite(a, w, r) else StartRead(a, r);
      case Done =>
      case StoreResult(_) => FinishMove();
      case BumpIndex => FinishMove();
      case Publish => FinishMove();
      case Writing(_, _, _, _) => ByteMove();
      case Reading(_, _) => ByteMove();
      case _ => ConditionMove();
    }

    /** One step of the thread inside `stop()`. */
    method StopperMove()
      requires bus.Valid() && InBounds(View())
      modifies this, bus
      ensures bus.Valid() && View() == StopperStep(old(View()))
      ensures schedule == old(schedule) && tick == old(tick)
    {
      match stopper
      case Away => stopRequested, stopper := true, Joining;
      case Joining =>
        if service.Done? {
          stopper := ClearReady;
        }
      case ClearReady =>
        bus.peripheralReady := false;
        stopper := StoreShutdown;
      case StoreShutdown =>
        bus.phase := ShutdownRequested;
        stopper, flags := Away, flags.(stopReturned := true);
    }

    /** The other threads may move before an access of the controller. */
    method Interfere()
      requires Valid()
      modifies this, bus, bus.readBytes, device
      ensures Valid() && Kept(old(flags), flags)
      ensures controller == old(controller) && history.calls == old(history.calls)
      ensures history.posted == old(history.posted) && tick == old(tick) + 1
    {
      hide RunFrom, ServiceStep, StopperStep;
      var moves := plan(tick);
      tick := tick + 1;
      for i := 0 to |moves|
        invariant Valid() && Kept(old(flags), flags)
        invariant controller == old(controller) && history.calls == old(history.calls)
        invariant history.posted == old(history.posted) && tick == old(tick) + 1
      {
        ghost var s := View();
        ghost var c := if moves[i] then Service else Stopper;
        if moves[i] {
          ServiceMove();
        } else {
          StopperMove();
        }
        OthersLeaveController(device.model, s, c);
        RunSnoc(device.model, Initial(), schedule, c);
        schedule := schedule + [c];
      }
    }

    /** The access just made is the controller's step in `s`. */
    ghost method Record(s: State, input: ControllerInput)
      requires bus.Valid() && s == Run(device.model, schedule)
      requires View() == s.(bus := ControllerStep(s, input).bus)
      modifies `controller, `history, `flags, `schedule
      ensures Valid()
      ensures View() == ControllerStep(s, input)
    {
      var s' := ControllerStep(s, input);
      ControllerFrame(s, input);
      controller, history, flags := s'.controller, s'.history, s'.flags;
      RunSnoc(device.model, Initial(), schedule, Controller(input));
      schedule := schedule + [Controller(input)];
    }

    /** The arguments of a call, as the transition system sees them. */
    ghost function Arguments(address: Byte, writeBytes: array?<Byte>, writeLength: nat,
                             readBytes: array?<Byte>, readLength: nat): Request
      requires writeBytes != null ==> writeLength <= writeBytes.Length
      reads writeBytes
    {
      RawRequest(address, if writeBytes == null then Null else Bytes(writeBytes[..]), writeLength,
                 readBytes == null, readLength)
    }

    /** What a call leaves in its read buffer: the bytes it got in front, the rest as it was. */
    ghost predicate Received(readBytes: array?<Byte>, was: seq<Byte>, got: seq<Byte>)
      reads readBytes
    {
      if readBytes == null then got == []
      else |was| == readBytes.Length && |got| <= |was| && readBytes[..] == got + was[|got|..]
    }

    /** `peripheral_present()` */
    method PeripheralPresent() returns (present: bool)
      requires Valid()
      modifies this, bus, bus.readBytes, device
      ensures Valid() && Kept(old(flags), flags)
      ensures controller == old(controller) && history.calls == old(history.calls)
      ensures present == bus.peripheralReady
    {
      hide Valid;
      Interfere();
      present := bus.peripheralReady;
    }

    // Each access of the controller, after whatever the other threads did before it.

    method PutByte(ghost req: Request, i: nat, data: Byte)
      requires Valid() && controller == CopyWrite(req, i)
      requires i < req.writeLength && req.write == Bytes(req.write.data) && data == req.write.data[i]
      modifies this, bus, bus.writeBytes, bus.readBytes, device
      ensures Valid() && Kept(old(flags), flags)
      ensures controller == CopyWrite(req, i + 1) && history.calls == old(history.calls)
    {
      hide Run, RunFrom;
      Interfere();
      ghost var s := View();
      bus.writeBytes[i] := data;
      Record(s, Continue(false));
    }

    method PutAddress(ghost req: Request, address: Byte)
      requires Valid() && controller == CopyWrite(req, req.writeLength) && address == req.address
      modifies this, bus, bus.readBytes, device
      ensures Valid() && Kept(old(flags), flags)
      ensures controller == ControllerPc.PutWriteLength(req) && history.calls == old(history.calls)
    {
      hide Run, RunFrom;
      Interfere();
      ghost var s := View();
      bus.targetAddress := address % 0x80;
      Record(s, Continue(false));
    }

    method PutWriteLength(ghost req: Request, length: nat)
      requires Valid() && controller == ControllerPc.PutWriteLength(req) && length == req.writeLength
      modifies this, bus, bus.readBytes, device
      ensures Valid() && Kept(old(flags), flags)
      ensures controller == ControllerPc.PutReadLength(req) && history.calls == old(history.calls)
    {
      hide Run, RunFrom;
      Interfere();
      ghost var s := View();
      bus.writeLength := length;
      Record(s, Continue(false));
    }

    method PutReadLength(ghost req: Request, length: nat)
      requires Valid() && controller == ControllerPc.PutReadLength(req) && length == req.readLength
      modifies this, bus, bus.readBytes, device
      ensures Valid() && Kept(old(flags), flags)
      ensures controller == Post(req) && history.calls == old(history.calls)
    {
      hide Run, RunFrom;
      Interfere();
      ghost var s := View();
      bus.readLength := length;
      Record(s, Continue(false));
    }

    method StorePosted(ghost req: Request)
      requires Valid() && controller == Post(req)
      modifies this, bus, bus.readBytes, device
      ensures Valid() && Kept(old(flags), flags)
      ensures controller == Waiting(req) && history.calls == old(history.calls)
    {
      hide Run, RunFrom;
      Interfere();
      ghost var s := View();
      bus.phase := TransactionPosted;
      Record(s, Continue(false));
    }

    method LoadPhase(ghost req: Request, deadlinePassed: bool) returns (phase: BusPhase)
      requires Valid() && ((controller == Checking(req) && Admissible(req)) || controller == Waiting(req))
      modifies this, bus, bus.readBytes, device
      ensures Valid() && Kept(old(flags), flags)
      ensures var over := phase == ShutdownRequested
                       || (old(controller.Waiting?) && phase != TransactionComplete && deadlinePassed);
              if over then
                controller == Out && Returned(old(history.calls), history.calls, req, BusFault, [], flags.late)
              else
                && history.calls == old(history.calls)
                && controller == if old(controller.Checking?) then CopyWrite(req, 0)
                                 else if phase == TransactionComplete then TakeResult(req) else Waiting(req)
      ensures phase == bus.phase && tick == old(tick) + 1
    {
      hide Run, RunFrom;
      Interfere();
      ghost var s := View();
      phase := bus.phase;
      Record(s, Continue(deadlinePassed));
    }

    method LoadResult(ghost req: Request) returns (word: U32)
      requires Valid() && controller == TakeResult(req)
      modifies this, bus, bus.readBytes, device
      ensures Valid() && Kept(old(flags), flags)
      ensures history.calls == old(history.calls)
      ensures controller == if CopiesOut(req, word) then CopyRead(req, word, []) else Release(req, word, [])
    {
      hide Run, RunFrom;
      Interfere();
      ghost var s := View();
      word := bus.result;
      Record(s, Continue(false));
    }

    method GetByte(ghost req: Request, ghost word: U32, ghost got: seq<Byte>, i: nat) returns (data: Byte)
      requires Valid() && controller == CopyRead(req, word, got) && |got| == i < req.readLength
      modifies this, bus, bus.readBytes, device
      ensures Valid() && Kept(old(flags), flags)
      ensures controller == CopyRead(req, word, got + [data]) && history.calls == old(history.calls)
    {
      hide Run, RunFrom;
      Interfere();
      ghost var s := View();
      data := bus.readBytes[i];
      Record(s, Continue(false));
    }

    /** The copy loop has run to its end; no access. */
    ghost method EndCopy(req: Request, word: U32, got: seq<Byte>)
      requires Valid() && controller == CopyRead(req, word, got) && |got| == req.readLength
      modifies `controller, `history, `flags, `schedule
      ensures Valid() && Kept(old(flags), flags)
      ensures controller == Release(req, word, got) && history.calls == old(history.calls)
    {
      hide Run, RunFrom;
      Record(View(), Continue(false));
    }

    method StoreIdle(ghost req: Request, ghost word: U32, ghost got: seq<Byte>)
      requires Valid() && controller == Release(req, word, got)
      modifies this, bus, bus.readBytes, device
      ensures Valid() && Kept(old(flags), flags)
      ensures controller == Out
      ensures Returned(old(history.calls), history.calls, req, CallResultOf(word), got, flags.late)
    {
      hide Run, RunFrom;
      Interfere();
      ghost var s := View();
      bus.phase := Idle;
      Record(s, Continue(false));
    }

    /** The call begins; no access. */
    ghost method Enter(req: Request)
      requires Valid() && controller == Out
      modifies `controller, `history, `flags, `schedule
      ensures Valid() && flags == old(flags).(late := old(flags.stopReturned))
      ensures controller == Checking(req) && history.calls == old(history.calls)
    {
      hide Run, RunFrom;
      Record(View(), Begin(req));
    }

    /** The arguments are refused; no access. */
    ghost method Refuse(req: Request)
      requires Valid() && controller == Checking(req) && !Admissible(req)
      modifies `controller, `history, `flags, `schedule
      ensures Valid() && Kept(old(flags), flags)
      ensures controller == Out && Returned(old(history.calls), history.calls, req, BusFault, [], flags.late)
    {
      hide Run, RunFrom;
      Record(View(), Continue(false));
    }

    /**
     Polls the phase until it says complete, says shutdown, or the deadline has passed,
     which it has only after `polls` further looks.
     */
    method Await(ghost req: Request, polls: nat) returns (complete: bool)
      requires Valid() && controller == Waiting(req)
      modifies this, bus, bus.readBytes, device
      ensures Valid() && Kept(old(flags), flags)
      ensures if complete then tick <= old(tick) + polls + 1
              else bus.phase == ShutdownRequested || tick == old(tick) + polls + 1
      ensures if complete then controller == TakeResult(req) && history.calls == old(history.calls)
              else controller == Out && Returned(old(history.calls), history.calls, req, BusFault, [], flags.late)
    {
      hide Valid;
      var left := polls;
      while true
        invariant Valid() && Kept(old(flags), flags)
        invariant controller == Waiting(req) && history.calls == old(history.calls)
        invariant 0 <= left <= polls && tick == old(tick) + (polls - left)
        decreases left
      {
        var deadlinePassed := left == 0;
        var phase := LoadPhase(req, deadlinePassed);
        if phase == TransactionComplete {
          return true;
        }
        if phase == ShutdownRequested || deadlinePassed {
          return false;
        }
        left := left - 1;
      }
    }

    /** The copy loop. */
    method CopyOut(ghost req: Request, ghost word: U32, readBytes: array<Byte>, readLength: nat)
      returns (ghost got: seq<Byte>)
      requires Valid() && controller == CopyRead(req, word, [])
      requires req.readLength == readLength <= readBytes.Length && readBytes !in Parts()
      modifies this, bus, bus.readBytes, device, readBytes
      ensures Valid() && Kept(old(flags), flags)
      ensures history.calls == old(history.calls)
      ensures controller == CopyRead(req, word, got) && |got| == readLength
      ensures readBytes[..] == got + old(readBytes[..])[readLength..]
    {
      hide Valid, Run, RunFrom;
      ghost var was := readBytes[..];
      got := [];
      for i := 0 to readLength
        invariant Valid() && Kept(old(flags), flags)
        invariant controller == CopyRead(req, word, got) && history.calls == old(history.calls)
        invariant |got| == i && readBytes[..] == got + was[i..]
      {
        var data := GetByte(req, word, got, i);
        FrontGrows(got, was, i, data);
        OutsideStore(readBytes, i, data);
        got := got + [data];
      }
    }

    /** Reads the answer out of the region and hands the region back. */
    method Collect(ghost req: Request, readBytes: array?<Byte>, readLength: nat)
      returns (result: CallResult, ghost got: seq<Byte>)
      requires Valid() && controller == TakeResult(req)
      requires req.readLength == readLength && req.noReadBuffer == (readBytes == null)
      requires readBytes != null ==> readLength <= readBytes.Length
      requires readBytes !in Parts()
      modifies this, bus, bus.readBytes, device, readBytes
      ensures Valid() && Kept(old(flags), flags)
      ensures controller == Out
      ensures Returned(old(history.calls), history.calls, req, result, got, flags.late)
      ensures Received(readBytes, if readBytes == null then [] else old(readBytes[..]), got)
    {
      hide Valid, Run, RunFrom;
      var word := LoadResult(req);
      got := [];
      if word == 0 && readLength > 0 && readBytes != null {
        got := CopyOut(req, word, readBytes, readLength);
        EndCopy(req, word, got);
      }
      StoreIdle(req, word, got);
      result := CallResultOf(word);
    }

    /** A store to an array that is no part of this object. */
    method OutsideStore(a: array<Byte>, i: nat, data: Byte)
      requires Valid() && a !in Parts() && i < a.Length
      modifies a
      ensures Valid() && flags == old(flags)
      ensures a[..] == old(a[..])[i := data]
    {
      hide Run, RunFrom;
      a[i] := data;
    }

    /**
     One call of `transaction()`.  `polls` is how often it looks at the phase before
     its deadline passes.  Whatever the other threads did meanwhile, the object's
     state is again that of a schedule, one call longer.
     */
    method Transaction(address: Byte, writeBytes: array?<Byte>, writeLength: nat,
                       readBytes: array?<Byte>, readLength: nat, polls: nat)
      returns (result: CallResult, ghost got: seq<Byte>)
      requires Valid() && controller == Out
      requires writeBytes != null ==> writeLength <= writeBytes.Length
      requires readBytes != null ==> readLength <= readBytes.Length
      requires writeBytes !in Parts() && readBytes !in Parts()
      modifies this, bus, bus.writeBytes, bus.readBytes, device, readBytes
      ensures Valid() && (old(flags.stopReturned) ==> flags.stopReturned)
      ensures controller == Out
      ensures Returned(old(history.calls), history.calls,
                       old(Arguments(address, writeBytes, writeLength, readBytes, readLength)), result, got,
                       old(flags.stopReturned))
      ensures Received(readBytes, if readBytes == null then [] else old(readBytes[..]), got)
    {
      hide Valid, Run, RunFrom;
      ghost var req := Arguments(address, writeBytes, writeLength, readBytes, readLength);
      Enter(req);
      got := [];

      if writeLength > MAX_PHASE_BYTES || readLength > MAX_PHASE_BYTES || (writeLength > 0 && writeBytes == null) {
        Refuse(req);
        return BusFault, got;
      }
      var phase := LoadPhase(req, false);
      if phase == ShutdownRequested {
        return BusFault, got;
      }

      for i := 0 to writeLength
        invariant Valid() && flags.late == old(flags.stopReturned) && (flags.late ==> flags.stopReturned)
        invariant controller == CopyWrite(req, i) && history.calls == old(history.calls)
        invariant writeLength > 0 ==> writeBytes != null && req.write == Bytes(writeBytes[..])
        invariant readBytes != null ==> readBytes[..] == old(readBytes[..])
      {
        PutByte(req, i, writeBytes[i]);
      }
      PutAddress(req, address);
      PutWriteLength(req, writeLength);
      PutReadLength(req, readLength);
      StorePosted(req);

      var complete := Await(req, polls);
      if !complete {
        return BusFault, got;
      }
      result, got := Collect(req, readBytes, readLength);
    }
  }

  lemma FrontGrows(got: seq<Byte>, was: seq<Byte>, i: nat, data: Byte)
    requires |got| == i < |was|
    ensures (got + was[i..])[i := data] == got + [data] + was[i + 1..]
  {
  }

  /** Within a call: `stop()` having returned stays so, and when the call began does not change. */
  ghost predicate Kept(f: Flags, g: Flags) {
    (f.stopReturned ==> g.stopReturned) && g.late == f.late
  }

  /** One more call has returned; `late` if `stop()` had when it began. */
  ghost predicate Returned(before: seq<Call>, after: seq<Call>,
                           req: Request, result: CallResult, got: seq<Byte>, late: bool)
  {
    && |after| == |before| + 1
    && after[..|before|] == before
    && var c := after[|before|];
       c.request == req && c.result == result && c.got == got && c.late == late
  }

  lemma OthersLeaveController(dev: Device, s: State, c: Choice)
    requires InBounds(s) && !c.Controller?
    ensures var s' := Next(dev, s, c);
            && s'.controller == s.controller
            && s'.history.calls == s.history.calls && s'.history.posted == s.history.posted
            && Kept(s.flags, s'.flags)
  {
    ServiceFrame(dev, s);
    StopperFrame(s);
    hide ServiceStep, StopperStep;
  }
}
