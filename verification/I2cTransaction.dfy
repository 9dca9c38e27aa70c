/**
 One I2C transaction on one simulated part.

 A part is an arbitrary deterministic state machine.  Its state is everything it
 has seen, so it is given by three functions of the log of bus events: the
 address acknowledge, the data acknowledge and the byte it drives.  Because a log
 only grows, no two queries are made on the same log, and hence every run of a
 part that answers arbitrarily is also a run of one of these.

 `RunTransaction` walks a posted transaction through the part, one bus event at
 a time.  `OnTheBus` is the bus-event order of UM10204 (sections 3.1.4, 3.1.6 and
 3.1.10), written down without reference to that walk.
 */
module I2cTransaction {
  import opened Words

  /** kMaxPhaseBytes */
  const MAX_PHASE_BYTES: nat := 256

  datatype Event =
    | Start(address: Byte, read: bool, ack: bool)
    | Write(data: Byte, ack: bool)
    | Read(last: bool, data: Byte)
    | Stop

  type Log = seq<Event>

  datatype Device = Device(
    startAck: (Log, Byte, bool) -> bool,
    writeAck: (Log, Byte) -> bool,
    readByte: (Log, bool) -> Byte)

  datatype TransactionResult = Acknowledged | AddressNack | DataNack

  /** What the controller publishes in the shared region. */
  datatype Posted = Posted(address: Byte, writes: seq<Byte>, readLength: nat)

  /** The log when the transaction ended, its result and the bytes read. */
  datatype Outcome = Outcome(log: Log, result: TransactionResult, bytes: seq<Byte>)

  // ---------------------------------------------------------------------------
  // The walk, cut at every bus event so that it can be resumed anywhere
  // ---------------------------------------------------------------------------

  function StartEvent(dev: Device, log: Log, address: Byte, read: bool): Event {
    Start(address, read, dev.startAck(log, address, read))
  }

  function WriteEvent(dev: Device, log: Log, data: Byte): Event {
    Write(data, dev.writeAck(log, data))
  }

  function ReadEvent(dev: Device, log: Log, last: bool): Event {
    Read(last, dev.readByte(log, last))
  }

  function Ended(log: Log, result: TransactionResult, bytes: seq<Byte>): Outcome {
    Outcome(log + [Stop], result, bytes)
  }

  function FromRead(dev: Device, log: Log, left: nat, got: seq<Byte>): Outcome
    decreases left
  {
    if left == 0 then Ended(log, Acknowledged, got)
    else
      var e := ReadEvent(dev, log, left == 1);
      FromRead(dev, log + [e], left - 1, got + [e.data])
  }

  function FromReadStart(dev: Device, log: Log, p: Posted): Outcome {
    if p.readLength == 0 then Ended(log, Acknowledged, [])
    else
      var e := StartEvent(dev, log, p.address, true);
      if !e.ack then Ended(log + [e], AddressNack, [])
      else FromRead(dev, log + [e], p.readLength, [])
  }

  function FromWrite(dev: Device, log: Log, p: Posted, i: nat): Outcome
    requires i <= |p.writes|
    decreases |p.writes| - i
  {
    if i == |p.writes| then FromReadStart(dev, log, p)
    else
      var e := WriteEvent(dev, log, p.writes[i]);
      if !e.ack then Ended(log + [e], DataNack, [])
      else FromWrite(dev, log + [e], p, i + 1)
  }

  /** A write phase is walked for written bytes and for the empty/empty probe. */
  predicate HasWritePhase(p: Posted) {
    |p.writes| > 0 || p.readLength == 0
  }

  function RunTransaction(dev: Device, log: Log, p: Posted): Outcome {
    if HasWritePhase(p) then
      var e := StartEvent(dev, log, p.address, false);
      if !e.ack then Ended(log + [e], AddressNack, [])
      else FromWrite(dev, log + [e], p, 0)
    else FromReadStart(dev, log, p)
  }

  // ---------------------------------------------------------------------------
  // The bus-event order, independently of the walk
  // ---------------------------------------------------------------------------

  function AckedWrites(bytes: seq<Byte>): Log {
    seq(|bytes|, i requires 0 <= i < |bytes| => Write(bytes[i], true))
  }

  /** `last` accompanies the final byte and no other. */
  function ReadEvents(bytes: seq<Byte>): Log {
    seq(|bytes|, i requires 0 <= i < |bytes| => Read(i + 1 == |bytes|, bytes[i]))
  }

  /** A read phase, if there is one, and the STOP. */
  predicate ReadTail(p: Posted, tail: Log, result: TransactionResult, bytes: seq<Byte>) {
    if p.readLength == 0 then
      result == Acknowledged && bytes == [] && tail == [Stop]
    else
      || (result == AddressNack && bytes == [] && tail == [Start(p.address, true, false), Stop])
      || (&& result == Acknowledged && |bytes| == p.readLength
          && tail == [Start(p.address, true, true)] + ReadEvents(bytes) + [Stop])
  }

  /** What follows `k` acknowledged bytes: the refused byte and the STOP, or the read phase. */
  predicate WriteTail(p: Posted, k: nat, tail: Log, result: TransactionResult, bytes: seq<Byte>)
    requires k <= |p.writes|
  {
    if k < |p.writes| then
      result == DataNack && bytes == [] && tail == [Write(p.writes[k], false), Stop]
    else
      ReadTail(p, tail, result, bytes)
  }

  /** An acknowledged write START with the first `k` posted bytes acknowledged, then `tail`. */
  predicate WriteTrace(p: Posted, k: nat, tail: Log, trace: Log, result: TransactionResult, bytes: seq<Byte>) {
    && k <= |p.writes|
    && trace == [Start(p.address, false, true)] + (AckedWrites(p.writes[..k]) + tail)
    && WriteTail(p, k, tail, result, bytes)
  }

  /** The event traces a transaction may leave, with how it ended. */
  ghost predicate OnTheBus(p: Posted, trace: Log, result: TransactionResult, bytes: seq<Byte>) {
    if HasWritePhase(p) then
      || (result == AddressNack && bytes == [] && trace == [Start(p.address, false, false), Stop])
      || (exists k: nat, tail: Log :: WriteTrace(p, k, tail, trace, result, bytes))
    else
      ReadTail(p, trace, result, bytes)
  }

  /** `e` is the part's own answer after `log`. */
  predicate IsAnswer(dev: Device, log: Log, e: Event) {
    match e
    case Start(a, r, ack) => ack == dev.startAck(log, a, r)
    case Write(d, ack) => ack == dev.writeAck(log, d)
    case Read(last, d) => d == dev.readByte(log, last)
    case Stop => true
  }

  /** Every event of `trace`, observed after `log`, carries the part's own answer. */
  ghost predicate Answered(dev: Device, log: Log, trace: Log)
    decreases |trace|
  {
    trace == [] || (IsAnswer(dev, log, trace[0]) && Answered(dev, log + [trace[0]], trace[1..]))
  }

  lemma AnsweredCons(dev: Device, log: Log, e: Event, rest: Log)
    ensures Answered(dev, log, [e] + rest) <==> IsAnswer(dev, log, e) && Answered(dev, log + [e], rest)
    ensures log + [e] + rest == log + ([e] + rest)
  {
    assert ([e] + rest)[1..] == rest;
  }

  // ---------------------------------------------------------------------------
  // The walk leaves a trace of the bus-event order, answered by the part
  // ---------------------------------------------------------------------------

  lemma {:induction false} FromReadFits(dev: Device, log: Log, left: nat, got: seq<Byte>) returns (trace: Log)
    ensures var o := FromRead(dev, log, left, got);
            && o.result == Acknowledged
            && |o.bytes| == |got| + left && got <= o.bytes
            && trace == ReadEvents(o.bytes)[|got|..] + [Stop]
            && o.log == log + trace
            && Answered(dev, log, trace)
    decreases left
  {
    var o := FromRead(dev, log, left, got);
    if left == 0 {
      trace := [Stop];
      assert ReadEvents(o.bytes)[|got|..] == [];
    } else {
      var e := ReadEvent(dev, log, left == 1);
      var rest := FromReadFits(dev, log + [e], left - 1, got + [e.data]);
      trace := [e] + rest;
      assert o.bytes[|got|] == (got + [e.data])[|got|];
      assert ReadEvents(o.bytes)[|got|..] == [e] + ReadEvents(o.bytes)[|got| + 1..];
      AnsweredCons(dev, log, e, rest);
    }
  }

  lemma FromReadStartFits(dev: Device, log: Log, p: Posted) returns (trace: Log)
    ensures var o := FromReadStart(dev, log, p);
            && o.log == log + trace
            && Answered(dev, log, trace)
            && ReadTail(p, trace, o.result, o.bytes)
  {
    if p.readLength == 0 {
      trace := [Stop];
    } else {
      var e := StartEvent(dev, log, p.address, true);
      if e.ack {
        var rest := FromReadFits(dev, log + [e], p.readLength, []);
        trace := [e] + rest;
        var o := FromReadStart(dev, log, p);
        assert ReadEvents(o.bytes)[0..] == ReadEvents(o.bytes);
        AnsweredCons(dev, log, e, rest);
      } else {
        trace := [e] + [Stop];
        AnsweredCons(dev, log, e, [Stop]);
      }
    }
  }

  /** From byte `i` on, the walk acknowledges the bytes up to some `k` and closes the trace. */
  lemma {:induction false} FromWriteFits(dev: Device, log: Log, p: Posted, i: nat) returns (k: nat, tail: Log)
    requires i <= |p.writes|
    ensures i <= k <= |p.writes|
    ensures var o := FromWrite(dev, log, p, i);
            var trace := AckedWrites(p.writes[i..k]) + tail;
            && o.log == log + trace
            && Answered(dev, log, trace)
            && WriteTail(p, k, tail, o.result, o.bytes)
    decreases |p.writes| - i
  {
    if i == |p.writes| {
      k := i;
      tail := FromReadStartFits(dev, log, p);
      assert AckedWrites(p.writes[i..k]) + tail == tail;
    } else {
      var e := WriteEvent(dev, log, p.writes[i]);
      if e.ack {
        k, tail := FromWriteFits(dev, log + [e], p, i + 1);
        var rest := AckedWrites(p.writes[i + 1..k]) + tail;
        AnsweredCons(dev, log, e, rest);
        assert AckedWrites(p.writes[i..k]) == [e] + AckedWrites(p.writes[i + 1..k]);
        assert AckedWrites(p.writes[i..k]) + tail == [e] + rest;
      } else {
        k, tail := i, [e] + [Stop];
        AnsweredCons(dev, log, e, [Stop]);
        assert AckedWrites(p.writes[i..k]) + tail == tail;
      }
    }
  }

  /**
   Whatever the part answers, the trace of one transaction has the bus-event
   order, ends with its only STOP, and is the part's own.
   */
  lemma TransactionFits(dev: Device, log: Log, p: Posted) returns (trace: Log)
    ensures var o := RunTransaction(dev, log, p);
            && o.log == log + trace
            && OnTheBus(p, trace, o.result, o.bytes)
            && Answered(dev, log, trace)
  {
    var o := RunTransaction(dev, log, p);
    if HasWritePhase(p) {
      var e := StartEvent(dev, log, p.address, false);
      if e.ack {
        var k, tail := FromWriteFits(dev, log + [e], p, 0);
        var rest := AckedWrites(p.writes[0..k]) + tail;
        assert p.writes[0..k] == p.writes[..k];
        trace := [e] + rest;
        AnsweredCons(dev, log, e, rest);
        assert WriteTrace(p, k, tail, trace, o.result, o.bytes);
      } else {
        trace := [e] + [Stop];
        AnsweredCons(dev, log, e, [Stop]);
      }
    } else {
      trace := FromReadStartFits(dev, log, p);
    }
  }

  // ---------------------------------------------------------------------------
  // ... and there is no other such trace
  // ---------------------------------------------------------------------------

  lemma {:induction false} FromReadOnly(dev: Device, log: Log, bytes: seq<Byte>, k: nat)
    requires k <= |bytes|
    requires Answered(dev, log, ReadEvents(bytes)[k..] + [Stop])
    ensures FromRead(dev, log, |bytes| - k, bytes[..k])
         == Outcome(log + (ReadEvents(bytes)[k..] + [Stop]), Acknowledged, bytes)
    decreases |bytes| - k
  {
    if k == |bytes| {
      assert ReadEvents(bytes)[k..] + [Stop] == [Stop] && bytes[..k] == bytes;
    } else {
      var e := ReadEvents(bytes)[k];
      var rest := ReadEvents(bytes)[k + 1..] + [Stop];
      assert ReadEvents(bytes)[k..] + [Stop] == [e] + rest;
      AnsweredCons(dev, log, e, rest);
      FromReadOnly(dev, log + [e], bytes, k + 1);
      assert bytes[..k + 1] == bytes[..k] + [e.data];
    }
  }

  lemma FromReadStartOnly(dev: Device, log: Log, p: Posted, tail: Log, result: TransactionResult, bytes: seq<Byte>)
    requires Answered(dev, log, tail) && ReadTail(p, tail, result, bytes)
    ensures FromReadStart(dev, log, p) == Outcome(log + tail, result, bytes)
  {
    if p.readLength > 0 {
      var e := tail[0];
      assert tail == [e] + tail[1..];
      AnsweredCons(dev, log, e, tail[1..]);
      if e.ack {
        assert tail[1..] == ReadEvents(bytes)[0..] + [Stop];
        FromReadOnly(dev, log + [e], bytes, 0);
      } else {
        assert tail[1..] == [Stop];
      }
    }
  }

  /** Acknowledged bytes are walked one by one. */
  lemma {:induction false} FromWriteSkips(dev: Device, log: Log, p: Posted, i: nat, k: nat, rest: Log)
    requires i <= k <= |p.writes|
    requires Answered(dev, log, AckedWrites(p.writes[i..k]) + rest)
    ensures var mid := log + AckedWrites(p.writes[i..k]);
            Answered(dev, mid, rest) && FromWrite(dev, log, p, i) == FromWrite(dev, mid, p, k)
    decreases k - i
  {
    if i == k {
      assert AckedWrites(p.writes[i..k]) + rest == rest && log + AckedWrites(p.writes[i..k]) == log;
    } else {
      var e := Write(p.writes[i], true);
      var tail := AckedWrites(p.writes[i + 1..k]);
      assert AckedWrites(p.writes[i..k]) == [e] + tail;
      assert [e] + tail + rest == [e] + (tail + rest);
      AnsweredCons(dev, log, e, tail + rest);
      FromWriteSkips(dev, log + [e], p, i + 1, k, rest);
      assert log + [e] + tail == log + ([e] + tail);
    }
  }

  /**
   A trace in bus-event order that carries the part's own answers is the trace of
   the walk, with its result and its bytes: skip, repeat or reorder one event
   and this fails.
   */
  lemma TransactionIsTheOnlyOne(dev: Device, log: Log, p: Posted,
                                trace: Log, result: TransactionResult, bytes: seq<Byte>)
    requires OnTheBus(p, trace, result, bytes) && Answered(dev, log, trace)
    ensures RunTransaction(dev, log, p) == Outcome(log + trace, result, bytes)
  {
    if !HasWritePhase(p) {
      FromReadStartOnly(dev, log, p, trace, result, bytes);
    } else {
      var e := trace[0];
      assert trace == [e] + trace[1..];
      AnsweredCons(dev, log, e, trace[1..]);
      if e.ack {
        var k: nat, tail :| WriteTrace(p, k, tail, trace, result, bytes);
        WriteTraceOnly(dev, log + [e], p, k, tail, result, bytes);
        assert trace[1..] == AckedWrites(p.writes[..k]) + tail;
      } else {
        assert trace[1..] == [Stop];
      }
    }
  }

  lemma WriteTraceOnly(dev: Device, log: Log, p: Posted, k: nat, tail: Log,
                       result: TransactionResult, bytes: seq<Byte>)
    requires k <= |p.writes| && WriteTail(p, k, tail, result, bytes)
    requires Answered(dev, log, AckedWrites(p.writes[..k]) + tail)
    ensures FromWrite(dev, log, p, 0) == Outcome(log + (AckedWrites(p.writes[..k]) + tail), result, bytes)
  {
    assert p.writes[0..k] == p.writes[..k];
    FromWriteSkips(dev, log, p, 0, k, tail);
    var mid := log + AckedWrites(p.writes[..k]);
    assert mid + tail == log + (AckedWrites(p.writes[..k]) + tail);
    if k < |p.writes| {
      assert tail == [tail[0]] + [Stop];
      AnsweredCons(dev, mid, tail[0], [Stop]);
    } else {
      FromReadStartOnly(dev, mid, p, tail, result, bytes);
    }
  }

  /** The only STOP is the last event, and `last` is set on the event before it and on no other. */
  ghost predicate OneStop(trace: Log) {
    && (forall i :: 0 <= i < |trace| ==> (trace[i] == Stop <==> i == |trace| - 1))
    && (forall i :: 0 <= i < |trace| && trace[i].Read? ==> (trace[i].last <==> i == |trace| - 2))
  }

  /** A second START is a repeated START in read mode, after an acknowledged write START. */
  ghost predicate RepeatedStart(address: Byte, trace: Log) {
    forall i, j :: 0 <= i < j < |trace| && trace[i].Start? && trace[j].Start? ==>
      trace[i] == Start(address, false, true) && trace[j].read
  }

  lemma WriteTailOrder(p: Posted, k: nat, tail: Log, result: TransactionResult, bytes: seq<Byte>)
    requires k <= |p.writes| && WriteTail(p, k, tail, result, bytes)
    ensures tail != [] && OneStop(tail)
    ensures forall i :: 0 <= i < |tail| && tail[i].Start? ==> i == 0 && tail[i].read
  {
    if k == |p.writes| && p.readLength > 0 && result == Acknowledged {
      var start := [Start(p.address, true, true)];
      assert forall i :: 0 <= i < |bytes| ==> tail[1 + i] == ReadEvents(bytes)[i];
    }
  }

  /** Skip, repeat or reorder a START, the `last` flag or the STOP and this fails. */
  lemma StartsReadsAndStop(p: Posted, trace: Log, result: TransactionResult, bytes: seq<Byte>)
    requires OnTheBus(p, trace, result, bytes)
    ensures OneStop(trace) && RepeatedStart(p.address, trace)
  {
    if !HasWritePhase(p) {
      WriteTailOrder(p, |p.writes|, trace, result, bytes);
    } else if trace != [Start(p.address, false, false), Stop] {
      var k: nat, tail :| WriteTrace(p, k, tail, trace, result, bytes);
      WriteTailOrder(p, k, tail, result, bytes);
      var head := [Start(p.address, false, true)] + AckedWrites(p.writes[..k]);
      assert trace == head + tail;
      AfterWrites(p.address, head, tail);
    }
  }

  /** An acknowledged write START and its bytes in front of a tail that is in order. */
  lemma AfterWrites(address: Byte, head: Log, tail: Log)
    requires head != [] && head[0] == Start(address, false, true) && forall i :: 0 < i < |head| ==> head[i].Write?
    requires tail != [] && OneStop(tail) && forall i :: 0 <= i < |tail| && tail[i].Start? ==> i == 0 && tail[i].read
    ensures OneStop(head + tail) && RepeatedStart(address, head + tail)
  {
    var (trace, n) := (head + tail, |head|);
    forall i | 0 <= i < |trace|
      ensures trace[i] == Stop <==> i == |trace| - 1
      ensures trace[i].Read? ==> (trace[i].last <==> i == |trace| - 2)
      ensures trace[i].Start? ==> if i < n then i == 0 else i == n && trace[i].read
    {
      if i >= n {
        assert trace[i] == tail[i - n];
      }
    }
  }

  /** The trace ends with a START that was not acknowledged, and the STOP. */
  predicate StartRefused(trace: Log) {
    |trace| >= 2 && trace[|trace| - 2].Start? && !trace[|trace| - 2].ack
  }

  /** The trace ends with a written byte that was not acknowledged, and the STOP. */
  predicate ByteRefused(trace: Log) {
    |trace| >= 2 && trace[|trace| - 2].Write? && !trace[|trace| - 2].ack
  }

  /** The result says which answer of the part ended the transaction; every START is for its address. */
  lemma ResultIsTheLastAnswer(p: Posted, trace: Log, result: TransactionResult, bytes: seq<Byte>)
    requires OnTheBus(p, trace, result, bytes)
    ensures result == AddressNack <==> StartRefused(trace)
    ensures result == DataNack <==> ByteRefused(trace)
    ensures forall i :: 0 <= i < |trace| && trace[i].Start? ==> trace[i].address == p.address
  {
    if !HasWritePhase(p) {
      TailTells(p, |p.writes|, trace, result, bytes);
    } else if trace != [Start(p.address, false, false), Stop] {
      var k: nat, tail :| WriteTrace(p, k, tail, trace, result, bytes);
      TailTells(p, k, tail, result, bytes);
      var head := [Start(p.address, false, true)] + AckedWrites(p.writes[..k]);
      assert trace == head + tail;
      BehindWrites(p.address, head, tail);
    }
  }

  lemma TailTells(p: Posted, k: nat, tail: Log, result: TransactionResult, bytes: seq<Byte>)
    requires k <= |p.writes| && WriteTail(p, k, tail, result, bytes)
    ensures tail != [] && (|tail| == 1 ==> tail == [Stop])
    ensures result == AddressNack <==> StartRefused(tail)
    ensures result == DataNack <==> ByteRefused(tail)
    ensures forall i :: 0 <= i < |tail| && tail[i].Start? ==> tail[i].address == p.address
  {
    if k == |p.writes| && p.readLength > 0 && result == Acknowledged {
      var n := |bytes|;
      assert tail == [Start(p.address, true, true)] + ReadEvents(bytes) + [Stop];
      assert forall i :: 0 <= i < n ==> tail[1 + i] == ReadEvents(bytes)[i];
      assert tail[n].Read?;
    }
  }

  lemma BehindWrites(address: Byte, head: Log, tail: Log)
    requires head != [] && head[0] == Start(address, false, true)
    requires forall i :: 0 < i < |head| ==> head[i].Write? && head[i].ack
    requires tail != []
    requires forall i :: 0 <= i < |tail| && tail[i].Start? ==> tail[i].address == address
    ensures StartRefused(head + tail) <==> StartRefused(tail)
    ensures ByteRefused(head + tail) <==> ByteRefused(tail)
    ensures forall i :: 0 <= i < |head + tail| && (head + tail)[i].Start? ==> (head + tail)[i].address == address
  {
    var (trace, n) := (head + tail, |head + tail| - 2);
    assert trace[n] == if n < |head| then head[n] else tail[n - |head|];
    forall i | 0 <= i < |trace| && trace[i].Start? ensures trace[i].address == address {
      if i >= |head| {
        assert trace[i] == tail[i - |head|];
      }
    }
  }

  /** The bytes of an outcome: all that were asked for after an acknowledge, else none. */
  lemma BytesRead(dev: Device, log: Log, p: Posted)
    ensures var o := RunTransaction(dev, log, p);
            |o.bytes| == if o.result == Acknowledged then p.readLength else 0
  {
    var trace := TransactionFits(dev, log, p);
    hide RunTransaction;
  }

  /** Completed executions leave one STOP each. */
  function Stops(log: Log): nat {
    if log == [] then 0 else Stops(log[..|log| - 1]) + (if log[|log| - 1] == Stop then 1 else 0)
  }

  lemma StopsOfExtension(log: Log, e: Event)
    ensures Stops(log + [e]) == Stops(log) + (if e == Stop then 1 else 0)
  {
    assert (log + [e])[..|log|] == log;
  }
}
