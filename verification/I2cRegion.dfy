/**
 The shared region of the bus, the part behind it, and `run_transaction` in the
 form the service thread executes it: loops over the region's buffers that
 deliver one bus event at a time and store read bytes in place.
 */
module I2cRegion {
  import opened Words
  import opened I2cTransaction

  datatype BusPhase = Idle | TransactionPosted | TransactionComplete | ShutdownRequested

  /** The value stored in the `result` word. */
  function ResultValue(result: TransactionResult): U32 {
    match result
    case Acknowledged => 0
    case AddressNack => 1
    case DataNack => 2
  }

  function Min(a: nat, b: nat): nat {
    if a < b then a else b
  }

  class BusRegion {
    var phase: BusPhase
    var peripheralReady: bool
    var transactionIndex: nat
    var targetAddress: U32
    var writeLength: U32
    var readLength: U32
    var result: U32
    const writeBytes: array<Byte>
    const readBytes: array<Byte>

    ghost predicate Valid()
      reads this
    {
      && writeBytes.Length == MAX_PHASE_BYTES
      && readBytes.Length == MAX_PHASE_BYTES
      && writeBytes != readBytes
      && transactionIndex < TWO_64
    }

    constructor ()
      ensures Valid() && fresh(writeBytes) && fresh(readBytes)
      ensures phase == Idle && !peripheralReady && transactionIndex == 0
      ensures targetAddress == writeLength == readLength == result == 0
      ensures forall i :: 0 <= i < MAX_PHASE_BYTES ==> writeBytes[i] == readBytes[i] == 0
    {
      phase, peripheralReady, transactionIndex := Idle, false, 0;
      targetAddress, writeLength, readLength, result := 0, 0, 0, 0;
      writeBytes := new Byte[MAX_PHASE_BYTES](_ => 0);
      readBytes := new Byte[MAX_PHASE_BYTES](_ => 0);
    }

    /** The transaction the region holds, lengths clamped to the buffers. */
    ghost function Transaction(): Posted
      requires Valid()
      reads this, writeBytes
    {
      Posted(targetAddress % 0x80,
             writeBytes[..Min(writeLength, MAX_PHASE_BYTES)],
             Min(readLength, MAX_PHASE_BYTES))
    }
  }

  /** The simulated part: answers as `model` says and remembers what it saw. */
  class Peripheral {
    const model: Device
    var log: Log

    constructor (model: Device)
      ensures this.model == model && log == []
    {
      this.model := model;
      log := [];
    }

    method Start(address: Byte, read: bool) returns (ack: bool)
      modifies this
      ensures log == old(log) + [StartEvent(model, old(log), address, read)]
      ensures ack == log[|log| - 1].ack
    {
      ack := model.startAck(log, address, read);
      log := log + [Event.Start(address, read, ack)];
    }

    method Write(data: Byte) returns (ack: bool)
      modifies this
      ensures log == old(log) + [WriteEvent(model, old(log), data)]
      ensures ack == log[|log| - 1].ack
    {
      ack := model.writeAck(log, data);
      log := log + [Event.Write(data, ack)];
    }

    method Read(last: bool) returns (data: Byte)
      modifies this
      ensures log == old(log) + [ReadEvent(model, old(log), last)]
      ensures data == log[|log| - 1].data
    {
      data := model.readByte(log, last);
      log := log + [Event.Read(last, data)];
    }

    method Stop()
      modifies this
      ensures log == old(log) + [Event.Stop]
    {
      log := log + [Event.Stop];
    }
  }

  /** The write loop: up to the byte that is refused, if one is. */
  method WriteBytes(device: Peripheral, bus: BusRegion, writeLength: nat, ghost p: Posted) returns (acked: bool)
    requires bus.Valid() && writeLength == |p.writes| <= MAX_PHASE_BYTES && bus.writeBytes[..writeLength] == p.writes
    modifies device
    ensures FromWrite(device.model, old(device.log), p, 0)
         == if acked then FromReadStart(device.model, device.log, p) else Ended(device.log, DataNack, [])
  {
    hide FromReadStart;
    for i := 0 to writeLength
      invariant FromWrite(device.model, device.log, p, i) == FromWrite(device.model, old(device.log), p, 0)
    {
      assert bus.writeBytes[i] == p.writes[i];
      var ack := device.Write(bus.writeBytes[i]);
      if !ack {
        return false;
      }
    }
    return true;
  }

  /** The read loop: each byte stored as it is driven. */
  method ReadBytes(device: Peripheral, bus: BusRegion, readLength: nat)
    requires bus.Valid() && readLength <= MAX_PHASE_BYTES
    modifies device, bus.readBytes
    ensures FromRead(device.model, old(device.log), readLength, [])
         == Ended(device.log, Acknowledged, bus.readBytes[..readLength])
    ensures bus.readBytes[readLength..] == old(bus.readBytes[readLength..])
  {
    ghost var o, buffer := FromRead(device.model, device.log, readLength, []), bus.readBytes[..];
    assert bus.readBytes[..0] == [];
    for i := 0 to readLength
      invariant bus.readBytes[i..] == buffer[i..]
      invariant FromRead(device.model, device.log, readLength - i, bus.readBytes[..i]) == o
    {
      ghost var front, back, log := bus.readBytes[..i], bus.readBytes[i..], device.log;
      var data := device.Read(i + 1 == readLength);
      bus.readBytes[i] := data;
      ReadOne(device.model, log, readLength - i, front);
      hide FromRead;
      assert bus.readBytes[..i + 1] == front + [data] && bus.readBytes[i + 1..] == back[1..];
    }
  }

  lemma ReadOne(dev: Device, log: Log, left: nat, got: seq<Byte>)
    requires left > 0
    ensures var e := ReadEvent(dev, log, left == 1);
            FromRead(dev, log, left, got) == FromRead(dev, log + [e], left - 1, got + [e.data])
  {
  }

  /**
   Leaves in the part's log the one trace `RunTransaction` describes, returns its
   result and stores its bytes at the front of `readBytes`, touching nothing else.
   */
  method ServeTransaction(device: Peripheral, bus: BusRegion) returns (result: TransactionResult)
    requires bus.Valid()
    modifies device, bus.readBytes
    ensures var o := RunTransaction(device.model, old(device.log), old(bus.Transaction()));
            && device.log == o.log
            && result == o.result
            && |o.bytes| <= MAX_PHASE_BYTES
            && bus.readBytes[..] == o.bytes + old(bus.readBytes[..])[|o.bytes|..]
  {
    var address := bus.targetAddress % 0x80;
    var writeLength := Min(bus.writeLength, MAX_PHASE_BYTES);
    var readLength := Min(bus.readLength, MAX_PHASE_BYTES);
    ghost var p := bus.Transaction();
    ghost var o := RunTransaction(device.model, device.log, p);
    hide FromWrite, FromRead;
    result := Acknowledged;

    if writeLength > 0 || readLength == 0 {
      var ack := device.Start(address, false);
      if !ack {
        device.Stop();
        return AddressNack;
      }
      var acked := WriteBytes(device, bus, writeLength, p);
      if !acked {
        result := DataNack;
      }
    }
    assert o == if result == DataNack then Ended(device.log, DataNack, [])
                else FromReadStart(device.model, device.log, p);

    if result == Acknowledged && readLength > 0 {
      var ack := device.Start(address, true);
      if !ack {
        device.Stop();
        return AddressNack;
      }
      ReadBytes(device, bus, readLength);
      assert bus.readBytes[..] == bus.readBytes[..readLength] + bus.readBytes[readLength..];
    }
    device.Stop();
  }
}
