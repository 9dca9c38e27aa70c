/**
 `WatchdogSupervisor` in place: a fixed array of channel slots, of which the first
 `registeredCount` are in use.
 */
module Watchdog {
  import opened Words
  import opened WatchdogModel

  /** `elapsed` is the 32-bit counter. */
  datatype Slot = Slot(id: Byte, timeout: U32, elapsed: U32, registered: bool, expired: bool)

  /** The first `n` slots, as channels. */
  function InUse(slots: seq<Slot>, n: nat): (r: seq<Channel>)
    requires n <= |slots|
    ensures |r| == n
  {
    seq(n, i requires 0 <= i < n => Channel(slots[i].id, slots[i].timeout, slots[i].elapsed, slots[i].expired))
  }

  class WatchdogSupervisor {
    const channels: array<Slot>
    var registeredCount: nat

    /** The operations so far. */
    ghost var ops: seq<Op>

    ghost predicate Slots()
      reads this, channels
    {
      && channels.Length == MAX_CHANNELS
      && registeredCount <= MAX_CHANNELS
      && (forall i :: 0 <= i < MAX_CHANNELS ==> (channels[i].registered <==> i < registeredCount))
    }

    ghost function Contents(): seq<Channel>
      requires Slots()
      reads this, channels
    {
      InUse(channels[..], registeredCount)
    }

    ghost predicate Valid()
      reads this, channels
    {
      Slots() && Contents() == Run(Wrapping, ops)
    }

    constructor ()
      ensures Valid() && fresh(channels) && ops == []
    {
      channels := new Slot[MAX_CHANNELS](_ => Slot(0, 0, 0, false, false));
      registeredCount, ops := 0, [];
    }

    /** The slot of `id`, or the array's length. */
    method Find(id: Byte) returns (k: nat)
      requires Slots()
      ensures k == channels.Length || k < registeredCount
      ensures Position(Contents(), id) == if k < channels.Length then k else registeredCount
    {
      k := 0;
      while k < channels.Length
        invariant k <= channels.Length
        invariant forall i :: 0 <= i < k ==> !(channels[i].registered && channels[i].id == id)
      {
        if channels[k].registered && channels[k].id == id {
          PositionIs(Contents(), id, k);
          return;
        }
        k := k + 1;
      }
      PositionIs(Contents(), id, registeredCount);
    }

    method RegisterChannel(id: Byte, timeout: U32) returns (error: Error)
      requires Valid()
      modifies this, channels
      ensures Valid() && ops == old(ops) + [Register(id, timeout)]
      ensures LastReply(Wrapping, ops) == Answer(error)
      ensures error == if WatchOf(old(ops), id).Since? then DuplicateId
                       else if Accepted(old(ops)) == MAX_CHANNELS then RegistryFull else NoError
    {
      RunSnoc(Wrapping, ops, Register(id, timeout));
      RegisterReply(Wrapping, ops, id, timeout);
      hide Run, LastReply, Position, WatchOf, Accepted;
      ghost var before := Contents();
      var k := Find(id);
      ops := ops + [Register(id, timeout)];
      if k < channels.Length {
        return DuplicateId;
      }
      if registeredCount >= MAX_CHANNELS {
        return RegistryFull;
      }
      channels[registeredCount] := Slot(id, timeout, 0, true, false);
      registeredCount := registeredCount + 1;
      assert Contents() == before + [Channel(id, timeout, 0, false)];
      return NoError;
    }

    method Kick(id: Byte) returns (error: Error)
      requires Valid()
      modifies this, channels
      ensures Valid() && ops == old(ops) + [Op.Kick(id)]
      ensures LastReply(Wrapping, ops) == Answer(error)
      ensures error == if WatchOf(old(ops), id).Since? then NoError else UnknownId
    {
      RunSnoc(Wrapping, ops, Op.Kick(id));
      KickReply(Wrapping, ops, id);
      hide Run, LastReply, Position, WatchOf;
      ghost var before := Contents();
      var k := Find(id);
      ops := ops + [Op.Kick(id)];
      if k == channels.Length {
        return UnknownId;
      }
      channels[k] := channels[k].(elapsed := 0, expired := false);
      assert Contents() == before[k := before[k].(elapsed := 0, expired := false)];
      return NoError;
    }

    /** The body of the loop in `step`. */
    method StepChannel(k: nat, dt: U32) returns (expired: bool)
      requires Slots() && k < registeredCount
      modifies channels
      ensures Slots() && Contents() == old(Contents())[k := Ticked(Wrapping, old(Contents())[k], dt)]
      ensures expired == Contents()[k].expired
    {
      var c := channels[k];
      var elapsed := Add32(c.elapsed, dt);
      expired := c.expired || elapsed >= c.timeout;
      channels[k] := c.(elapsed := elapsed, expired := expired);
      assert Contents() == old(Contents())[k := Ticked(Wrapping, old(Contents())[k], dt)];
    }

    /** Advances every registered channel and reports whether any is expired. */
    method Step(dt: U32) returns (status: Status)
      requires Valid()
      modifies this, channels
      ensures Valid() && ops == old(ops) + [Tick(dt)]
      ensures LastReply(Wrapping, ops) == Health(status)
    {
      RunSnoc(Wrapping, ops, Tick(dt));
      ghost var before := Contents();
      ghost var after := TickAll(Wrapping, before, dt);
      status := AllOk;
      hide Run, InUse, LastReply;
      for k := 0 to channels.Length
        invariant Slots() && registeredCount == old(registeredCount) && ops == old(ops)
        invariant forall i :: 0 <= i < registeredCount ==> Contents()[i] == if i < k then after[i] else before[i]
        invariant status == if exists i :: 0 <= i < k && i < registeredCount && after[i].expired then Expired else AllOk
      {
        if !channels[k].registered {
          continue;
        }
        var expired := StepChannel(k, dt);
        if expired {
          status := Expired;
        }
      }
      assert Contents() == after;
      ops := ops + [Tick(dt)];
    }

    /** False for an id that was never registered. */
    method IsExpired(id: Byte) returns (expired: bool)
      requires Valid()
      ensures StepsFit(ops) ==> (expired <==> Overdue(WatchOf(ops, id)))
    {
      var k := Find(id);
      expired := k < channels.Length && channels[k].expired;
      if StepsFit(ops) {
        ExpiredIffOverdue(ops, id);
      }
    }
  }
}
