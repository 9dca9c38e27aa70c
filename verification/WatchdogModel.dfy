/**
 The software watchdog on values: channels with a deadline, a latch, and a clock
 that is either the source's 32-bit counter or an unbounded one.
 */
module WatchdogModel {
  import opened Words

  /** kMaxWatchdogChannels */
  const MAX_CHANNELS: nat := 8

  datatype Error = NoError | RegistryFull | DuplicateId | UnknownId

  datatype Status = AllOk | Expired

  datatype Channel = Channel(id: Byte, timeout: U32, elapsed: nat, expired: bool)

  datatype Op = Register(id: Byte, timeout: U32) | Kick(id: Byte) | Tick(dt: U32)

  datatype Reply = Answer(error: Error) | Health(status: Status)

  datatype Outcome = Outcome(channels: seq<Channel>, reply: Reply)

  function Position(channels: seq<Channel>, id: Byte): (k: nat)
    ensures k <= |channels|
    ensures k < |channels| ==> channels[k].id == id
    ensures forall i :: 0 <= i < k ==> channels[i].id != id
  {
    if channels == [] || channels[0].id == id then 0 else 1 + Position(channels[1..], id)
  }

  function Ticked(clock: Clock, c: Channel, dt: U32): Channel {
    var elapsed := Advance(clock, c.elapsed, dt);
    c.(elapsed := elapsed, expired := c.expired || elapsed >= c.timeout)
  }

  function TickAll(clock: Clock, channels: seq<Channel>, dt: U32): (r: seq<Channel>)
    ensures |r| == |channels|
  {
    seq(|channels|, i requires 0 <= i < |channels| => Ticked(clock, channels[i], dt))
  }

  function StatusOf(channels: seq<Channel>): Status {
    if exists i :: 0 <= i < |channels| && channels[i].expired then Expired else AllOk
  }

  function Apply(clock: Clock, channels: seq<Channel>, op: Op): Outcome {
    match op
    case Register(id, timeout) =>
      if Position(channels, id) < |channels| then Outcome(channels, Answer(DuplicateId))
      else if |channels| >= MAX_CHANNELS then Outcome(channels, Answer(RegistryFull))
      else Outcome(channels + [Channel(id, timeout, 0, false)], Answer(NoError))
    case Kick(id) =>
      var k := Position(channels, id);
      if k == |channels| then Outcome(channels, Answer(UnknownId))
      else Outcome(channels[k := channels[k].(elapsed := 0, expired := false)], Answer(NoError))
    case Tick(dt) =>
      var ticked := TickAll(clock, channels, dt);
      Outcome(ticked, Health(StatusOf(ticked)))
  }

  /** The channels after a sequence of operations on a fresh supervisor. */
  function Run(clock: Clock, ops: seq<Op>): seq<Channel>
    decreases |ops|
  {
    if ops == [] then [] else Apply(clock, Run(clock, ops[..|ops| - 1]), ops[|ops| - 1]).channels
  }

  /** What the last operation returned. */
  function LastReply(clock: Clock, ops: seq<Op>): Reply
    requires ops != []
  {
    Apply(clock, Run(clock, ops[..|ops| - 1]), ops[|ops| - 1]).reply
  }

  lemma RunSnoc(clock: Clock, ops: seq<Op>, op: Op)
    ensures Run(clock, ops + [op]) == Apply(clock, Run(clock, ops), op).channels
    ensures LastReply(clock, ops + [op]) == Apply(clock, Run(clock, ops), op).reply
  {
    assert (ops + [op])[..|ops|] == ops;
  }

  lemma {:induction false} PositionIs(channels: seq<Channel>, id: Byte, k: nat)
    requires k <= |channels| && (k < |channels| ==> channels[k].id == id)
    requires forall i :: 0 <= i < k ==> channels[i].id != id
    ensures Position(channels, id) == k
    decreases |channels|
  {
    if k > 0 {
      PositionIs(channels[1..], id, k - 1);
    }
  }

  // ---------------------------------------------------------------------------
  // The wrapping clock agrees with the unbounded one
  // ---------------------------------------------------------------------------

  /** No tick overflows the counter of a channel that is not yet expired. */
  ghost predicate StepsFit(ops: seq<Op>)
    decreases |ops|
  {
    ops == [] ||
    (var (before, op) := (ops[..|ops| - 1], ops[|ops| - 1]);
     && StepsFit(before)
     && (op.Tick? ==> TickFits(Run(Unbounded, before), op.dt)))
  }

  predicate TickFits(channels: seq<Channel>, dt: U32) {
    forall c :: c in channels && !c.expired ==> dt + c.elapsed < TWO_32
  }

  /** A bound in the configured timeouts alone: dt + timeout <= 2^32 for every channel. */
  ghost predicate StepsBounded(ops: seq<Op>)
    decreases |ops|
  {
    ops == [] ||
    (var (before, op) := (ops[..|ops| - 1], ops[|ops| - 1]);
     && StepsBounded(before)
     && (op.Tick? ==> forall c :: c in Run(Unbounded, before) ==> op.dt + c.timeout <= TWO_32))
  }

  /** Same channel, same verdict; the counters differ only once the verdict is latched. */
  predicate Agree(a: Channel, b: Channel) {
    && a.id == b.id && a.timeout == b.timeout && a.expired == b.expired
    && (!a.expired ==> a.elapsed == b.elapsed && (a.elapsed < a.timeout || a.elapsed == 0))
  }

  ghost predicate AllAgree(a: seq<Channel>, b: seq<Channel>) {
    |a| == |b| && forall i :: 0 <= i < |a| ==> Agree(a[i], b[i])
  }

  lemma TickAgrees(a: Channel, b: Channel, dt: U32)
    requires Agree(a, b) && (!b.expired ==> dt + b.elapsed < TWO_32)
    ensures Agree(Ticked(Wrapping, a, dt), Ticked(Unbounded, b, dt))
  {
  }

  lemma {:induction false} SamePosition(a: seq<Channel>, b: seq<Channel>, id: Byte)
    requires AllAgree(a, b)
    ensures Position(a, id) == Position(b, id)
    decreases |a|
  {
    if a != [] {
      assert Agree(a[0], b[0]);
      SamePosition(a[1..], b[1..], id);
    }
  }

  lemma ApplyAgrees(a: seq<Channel>, b: seq<Channel>, op: Op)
    requires AllAgree(a, b)
    requires op.Tick? ==> TickFits(b, op.dt)
    ensures AllAgree(Apply(Wrapping, a, op).channels, Apply(Unbounded, b, op).channels)
    ensures Apply(Wrapping, a, op).reply == Apply(Unbounded, b, op).reply
  {
    match op
    case Register(id, timeout) => SamePosition(a, b, id);
    case Kick(id) => SamePosition(a, b, id);
    case Tick(dt) =>
      var a', b' := TickAll(Wrapping, a, dt), TickAll(Unbounded, b, dt);
      forall i | 0 <= i < |a'| ensures Agree(a'[i], b'[i]) {
        assert b[i] in b && Agree(a[i], b[i]);
        TickAgrees(a[i], b[i], dt);
      }
      assert forall i :: 0 <= i < |a'| ==> a'[i].expired == b'[i].expired;
  }

  /**
   Over a run of any length and any total duration whose single steps fit, the 32-bit
   supervisor returns what one with unbounded counters returns, and every channel has
   the same verdict.
   */
  lemma {:induction false} WrapIsHarmless(ops: seq<Op>)
    requires StepsFit(ops)
    ensures AllAgree(Run(Wrapping, ops), Run(Unbounded, ops))
    ensures ops != [] ==> LastReply(Wrapping, ops) == LastReply(Unbounded, ops)
    decreases |ops|
  {
    if ops != [] {
      var before, op := ops[..|ops| - 1], ops[|ops| - 1];
      WrapIsHarmless(before);
      ApplyAgrees(Run(Wrapping, before), Run(Unbounded, before), op);
    }
  }

  /** What a caller can see of the channels: the same ids with the same verdicts. */
  ghost predicate SameVerdicts(a: seq<Channel>, b: seq<Channel>) {
    |a| == |b| && forall i :: 0 <= i < |a| ==> a[i].id == b[i].id && a[i].expired == b[i].expired
  }

  lemma AgreedVerdicts(a: seq<Channel>, b: seq<Channel>)
    requires AllAgree(a, b)
    ensures SameVerdicts(a, b)
  {
    forall i | 0 <= i < |a| ensures a[i].id == b[i].id && a[i].expired == b[i].expired {
      assert Agree(a[i], b[i]);
    }
  }

  /** A tick that overflows the counter of a channel not yet expired makes it miss its deadline. */
  lemma OverflowShows(a: seq<Channel>, b: seq<Channel>, dt: U32)
    requires AllAgree(a, b) && !TickFits(b, dt)
    ensures !SameVerdicts(TickAll(Wrapping, a, dt), TickAll(Unbounded, b, dt))
  {
    var c :| c in b && !c.expired && dt + c.elapsed >= TWO_32;
    var i :| 0 <= i < |b| && b[i] == c;
    assert Agree(a[i], b[i]);
    var wrapped, unbounded := Ticked(Wrapping, a[i], dt), Ticked(Unbounded, b[i], dt);
    assert wrapped.elapsed == c.elapsed + dt - TWO_32 < c.elapsed < c.timeout;
    assert TickAll(Wrapping, a, dt)[i] == wrapped && TickAll(Unbounded, b, dt)[i] == unbounded;
  }

  lemma OverflowTold(before: seq<Op>, op: Op)
    requires StepsFit(before) && op.Tick? && !TickFits(Run(Unbounded, before), op.dt)
    ensures !SameVerdicts(Run(Wrapping, before + [op]), Run(Unbounded, before + [op]))
  {
    WrapIsHarmless(before);
    RunSnoc(Wrapping, before, op);
    RunSnoc(Unbounded, before, op);
    OverflowShows(Run(Wrapping, before), Run(Unbounded, before), op.dt);
    hide Run;
  }

  lemma {:induction false} FitsPrefix(ops: seq<Op>, k: nat)
    requires StepsFit(ops) && k <= |ops|
    ensures StepsFit(ops[..k])
    decreases |ops|
  {
    if k == |ops| {
      assert ops[..k] == ops;
    } else {
      FitsPrefix(ops[..|ops| - 1], k);
      assert ops[..|ops| - 1][..k] == ops[..k];
    }
  }

  lemma {:induction false} FirstOverflow(ops: seq<Op>) returns (k: nat)
    requires !StepsFit(ops)
    ensures k < |ops| && StepsFit(ops[..k]) && ops[k].Tick? && !TickFits(Run(Unbounded, ops[..k]), ops[k].dt)
    decreases |ops|
  {
    k := |ops| - 1;
    if !StepsFit(ops[..k]) {
      var n := k;
      k := FirstOverflow(ops[..n]);
      assert ops[..n][..k] == ops[..k];
    }
  }

  /** Through a whole run the 32-bit supervisor's verdicts are the unbounded one's exactly when every step fits. */
  lemma WrapIsHarmlessIff(ops: seq<Op>)
    ensures StepsFit(ops) <==>
            forall k :: 0 <= k <= |ops| ==> SameVerdicts(Run(Wrapping, ops[..k]), Run(Unbounded, ops[..k]))
  {
    hide Run, SameVerdicts, AllAgree, TickFits;
    if StepsFit(ops) {
      forall k | 0 <= k <= |ops| ensures SameVerdicts(Run(Wrapping, ops[..k]), Run(Unbounded, ops[..k])) {
        FitsPrefix(ops, k);
        WrapIsHarmless(ops[..k]);
        AgreedVerdicts(Run(Wrapping, ops[..k]), Run(Unbounded, ops[..k]));
      }
    } else {
      var k := FirstOverflow(ops);
      OverflowTold(ops[..k], ops[k]);
      assert ops[..k + 1] == ops[..k] + [ops[k]];
    }
  }

  /** On the unbounded clock a channel not yet expired has not reached its timeout. */
  lemma {:induction false} NotYetExpired(ops: seq<Op>, i: nat)
    requires i < |Run(Unbounded, ops)| && !Run(Unbounded, ops)[i].expired
    ensures var c := Run(Unbounded, ops)[i]; c.elapsed < c.timeout || c.elapsed == 0
    decreases |ops|
  {
    if ops != [] {
      var before := ops[..|ops| - 1];
      if i < |Run(Unbounded, before)| && !Run(Unbounded, before)[i].expired {
        NotYetExpired(before, i);
      }
    }
  }

  /** The bound in the timeouts is enough. */
  lemma {:induction false} BoundedStepsFit(ops: seq<Op>)
    requires StepsBounded(ops)
    ensures StepsFit(ops)
    decreases |ops|
  {
    if ops != [] {
      var before, op := ops[..|ops| - 1], ops[|ops| - 1];
      BoundedStepsFit(before);
      hide Run;
      if op.Tick? {
        forall c | c in Run(Unbounded, before) && !c.expired ensures op.dt + c.elapsed < TWO_32 {
          var i :| 0 <= i < |Run(Unbounded, before)| && Run(Unbounded, before)[i] == c;
          NotYetExpired(before, i);
        }
      }
    }
  }

  /** Up to a millisecond before the deadline, then `dt`. */
  function LastMoment(id: Byte, timeout: U32, dt: U32): seq<Op> {
    [Register(id, timeout), Tick(if timeout == 0 then 0 else timeout - 1), Tick(dt)]
  }

  /**
   The bound is the best possible: a channel silent up to the last moment and then for
   `dt` is reported by the 32-bit supervisor as by the unbounded one exactly when the
   bound holds.
   */
  lemma BoundIsExact(id: Byte, timeout: U32, dt: U32)
    ensures var ops := LastMoment(id, timeout, dt);
            LastReply(Wrapping, ops) == LastReply(Unbounded, ops) <==> dt + timeout <= TWO_32
  {
    LastMomentReply(Wrapping, id, timeout, dt);
    LastMomentReply(Unbounded, id, timeout, dt);
    hide LastReply, LastMoment;
    assert dt + timeout > TWO_32 ==> Advance(Wrapping, timeout - 1, dt) == timeout - 1 + dt - TWO_32 < timeout;
  }

  lemma LastMomentReply(clock: Clock, id: Byte, timeout: U32, dt: U32)
    ensures LastReply(clock, LastMoment(id, timeout, dt)) ==
            Health(if timeout == 0 || Advance(clock, timeout - 1, dt) >= timeout then Expired else AllOk)
  {
    var ops := LastMoment(id, timeout, dt);
    var soon: U32 := if timeout == 0 then 0 else timeout - 1;
    hide Advance, Apply, Run;
    OneChannel(clock, Channel(id, timeout, 0, false), soon);
    OneChannel(clock, Channel(id, timeout, soon, timeout == 0), dt);
    Registered(clock, id, timeout);
    assert ops[..1] == [Register(id, timeout)] && ops[..2] == ops[..1] + [Tick(soon)] && ops == ops[..2] + [Tick(dt)];
    RunSnoc(clock, ops[..1], Tick(soon));
    RunSnoc(clock, ops[..2], Tick(dt));
  }

  lemma Registered(clock: Clock, id: Byte, timeout: U32)
    ensures Run(clock, [Register(id, timeout)]) == [Channel(id, timeout, 0, false)]
  {
    assert [Register(id, timeout)][..0] == [];
  }

  lemma OneChannel(clock: Clock, c: Channel, dt: U32)
    ensures var (o, elapsed) := (Apply(clock, [c], Tick(dt)), Advance(clock, c.elapsed, dt));
            var expired := c.expired || elapsed >= c.timeout;
            && o.channels == [c.(elapsed := elapsed, expired := expired)]
            && o.reply == Health(if expired then Expired else AllOk)
  {
    hide Advance;
    var ticked := TickAll(clock, [c], dt);
    assert ticked == [Ticked(clock, c, dt)] && ticked[0] == Ticked(clock, c, dt);
  }

  // ---------------------------------------------------------------------------
  // The verdict of one channel
  // ---------------------------------------------------------------------------

  datatype Watch = Unregistered | Since(timeout: U32, silence: nat, stepped: bool)

  /**
   One channel by itself: the total time since its last kick or its registration,
   and whether the supervisor has stepped since; nothing about latches or counters.
   */
  function WatchOf(ops: seq<Op>, id: Byte): Watch
    decreases |ops|
  {
    if ops == [] then Unregistered
    else
      var before := ops[..|ops| - 1];
      WatchNext(WatchOf(before, id), Accepted(before), ops[|ops| - 1], id)
  }

  /** One operation, `accepted` ids having been registered before it. */
  function WatchNext(w: Watch, accepted: nat, op: Op, id: Byte): Watch {
    match op
    case Register(i, timeout) =>
      if i == id && w.Unregistered? && accepted < MAX_CHANNELS then Since(timeout, 0, false) else w
    case Kick(i) => if i == id && w.Since? then Since(w.timeout, 0, false) else w
    case Tick(dt) => if w.Since? then Since(w.timeout, w.silence + dt, true) else w
  }

  lemma WatchSnoc(before: seq<Op>, op: Op, id: Byte)
    ensures WatchOf(before + [op], id) == WatchNext(WatchOf(before, id), Accepted(before), op, id)
    ensures Accepted(before + [op]) ==
            if op.Register? && WatchOf(before, op.id).Unregistered? && Accepted(before) < MAX_CHANNELS
            then Accepted(before) + 1 else Accepted(before)
  {
    assert (before + [op])[..|before|] == before;
  }

  /** How many ids have been registered. */
  function Accepted(ops: seq<Op>): nat
    decreases |ops|
  {
    if ops == [] then 0
    else
      var before := ops[..|ops| - 1];
      match ops[|ops| - 1]
      case Register(i, _) =>
        if WatchOf(before, i).Unregistered? && Accepted(before) < MAX_CHANNELS then Accepted(before) + 1
        else Accepted(before)
      case _ => Accepted(before)
  }

  /** Silent for its timeout or longer, as of the last step. */
  predicate Overdue(w: Watch) {
    w.Since? && w.stepped && w.silence >= w.timeout
  }

  /** A channel, its id registered, against its watch. */
  predicate Watched(c: Channel, w: Watch) {
    w.Since? && c.timeout == w.timeout && c.elapsed == w.silence && c.expired == Overdue(w)
  }

  predicate Holds(channels: seq<Channel>, id: Byte) {
    exists i :: 0 <= i < |channels| && channels[i].id == id
  }

  /** The channels are exactly the registered ids, each once, each as its watch says. */
  ghost predicate Tracks(watch: Byte -> Watch, accepted: nat, channels: seq<Channel>) {
    && |channels| == accepted <= MAX_CHANNELS
    && (forall i :: 0 <= i < |channels| ==> Watched(channels[i], watch(channels[i].id)))
    && (forall i, j :: 0 <= i < j < |channels| ==> channels[i].id != channels[j].id)
    && (forall id: Byte :: watch(id).Since? ==> Holds(channels, id))
  }

  ghost predicate AllWatched(ops: seq<Op>, channels: seq<Channel>) {
    Tracks((id: Byte) => WatchOf(ops, id), Accepted(ops), channels)
  }

  lemma TickTracks(watch: Byte -> Watch, after: Byte -> Watch, accepted: nat, channels: seq<Channel>, dt: U32)
    requires Tracks(watch, accepted, channels)
    requires forall id: Byte :: after(id) == WatchNext(watch(id), accepted, Tick(dt), id)
    ensures Tracks(after, accepted, TickAll(Unbounded, channels, dt))
  {
    var channels' := TickAll(Unbounded, channels, dt);
    forall i | 0 <= i < |channels'| ensures Watched(channels'[i], after(channels'[i].id)) {
      assert Watched(channels[i], watch(channels[i].id));
    }
    forall id: Byte | after(id).Since? ensures Holds(channels', id) {
      assert watch(id).Since? && Holds(channels, id);
      var i :| 0 <= i < |channels| && channels[i].id == id;
      assert channels'[i].id == id;
    }
  }

  lemma KickTracks(watch: Byte -> Watch, after: Byte -> Watch, accepted: nat, channels: seq<Channel>, id: Byte)
    requires Tracks(watch, accepted, channels)
    requires forall i: Byte :: after(i) == WatchNext(watch(i), accepted, Kick(id), i)
    ensures Tracks(after, accepted, Apply(Unbounded, channels, Kick(id)).channels)
  {
    hide Position;
    var channels' := Apply(Unbounded, channels, Kick(id)).channels;
    assert forall i :: 0 <= i < |channels| ==> channels'[i].id == channels[i].id;
    forall i | 0 <= i < |channels'| ensures Watched(channels'[i], after(channels'[i].id)) {
      assert Watched(channels[i], watch(channels[i].id));
    }
    forall i: Byte | after(i).Since? ensures Holds(channels', i) {
      assert Holds(channels, i);
      var k :| 0 <= k < |channels| && channels[k].id == i;
      assert channels'[k].id == i;
    }
  }

  lemma RegisterTracks(watch: Byte -> Watch, after: Byte -> Watch, accepted: nat, channels: seq<Channel>,
                       id: Byte, timeout: U32)
    requires Tracks(watch, accepted, channels)
    requires forall i: Byte :: after(i) == WatchNext(watch(i), accepted, Register(id, timeout), i)
    ensures Tracks(after, if watch(id).Unregistered? && accepted < MAX_CHANNELS then accepted + 1 else accepted,
                   Apply(Unbounded, channels, Register(id, timeout)).channels)
  {
    hide Position;
    var k := Position(channels, id);
    if k < |channels| {
      assert Watched(channels[k], watch(id));
    } else {
      assert !Holds(channels, id);
    }
    var channels' := Apply(Unbounded, channels, Register(id, timeout)).channels;
    forall i | 0 <= i < |channels'| ensures Watched(channels'[i], after(channels'[i].id)) {
      if i < |channels| {
        assert Watched(channels[i], watch(channels[i].id));
      }
    }
    forall i: Byte | after(i).Since? ensures Holds(channels', i) {
      if watch(i).Since? {
        assert Holds(channels, i);
        var j :| 0 <= j < |channels| && channels[j].id == i;
        assert channels'[j].id == i;
      } else {
        assert channels'[|channels|].id == i;
      }
    }
  }

  lemma ApplyWatched(before: seq<Op>, op: Op, channels: seq<Channel>)
    requires AllWatched(before, channels)
    ensures AllWatched(before + [op], Apply(Unbounded, channels, op).channels)
  {
    hide WatchOf, Accepted, Tracks, WatchNext;
    var watch: Byte -> Watch := (id: Byte) => WatchOf(before, id);
    var after: Byte -> Watch := (id: Byte) => WatchOf(before + [op], id);
    forall id: Byte
      ensures after(id) == WatchNext(watch(id), Accepted(before), op, id)
    {
      WatchSnoc(before, op, id);
    }
    WatchSnoc(before, op, 0);
    match op
    case Register(id, timeout) => RegisterTracks(watch, after, Accepted(before), channels, id, timeout);
    case Kick(id) => KickTracks(watch, after, Accepted(before), channels, id);
    case Tick(dt) => TickTracks(watch, after, Accepted(before), channels, dt);
  }

  lemma {:induction false} RunWatched(ops: seq<Op>)
    ensures AllWatched(ops, Run(Unbounded, ops))
    decreases |ops|
  {
    if ops != [] {
      var before, op := ops[..|ops| - 1], ops[|ops| - 1];
      RunWatched(before);
      ApplyWatched(before, op, Run(Unbounded, before));
      assert before + [op] == ops;
    }
  }

  /**
   `is_expired`: on the 32-bit supervisor a channel is expired exactly when it has
   been silent for its timeout or longer at the last step, in total time since its
   last kick or registration.
   */
  lemma ExpiredIffOverdue(ops: seq<Op>, id: Byte)
    requires StepsFit(ops)
    ensures var channels := Run(Wrapping, ops);
            var k := Position(channels, id);
            (k < |channels| && channels[k].expired) <==> Overdue(WatchOf(ops, id))
  {
    WrapIsHarmless(ops);
    RunWatched(ops);
    var a, b := Run(Wrapping, ops), Run(Unbounded, ops);
    SamePosition(a, b, id);
    assert WatchOf(ops, id).Since? ==> Holds(b, id);
    var k := Position(a, id);
    if k < |a| {
      assert Agree(a[k], b[k]) && Watched(b[k], WatchOf(ops, id));
    }
  }

  lemma StatusWatched(ops: seq<Op>, channels: seq<Channel>)
    requires AllWatched(ops, channels)
    ensures StatusOf(channels) == Expired <==> exists id: Byte :: Overdue(WatchOf(ops, id))
  {
    hide WatchOf;
    if id: Byte :| Overdue(WatchOf(ops, id)) {
      assert Holds(channels, id);
    }
    if i :| 0 <= i < |channels| && channels[i].expired {
      assert Watched(channels[i], WatchOf(ops, channels[i].id));
      assert Overdue(WatchOf(ops, channels[i].id));
    }
  }

  lemma TickReply(clock: Clock, ops: seq<Op>)
    requires ops != [] && ops[|ops| - 1].Tick?
    ensures LastReply(clock, ops) == Health(StatusOf(Run(clock, ops)))
  {
  }

  /** `step` reports expiry exactly when some channel is overdue after it. */
  lemma StatusIffSomeOverdue(ops: seq<Op>)
    requires StepsFit(ops) && ops != [] && ops[|ops| - 1].Tick?
    ensures LastReply(Wrapping, ops) == Health(Expired) <==> exists id: Byte :: Overdue(WatchOf(ops, id))
  {
    hide *;
    WrapIsHarmless(ops);
    RunWatched(ops);
    StatusWatched(ops, Run(Unbounded, ops));
    TickReply(Unbounded, ops);
  }

  /** The slots are filled in the same order on either clock. */
  ghost predicate SameIds(a: seq<Channel>, b: seq<Channel>) {
    |a| == |b| && forall i :: 0 <= i < |a| ==> a[i].id == b[i].id
  }

  lemma {:induction false} SameSlot(a: seq<Channel>, b: seq<Channel>, id: Byte)
    requires SameIds(a, b)
    ensures Position(a, id) == Position(b, id)
    decreases |a|
  {
    if a != [] {
      SameSlot(a[1..], b[1..], id);
    }
  }

  lemma {:induction false} ClocksShareSlots(ops: seq<Op>)
    ensures SameIds(Run(Wrapping, ops), Run(Unbounded, ops))
    decreases |ops|
  {
    if ops != [] {
      var before, op := ops[..|ops| - 1], ops[|ops| - 1];
      ClocksShareSlots(before);
      if !op.Tick? {
        SameSlot(Run(Wrapping, before), Run(Unbounded, before), op.id);
      }
      hide Position, Advance;
    }
  }

  /** An id has a slot exactly when it is registered, and there are as many slots as ids. */
  lemma SlotIffRegistered(clock: Clock, ops: seq<Op>, id: Byte)
    ensures var channels := Run(clock, ops);
            && |channels| == Accepted(ops) <= MAX_CHANNELS
            && (Position(channels, id) < |channels| <==> WatchOf(ops, id).Since?)
  {
    RunWatched(ops);
    ClocksShareSlots(ops);
    var channels := Run(Unbounded, ops);
    SameSlot(Run(Wrapping, ops), channels, id);
    assert WatchOf(ops, id).Since? ==> Holds(channels, id);
    var k := Position(channels, id);
    if k < |channels| {
      assert Watched(channels[k], WatchOf(ops, id));
    }
    hide Run, WatchOf, Accepted;
  }

  /** `kick` answers by whether the id is registered, on either clock. */
  lemma KickReply(clock: Clock, before: seq<Op>, id: Byte)
    ensures LastReply(clock, before + [Kick(id)]) == Answer(if WatchOf(before, id).Since? then NoError else UnknownId)
  {
    RunSnoc(clock, before, Kick(id));
    SlotIffRegistered(clock, before, id);
    hide Run, LastReply, WatchOf, Accepted;
  }

  /** `register_channel` answers by whether the id is registered, and then by how many are. */
  lemma RegisterReply(clock: Clock, before: seq<Op>, id: Byte, timeout: U32)
    ensures LastReply(clock, before + [Register(id, timeout)])
         == Answer(if WatchOf(before, id).Since? then DuplicateId
                   else if Accepted(before) == 8 then RegistryFull
                   else NoError)
  {
    RunSnoc(clock, before, Register(id, timeout));
    SlotIffRegistered(clock, before, id);
    hide Run, LastReply, WatchOf, Accepted;
  }

  /** The operations without other channels' kicks. */
  function OwnKicks(ops: seq<Op>, id: Byte): seq<Op>
    decreases |ops|
  {
    if ops == [] then []
    else
      var op := ops[|ops| - 1];
      OwnKicks(ops[..|ops| - 1], id) + if op.Kick? && op.id != id then [] else [op]
  }

  lemma OwnKicksSnoc(before: seq<Op>, op: Op, id: Byte)
    ensures OwnKicks(before + [op], id) == OwnKicks(before, id) + if op.Kick? && op.id != id then [] else [op]
  {
    assert (before + [op])[..|before|] == before;
  }

  /** The same slots but for the counters and verdicts of other channels than `id`. */
  ghost predicate SameFor(id: Byte, a: seq<Channel>, b: seq<Channel>) {
    && |a| == |b|
    && forall i :: 0 <= i < |a| ==> a[i].id == b[i].id && (a[i].id == id ==> a[i] == b[i])
  }

  lemma {:induction false} SamePlace(id: Byte, a: seq<Channel>, b: seq<Channel>, sought: Byte)
    requires SameFor(id, a, b)
    ensures Position(a, sought) == Position(b, sought)
    decreases |a|
  {
    if a != [] {
      SamePlace(id, a[1..], b[1..], sought);
    }
  }

  lemma SameAfter(clock: Clock, id: Byte, a: seq<Channel>, b: seq<Channel>, op: Op)
    requires SameFor(id, a, b)
    ensures SameFor(id, Apply(clock, a, op).channels, Apply(clock, b, op).channels)
  {
    hide Position, Advance;
    if !op.Tick? {
      SamePlace(id, a, b, op.id);
    }
  }

  lemma OtherKick(clock: Clock, id: Byte, a: seq<Channel>, b: seq<Channel>, kicked: Byte)
    requires SameFor(id, a, b) && kicked != id
    ensures SameFor(id, a, Apply(clock, b, Kick(kicked)).channels)
  {
    hide Position;
  }

  /**
   A channel's verdict depends on no other channel's kicks, on either clock and whatever
   the steps: leaving them all out leaves every id in its slot, and the channel itself,
   counter and latch included, as it is.
   */
  lemma {:induction false} VerdictIsItsOwn(clock: Clock, ops: seq<Op>, id: Byte)
    ensures SameFor(id, Run(clock, OwnKicks(ops, id)), Run(clock, ops))
    decreases |ops|
  {
    if ops == [] {
      assert OwnKicks(ops, id) == [];
    } else {
      hide Run, OwnKicks, Apply;
      var before, op := ops[..|ops| - 1], ops[|ops| - 1];
      assert ops == before + [op];
      var kept := OwnKicks(before, id);
      VerdictIsItsOwn(clock, before, id);
      OwnKicksSnoc(before, op, id);
      RunSnoc(clock, before, op);
      RunSnoc(clock, kept, op);
      if op.Kick? && op.id != id {
        OtherKick(clock, id, Run(clock, kept), Run(clock, before), op.id);
        assert kept + [] == kept;
      } else {
        SameAfter(clock, id, Run(clock, kept), Run(clock, before), op);
      }
    }
  }

  /** So is what `is_expired` answers. */
  lemma ExpiryIsItsOwn(clock: Clock, ops: seq<Op>, id: Byte)
    ensures var (a, b) := (Run(clock, OwnKicks(ops, id)), Run(clock, ops));
            var k := Position(b, id);
            |a| == |b| && Position(a, id) == k && (k < |b| ==> a[k] == b[k])
  {
    VerdictIsItsOwn(clock, ops, id);
    SamePlace(id, Run(clock, OwnKicks(ops, id)), Run(clock, ops), id);
    hide Run, OwnKicks;
  }
}
