/**
 From the client's bytes to the part and back: chunked TCP, framing, shared memory
 and three threads, against walking each request through the part directly.
 */
module TcpEndToEnd {
  import opened Words
  import opened I2cTransaction
  import opened I2cLink
  import opened I2cLinkDirect
  import opened I2cShmLink
  import opened TcpFrame
  import opened TcpBridge

  datatype Session = Session(log: Log, replies: seq<Reply>)

  function DirectReply(o: Outcome): Reply {
    match o.result
    case Acknowledged => Reply(RESULT_OK, o.bytes)
    case AddressNack => Reply(1, [])
    case DataNack => Reply(2, [])
  }

  /** A session on a part that has seen `log`, with neither TCP nor shared memory. */
  function DirectSession(dev: Device, log: Log, requests: seq<WireRequest>): Session
    decreases |requests|
  {
    if requests == [] then Session(log, [])
    else
      var w := requests[|requests| - 1];
      var earlier := DirectSession(dev, log, requests[..|requests| - 1]);
      if Oversize(w) then earlier.(replies := earlier.replies + [Reply(RESULT_BUS_FAULT, [])])
      else
        var o := RunTransaction(dev, earlier.log, Posted(w.address % 0x80, w.writes, w.readLength));
        Session(o.log, earlier.replies + [DirectReply(o)])
  }

  lemma DirectRepliesFit(dev: Device, log: Log, requests: seq<WireRequest>)
    ensures var r := DirectSession(dev, log, requests).replies;
            |r| == |requests| && forall i :: 0 <= i < |r| ==> ReplyTo(requests[i], r[i])
    decreases |requests|
  {
    if requests != [] {
      var n := |requests| - 1;
      DirectRepliesFit(dev, log, requests[..n]);
      var w, earlier := requests[n], DirectSession(dev, log, requests[..n]);
      BytesRead(dev, earlier.log, Posted(w.address % 0x80, w.writes, w.readLength));
      hide RunTransaction;
    }
  }

  /**
   What reply `i` says, of the events its own request causes: code 3 exactly when the
   request is over-long, and then it causes none; otherwise they are its transaction, with
   code 1 exactly when they end with a refused START, 2 with a refused written byte and 0
   in any other case, and the data of the reply are the bytes the part drove.
   */
  ghost predicate Says(dev: Device, w: WireRequest, r: Reply, before: Log, after: Log) {
    if |w.writes| > 256 || w.readLength > 256 then r == Reply(3, []) && after == before
    else
      && before <= after
      && var trace := after[|before|..];
         && Answered(dev, before, trace)
         && r.code == (if StartRefused(trace) then 1 else if ByteRefused(trace) then 2 else 0)
         && OnTheBus(Posted(w.address % 0x80, w.writes, w.readLength), trace,
                     if StartRefused(trace) then AddressNack else if ByteRefused(trace) then DataNack else Acknowledged,
                     r.data)
  }

  lemma TransactionSays(dev: Device, w: WireRequest, before: Log)
    requires !Oversize(w)
    ensures var o := RunTransaction(dev, before, Posted(w.address % 0x80, w.writes, w.readLength));
            Says(dev, w, DirectReply(o), before, o.log)
  {
    var p := Posted(w.address % 0x80, w.writes, w.readLength);
    var o := RunTransaction(dev, before, p);
    var trace := TransactionFits(dev, before, p);
    BytesRead(dev, before, p);
    assert o.log[|before|..] == trace;
    ResultIsTheLastAnswer(p, trace, o.result, o.bytes);
    RefusedOnce(trace);
    hide RunTransaction, OnTheBus, StartRefused, ByteRefused;
  }

  lemma RefusedOnce(trace: Log)
    ensures !(StartRefused(trace) && ByteRefused(trace))
  {
  }

  lemma {:induction false} DirectRepliesSay(dev: Device, log: Log, requests: seq<WireRequest>, i: nat)
    requires i < |requests|
    ensures |DirectSession(dev, log, requests).replies| == |requests|
    ensures Says(dev, requests[i], DirectSession(dev, log, requests).replies[i],
                 DirectSession(dev, log, requests[..i]).log, DirectSession(dev, log, requests[..i + 1]).log)
    decreases |requests|
  {
    var n := |requests| - 1;
    LastReply(dev, log, requests);
    hide DirectSession, Says;
    if i < n {
      DirectRepliesSay(dev, log, requests[..n], i);
      assert requests[..n][..i] == requests[..i] && requests[..n][..i + 1] == requests[..i + 1];
    } else {
      assert requests[..n + 1] == requests;
    }
  }

  lemma LastReply(dev: Device, log: Log, requests: seq<WireRequest>)
    requires requests != []
    ensures var n := |requests| - 1;
            var (earlier, all) := (DirectSession(dev, log, requests[..n]), DirectSession(dev, log, requests));
            && |earlier.replies| == n && |all.replies| == n + 1 && all.replies[..n] == earlier.replies
            && Says(dev, requests[n], all.replies[n], earlier.log, all.log)
  {
    var n := |requests| - 1;
    DirectRepliesFit(dev, log, requests[..n]);
    hide RunTransaction, DirectReply, ReplyTo;
    if !Oversize(requests[n]) {
      hide Says;
      TransactionSays(dev, requests[n], DirectSession(dev, log, requests[..n]).log);
    }
  }

  /** A call that answered as on the part itself gives the reply of the part itself. */
  lemma CallReplies(dev: Device, log: Log, w: WireRequest, c: Call)
    requires !Oversize(w) && IsCallOf(w, c.request)
    requires var d := DirectCall(dev, log, c.request); c.result == d.result && c.got == d.got
    ensures var o := RunTransaction(dev, log, Posted(w.address % 0x80, w.writes, w.readLength));
            && DirectCall(dev, log, c.request).log == o.log
            && ReplyOf(c) == DirectReply(o)
            && c.result != BusFault
  {
    assert PostedOf(c.request) == Posted(w.address % 0x80, w.writes, w.readLength);
    hide RunTransaction;
  }

  /** The last request was one last call, or a fault and no call. */
  lemma LastServed(requests: seq<WireRequest>, calls: seq<Call>, replies: seq<Reply>)
    requires Served(requests, calls, replies) && requests != []
    ensures replies != []
    ensures var (n, k) := (|requests| - 1, |replies| - 1);
            if Oversize(requests[n]) then
              && replies[k] == Reply(RESULT_BUS_FAULT, []) && Served(requests[..n], calls, replies[..k])
            else
              && calls != []
              && var m := |calls| - 1;
                 && IsCallOf(requests[n], calls[m].request) && replies[k] == ReplyOf(calls[m])
                 && Served(requests[..n], calls[..m], replies[..k])
  {
  }

  lemma NoneServed(dev: Device, base: seq<Call>, calls: seq<Call>, replies: seq<Reply>)
    requires Served([], calls, replies)
    ensures calls == [] && base + calls == base
    ensures DirectSession(dev, DirectLog(dev, base), []) == Session(DirectLog(dev, base), replies)
  {
  }

  /** Served by calls that answer directly, after any others that do, a session is the direct one. */
  lemma {:induction false} ServedIsDirect(dev: Device, base: seq<Call>, requests: seq<WireRequest>,
                                          calls: seq<Call>, replies: seq<Reply>)
    requires Served(requests, calls, replies) && AsDirect(dev, base + calls)
    ensures DirectSession(dev, DirectLog(dev, base), requests) == Session(DirectLog(dev, base + calls), replies)
    ensures forall c :: c in calls ==> c.result != BusFault
    decreases |requests|
  {
    hide RunTransaction, DirectCall, DirectLog, Served, AsDirect, IsCallOf, ReplyOf, DirectReply;
    if requests == [] {
      NoneServed(dev, base, calls, replies);
    } else {
      LastServed(requests, calls, replies);
      var n, k := |requests| - 1, |replies| - 1;
      assert replies == replies[..k] + [replies[k]];
      if Oversize(requests[n]) {
        ServedIsDirect(dev, base, requests[..n], calls, replies[..k]);
      } else {
        var m := |calls| - 1;
        LastIsDirect(dev, base, calls);
        ServedIsDirect(dev, base, requests[..n], calls[..m], replies[..k]);
        CallReplies(dev, DirectLog(dev, base + calls[..m]), requests[n], calls[m]);
        assert calls == calls[..m] + [calls[m]];
      }
    }
  }

  lemma LastIsDirect(dev: Device, base: seq<Call>, calls: seq<Call>)
    requires AsDirect(dev, base + calls) && calls != []
    ensures var m := |calls| - 1;
            var d := DirectCall(dev, DirectLog(dev, base + calls[..m]), calls[m].request);
            && calls[m].result == d.result && calls[m].got == d.got
            && DirectLog(dev, base + calls) == d.log
            && AsDirect(dev, base + calls[..m])
  {
    hide DirectCall;
    var all, m := base + calls, |base + calls| - 1;
    assert all[..m] == base + calls[..|calls| - 1];
    AsDirectPrefix(dev, all, m);
  }

  lemma AsDirectPrefix(dev: Device, calls: seq<Call>, m: nat)
    requires AsDirect(dev, calls) && m <= |calls|
    ensures AsDirect(dev, calls[..m])
  {
    hide DirectCall, DirectLog;
    forall k | 0 <= k < m
      ensures var d := DirectCall(dev, DirectLog(dev, calls[..m][..k]), calls[..m][k].request);
              calls[..m][k].result == d.result && calls[..m][k].got == d.got
    {
      assert calls[..m][..k] == calls[..k];
    }
  }

  // ---------------------------------------------------------------------------
  // One client after the other
  // ---------------------------------------------------------------------------

  /** A client that will connect: all it sends, and how its connection cuts the bytes. */
  datatype Client = Client(stream: seq<Byte>, recvPlan: nat -> nat, sendPlan: nat -> nat)

  /** What the part has seen when these requests, session by session, have been served directly. */
  function LogServed(dev: Device, dones: seq<seq<WireRequest>>): Log
    decreases |dones|
  {
    if dones == [] then []
    else
      var n := |dones| - 1;
      DirectSession(dev, LogServed(dev, dones[..n]), dones[n]).log
  }

  /** What session `i` is told directly, after the sessions before it. */
  function DirectReplies(dev: Device, dones: seq<seq<WireRequest>>, i: nat): seq<Reply>
    requires i < |dones|
  {
    DirectSession(dev, LogServed(dev, dones[..i]), dones[i]).replies
  }

  /**
   Of client `i`, requests it did send were served, in order, and it was sent their direct
   replies up to an error.  If its own connection reported none, all of its requests were
   served, and it reads exactly their direct replies.
   */
  ghost predicate Told(dev: Device, clients: seq<Client>, dones: seq<seq<WireRequest>>, i: nat, socket: Socket)
    requires i < |dones| <= |clients|
    reads socket
  {
    var (asked, replies) := (DecodeAll(clients[i].stream), DirectReplies(dev, dones, i));
    && dones[i] <= asked
    && socket.sent <= EncodeReplies(replies)
    && (!socket.failed ==>
          && dones[i] == asked
          && socket.sent == EncodeReplies(replies)
          && ClientReads(asked, socket.sent) == replies)
  }

  ghost predicate AllTold(dev: Device, clients: seq<Client>, dones: seq<seq<WireRequest>>, sockets: seq<Socket>)
    reads sockets
  {
    |dones| == |sockets| <= |clients| && forall i :: 0 <= i < |sockets| ==> Told(dev, clients, dones, i, sockets[i])
  }

  /** One more client served by calls that answered directly. */
  lemma ClientIsTold(dev: Device, clients: seq<Client>, dones: seq<seq<WireRequest>>, base: seq<Call>, socket: Socket,
                     done: seq<WireRequest>, calls: seq<Call>, replies: seq<Reply>)
    requires |dones| < |clients| && Served(done, calls, replies) && AsDirect(dev, base + calls)
    requires DirectLog(dev, base) == LogServed(dev, dones)
    requires Finished(socket, done, replies) && socket.stream == clients[|dones|].stream
    ensures Told(dev, clients, dones + [done], |dones|, socket)
    ensures DirectLog(dev, base + calls) == LogServed(dev, dones + [done])
  {
    hide Served, AsDirect, DirectLog, DirectSession, DecodeAll, EncodeReplies, ClientReads;
    ServedIsDirect(dev, base, done, calls, replies);
    DirectRepliesFit(dev, DirectLog(dev, base), done);
    ClientReadsReplies(done, replies);
    assert (dones + [done])[..|dones|] == dones;
  }

  /** What earlier clients were told does not depend on later ones. */
  lemma StillTold(dev: Device, clients: seq<Client>, dones: seq<seq<WireRequest>>, sockets: seq<Socket>,
                  done: seq<WireRequest>, i: nat)
    requires AllTold(dev, clients, dones, sockets) && i < |sockets| < |clients|
    ensures Told(dev, clients, dones + [done], i, sockets[i])
  {
    assert Told(dev, clients, dones, i, sockets[i]);
    assert (dones + [done])[..i] == dones[..i];
    hide LogServed, DirectSession, DecodeAll, EncodeReplies, ClientReads;
  }

  /** If every call answered directly, all is well with the clients so far. */
  ghost predicate SoFar(dev: Device, clients: seq<Client>, dones: seq<seq<WireRequest>>, sockets: seq<Socket>,
                        calls: seq<Call>, alive: bool)
    reads sockets
  {
    AsDirect(dev, calls) ==>
      && alive
      && AllTold(dev, clients, dones, sockets)
      && DirectLog(dev, calls) == LogServed(dev, dones)
  }

  lemma NobodyYet(dev: Device, clients: seq<Client>)
    ensures SoFar(dev, clients, [], [], [], true)
  {
  }

  lemma OneMoreClient(dev: Device, clients: seq<Client>, dones: seq<seq<WireRequest>>, sockets: seq<Socket>,
                      base: seq<Call>, socket: Socket,
                      done: seq<WireRequest>, calls: seq<Call>, replies: seq<Reply>, alive: bool)
    requires |sockets| < |clients| && SoFar(dev, clients, dones, sockets, base, true) && Served(done, calls, replies)
    requires alive ==> Finished(socket, done, replies) && socket.stream == clients[|sockets|].stream
    requires !alive ==> calls != [] && calls[|calls| - 1].result == BusFault
    ensures SoFar(dev, clients, dones + [done], sockets + [socket], base + calls, alive)
  {
    hide Served, AsDirect, DirectLog, DirectSession, LogServed, Told, Finished;
    if AsDirect(dev, base + calls) {
      AsDirectPrefix(dev, base + calls, |base|);
      assert (base + calls)[..|base|] == base;
      ServedIsDirect(dev, base, done, calls, replies);
      assert alive;
      ClientIsTold(dev, clients, dones, base, socket, done, calls, replies);
      forall i | 0 <= i < |sockets| ensures Told(dev, clients, dones + [done], i, sockets[i]) {
        StillTold(dev, clients, dones, sockets, done, i);
      }
    }
  }

  /** One turn of the accept loop. */
  method ServeNext(link: Link, polls: nat, client: Client,
                   ghost clients: seq<Client>, ghost dones: seq<seq<WireRequest>>, ghost sockets: seq<Socket>)
    returns (socket: Socket, alive: bool, ghost done: seq<WireRequest>)
    requires link.Valid() && link.controller == Out
    requires |sockets| < |clients| && client == clients[|sockets|]
    requires forall s :: s in sockets ==> s !in link.Parts()
    requires SoFar(link.device.model, clients, dones, sockets, link.history.calls, true)
    modifies link, link.bus, link.bus.writeBytes, link.bus.readBytes, link.device
    ensures fresh(socket) && socket.stream == client.stream && link.Valid() && link.controller == Out
    ensures done <= DecodeAll(client.stream)
    ensures !alive ==> !link.bus.peripheralReady
    ensures SoFar(link.device.model, clients, dones + [done], sockets + [socket], link.history.calls, alive)
  {
    hide Link.Valid, Served, SoFar, Finished;
    ghost var base := link.history.calls;
    socket := new Socket(client.stream, client.recvPlan, client.sendPlan);
    ghost var calls, replies;
    alive, done, calls, replies := ServeClient(socket, link, polls);
    OneMoreClient(link.device.model, clients, dones, sockets, base, socket, done, calls, replies, alive);
  }

  /**
   The accept loop on a part that has just started.  For every part, any number of
   clients, every stream of bytes cut in any way, connections that fail at any point, and
   every interleaving: unless a deadline or a `stop()` intervened, every client whose own
   connection did not fail reads exactly the replies of walking its requests through the
   part after those served before it; one whose connection failed was sent a front of
   them; and the part has seen the served requests and nothing else.  The loop ends early
   only when the part is gone for good.
   */
  method ServeClients(model: Device, plan: nat -> seq<bool>, polls: nat, clients: seq<Client>)
    returns (sockets: seq<Socket>, link: Link, alive: bool, ghost dones: seq<seq<WireRequest>>)
    ensures fresh(sockets) && fresh(link) && fresh(link.device)
    ensures |sockets| <= |clients| && (alive ==> |sockets| == |clients|) && (clients != [] ==> sockets != [])
    ensures forall i :: 0 <= i < |sockets| ==> sockets[i].stream == clients[i].stream
    ensures forall i, j :: 0 <= i < j < |sockets| ==> sockets[i] != sockets[j]
    ensures |dones| == |sockets| && forall i :: 0 <= i < |dones| ==> dones[i] <= DecodeAll(clients[i].stream)
    ensures !alive ==> forall more :: Run(model, link.schedule + more).log == link.device.log
    ensures !link.flags.timedOut && !link.stopRequested ==>
              && alive
              && AllTold(model, clients, dones, sockets)
              && link.device.log == LogServed(model, dones)
  {
    hide Link.Valid, SoFar, Run, DecodeAll;
    link := new Link(model, plan);
    sockets, alive, dones := [], true, [];
    NobodyYet(model, clients);
    while alive && |sockets| < |clients|
      invariant fresh(sockets) && fresh(link.Parts()) && forall s :: s in sockets ==> s !in link.Parts()
      invariant |sockets| <= |clients| && link.Valid() && link.controller == Out && link.device.model == model
      invariant !alive ==> !link.bus.peripheralReady && sockets != []
      invariant SoFar(model, clients, dones, sockets, link.history.calls, alive)
      invariant |dones| == |sockets| && forall i :: 0 <= i < |dones| ==> dones[i] <= DecodeAll(clients[i].stream)
      invariant forall i :: 0 <= i < |sockets| ==> sockets[i].stream == clients[i].stream
      invariant forall i, j :: 0 <= i < j < |sockets| ==> sockets[i] != sockets[j]
      decreases alive, |clients| - |sockets|
    {
      var socket;
      ghost var done;
      socket, alive, done := ServeNext(link, polls, clients[|sockets|], clients, dones, sockets);
      sockets, dones := sockets + [socket], dones + [done];
    }
    if !alive {
      forall more ensures Run(model, link.schedule + more).log == link.device.log {
        GivenUpIsGone(link, more);
      }
    }
    if !link.flags.timedOut && !link.stopRequested {
      AllIsWell(link, clients, dones, sockets, alive);
    }
  }

  lemma AllIsWell(link: Link, clients: seq<Client>, dones: seq<seq<WireRequest>>, sockets: seq<Socket>, alive: bool)
    requires link.Valid() && !link.flags.timedOut && !link.stopRequested && link.controller == Out
    requires SoFar(link.device.model, clients, dones, sockets, link.history.calls, alive)
    ensures alive && AllTold(link.device.model, clients, dones, sockets)
    ensures link.device.log == LogServed(link.device.model, dones)
  {
    CallsOfLink(link);
    hide AsDirect, DirectLog, LogServed, Link.Valid;
  }

  /** The requests of every client. */
  function Asked(clients: seq<Client>): (r: seq<seq<WireRequest>>)
    ensures |r| == |clients|
  {
    seq(|clients|, i requires 0 <= i < |clients| => DecodeAll(clients[i].stream))
  }

  /** If no connection failed, what was served is all that was asked, so the log is theirs. */
  lemma AllAskedIsServed(dev: Device, clients: seq<Client>, dones: seq<seq<WireRequest>>, sockets: seq<Socket>)
    requires AllTold(dev, clients, dones, sockets) && |sockets| == |clients|
    requires forall s :: s in sockets ==> !s.failed
    ensures dones == Asked(clients)
  {
    hide DirectReplies, DecodeAll, EncodeReplies, ClientReads;
    forall i | 0 <= i < |dones| ensures dones[i] == DecodeAll(clients[i].stream) {
      assert Told(dev, clients, dones, i, sockets[i]);
    }
  }

  /**
   One client on a part that has just started: it reads exactly the replies of walking
   its requests through the part one after the other, and that is all the part has seen.
   */
  method ServeSession(model: Device, plan: nat -> seq<bool>, polls: nat,
                      stream: seq<Byte>, recvPlan: nat -> nat, sendPlan: nat -> nat)
    returns (socket: Socket, link: Link, alive: bool)
    ensures fresh(socket) && fresh(link) && fresh(link.device)
    ensures !socket.failed && !link.flags.timedOut && !link.stopRequested ==>
              var requests := DecodeAll(stream);
              var direct := DirectSession(model, [], requests);
              && alive
              && socket.sent == EncodeReplies(direct.replies)
              && ClientReads(requests, socket.sent) == direct.replies
              && link.device.log == direct.log
  {
    hide DirectSession, DecodeAll, EncodeReplies, ClientReads;
    var sockets;
    ghost var dones;
    sockets, link, alive, dones := ServeClients(model, plan, polls, [Client(stream, recvPlan, sendPlan)]);
    socket := sockets[0];
    assert sockets == [socket];
    assert dones == [dones[0]] && dones[..0] == [];
  }

  lemma CallsOfLink(link: Link)
    requires link.Valid() && !link.flags.timedOut && !link.stopRequested && link.controller == Out
    ensures AsDirect(link.device.model, link.history.calls)
    ensures link.device.log == DirectLog(link.device.model, link.history.calls)
  {
    hide AsDirect, DirectLog;
    CallsAreDirect(link.device.model, link.schedule);
    hide Run;
  }
}
