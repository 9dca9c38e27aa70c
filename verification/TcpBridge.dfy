/**
 The TCP front end: `recv_exact`, `send_all`, `drain` and `serve_client` over a
 connection that delivers and accepts bytes in chunks of any size.
 */
module TcpBridge {
  import opened Words
  import opened I2cTransaction
  import opened I2cRegion
  import opened I2cLink
  import opened I2cLinkSafety
  import opened I2cLinkShutdown
  import opened I2cShmLink
  import opened TcpFrame

  /**
   One accepted connection.  `stream` is all the client will have sent when it
   closes.  The k-th `recv` delivers at most `recvPlan(k)` bytes and the k-th `send`
   accepts at most `sendPlan(k)`; 0 stands for a reported error.
   */
  class Socket {
    const stream: seq<Byte>
    var taken: nat
    var sent: seq<Byte>

    const recvPlan: nat -> nat
    const sendPlan: nat -> nat
    var recvs: nat
    var sends: nat

    /** Some `recv` or `send` has reported an error. */
    ghost var failed: bool

    ghost predicate Valid()
      reads this
    {
      taken <= |stream|
    }

    constructor (stream: seq<Byte>, recvPlan: nat -> nat, sendPlan: nat -> nat)
      ensures Valid() && taken == 0 && sent == [] && !failed
      ensures this.stream == stream
    {
      this.stream, taken, sent, failed := stream, 0, [], false;
      this.recvPlan, this.sendPlan, recvs, sends := recvPlan, sendPlan, 0, 0;
    }

    /** `recv`: some bytes in front of what is left, or 0 at the end of the stream or on error. */
    method Recv(buffer: array<Byte>, offset: nat, length: nat) returns (chunk: nat)
      requires Valid() && 0 < length && offset + length <= buffer.Length
      modifies this, buffer
      ensures Valid() && sent == old(sent) && taken == old(taken) + chunk
      ensures chunk <= length
      ensures buffer[..] == old(buffer[..offset]) + stream[old(taken)..taken] + old(buffer[offset + chunk..])
      ensures if chunk == 0 then failed || taken == |stream| else failed == old(failed)
    {
      var most := Min(recvPlan(recvs), Min(length, |stream| - taken));
      failed := failed || recvPlan(recvs) == 0;
      recvs := recvs + 1;
      chunk := most;
      forall i | 0 <= i < most {
        buffer[offset + i] := stream[taken + i];
      }
      taken := taken + most;
    }

    /** `send`: accepts some bytes in front of the data, or 0 on error. */
    method Send(data: seq<Byte>) returns (chunk: nat)
      requires Valid() && data != []
      modifies this
      ensures Valid() && taken == old(taken)
      ensures chunk <= |data| && sent == old(sent) + data[..chunk]
      ensures if chunk == 0 then failed else failed == old(failed)
    {
      chunk := Min(sendPlan(sends), |data|);
      failed := failed || chunk == 0;
      sends := sends + 1;
      sent := sent + data[..chunk];
    }
  }

  /** Either the next `length` bytes in front of the buffer, or the client is gone. */
  method RecvExact(socket: Socket, buffer: array<Byte>, length: nat) returns (ok: bool)
    requires socket.Valid() && length <= buffer.Length
    modifies socket, buffer
    ensures socket.Valid() && socket.sent == old(socket.sent)
    ensures if ok then
              && socket.failed == old(socket.failed)
              && socket.taken == old(socket.taken) + length
              && buffer[..] == socket.stream[old(socket.taken)..socket.taken] + old(buffer[length..])
            else
              socket.failed || |socket.stream| < old(socket.taken) + length
  {
    var received := 0;
    ghost var was, at := buffer[..], socket.taken;
    while received < length
      invariant received <= length && socket.Valid() && socket.sent == old(socket.sent)
      invariant socket.failed == old(socket.failed) && socket.taken == old(socket.taken) + received
      invariant buffer[..received] == socket.stream[at..socket.taken] && buffer[received..] == was[received..]
    {
      ghost var front, back, next := buffer[..received], buffer[received..], socket.taken;
      var chunk := socket.Recv(buffer, received, length - received);
      if chunk == 0 {
        return false;
      }
      assert buffer[..received + chunk] == front + socket.stream[next..socket.taken];
      assert buffer[received + chunk..] == back[chunk..];
      received := received + chunk;
    }
    assert buffer[..] == buffer[..length] + buffer[length..];
    return true;
  }

  /** All of the data, or a prefix of it and an error. */
  method SendAll(socket: Socket, data: seq<Byte>) returns (ok: bool)
    requires socket.Valid()
    modifies socket
    ensures socket.Valid() && socket.taken == old(socket.taken)
    ensures if ok then socket.sent == old(socket.sent) + data && socket.failed == old(socket.failed)
            else socket.failed && old(socket.sent) <= socket.sent <= old(socket.sent) + data
  {
    var sent := 0;
    while sent < |data|
      invariant sent <= |data| && socket.Valid() && socket.taken == old(socket.taken)
      invariant socket.sent == old(socket.sent) + data[..sent] && socket.failed == old(socket.failed)
    {
      var chunk := socket.Send(data[sent..]);
      assert data[..sent] + data[sent..][..chunk] == data[..sent + chunk];
      if chunk == 0 {
        return false;
      }
      sent := sent + chunk;
    }
    return true;
  }

  /** Exactly the next `length` bytes are consumed, in pieces of at most 256. */
  method Drain(socket: Socket, length: nat) returns (ok: bool)
    requires socket.Valid()
    modifies socket
    ensures socket.Valid() && socket.sent == old(socket.sent)
    ensures if ok then socket.failed == old(socket.failed) && socket.taken == old(socket.taken) + length
            else socket.failed || |socket.stream| < old(socket.taken) + length
  {
    var scratch := new Byte[256](_ => 0);
    var left := length;
    while left > 0
      invariant 0 <= left <= length && socket.Valid() && socket.sent == old(socket.sent)
      invariant socket.failed == old(socket.failed) && socket.taken == old(socket.taken) + (length - left)
    {
      var chunk := Min(left, 256);
      var got := RecvExact(socket, scratch, chunk);
      if !got {
        return false;
      }
      left := left - chunk;
    }
    return true;
  }

  /** `result_code` */
  function ResultCode(result: CallResult): Byte {
    match result
    case Ok => RESULT_OK
    case AddressNacked => 1
    case DataNacked => 2
    case BusFault => RESULT_BUS_FAULT
  }

  // ---------------------------------------------------------------------------
  // What a session amounts to
  // ---------------------------------------------------------------------------

  /** Too long for the bus, in either phase. */
  predicate Oversize(w: WireRequest) {
    |w.writes| > MAX_PHASE_BYTES || w.readLength > MAX_PHASE_BYTES
  }

  /** The call made for a request: its bytes in front of the bridge's buffer, a real read buffer. */
  predicate IsCallOf(w: WireRequest, r: Request) {
    && r.address == w.address
    && r.writeLength == |w.writes|
    && r.write.Bytes? && r.write.data[..r.writeLength] == w.writes
    && !r.noReadBuffer && r.readLength == w.readLength
  }

  function ReplyOf(c: Call): Reply {
    Reply(ResultCode(c.result), if c.result == Ok then c.got else [])
  }

  /**
   Requests were served in order: an oversize one by a fault and no call, any other
   by one call on the bus, whose answer is the reply.
   */
  ghost predicate Served(requests: seq<WireRequest>, calls: seq<Call>, replies: seq<Reply>)
    decreases |requests|
  {
    if requests == [] then calls == [] && replies == []
    else
      var n, w := |requests| - 1, requests[|requests| - 1];
      && replies != []
      && var (r, earlier) := (replies[|replies| - 1], replies[..|replies| - 1]);
         if Oversize(w) then r == Reply(RESULT_BUS_FAULT, []) && Served(requests[..n], calls, earlier)
         else
           && calls != []
           && var c := calls[|calls| - 1];
              && IsCallOf(w, c.request) && Whole(c) && r == ReplyOf(c)
              && Served(requests[..n], calls[..|calls| - 1], earlier)
  }

  lemma ServedOversize(requests: seq<WireRequest>, calls: seq<Call>, replies: seq<Reply>, w: WireRequest)
    requires Served(requests, calls, replies) && Oversize(w)
    ensures Served(requests + [w], calls, replies + [Reply(RESULT_BUS_FAULT, [])])
  {
    assert (requests + [w])[..|requests|] == requests;
    assert (replies + [Reply(RESULT_BUS_FAULT, [])])[..|replies|] == replies;
  }

  lemma ServedCall(requests: seq<WireRequest>, calls: seq<Call>, replies: seq<Reply>, w: WireRequest, c: Call)
    requires Served(requests, calls, replies) && !Oversize(w) && IsCallOf(w, c.request) && Whole(c)
    ensures Served(requests + [w], calls + [c], replies + [ReplyOf(c)])
  {
    assert (requests + [w])[..|requests|] == requests;
    assert (calls + [c])[..|calls|] == calls;
    assert (replies + [ReplyOf(c)])[..|replies|] == replies;
  }

  // ---------------------------------------------------------------------------
  // serve_client
  // ---------------------------------------------------------------------------

  /** A request the bus cannot carry: consumed to its last byte and answered with a fault. */
  method ServeOversize(socket: Socket, writeLength: nat) returns (ok: bool)
    requires socket.Valid()
    modifies socket
    ensures socket.Valid()
    ensures if ok then
              && socket.failed == old(socket.failed)
              && socket.taken == old(socket.taken) + writeLength
              && socket.sent == old(socket.sent) + EncodeReply(Reply(RESULT_BUS_FAULT, []))
            else
              && (socket.failed || |socket.stream| < old(socket.taken) + writeLength)
              && old(socket.sent) <= socket.sent <= old(socket.sent) + EncodeReply(Reply(RESULT_BUS_FAULT, []))
              && (socket.sent == old(socket.sent) || socket.taken == old(socket.taken) + writeLength)
  {
    ok := Drain(socket, writeLength);
    if ok {
      ok := SendAll(socket, [RESULT_BUS_FAULT]);
    }
  }

  /** A request the bus can carry: one call, its result code, and the bytes it read. */
  method ServeTransaction(socket: Socket, link: Link, ghost w: WireRequest,
                          address: Byte, writeBytes: array<Byte>, writeLength: nat,
                          readBytes: array<Byte>, readLength: nat, polls: nat)
    returns (ok: bool, code: Byte, ghost c: Call)
    requires socket.Valid() && link.Valid() && link.controller == Out
    requires socket !in link.Parts() && writeBytes !in link.Parts() && readBytes !in link.Parts()
    requires writeLength <= writeBytes.Length && readLength <= readBytes.Length
    requires w == RawWireRequest.WireRequest(address, writeBytes[..writeLength], readLength)
    modifies socket, readBytes, link, link.bus, link.bus.writeBytes, link.bus.readBytes, link.device
    ensures socket.Valid() && link.Valid() && link.controller == Out
    ensures link.history.calls == old(link.history.calls) + [c]
    ensures IsCallOf(w, c.request) && Whole(c) && code == ResultCode(c.result)
    ensures old(link.flags.stopReturned) ==> link.flags.stopReturned && c.result == BusFault
    ensures socket.taken == old(socket.taken)
    ensures if ok then
              && socket.failed == old(socket.failed)
              && socket.sent == old(socket.sent) + EncodeReply(ReplyOf(c))
            else
              && socket.failed
              && old(socket.sent) <= socket.sent <= old(socket.sent) + EncodeReply(ReplyOf(c))
  {
    hide Link.Valid;
    ghost var calls := link.history.calls;
    ghost var was := readBytes[..];
    var result, got := link.Transaction(address, writeBytes, writeLength, readBytes, readLength, polls);
    c := link.history.calls[|calls|];
    assert link.history.calls == calls + [c];
    CallIsWhole(link, c);
    LateCallFaults(link, c);
    code := ResultCode(result);
    ok := SendAll(socket, [code]);
    if ok && code == RESULT_OK && readLength > 0 {
      assert readBytes[..readLength] == got;
      ok := SendAll(socket, readBytes[..readLength]);
    }
  }

  /** A call begun after `stop()` had returned faults, and the part is then not ready. */
  lemma LateCallFaults(link: Link, c: Call)
    requires link.Valid() && c in link.history.calls
    ensures c.late ==> c.result == BusFault
  {
    RunStopped(link.device.model, link.schedule);
    hide Run, RunFrom;
  }

  lemma StoppedIsNotReady(link: Link)
    requires link.Valid() && link.flags.stopReturned
    ensures !link.bus.peripheralReady
  {
    RunStopped(link.device.model, link.schedule);
    hide Run, RunFrom;
  }

  /** The four results have four codes. */
  lemma CodesAreApart(a: CallResult, b: CallResult)
    ensures ResultCode(a) == ResultCode(b) <==> a == b
    ensures ResultCode(Ok) == 0 && ResultCode(AddressNacked) == 1 && ResultCode(DataNacked) == 2
    ensures ResultCode(BusFault) == 3
  {
  }

  lemma CallIsWhole(link: Link, c: Call)
    requires link.Valid() && c in link.history.calls
    ensures Whole(c)
  {
    RunWhole(link.device.model, link.schedule);
    hide Run, RunFrom;
  }

  /** Where the connection stands between two requests. */
  ghost predicate Between(socket: Socket, done: seq<WireRequest>, replies: seq<Reply>)
    reads socket
  {
    && socket.Valid() && !socket.failed
    && socket.stream[..socket.taken] == EncodeAll(done)
    && socket.sent == EncodeReplies(replies)
  }

  /** The request whose header has just arrived. */
  ghost predicate Announced(stream: seq<Byte>, at: nat, header: seq<Byte>) {
    && |header| == HEADER
    && at + HEADER <= |stream|
    && stream[at..at + HEADER] == header
  }

  /** Consuming the announced bytes consumes that one request. */
  lemma OneMoreRequest(stream: seq<Byte>, done: seq<WireRequest>, at: nat, header: seq<Byte>) returns (w: WireRequest)
    requires Announced(stream, at, header) && stream[..at] == EncodeAll(done)
    requires at + HEADER + Word16(header[1], header[2]) <= |stream|
    ensures w.address == header[0] && |w.writes| == Word16(header[1], header[2])
    ensures w.writes == stream[at + HEADER..][..|w.writes|]
    ensures w.readLength == Word16(header[3], header[4])
    ensures stream[..at + HEADER + |w.writes|] == EncodeAll(done + [w])
  {
    var n := Word16(header[1], header[2]);
    w := RawWireRequest.WireRequest(header[0], stream[at + HEADER..][..n], Word16(header[3], header[4]));
    EncodeAllSnoc(done, w);
    BytesOfWord(header[1], header[2]);
    BytesOfWord(header[3], header[4]);
    hide Word16, Low, High;
    assert Header(w) == header;
    assert stream[..at + HEADER + n] == stream[..at] + stream[at..at + HEADER] + stream[at + HEADER..][..n];
    hide EncodeAll;
  }

  /** The client closed inside a request: what it sent whole has been served. */
  lemma NothingLeft(stream: seq<Byte>, done: seq<WireRequest>, at: nat)
    requires at <= |stream| && stream[..at] == EncodeAll(done) && Incomplete(stream[at..])
    ensures DecodeAll(stream) == done
  {
    assert stream == EncodeAll(done) + stream[at..];
    DecodeEncoded(done, stream[at..]);
    assert done + [] == done;
  }

  /** What has been consumed whole is what the stream decodes to first. */
  lemma DoneIsAsked(stream: seq<Byte>, done: seq<WireRequest>, at: nat)
    requires at <= |stream| && stream[..at] == EncodeAll(done)
    ensures done <= DecodeAll(stream)
  {
    assert stream == EncodeAll(done) + stream[at..];
    DecodeEncoded(done, stream[at..]);
  }

  /**
   Where the connection stands when the client is gone: served requests it did send,
   in order, and sent their replies up to an error.
   */
  ghost predicate Finished(socket: Socket, done: seq<WireRequest>, replies: seq<Reply>)
    reads socket
  {
    && socket.Valid()
    && done <= DecodeAll(socket.stream)
    && socket.sent <= EncodeReplies(replies)
    && (!socket.failed ==> socket.sent == EncodeReplies(replies) && done == DecodeAll(socket.stream))
  }

  /** ... and when the header of its next request has arrived. */
  ghost predicate Heard(socket: Socket, done: seq<WireRequest>, replies: seq<Reply>, at: nat, header: seq<Byte>)
    reads socket
  {
    && socket.Valid() && !socket.failed && socket.sent == EncodeReplies(replies)
    && socket.taken == at + HEADER && Announced(socket.stream, at, header)
    && socket.stream[..at] == EncodeAll(done)
  }

  /** The bus end is between two calls; `calls` have been made since `base`. */
  ghost predicate AtEase(link: Link, base: seq<Call>, calls: seq<Call>)
    reads link, link.bus, link.bus.writeBytes, link.bus.readBytes, link.device
  {
    link.Valid() && link.controller == Out && link.history.calls == base + calls
  }

  /** The next request's header, if the client sends one. */
  method ServeHeader(socket: Socket, ghost done: seq<WireRequest>, ghost replies: seq<Reply>)
    returns (ok: bool, header: seq<Byte>)
    requires Between(socket, done, replies)
    modifies socket
    ensures |header| == HEADER
    ensures if ok then
              && Heard(socket, done, replies, old(socket.taken), header)
              && old(socket.taken) < socket.taken <= |socket.stream|
            else Finished(socket, done, replies)
  {
    hide EncodeReplies, EncodeAll, DecodeAll;
    ghost var at := socket.taken;
    var buffer := new Byte[HEADER](_ => 0);
    ok := RecvExact(socket, buffer, HEADER);
    header := buffer[..];
    DoneIsAsked(socket.stream, done, at);
    if ok {
      assert socket.stream[at..socket.taken] == header;
    } else if !socket.failed {
      NothingLeft(socket.stream, done, at);
    }
  }

  /** An announced request too long for the bus. */
  method ServeLong(socket: Socket, header: seq<Byte>, ghost at: nat,
                   ghost done: seq<WireRequest>, ghost calls: seq<Call>, ghost replies: seq<Reply>)
    returns (ok: bool, ghost done': seq<WireRequest>, ghost replies': seq<Reply>)
    requires |header| == HEADER && Heard(socket, done, replies, at, header) && Served(done, calls, replies)
    requires Word16(header[1], header[2]) > MAX_PHASE_BYTES || Word16(header[3], header[4]) > MAX_PHASE_BYTES
    modifies socket
    ensures Served(done', calls, replies')
    ensures if ok then Between(socket, done', replies') && old(socket.taken) <= socket.taken <= |socket.stream|
            else Finished(socket, done', replies')
  {
    hide Served, EncodeReplies, EncodeReply, EncodeAll, DecodeAll;
    DoneIsAsked(socket.stream, done, at);
    var writeLength := Word16(header[1], header[2]);
    done', replies' := done, replies;
    ok := ServeOversize(socket, writeLength);
    if ok || socket.sent != EncodeReplies(replies) {
      var w := OneMoreRequest(socket.stream, done, at, header);
      DoneIsAsked(socket.stream, done + [w], at + HEADER + |w.writes|);
      FaultIsServed(done, calls, replies, w);
      done', replies' := done + [w], replies + [Reply(RESULT_BUS_FAULT, [])];
    } else if !socket.failed {
      NothingLeft(socket.stream, done, at);
    }
  }

  /** The write bytes of an announced request the bus can carry. */
  method ServePayload(socket: Socket, writeBytes: array<Byte>, header: seq<Byte>, ghost at: nat,
                      ghost done: seq<WireRequest>, ghost replies: seq<Reply>)
    returns (ok: bool, ghost w: WireRequest)
    requires |header| == HEADER && Heard(socket, done, replies, at, header)
    requires Word16(header[1], header[2]) <= writeBytes.Length
    modifies socket, writeBytes
    ensures if ok then
              && old(socket.taken) <= socket.taken <= |socket.stream| && !socket.failed
              && socket.sent == EncodeReplies(replies)
              && w == RawWireRequest.WireRequest(header[0], writeBytes[..Word16(header[1], header[2])],
                                                 Word16(header[3], header[4]))
              && socket.stream[..socket.taken] == EncodeAll(done + [w])
            else Finished(socket, done, replies)
  {
    hide EncodeReplies, EncodeAll, DecodeAll, Word16;
    DoneIsAsked(socket.stream, done, at);
    var writeLength := Word16(header[1], header[2]);
    ok := true;
    if writeLength > 0 {
      ok := RecvExact(socket, writeBytes, writeLength);
    }
    if ok {
      assert writeBytes[..writeLength] == socket.stream[at + HEADER..][..writeLength];
      w := OneMoreRequest(socket.stream, done, at, header);
      assert socket.taken == at + HEADER + |w.writes|;
    } else {
      w := RawWireRequest.WireRequest(0, [], 0);
      if !socket.failed {
        NothingLeft(socket.stream, done, at);
      }
    }
  }

  /** An announced request the bus can carry. */
  method ServeFitting(socket: Socket, link: Link, polls: nat, writeBytes: array<Byte>, readBytes: array<Byte>,
                      header: seq<Byte>, ghost at: nat, ghost base: seq<Call>,
                      ghost done: seq<WireRequest>, ghost calls: seq<Call>, ghost replies: seq<Reply>)
    returns (ok: bool, code: Byte,
             ghost done': seq<WireRequest>, ghost calls': seq<Call>, ghost replies': seq<Reply>)
    requires |header| == HEADER && Heard(socket, done, replies, at, header) && Served(done, calls, replies)
    requires AtEase(link, base, calls)
    requires socket !in link.Parts() && writeBytes !in link.Parts() && readBytes !in link.Parts()
    requires writeBytes.Length == readBytes.Length == MAX_PHASE_BYTES && writeBytes != readBytes
    requires Word16(header[1], header[2]) <= MAX_PHASE_BYTES && Word16(header[3], header[4]) <= MAX_PHASE_BYTES
    modifies socket, writeBytes, readBytes
    modifies link, link.bus, link.bus.writeBytes, link.bus.readBytes, link.device
    ensures AtEase(link, base, calls')
    ensures Served(done', calls', replies')
    ensures if ok then
              && Between(socket, done', replies') && old(socket.taken) <= socket.taken <= |socket.stream|
              && calls' != [] && code == ResultCode(calls'[|calls'| - 1].result)
            else Finished(socket, done', replies')
    ensures old(link.flags.stopReturned) ==>
              link.flags.stopReturned && |calls'| <= |calls| + 1 && (ok ==> code == RESULT_BUS_FAULT)
  {
    hide Link.Valid, Heard, Served, EncodeReplies, EncodeReply, EncodeAll, DecodeAll, Word16;
    code, done', calls', replies' := RESULT_OK, done, calls, replies;
    ghost var w;
    ok, w := ServePayload(socket, writeBytes, header, at, done, replies);
    if ok {
      DoneIsAsked(socket.stream, done + [w], socket.taken);
      var writeLength, readLength := Word16(header[1], header[2]), Word16(header[3], header[4]);
      ghost var c;
      ok, code, c :=
        ServeTransaction(socket, link, w, header[0], writeBytes, writeLength, readBytes, readLength, polls);
      CallIsServed(done, calls, replies, w, c);
      done', calls', replies' := done + [w], calls + [c], replies + [ReplyOf(c)];
    }
  }

  /**
   Serves one client until it is gone or, after a fault, the part is found not to be
   ready, which `GivenUpIsGone` says is for good: at the first fault at the latest, once
   `stop()` has returned.  Whatever the
   chunks, the deadlines and the other threads, what was sent is the replies to
   the requests the stream decodes to, in order and up to an error; each request
   was one call on the bus, or none if it was oversize.
   */
  method ServeClient(socket: Socket, link: Link, polls: nat)
    returns (alive: bool, ghost done: seq<WireRequest>, ghost calls: seq<Call>, ghost replies: seq<Reply>)
    requires socket.Valid() && socket.taken == 0 && socket.sent == [] && !socket.failed
    requires AtEase(link, link.history.calls, []) && socket !in link.Parts()
    modifies socket, link, link.bus, link.bus.writeBytes, link.bus.readBytes, link.device
    ensures AtEase(link, old(link.history.calls), calls)
    ensures Served(done, calls, replies) && done <= DecodeAll(socket.stream)
    ensures alive ==> Finished(socket, done, replies)
    ensures !alive ==> Between(socket, done, replies) && calls != [] && calls[|calls| - 1].result == BusFault
    ensures !alive ==> !link.bus.peripheralReady
    ensures old(link.flags.stopReturned) ==> |calls| <= 1
  {
    hide Link.Valid, Served, Between, Heard, Finished, AtEase, Word16;
    ghost var base := link.history.calls;
    var writeBytes := new Byte[MAX_PHASE_BYTES](_ => 0);
    var readBytes := new Byte[MAX_PHASE_BYTES](_ => 0);
    done, calls, replies := [], [], [];
    NothingServed(socket);

    while true
      invariant socket.taken <= |socket.stream|
      invariant fresh(writeBytes) && fresh(readBytes)
      invariant AtEase(link, base, calls)
      invariant Served(done, calls, replies) && Between(socket, done, replies)
      invariant old(link.flags.stopReturned) ==> link.flags.stopReturned && calls == []
      decreases |socket.stream| - socket.taken
    {
      ghost var at := socket.taken;
      var ok, header := ServeHeader(socket, done, replies);
      if !ok {
        FinishedIsAsked(socket, done, replies);
        return true, done, calls, replies;
      }
      if Word16(header[1], header[2]) > MAX_PHASE_BYTES || Word16(header[3], header[4]) > MAX_PHASE_BYTES {
        ok, done, replies := ServeLong(socket, header, at, done, calls, replies);
        if !ok {
          FinishedIsAsked(socket, done, replies);
          return true, done, calls, replies;
        }
        continue;
      }
      var code;
      ok, code, done, calls, replies :=
        ServeFitting(socket, link, polls, writeBytes, readBytes, header, at, base, done, calls, replies);
      if !ok {
        FinishedIsAsked(socket, done, replies);
        return true, done, calls, replies;
      }
      if code == RESULT_BUS_FAULT {
        var present := StillPresent(link, base, calls);
        if !present {
          LastIsAsked(socket, done, replies);
          return false, done, calls, replies;
        }
      }
    }
  }

  /** A part given up on sees nothing more and answers no further call, whatever the schedule. */
  lemma GivenUpIsGone(link: Link, more: seq<Choice>)
    requires link.Valid() && link.controller == Out && !link.bus.peripheralReady
    ensures var later := Run(link.device.model, link.schedule + more);
            && later.log == link.device.log
            && link.history.calls <= later.history.calls
            && (forall j :: |link.history.calls| <= j < |later.history.calls| ==>
                  later.history.calls[j].result == BusFault)
  {
    NotReadyIsForGood(link.device.model, link.schedule, more);
    hide Run;
  }

  lemma LastIsAsked(socket: Socket, done: seq<WireRequest>, replies: seq<Reply>)
    requires Between(socket, done, replies)
    ensures done <= DecodeAll(socket.stream)
  {
    DoneIsAsked(socket.stream, done, socket.taken);
  }

  lemma FinishedIsAsked(socket: Socket, done: seq<WireRequest>, replies: seq<Reply>)
    requires Finished(socket, done, replies)
    ensures done <= DecodeAll(socket.stream)
  {
  }

  method StillPresent(link: Link, ghost base: seq<Call>, ghost calls: seq<Call>) returns (present: bool)
    requires AtEase(link, base, calls)
    modifies link, link.bus, link.bus.readBytes, link.device
    ensures AtEase(link, base, calls) && present == link.bus.peripheralReady
    ensures old(link.flags.stopReturned) ==> !present
  {
    hide Link.Valid;
    present := link.PeripheralPresent();
    if link.flags.stopReturned {
      StoppedIsNotReady(link);
    }
  }

  lemma NothingServed(socket: Socket)
    requires socket.Valid() && socket.taken == 0 && socket.sent == [] && !socket.failed
    ensures Served([], [], []) && Between(socket, [], [])
  {
  }

  lemma FaultIsServed(done: seq<WireRequest>, calls: seq<Call>, replies: seq<Reply>, w: WireRequest)
    requires Served(done, calls, replies) && Oversize(w)
    ensures var r := Reply(RESULT_BUS_FAULT, []);
            && Served(done + [w], calls, replies + [r])
            && EncodeReplies(replies + [r]) == EncodeReplies(replies) + EncodeReply(r)
  {
    ServedOversize(done, calls, replies, w);
    EncodeRepliesSnoc(replies, Reply(RESULT_BUS_FAULT, []));
  }

  lemma CallIsServed(done: seq<WireRequest>, calls: seq<Call>, replies: seq<Reply>, w: WireRequest, c: Call)
    requires Served(done, calls, replies) && !Oversize(w) && IsCallOf(w, c.request) && Whole(c)
    ensures && Served(done + [w], calls + [c], replies + [ReplyOf(c)])
            && EncodeReplies(replies + [ReplyOf(c)]) == EncodeReplies(replies) + EncodeReply(ReplyOf(c))
  {
    ServedCall(done, calls, replies, w, c);
    EncodeRepliesSnoc(replies, ReplyOf(c));
  }
}
