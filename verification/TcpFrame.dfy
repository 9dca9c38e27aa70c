/**
 The wire format between the TCP bridge and its client: framed requests, and
 responses whose length the client knows from its own request.
 */
module TcpFrame {
  import opened Words

  /** Lengths travel as little-endian 16-bit words. */
  datatype RawWireRequest = WireRequest(address: Byte, writes: seq<Byte>, readLength: nat)

  type WireRequest = w: RawWireRequest | |w.writes| < 0x1_0000 && w.readLength < 0x1_0000
    witness RawWireRequest.WireRequest(0, [], 0)

  function Low(n: nat): Byte { n % 0x100 }

  function High(n: nat): Byte
    requires n < 0x1_0000
  {
    n / 0x100
  }

  /** The shift-and-or of the header's two bytes. */
  function Word16(low: Byte, high: Byte): (n: nat)
    ensures n < 0x1_0000
  {
    low + high * 0x100
  }

  lemma WordOfBytes(n: nat)
    requires n < 0x1_0000
    ensures Word16(Low(n), High(n)) == n
  {
  }

  lemma BytesOfWord(low: Byte, high: Byte)
    ensures Low(Word16(low, high)) == low && High(Word16(low, high)) == high
  {
  }

  const HEADER := 5

  function Header(w: WireRequest): (h: seq<Byte>)
    ensures |h| == HEADER
  {
    [w.address, Low(|w.writes|), High(|w.writes|), Low(w.readLength), High(w.readLength)]
  }

  function Encode(w: WireRequest): seq<Byte> {
    Header(w) + w.writes
  }

  function EncodeAll(requests: seq<WireRequest>): seq<Byte>
    decreases |requests|
  {
    if requests == [] then [] else Encode(requests[0]) + EncodeAll(requests[1..])
  }

  /** No whole request in front. */
  predicate Incomplete(stream: seq<Byte>) {
    |stream| < HEADER || |stream| < HEADER + Word16(stream[1], stream[2])
  }

  function Front(stream: seq<Byte>): WireRequest
    requires !Incomplete(stream)
  {
    RawWireRequest.WireRequest(stream[0], stream[HEADER..HEADER + Word16(stream[1], stream[2])],
                               Word16(stream[3], stream[4]))
  }

  /** The whole requests a byte stream carries. */
  function DecodeAll(stream: seq<Byte>): seq<WireRequest>
    decreases |stream|
  {
    if Incomplete(stream) then []
    else [Front(stream)] + DecodeAll(stream[HEADER + Word16(stream[1], stream[2])..])
  }

  lemma {:induction false} EncodeAllSnoc(requests: seq<WireRequest>, w: WireRequest)
    ensures EncodeAll(requests + [w]) == EncodeAll(requests) + Encode(w)
    decreases |requests|
  {
    hide Encode;
    if requests == [] {
      assert [] + [w] == [w] && [w][1..] == [];
    } else {
      EncodeAllSnoc(requests[1..], w);
      assert (requests + [w])[1..] == requests[1..] + [w];
    }
  }

  /** The header byte by byte: address, then both lengths, low byte first. */
  lemma HeaderReads(address: Byte, l: Byte, h: Byte, rl: Byte, rh: Byte, rest: seq<Byte>)
    requires |rest| >= l + 256 * h
    ensures var s := [address, l, h, rl, rh] + rest;
            && !Incomplete(s)
            && Front(s).address == address
            && Front(s).writes == rest[..l + 256 * h]
            && Front(s).readLength == rl + 256 * rh
  {
  }

  /** A request consumes its five header bytes and its write bytes, whatever their number. */
  lemma FrontOfEncoded(w: WireRequest, rest: seq<Byte>)
    ensures var s := Encode(w) + rest;
            !Incomplete(s) && Front(s) == w && s[HEADER + |w.writes|..] == rest
  {
    WordOfBytes(|w.writes|);
    WordOfBytes(w.readLength);
    hide Word16, Low, High;
    var s := Encode(w) + rest;
    assert s[..HEADER] == Header(w);
    assert s[1] == Low(|w.writes|) && s[2] == High(|w.writes|);
    assert s[3] == Low(w.readLength) && s[4] == High(w.readLength);
    assert s[HEADER..HEADER + |w.writes|] == w.writes;
  }

  /** Framing never slips: whole requests in front are decoded as themselves, and the rest as it stands. */
  lemma {:induction false} DecodeEncoded(requests: seq<WireRequest>, rest: seq<Byte>)
    ensures DecodeAll(EncodeAll(requests) + rest) == requests + DecodeAll(rest)
    decreases |requests|
  {
    hide Encode, DecodeAll;
    if requests == [] {
      assert EncodeAll(requests) + rest == rest;
    } else {
      var w, more := requests[0], EncodeAll(requests[1..]) + rest;
      assert EncodeAll(requests) + rest == Encode(w) + more;
      DecodeFront(w, more);
      DecodeEncoded(requests[1..], rest);
      assert requests == [w] + requests[1..];
    }
  }

  lemma {:induction false} DecodeFront(w: WireRequest, rest: seq<Byte>)
    ensures DecodeAll(Encode(w) + rest) == [w] + DecodeAll(rest)
  {
    FrontOfEncoded(w, rest);
    hide Encode;
  }

  lemma {:induction false} FrontAndRest(stream: seq<Byte>) returns (w: WireRequest, rest: seq<Byte>)
    requires !Incomplete(stream)
    ensures stream == Encode(w) + rest && |rest| < |stream|
    ensures DecodeAll(stream) == [w] + DecodeAll(rest)
  {
    BytesOfWord(stream[1], stream[2]);
    BytesOfWord(stream[3], stream[4]);
    hide Word16, Low, High;
    w := Front(stream);
    rest := stream[HEADER + |w.writes|..];
    assert stream[..HEADER] == Header(w);
  }

  lemma {:induction false} EncodeAllCons(w: WireRequest, requests: seq<WireRequest>)
    ensures EncodeAll([w] + requests) == Encode(w) + EncodeAll(requests)
  {
    assert ([w] + requests)[1..] == requests;
  }

  /** ... and nothing is lost or invented: the decoded requests and an incomplete rest are the stream. */
  lemma {:induction false} EncodeDecoded(stream: seq<Byte>) returns (rest: seq<Byte>)
    ensures stream == EncodeAll(DecodeAll(stream)) + rest && Incomplete(rest)
    decreases |stream|
  {
    hide Word16, Front, Encode;
    if Incomplete(stream) {
      rest := stream;
    } else {
      hide *;
      var w, tail := FrontAndRest(stream);
      rest := EncodeDecoded(tail);
      EncodeAllCons(w, DecodeAll(tail));
    }
  }

  // ---------------------------------------------------------------------------
  // Responses
  // ---------------------------------------------------------------------------

  const RESULT_OK: Byte := 0
  const RESULT_BUS_FAULT: Byte := 3

  /** One result code, with the read bytes after an acknowledged read. */
  datatype Reply = Reply(code: Byte, data: seq<Byte>)

  /** A reply to `w`: data of the requested length exactly when the code is 0. */
  predicate ReplyTo(w: WireRequest, r: Reply) {
    |r.data| == if r.code == RESULT_OK then w.readLength else 0
  }

  function EncodeReply(r: Reply): seq<Byte> {
    [r.code] + r.data
  }

  function EncodeReplies(replies: seq<Reply>): seq<Byte>
    decreases |replies|
  {
    if replies == [] then [] else EncodeReplies(replies[..|replies| - 1]) + EncodeReply(replies[|replies| - 1])
  }

  /** What the client makes of the bytes it receives: one code, then the bytes it asked for if it is 0. */
  function ClientReads(requests: seq<WireRequest>, bytes: seq<Byte>): seq<Reply>
    decreases |requests|
  {
    if requests == [] || bytes == [] then []
    else
      var n := if bytes[0] == RESULT_OK then requests[0].readLength else 0;
      if |bytes| < 1 + n then []
      else [Reply(bytes[0], bytes[1..1 + n])] + ClientReads(requests[1..], bytes[1 + n..])
  }

  lemma {:induction false} EncodeRepliesCons(r: Reply, replies: seq<Reply>)
    ensures EncodeReplies([r] + replies) == EncodeReply(r) + EncodeReplies(replies)
    decreases |replies|
  {
    var all := [r] + replies;
    if replies == [] {
      assert all[..|all| - 1] == [];
    } else {
      assert all[..|all| - 1] == [r] + replies[..|replies| - 1];
      EncodeRepliesCons(r, replies[..|replies| - 1]);
    }
  }

  lemma EncodeRepliesSnoc(replies: seq<Reply>, r: Reply)
    ensures EncodeReplies(replies + [r]) == EncodeReplies(replies) + EncodeReply(r)
  {
    assert (replies + [r])[..|replies|] == replies;
  }

  /** The client recovers the replies from the bytes alone. */
  lemma {:induction false} ClientReadsReplies(requests: seq<WireRequest>, replies: seq<Reply>)
    requires |requests| == |replies|
    requires forall i :: 0 <= i < |replies| ==> ReplyTo(requests[i], replies[i])
    ensures ClientReads(requests, EncodeReplies(replies)) == replies
    decreases |requests|
  {
    if requests != [] {
      var r, rest := replies[0], replies[1..];
      assert replies == [r] + rest;
      EncodeRepliesCons(r, rest);
      var bytes := EncodeReplies(replies);
      assert bytes[0] == r.code && bytes[1..1 + |r.data|] == r.data;
      assert bytes[1 + |r.data|..] == EncodeReplies(rest);
      assert ReplyTo(requests[0], r);
      ClientReadsReplies(requests[1..], rest);
    }
  }
}
