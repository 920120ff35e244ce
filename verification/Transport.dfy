/** Framing into a buffer, the send loops that survive short writes, and the receive loop. */
module Transport {
  import opened Bytes
  import opened Framing
  import opened StreamParsing

  const BUFFER_SIZE: nat := 4096
  const MAX_PAYLOAD: nat := BUFFER_SIZE - HEADER_SIZE
  /** The range of `size_t`, and the size that no object in memory exceeds. */
  const SIZE_RANGE: nat := 0x1_0000_0000_0000_0000
  const OBJECT_MAX: nat := 0x7FFF_FFFF_FFFF_FFFF

  /** The frame size as the code computes it, in `size_t`. */
  function FrameSize(payloadLen: nat): nat {
    (HEADER_SIZE + payloadLen) % SIZE_RANGE
  }

  /** The size wraps around exactly when header and payload together reach 2^64. */
  lemma FrameSizeMeans(payloadLen: nat)
    requires payloadLen <= 18446744073709551615
    ensures FrameSize(payloadLen)
         == if payloadLen + 5 <= 18446744073709551615 then payloadLen + 5 else payloadLen + 5 - 18446744073709551616
  {}

  /** Writes the frame into `out`. A missing payload leaves the bytes behind the header as they were, and
      its claimed length, at the end of the range of `size_t`, can make the frame size wrap around to less
      than a header. The header keeps the low byte of the type and the low 32 bits of the length; the
      result is the frame size as a C `int`. */
  method FrameMessage(kind: int, payload: array?<byte>, payloadLen: nat, out: array?<byte>)
    returns (rc: int)
    requires payloadLen < SIZE_RANGE
    requires payload != null ==> payloadLen <= payload.Length <= OBJECT_MAX && payload != out
    requires out != null && FrameSize(payloadLen) < HEADER_SIZE ==> HEADER_SIZE <= out.Length
    modifies if out != null then {out} else {}
    ensures out == null || out.Length < FrameSize(payloadLen) ==> rc == -1
    ensures out != null && out.Length < FrameSize(payloadLen) ==> out[..] == old(out[..])
    ensures out != null && FrameSize(payloadLen) <= out.Length ==>
              var written := HEADER_SIZE + if payload != null then payloadLen else 0;
              && rc == ToInt32(FrameSize(payloadLen))
              && written <= out.Length
              && out[..written]
                 == Header(kind % 0x100, payloadLen) + (if payload != null then payload[..payloadLen] else [])
              && out[written..] == old(out[written..])
  {
    if out == null {
      return -1;
    }
    var frameSize := FrameSize(payloadLen);
    if out.Length < frameSize {
      return -1;
    }
    var netPayloadLen := ToNetwork(payloadLen % UINT32_RANGE);
    out[0] := kind % 0x100;
    forall i | 0 <= i < 4 {
      out[1 + i] := netPayloadLen[i];
    }
    assert out[1..HEADER_SIZE] == netPayloadLen;
    assert out[..HEADER_SIZE] == Header(kind % 0x100, payloadLen);
    hide Header, ToInt32;
    assert out[HEADER_SIZE..] == old(out[HEADER_SIZE..]);
    if payload != null && payloadLen > 0 {
      var copied := CopyBytes(payload, 0, payloadLen, out, HEADER_SIZE, payloadLen);
      assert old(out[HEADER_SIZE + payloadLen..]) == old(out[HEADER_SIZE..])[payloadLen..];
    }
    return ToInt32(frameSize);
  }

  /** What a message becomes on the wire. */
  function OnWire(kind: int, payload: seq<byte>): (m: Message) {
    Message(kind % 0x100, payload)
  }

  /** The operating system's sockets: the bytes written so far to each open descriptor. A write may
      take any positive number of the offered bytes; writes to a `broken` descriptor may fail. */
  class Network {
    const broken: set<int>
    var wire: map<int, seq<byte>>

    constructor (descriptors: set<int>, broken: set<int>)
      ensures wire == (map fd | fd in descriptors :: []) && this.broken == broken
    {
      this.broken := broken;
      wire := map fd | fd in descriptors :: [];
    }

    method Send(fd: int, bytes: seq<byte>) returns (n: int)
      requires bytes != []
      modifies this
      ensures -1 <= n <= |bytes|
      ensures fd in old(wire) && fd !in broken ==> 0 < n
      ensures wire == if fd in old(wire) && 0 < n then old(wire)[fd := old(wire)[fd] + bytes[..n]] else old(wire)
    {
      if fd !in wire {
        return -1;
      }
      n :| -1 <= n <= |bytes| && (fd !in broken ==> 0 < n);
      if 0 < n {
        wire := wire[fd := wire[fd] + bytes[..n]];
      }
    }

    method Close(fd: int)
      modifies this
      ensures wire == old(wire) - {fd}
    {
      wire := wire - {fd};
    }

    /** The send loop: goes on after every short write and stops at the first failure. */
    method SendAll(fd: int, frame: array<byte>, frameLen: nat) returns (sent: nat)
      requires frameLen <= frame.Length
      modifies this
      ensures sent <= frameLen
      ensures fd in old(wire) && fd !in broken ==> sent == frameLen
      ensures fd in old(wire) ==> wire == old(wire)[fd := old(wire)[fd] + frame[..sent]]
      ensures fd !in old(wire) ==> wire == old(wire)
    {
      sent := 0;
      ghost var before := if fd in wire then wire[fd] else [];
      assert before + frame[..0] == before;
      while sent < frameLen
        invariant sent <= frameLen
        invariant fd in old(wire) ==> wire == old(wire)[fd := old(wire)[fd] + frame[..sent]]
        invariant fd !in old(wire) ==> wire == old(wire)
      {
        var bytesSent := Send(fd, frame[sent..frameLen]);
        if bytesSent <= 0 {
          return;
        }
        assert before + frame[..sent] + frame[sent..frameLen][..bytesSent] == before + frame[..sent + bytesSent];
        sent := sent + bytesSent;
      }
    }

    /** Frames one payload in a buffer of `BUFFER_SIZE` and sends it; `sentLen` bytes of the frame are
        written. A payload that does not fit is reported and dropped: nothing is written. */
    method SendPayload(fd: int, kind: int, payload: array?<byte>, payloadLen: nat) returns (sentLen: nat)
      requires payloadLen < SIZE_RANGE
      requires payload != null ==> payloadLen <= payload.Length <= OBJECT_MAX
      modifies this
      ensures fd !in old(wire) || (payload == null && payloadLen != 0) || MAX_PAYLOAD < payloadLen ==> wire == old(wire)
      ensures fd in old(wire) && payloadLen <= MAX_PAYLOAD && (payload == null ==> payloadLen == 0) ==>
                var frame := Encode(OnWire(kind, if payload == null then [] else payload[..payloadLen]));
                && sentLen <= |frame| && (fd !in broken ==> sentLen == |frame|)
                && wire == old(wire)[fd := old(wire)[fd] + frame[..sentLen]]
    {
      hide Header;
      if payload == null && payloadLen != 0 {
        return 0;
      }
      var frameBuffer := new byte[BUFFER_SIZE];
      var frameLen := FrameMessage(kind, payload, payloadLen, frameBuffer);
      if frameLen < 0 {
        return 0;
      }
      ghost var frame := Encode(OnWire(kind, if payload == null then [] else payload[..payloadLen]));
      assert frameBuffer[..frameLen] == frame;
      hide Encode, OnWire, FrameSize, ToInt32;
      sentLen := SendAll(fd, frameBuffer, frameLen);
      assert frameBuffer[..sentLen] == frame[..sentLen];
    }
  }

  /** A payload handed to a client for sending. */
  datatype Outgoing = Outgoing(kind: int, payload: seq<byte>)

  function Kept(o: Outgoing): seq<Message> {
    if |o.payload| <= MAX_PAYLOAD then [OnWire(o.kind, o.payload)] else []
  }

  /** The messages that reach the wire: payloads over the limit are dropped one by one. */
  function Sendable(outgoing: seq<Outgoing>): seq<Message> {
    if outgoing == [] then [] else Kept(outgoing[0]) + Sendable(outgoing[1..])
  }

  lemma {:induction false} SendableAccepted(alloc: Allocator, outgoing: seq<Outgoing>)
    requires forall n :: 0 < n <= MAX_PAYLOAD ==> alloc(n)
    ensures AllAccepted(alloc, Sendable(outgoing))
  {
    if outgoing != [] {
      SendableAccepted(alloc, outgoing[1..]);
      assert Sendable(outgoing) == Sendable(outgoing[1..])
        || (Sendable(outgoing)[0] == OnWire(outgoing[0].kind, outgoing[0].payload)
            && Sendable(outgoing)[1..] == Sendable(outgoing[1..]));
    }
  }

  lemma {:induction false} SendableAppend(a: seq<Outgoing>, b: seq<Outgoing>)
    ensures Sendable(a + b) == Sendable(a) + Sendable(b)
  {
    if a == [] {
      assert a + b == b;
    } else {
      assert (a + b)[1..] == a[1..] + b;
      SendableAppend(a[1..], b);
      assert Kept(a[0]) + (Sendable(a[1..]) + Sendable(b)) == Kept(a[0]) + Sendable(a[1..]) + Sendable(b);
    }
  }

  /** What the sends of some frames leave on the wire: a part of each, in order, and each `whole` if no
      send can fail. */
  ghost predicate PartsOf(parts: seq<seq<byte>>, ms: seq<Message>, whole: bool) {
    |parts| == |ms| && forall k | 0 <= k < |ms| :: parts[k] <= Encode(ms[k]) && (whole ==> parts[k] == Encode(ms[k]))
  }

  /** The sockets after `bytes` were written to one of them, if it is open. */
  function Grown(wire: map<int, seq<byte>>, fd: int, bytes: seq<byte>): map<int, seq<byte>> {
    if fd in wire then wire[fd := wire[fd] + bytes] else wire
  }

  lemma GrownTwice(wire: map<int, seq<byte>>, fd: int, a: seq<byte>, b: seq<byte>)
    ensures Grown(Grown(wire, fd, a), fd, b) == Grown(wire, fd, a + b)
    ensures Grown(wire, fd, []) == wire
    ensures fd in Grown(wire, fd, a) <==> fd in wire
  {
    if fd in wire {
      assert wire[fd] + a + b == wire[fd] + (a + b);
      assert wire[fd] + [] == wire[fd];
    }
  }

  method SendOne(net: Network, fd: int, o: Outgoing) returns (ghost parts: seq<seq<byte>>)
    requires |o.payload| <= OBJECT_MAX
    modifies net
    ensures PartsOf(parts, Sendable([o]), fd in old(net.wire) && fd !in net.broken)
    ensures net.wire == Grown(old(net.wire), fd, Flatten(parts))
  {
    var payload := new byte[|o.payload|](j requires 0 <= j < |o.payload| => o.payload[j]);
    assert payload[..|o.payload|] == o.payload;
    ghost var frame := Encode(OnWire(o.kind, o.payload));
    var sentLen := net.SendPayload(fd, o.kind, payload, |o.payload|);
    if |o.payload| <= MAX_PAYLOAD {
      assert Sendable([o]) == [OnWire(o.kind, o.payload)];
      parts := [if fd in old(net.wire) then frame[..sentLen] else []];
      assert Flatten(parts) == parts[0];
    } else {
      assert Sendable([o]) == [];
      parts := [];
      assert fd in old(net.wire) ==> old(net.wire)[fd] + [] == old(net.wire)[fd];
    }
  }

  lemma PartsAppend(a: seq<seq<byte>>, ms: seq<Message>, b: seq<seq<byte>>, ns: seq<Message>, whole: bool)
    requires PartsOf(a, ms, whole) && PartsOf(b, ns, whole)
    ensures PartsOf(a + b, ms + ns, whole)
    ensures Flatten(a + b) == Flatten(a) + Flatten(b)
  {
    FlattenAppend(a, b);
    hide Encode, Flatten;
  }

  lemma OneMore(outgoing: seq<Outgoing>, i: nat)
    requires i < |outgoing|
    ensures Sendable(outgoing[..i]) + Sendable([outgoing[i]]) == Sendable(outgoing[..i + 1])
  {
    SendableAppend(outgoing[..i], [outgoing[i]]);
    assert outgoing[..i] + [outgoing[i]] == outgoing[..i + 1];
  }

  /** Whole parts are the encodings. */
  lemma {:induction false} WholeParts(parts: seq<seq<byte>>, ms: seq<Message>)
    requires PartsOf(parts, ms, true)
    ensures Flatten(parts) == EncodeAll(ms)
  {
    if ms != [] {
      assert PartsOf(parts[1..], ms[1..], true);
      WholeParts(parts[1..], ms[1..]);
    }
  }

  /** Sends a list of payloads. Over a healthy connection they become their encodings, in order, whatever
      the short writes are; when sends fail, a part of each is written. */
  method SendEach(net: Network, fd: int, outgoing: seq<Outgoing>) returns (ghost parts: seq<seq<byte>>)
    requires forall o <- outgoing :: |o.payload| <= OBJECT_MAX
    modifies net
    ensures PartsOf(parts, Sendable(outgoing), fd in old(net.wire) && fd !in net.broken)
    ensures net.wire == Grown(old(net.wire), fd, Flatten(parts))
    ensures fd in old(net.wire) && fd !in net.broken ==> Flatten(parts) == EncodeAll(Sendable(outgoing))
  {
    ghost var before, whole := net.wire, fd in net.wire && fd !in net.broken;
    parts := [];
    GrownTwice(before, fd, [], []);
    assert Flatten(parts) == [];
    hide Encode, EncodeAll, Sendable, Flatten, PartsOf, Grown;
    assert PartsOf(parts, Sendable(outgoing[..0]), whole) by { NothingSent(outgoing, whole); }
    for i := 0 to |outgoing|
      invariant PartsOf(parts, Sendable(outgoing[..i]), whole)
      invariant net.wire == Grown(before, fd, Flatten(parts))
    {
      ghost var more := SendOne(net, fd, outgoing[i]);
      OneMore(outgoing, i);
      PartsAppend(parts, Sendable(outgoing[..i]), more, Sendable([outgoing[i]]), whole);
      GrownTwice(before, fd, Flatten(parts), Flatten(more));
      parts := parts + more;
    }
    assert outgoing[..|outgoing|] == outgoing;
    if whole {
      WholeParts(parts, Sendable(outgoing));
    }
  }

  lemma NothingSent(outgoing: seq<Outgoing>, whole: bool)
    ensures PartsOf([], Sendable(outgoing[..0]), whole)
  {}

  /** One non-empty `recv` and its `ParseStream`. */
  method ReceiveOne(parser: StreamParser, piece: seq<byte>, alloc: Allocator)
    returns (ok: bool, delivered: seq<Message>)
    requires parser.Valid() && Incomplete(alloc, parser.Held()) && piece != []
    modifies parser.Repr()
    ensures parser.Valid() && fresh(parser.Repr() - old(parser.Repr()))
    ensures Decoded(delivered, parser.Held(), ok) == Decode(alloc, old(parser.Held()) + piece)
    ensures ok ==> Incomplete(alloc, parser.Held())
  {
    var buffer := new byte[|piece|](j requires 0 <= j < |piece| => piece[j]);
    assert buffer[..|piece|] == piece;
    DecodeConserves(alloc, parser.Held() + piece);
    ResumeIsDecode(alloc, parser, piece);
    var rc, more := parser.ParseStream(buffer, |piece|, alloc);
    return rc == 0, more;
  }

  /** The receive loop of either side: one `ParseStream` per non-empty `recv`, until a failure. */
  method Receive(parser: StreamParser, pieces: seq<seq<byte>>, alloc: Allocator)
    returns (ok: bool, delivered: seq<Message>)
    requires parser.Valid() && Incomplete(alloc, parser.Held())
    requires forall p <- pieces :: p != []
    modifies parser.Repr()
    ensures parser.Valid() && fresh(parser.Repr() - old(parser.Repr()))
    ensures Decoded(delivered, parser.Held(), ok) == Decode(alloc, old(parser.Held()) + Flatten(pieces))
  {
    FragmentationIndependence(alloc, parser.Held(), pieces);
    ghost var goal := Feed(alloc, parser.Held(), pieces);
    assert goal.After([]) == goal;
    delivered := [];
    for i := 0 to |pieces|
      invariant parser.Valid() && fresh(parser.Repr() - old(parser.Repr()))
      invariant Incomplete(alloc, parser.Held())
      invariant goal == Feed(alloc, parser.Held(), pieces[i..]).After(delivered)
    {
      ghost var d := Decode(alloc, parser.Held() + pieces[i]);
      ghost var rest := if d.ok then Feed(alloc, d.rest, pieces[i + 1..]) else d.(msgs := []);
      assert pieces[i..][1..] == pieces[i + 1..];
      assert d.(msgs := []).After(d.msgs) == d;
      assert pieces[i] in pieces;
      var ok', more := ReceiveOne(parser, pieces[i], alloc);
      AfterTwice(goal, delivered, more, rest);
      delivered := delivered + more;
      if !ok' {
        return false, delivered;
      }
    }
    return true, delivered;
  }

  lemma ResumeIsDecode(alloc: Allocator, parser: StreamParser, piece: seq<byte>)
    requires parser.Valid() && Incomplete(alloc, parser.Held())
    ensures Resume(alloc, parser.state, parser.Held() + piece) == Decode(alloc, parser.Held() + piece)
  {
    var s := parser.Held() + piece;
    if parser.state == WantPayload {
      assert s[1..HEADER_SIZE] == parser.Held()[1..HEADER_SIZE];
    }
  }

  /** The parser is back in its initial state exactly when it holds nothing. */
  lemma NothingHeld(parser: StreamParser)
    requires parser.Valid()
    ensures parser.Held() == [] <==> parser.state == WantHeader && parser.headerBytesReceived == 0
  {}

  /** From payloads to delivered messages: for every list of payloads, whatever the short writes and
      however the byte stream is cut, the receiver gets the payloads that fit, in order, and its
      parser ends in its initial state. */
  lemma WireRoundTrip(alloc: Allocator, outgoing: seq<Outgoing>, pieces: seq<seq<byte>>)
    requires forall n :: 0 < n <= MAX_PAYLOAD ==> alloc(n)
    requires Flatten(pieces) == EncodeAll(Sendable(outgoing))
    ensures Feed(alloc, [], pieces) == Decoded(Sendable(outgoing), [], true)
  {
    SendableAccepted(alloc, outgoing);
    RoundTrip(alloc, Sendable(outgoing), pieces);
  }

  /** The limit: a payload is sent exactly if it has at most 4091 bytes, and then whole, with the low byte
      of its type. */
  lemma LimitIsExact(o: Outgoing)
    ensures Sendable([o]) == if |o.payload| <= 4091 then [Message(o.kind % 256, o.payload)] else []
  {
    assert [o][1..] == [];
  }
}
