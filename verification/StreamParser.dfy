/** The incremental parser: two states, a five-byte header buffer and a payload buffer that is
    allocated when a header announces its length. */
module StreamParsing {
  import opened Bytes
  import opened Framing

  datatype ParserState = WantHeader | WantPayload

  class StreamParser {
    var state: ParserState
    const headerBuffer: array<byte>
    var headerBytesReceived: nat
    var pendingMsgType: byte
    var pendingMsgLen: nat
    var payloadBuffer: array?<byte>
    var payloadBytesReceived: nat

    ghost predicate Valid()
      reads this, headerBuffer
    {
      && headerBuffer.Length == HEADER_SIZE
      && headerBytesReceived <= HEADER_SIZE
      && match state
         case WantHeader =>
           && payloadBuffer == null
           && (headerBytesReceived == HEADER_SIZE ==> 0 < Announced(headerBuffer[..]))
         case WantPayload =>
           && headerBytesReceived == HEADER_SIZE
           && payloadBuffer != null && payloadBuffer != headerBuffer
           && payloadBuffer.Length == pendingMsgLen == Announced(headerBuffer[..])
           && pendingMsgType == headerBuffer[0]
           && payloadBytesReceived < pendingMsgLen
    }

    /** The objects the parser owns. */
    ghost function Repr(): set<object>
      reads this
    {
      {this, headerBuffer} + if payloadBuffer != null then {payloadBuffer} else {}
    }

    /** The bytes fed so far that are not yet part of a delivered message. */
    ghost function Held(): (h: seq<byte>)
      requires Valid()
      reads this, headerBuffer, Repr()
    {
      headerBuffer[..headerBytesReceived]
      + if state == WantPayload then payloadBuffer[..payloadBytesReceived] else []
    }

    /** The state left by a refused allocation: a whole header, and no payload buffer. */
    ghost predicate Stuck()
      reads this
    {
      state == WantHeader && headerBytesReceived == HEADER_SIZE
    }

    constructor ()
      ensures Valid() && fresh(Repr()) && Held() == [] && state == WantHeader
    {
      state := WantHeader;
      headerBuffer := new byte[HEADER_SIZE];
      headerBytesReceived := 0;
      pendingMsgType := 0;
      pendingMsgLen := 0;
      payloadBuffer := null;
      payloadBytesReceived := 0;
    }

    method Reset()
      modifies this
      ensures state == WantHeader && headerBytesReceived == 0 && payloadBuffer == null
      ensures pendingMsgLen == 0 && payloadBytesReceived == 0 && pendingMsgType == old(pendingMsgType)
    {
      state := WantHeader;
      headerBytesReceived := 0;
      pendingMsgLen := 0;
      payloadBuffer := null;
      payloadBytesReceived := 0;
    }

    /** The five header bytes are in: deliver an empty message, or get a buffer for the payload.
        `tail` is what follows the header in the stream. */
    method FinishHeader(alloc: Allocator, ghost tail: seq<byte>)
      returns (refused: bool, delivered: seq<Message>)
      requires headerBuffer.Length == HEADER_SIZE == headerBytesReceived
      requires state == WantHeader && payloadBuffer == null
      modifies this
      ensures Valid() && (payloadBuffer != null ==> fresh(payloadBuffer))
      ensures refused ==>
                && delivered == [] && Stuck() && Held() == headerBuffer[..]
                && Decode(alloc, headerBuffer[..] + tail) == Decoded([], Held(), false)
      ensures !refused ==>
                && !Stuck() && (0 < Announced(headerBuffer[..]) ==> state == WantPayload)
                && Decode(alloc, headerBuffer[..] + tail) == Resume(alloc, state, Held() + tail).After(delivered)
    {
      delivered := [];
      pendingMsgType := headerBuffer[0];
      pendingMsgLen := FromNetwork(headerBuffer[1..HEADER_SIZE]);
      ghost var before := headerBuffer[..] + tail;
      assert before[1..HEADER_SIZE] == headerBuffer[..][1..HEADER_SIZE] == headerBuffer[1..HEADER_SIZE];
      assert before[..HEADER_SIZE] == headerBuffer[..];
      if pendingMsgLen == 0 {
        delivered := [Message(pendingMsgType, [])];
        assert before[HEADER_SIZE..] == tail;
        assert Message(before[0], before[HEADER_SIZE..HEADER_SIZE]) == delivered[0];
        assert Decode(alloc, before) == Decode(alloc, tail).After(delivered);
        Reset();
        assert Held() + tail == tail;
        return false, delivered;
      }
      if !alloc(pendingMsgLen) {
        return true, [];
      }
      payloadBuffer := new byte[pendingMsgLen];
      payloadBytesReceived := 0;
      state := WantPayload;
      assert Held() + tail == before;
      return false, [];
    }

    /** One turn of the loop in the header state. */
    method TakeHeader(data: array<byte>, at: nat, len: nat, alloc: Allocator)
      returns (next: nat, refused: bool, delivered: seq<Message>)
      requires Valid() && state == WantHeader && at < len <= data.Length && data !in Repr()
      modifies this, headerBuffer
      ensures Valid() && (payloadBuffer != null ==> fresh(payloadBuffer))
      ensures at <= next <= len && (next == at ==> refused || state == WantPayload)
      ensures Turned(alloc, WantHeader, old(Held()) + data[at..len], data[next..len], refused, delivered)
    {
      ghost var before := Held() + data[at..len];
      var copied := CopyBytes(data, at, len, headerBuffer, headerBytesReceived, HEADER_SIZE - headerBytesReceived);
      headerBytesReceived := headerBytesReceived + copied;
      next := at + copied;
      refused, delivered := false, [];
      assert data[at..len] == data[at..next] + data[next..len];
      assert headerBuffer[..headerBytesReceived] + data[next..len] == before;
      if headerBytesReceived == HEADER_SIZE {
        assert headerBuffer[..headerBytesReceived] == headerBuffer[..];
        refused, delivered := FinishHeader(alloc, data[next..len]);
      } else {
        assert Held() + data[next..len] == before;
      }
    }

    /** One turn of the loop in the payload state. */
    method TakePayload(data: array<byte>, at: nat, len: nat, ghost alloc: Allocator)
      returns (next: nat, delivered: seq<Message>)
      requires Valid() && state == WantPayload && at < len <= data.Length && data !in Repr()
      modifies this, payloadBuffer
      ensures Valid() && (payloadBuffer != null ==> payloadBuffer == old(payloadBuffer))
      ensures at < next <= len
      ensures Turned(alloc, WantPayload, old(Held()) + data[at..len], data[next..len], false, delivered)
    {
      hide Decode, DecodeGranted, Announced;
      ghost var before := Held() + data[at..len];
      var copied := CopyBytes(data, at, len, payloadBuffer, payloadBytesReceived, pendingMsgLen - payloadBytesReceived);
      payloadBytesReceived := payloadBytesReceived + copied;
      next := at + copied;
      delivered := [];
      assert data[at..len] == data[at..next] + data[next..len];
      assert headerBuffer[..] + payloadBuffer[..payloadBytesReceived] + data[next..len] == before;
      if payloadBytesReceived == pendingMsgLen {
        delivered := [Message(pendingMsgType, payloadBuffer[..])];
        WholeFirst(alloc, headerBuffer[..], payloadBuffer[..], data[next..len]);
        assert payloadBuffer[..payloadBytesReceived] == payloadBuffer[..];
        Reset();
        assert Held() + data[next..len] == data[next..len];
      } else {
        assert Held() + data[next..len] == before;
      }
    }

    /** The body of the parsing loop. */
    method Turn(data: array<byte>, at: nat, len: nat, alloc: Allocator)
      returns (next: nat, refused: bool, delivered: seq<Message>)
      requires Valid() && at < len <= data.Length && data !in Repr()
      modifies Repr()
      ensures Valid() && fresh(Repr() - old(Repr())) && data[..] == old(data[..])
      ensures at <= next <= len
      ensures next == at && !refused ==> old(state) == WantHeader && state == WantPayload
      ensures Turned(alloc, old(state), old(Held()) + data[at..len], data[next..len], refused, delivered)
    {
      if state == WantHeader {
        next, refused, delivered := TakeHeader(data, at, len, alloc);
      } else {
        refused := false;
        next, delivered := TakePayload(data, at, len, alloc);
      }
    }

    /** A turn that started with `before` still to read and left `tail`: what it delivered, followed
        by what the new state makes of the rest, is what the old state makes of `before`. */
    ghost predicate Turned(alloc: Allocator, from: ParserState, before: seq<byte>, tail: seq<byte>,
                           refused: bool, delivered: seq<Message>)
      requires Valid()
      reads this, headerBuffer, Repr()
    {
      && (refused <==> Stuck())
      && Resume(alloc, from, before)
         == (if refused then Decoded([], Held(), false) else Resume(alloc, state, Held() + tail)).After(delivered)
    }

    /** Feeds `data[..len]`. `alloc` says which payload buffers can be allocated during this call;
        it may differ from call to call. `delivered` lists the completed messages in callback order.

        The contract covers every state: the call is a plain `Decode` of held and new bytes, except
        that a payload whose buffer was granted earlier is not asked for again. */
    method ParseStream(data: array?<byte>, len: nat, alloc: Allocator)
      returns (rc: int, delivered: seq<Message>)
      requires Valid() && (data != null ==> len <= data.Length && data !in Repr())
      modifies Repr()
      ensures Valid() && fresh(Repr() - old(Repr()))
      ensures data == null ==> rc == -1
      ensures data == null || len == 0 ==> delivered == [] && Held() == old(Held()) && state == old(state)
      ensures data != null && len == 0 ==> rc == 0
      ensures data != null && 0 < len ==>
                && (rc == 0 || rc == -1)
                && Decoded(delivered, Held(), rc == 0)
                   == Resume(alloc, old(state), old(Held()) + old(data[..len]))
                && (rc == 0 <==> !Stuck())
    {
      delivered := [];
      if data == null {
        return -1, [];
      }
      var processed := 0;
      ghost var bytes, goal := data[..len], Resume(alloc, state, Held() + data[..len]);
      assert data[processed..len] == bytes;
      assert goal.After([]) == goal;
      while processed < len
        invariant processed <= len <= data.Length && data !in Repr()
        invariant Valid() && fresh(Repr() - old(Repr()))
        invariant data[..len] == bytes
        invariant processed == 0 && state == old(state) ==> delivered == [] && Held() == old(Held())
        invariant len == 0 ==> state == old(state)
        invariant 0 < processed || state != old(state) ==> !Stuck()
        invariant goal == Resume(alloc, state, Held() + data[processed..len]).After(delivered)
        decreases len - processed, if state == WantHeader then 1 else 0
      {
        var next, refused, more := Turn(data, processed, len, alloc);
        AfterTwice(goal, delivered, more,
                   if refused then Decoded([], Held(), false) else Resume(alloc, state, Held() + data[next..len]));
        processed, delivered := next, delivered + more;
        if refused {
          return -1, delivered;
        }
      }
      assert Held() + data[processed..len] == Held();
      return 0, delivered;
    }
  }

  /** The held bytes say it all: two parsers that hold the same bytes, neither after a refused allocation,
      are in the same state, with the same counters and contents. (The type and length of a pending message
      are left over from the one before while a header is awaited.) */
  lemma HeldIsState(p: StreamParser, q: StreamParser)
    requires p.Valid() && q.Valid() && !p.Stuck() && !q.Stuck()
    ensures p.Held() == q.Held() <==>
              && p.state == q.state && p.headerBytesReceived == q.headerBytesReceived
              && p.headerBuffer[..p.headerBytesReceived] == q.headerBuffer[..q.headerBytesReceived]
              && (p.state == WantPayload ==>
                    && p.pendingMsgType == q.pendingMsgType && p.pendingMsgLen == q.pendingMsgLen
                    && p.payloadBytesReceived == q.payloadBytesReceived
                    && p.payloadBuffer[..p.payloadBytesReceived] == q.payloadBuffer[..q.payloadBytesReceived])
  {
    HeldParts(p);
    HeldParts(q);
  }

  lemma HeldParts(p: StreamParser)
    requires p.Valid() && !p.Stuck()
    ensures p.state == WantPayload <==> HEADER_SIZE <= |p.Held()|
    ensures p.state == WantHeader ==> p.Held() == p.headerBuffer[..p.headerBytesReceived]
    ensures p.state == WantPayload ==>
              && p.headerBuffer[..p.headerBytesReceived] == p.headerBuffer[..] == p.Held()[..HEADER_SIZE]
              && p.payloadBuffer[..p.payloadBytesReceived] == p.Held()[HEADER_SIZE..]
  {}

  /** A header and its whole payload at the front of the bytes still to read. */
  lemma WholeFirst(alloc: Allocator, header: seq<byte>, body: seq<byte>, tail: seq<byte>)
    requires |header| == HEADER_SIZE && Announced(header) == |body|
    ensures Resume(alloc, WantPayload, header + body + tail)
         == Decode(alloc, tail).After([Message(header[0], body)])
  {
    var s := header + body + tail;
    assert s[1..HEADER_SIZE] == header[1..HEADER_SIZE];
    assert s[HEADER_SIZE..HEADER_SIZE + |body|] == body;
    assert s[HEADER_SIZE + |body|..] == tail;
  }

  /** What a call delivers: in the payload state the buffer for the first payload already exists. */
  function Resume(alloc: Allocator, state: ParserState, s: seq<byte>): Decoded {
    if state == WantPayload && HEADER_SIZE <= |s| then DecodeGranted(alloc, s) else Decode(alloc, s)
  }
}
