/** The wire format (type byte, four-byte length, payload) and what a byte stream means.

    `Decode` reads a stream from its start, with no state: it is the reference that the
    incremental parser is proved against. */
module Framing {
  import opened Bytes

  const HEADER_SIZE: nat := 5

  datatype Message = Message(kind: byte, body: seq<byte>) {
    predicate Fits() {
      |body| < UINT32_RANGE
    }
  }

  /** The header keeps the low 32 bits of the payload length. */
  function Header(kind: byte, length: nat): (h: seq<byte>)
    ensures |h| == HEADER_SIZE
  {
    [kind] + ToNetwork(length % UINT32_RANGE)
  }

  function Encode(m: Message): seq<byte> {
    Header(m.kind, |m.body|) + m.body
  }

  function EncodeAll(ms: seq<Message>): seq<byte> {
    if ms == [] then [] else Encode(ms[0]) + EncodeAll(ms[1..])
  }

  /** The payload length announced by the first five bytes. */
  function Announced(s: seq<byte>): (n: nat)
    requires HEADER_SIZE <= |s|
    ensures n < UINT32_RANGE
  {
    FromNetwork(s[1..HEADER_SIZE])
  }

  /** Messages found, bytes not yet part of a message, and whether every buffer could be allocated.
      After a refused allocation `rest` is the header whose payload was refused. */
  datatype Decoded = Decoded(msgs: seq<Message>, rest: seq<byte>, ok: bool) {
    function After(earlier: seq<Message>): Decoded {
      this.(msgs := earlier + msgs)
    }
  }

  lemma AfterTwice(goal: Decoded, delivered: seq<Message>, more: seq<Message>, d: Decoded)
    requires goal == d.After(more).After(delivered)
    ensures goal == d.After(delivered + more)
  {
    assert delivered + (more + d.msgs) == delivered + more + d.msgs;
  }

  /** Whether an allocation of `n` bytes succeeds. */
  type Allocator = nat -> bool

  function Decode(alloc: Allocator, s: seq<byte>): Decoded
    decreases |s|
  {
    if |s| < HEADER_SIZE then Decoded([], s, true)
    else if Announced(s) > 0 && !alloc(Announced(s)) then Decoded([], s[..HEADER_SIZE], false)
    else DecodeGranted(alloc, s)
  }

  /** As `Decode`, for a header whose payload needs no further allocation. */
  function DecodeGranted(alloc: Allocator, s: seq<byte>): Decoded
    requires HEADER_SIZE <= |s|
    decreases |s|, 0
  {
    var size := HEADER_SIZE + Announced(s);
    if |s| < size then Decoded([], s, true)
    else Decode(alloc, s[size..]).After([Message(s[0], s[HEADER_SIZE..size])])
  }

  /** A message the allocator lets through. */
  predicate Accepted(alloc: Allocator, m: Message) {
    m.Fits() && (m.body == [] || alloc(|m.body|))
  }

  predicate AllAccepted(alloc: Allocator, ms: seq<Message>) {
    ms == [] || (Accepted(alloc, ms[0]) && AllAccepted(alloc, ms[1..]))
  }

  /** A partial header, or a header whose payload is still missing at least one byte. */
  predicate Incomplete(alloc: Allocator, r: seq<byte>) {
    |r| < HEADER_SIZE || (0 < Announced(r) && alloc(Announced(r)) && |r| < HEADER_SIZE + Announced(r))
  }

  /** Exactly a header whose payload cannot be allocated. */
  predicate Refused(alloc: Allocator, r: seq<byte>) {
    |r| == HEADER_SIZE && 0 < Announced(r) && !alloc(Announced(r))
  }

  lemma HeaderAnnounces(kind: byte, length: nat, tail: seq<byte>)
    requires length < UINT32_RANGE
    ensures Announced(Header(kind, length) + tail) == length
    ensures (Header(kind, length) + tail)[0] == kind
  {
    assert (Header(kind, length) + tail)[1..HEADER_SIZE] == ToNetwork(length);
    NetworkRoundTrip(length);
  }

  lemma HeaderOf(s: seq<byte>)
    requires HEADER_SIZE <= |s|
    ensures Header(s[0], Announced(s)) == s[..HEADER_SIZE]
  {
    NetworkRoundTripBack(s[1..HEADER_SIZE]);
    assert [s[0]] + s[1..HEADER_SIZE] == s[..HEADER_SIZE];
  }

  lemma {:induction false} EncodeAllAppend(a: seq<Message>, b: seq<Message>)
    ensures EncodeAll(a + b) == EncodeAll(a) + EncodeAll(b)
  {
    if a == [] {
      assert a + b == b;
    } else {
      assert (a + b)[1..] == a[1..] + b;
      EncodeAllAppend(a[1..], b);
      assert Encode(a[0]) + (EncodeAll(a[1..]) + EncodeAll(b)) == Encode(a[0]) + EncodeAll(a[1..]) + EncodeAll(b);
    }
  }

  lemma DecodeOne(alloc: Allocator, m: Message, tail: seq<byte>)
    requires Accepted(alloc, m)
    ensures Decode(alloc, Encode(m) + tail) == Decode(alloc, tail).After([m])
  {
    var s := Encode(m) + tail;
    assert s == Header(m.kind, |m.body|) + (m.body + tail);
    HeaderAnnounces(m.kind, |m.body|, m.body + tail);
    assert s[HEADER_SIZE..HEADER_SIZE + |m.body|] == m.body;
    assert s[HEADER_SIZE + |m.body|..] == tail;
  }

  /** Whole encodings at the front of a stream decode to themselves and leave the rest as it was. */
  lemma {:induction false} DecodeEncodings(alloc: Allocator, ms: seq<Message>, tail: seq<byte>)
    requires AllAccepted(alloc, ms)
    ensures Decode(alloc, EncodeAll(ms) + tail) == Decode(alloc, tail).After(ms)
  {
    hide Encode, Announced;
    if ms == [] {
      assert EncodeAll(ms) + tail == tail;
    } else {
      DecodeEncodings(alloc, ms[1..], tail);
      var rest := EncodeAll(ms[1..]) + tail;
      assert Accepted(alloc, ms[0]);
      DecodeOne(alloc, ms[0], rest);
      assert EncodeAll(ms) + tail == Encode(ms[0]) + rest;
      AfterTwice(Decode(alloc, EncodeAll(ms) + tail), [ms[0]], ms[1..], Decode(alloc, tail));
      assert [ms[0]] + ms[1..] == ms;
    }
  }

  /** A stream that holds a whole first message starts with that message's encoding. */
  lemma FirstMessage(s: seq<byte>)
    requires HEADER_SIZE <= |s| && HEADER_SIZE + Announced(s) <= |s|
    ensures Encode(Message(s[0], s[HEADER_SIZE..HEADER_SIZE + Announced(s)])) == s[..HEADER_SIZE + Announced(s)]
  {
    HeaderOf(s);
  }

  /** Conservation: what was decoded, encoded again, is what was read, up to the bytes still held;
      nothing held is a whole message. After a refusal the stream starts with the same bytes. */
  lemma {:induction false} DecodeConserves(alloc: Allocator, s: seq<byte>)
    ensures var d := Decode(alloc, s);
      && AllAccepted(alloc, d.msgs)
      && (d.ok ==> EncodeAll(d.msgs) + d.rest == s && Incomplete(alloc, d.rest))
      && (!d.ok ==> EncodeAll(d.msgs) + d.rest <= s && Refused(alloc, d.rest))
    decreases |s|
  {
    hide ToNetwork, FromNetwork;
    if |s| < HEADER_SIZE {
      assert EncodeAll([]) + s == s;
    } else if Announced(s) > 0 && !alloc(Announced(s)) {
      assert s[..HEADER_SIZE][1..HEADER_SIZE] == s[1..HEADER_SIZE];
      assert EncodeAll([]) + s[..HEADER_SIZE] == s[..HEADER_SIZE];
    } else if |s| < HEADER_SIZE + Announced(s) {
      assert EncodeAll([]) + s == s;
    } else {
      var size := HEADER_SIZE + Announced(s);
      var m := Message(s[0], s[HEADER_SIZE..size]);
      FirstMessage(s);
      DecodeConserves(alloc, s[size..]);
      var d := Decode(alloc, s[size..]);
      assert Decode(alloc, s) == d.After([m]);
      ConservesOne(alloc, m, d.msgs, d.rest, s[size..]);
      assert s == Encode(m) + s[size..];
    }
  }

  lemma ConservesOne(alloc: Allocator, m: Message, ms: seq<Message>, r: seq<byte>, s: seq<byte>)
    requires Accepted(alloc, m) && AllAccepted(alloc, ms)
    requires EncodeAll(ms) + r <= s
    ensures AllAccepted(alloc, [m] + ms)
    ensures EncodeAll([m] + ms) + r <= Encode(m) + s
    ensures EncodeAll(ms) + r == s ==> EncodeAll([m] + ms) + r == Encode(m) + s
  {
    assert ([m] + ms)[1..] == ms;
    assert EncodeAll([m] + ms) + r == Encode(m) + (EncodeAll(ms) + r);
  }

  /** Uniqueness: the split that `DecodeConserves` describes is the only one, so decoding is
      determined by it in both directions. */
  lemma DecodeIsTheOnlySplit(alloc: Allocator, s: seq<byte>, ms: seq<Message>, r: seq<byte>)
    requires AllAccepted(alloc, ms)
    ensures Decode(alloc, s) == Decoded(ms, r, true)
            <==> (s == EncodeAll(ms) + r && Incomplete(alloc, r))
  {
    DecodeConserves(alloc, s);
    if s == EncodeAll(ms) + r && Incomplete(alloc, r) {
      DecodeEncodings(alloc, ms, r);
      assert ms + [] == ms;
    }
  }

  lemma DecodeRefused(alloc: Allocator, h: seq<byte>, tail: seq<byte>)
    requires Refused(alloc, h)
    ensures Decode(alloc, h + tail) == Decoded([], h, false)
  {
    assert (h + tail)[1..HEADER_SIZE] == h[1..HEADER_SIZE];
    assert (h + tail)[..HEADER_SIZE] == h;
  }

  /** Cutting a stream in two changes nothing: the second piece continues from what the first left. */
  lemma DecodeContinues(alloc: Allocator, a: seq<byte>, b: seq<byte>)
    ensures var d := Decode(alloc, a);
      Decode(alloc, a + b) == if d.ok then Decode(alloc, d.rest + b).After(d.msgs) else d
  {
    hide EncodeAll, Decode, AllAccepted, Incomplete, Announced;
    var d := Decode(alloc, a);
    DecodeConserves(alloc, a);
    if d.ok {
      assert a + b == EncodeAll(d.msgs) + (d.rest + b);
      DecodeEncodings(alloc, d.msgs, d.rest + b);
    } else {
      var tail := a[|EncodeAll(d.msgs) + d.rest|..];
      assert a + b == EncodeAll(d.msgs) + (d.rest + (tail + b));
      DecodeEncodings(alloc, d.msgs, d.rest + (tail + b));
      DecodeRefused(alloc, d.rest, tail + b);
      assert d.msgs + [] == d.msgs;
    }
  }

  /** Calls made one after another, each on one piece of the stream, up to the first failure. */
  function Feed(alloc: Allocator, held: seq<byte>, pieces: seq<seq<byte>>): Decoded
    decreases |pieces|
  {
    if pieces == [] then Decoded([], held, true)
    else
      var d := Decode(alloc, held + pieces[0]);
      if d.ok then Feed(alloc, d.rest, pieces[1..]).After(d.msgs) else d
  }

  /** Fragmentation independence: any way of cutting a stream gives the messages, the held bytes and
      the verdict of reading it in one piece. */
  lemma {:induction false} FragmentationIndependence(alloc: Allocator, held: seq<byte>, pieces: seq<seq<byte>>)
    requires Incomplete(alloc, held)
    ensures Feed(alloc, held, pieces) == Decode(alloc, held + Flatten(pieces))
    decreases |pieces|
  {
    if pieces == [] {
      assert held + Flatten(pieces) == held;
    } else {
      var first := held + pieces[0];
      var d := Decode(alloc, first);
      assert held + Flatten(pieces) == first + Flatten(pieces[1..]);
      DecodeContinues(alloc, first, Flatten(pieces[1..]));
      DecodeConserves(alloc, first);
      if d.ok {
        FragmentationIndependence(alloc, d.rest, pieces[1..]);
      }
    }
  }

  /** The same point of first failure: a refused stream fails exactly when the last byte of the
      refused header has been fed, however it is cut. */
  lemma FailureOffset(alloc: Allocator, s: seq<byte>, k: nat)
    requires !Decode(alloc, s).ok && k <= |s|
    ensures Decode(alloc, s[..k]).ok <==> k < |EncodeAll(Decode(alloc, s).msgs)| + HEADER_SIZE
  {
    hide EncodeAll, Decode, AllAccepted, Incomplete, Announced;
    var d, e := Decode(alloc, s), Decode(alloc, s[..k]);
    DecodeConserves(alloc, s);
    DecodeConserves(alloc, s[..k]);
    var whole := EncodeAll(d.msgs) + d.rest;
    if k < |whole| {
      if !e.ok {
        assert s == s[..k] + s[k..];
        DecodeContinues(alloc, s[..k], s[k..]);
        assert false;
      }
    } else {
      FailsFrom(alloc, d.msgs, d.rest, s[|whole|..k]);
      assert s[..k] == whole + s[|whole|..k];
    }
  }

  lemma FailsFrom(alloc: Allocator, ms: seq<Message>, h: seq<byte>, tail: seq<byte>)
    requires AllAccepted(alloc, ms) && Refused(alloc, h)
    ensures Decode(alloc, EncodeAll(ms) + h + tail) == Decoded(ms, h, false)
  {
    hide EncodeAll, Decode, AllAccepted, Announced;
    DecodeEncodings(alloc, ms, h + tail);
    DecodeRefused(alloc, h, tail);
    assert EncodeAll(ms) + h + tail == EncodeAll(ms) + (h + tail);
    assert ms + [] == ms;
  }

  /** Round trip: encodings cut anywhere decode to the messages and leave nothing behind. */
  lemma RoundTrip(alloc: Allocator, ms: seq<Message>, pieces: seq<seq<byte>>)
    requires AllAccepted(alloc, ms)
    requires Flatten(pieces) == EncodeAll(ms)
    ensures Feed(alloc, [], pieces) == Decoded(ms, [], true)
  {
    assert [] + Flatten(pieces) == EncodeAll(ms) + [];
    FragmentationIndependence(alloc, [], pieces);
    DecodeIsTheOnlySplit(alloc, EncodeAll(ms) + [], ms, []);
  }

  /** Only a payload needs memory: the first message of a stream is refused exactly when it has a payload for
      which there is none, and then its header alone is held. */
  lemma RefusalIsExact(alloc: Allocator, m: Message, tail: seq<byte>)
    requires m.Fits()
    ensures Decode(alloc, Encode(m) + tail)
         == if m.body == [] || alloc(|m.body|) then Decode(alloc, tail).After([m])
            else Decoded([], Encode(m)[..5], false)
  {
    if Accepted(alloc, m) {
      DecodeOne(alloc, m, tail);
    } else {
      HeaderAnnounces(m.kind, |m.body|, m.body + tail);
      assert Encode(m) + tail == Header(m.kind, |m.body|) + (m.body + tail);
      assert (Encode(m) + tail)[..HEADER_SIZE] == Encode(m)[..HEADER_SIZE];
    }
  }

  /** Four bytes of a length, the most significant first. */
  lemma BigEndian(n: nat)
    requires n < 0x1_0000_0000
    ensures var b := ToNetwork(n);
      b[0] as int * 0x100_0000 + b[1] as int * 0x1_0000 + b[2] as int * 0x100 + b[3] == n
  {
    NetworkRoundTrip(n);
  }

  /** The bytes of a message on the wire: the type, the length with its most significant byte first, the
      payload. */
  lemma WireFormat(m: Message)
    requires |m.body| < 0x1_0000_0000
    ensures m.Fits()
    ensures var e := Encode(m);
      && |e| == 5 + |m.body| && e[0] == m.kind && e[5..] == m.body
      && e[1] as int * 0x100_0000 + e[2] as int * 0x1_0000 + e[3] as int * 0x100 + e[4] == |m.body|
  {
    BigEndian(|m.body|);
    hide ToNetwork;
    assert Header(m.kind, |m.body|) == [m.kind] + ToNetwork(|m.body|);
  }

  /** And so a length is read. */
  lemma LengthFormat(s: seq<byte>)
    requires 5 <= |s|
    ensures Announced(s) == s[1] as int * 0x100_0000 + s[2] as int * 0x1_0000 + s[3] as int * 0x100 + s[4]
  {}
}
