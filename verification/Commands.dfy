/** Commands for the event loop, and to whom processing one writes a frame. */
module Commands {
  import opened Bytes
  import opened Framing
  import opened Transport
  import opened SlotTables

  /** An empty payload is stored as a null pointer. */
  datatype Command =
    | SendTo(target: int, kind: int, payload: seq<byte>)
    | Broadcast(kind: int, payload: seq<byte>, exclude: int)

  /** Whether the command has a frame at all: a null payload is refused, and so is one that does not
      fit the frame buffer. */
  predicate Framed(c: Command) {
    0 < |c.payload| <= MAX_PAYLOAD
  }

  /** The slots from `i` on, in order, that the broadcast loop writes to. */
  function BroadcastFrom(t: Table, exclude: int, i: nat): seq<int>
    requires t.Shape() && i <= t.MaxClients()
    decreases t.MaxClients() - i
  {
    if i == t.MaxClients() then []
    else
      var fd := t.pollFd[i];
      (if fd < 0 || fd == exclude || !t.IsValidClient(fd) then [] else [fd]) + BroadcastFrom(t, exclude, i + 1)
  }

  /** The descriptors a command writes its frame to, in order. */
  function Recipients(t: Table, c: Command): seq<int>
    requires t.Shape()
  {
    match c
    case SendTo(target, _, _) => if t.IsValidClient(target) then [target] else []
    case Broadcast(_, _, exclude) => BroadcastFrom(t, exclude, 0)
  }

  /** Whom the command is meant for. */
  predicate Addresses(c: Command, fd: int) {
    match c
    case SendTo(target, _, _) => fd == target
    case Broadcast(_, _, exclude) => fd != exclude
  }

  predicate NoDuplicates(s: seq<int>) {
    forall i, j | 0 <= i < j < |s| :: s[i] != s[j]
  }

  lemma ConsNoDuplicates(first: int, rest: seq<int>)
    requires NoDuplicates(rest)
    ensures first !in rest ==> NoDuplicates([first] + rest)
    ensures [] + rest == rest
  {
    if first !in rest {
      forall i, j | 0 <= i < j < |[first] + rest| ensures ([first] + rest)[i] != ([first] + rest)[j] {
        assert ([first] + rest)[j] == rest[j - 1] && rest[j - 1] in rest;
        assert i == 0 || ([first] + rest)[i] == rest[i - 1];
      }
    }
  }

  lemma {:induction false} BroadcastFromIsExact(t: Table, exclude: int, i: nat)
    requires t.Agrees() && i <= t.MaxClients()
    ensures forall fd :: fd in BroadcastFrom(t, exclude, i) <==> (fd in InUse(t.pollFd[i..]) && fd != exclude)
    ensures NoDuplicates(BroadcastFrom(t, exclude, i))
    decreases t.MaxClients() - i
  {
    if i < t.MaxClients() {
      var fd := t.pollFd[i];
      BroadcastFromIsExact(t, exclude, i + 1);
      assert t.pollFd[i..] == [fd] + t.pollFd[i + 1..];
      assert t.SlotAgrees(i);
      LookupIsExact(t, fd);
      assert fd == FREE || fd !in t.pollFd[i + 1..];
      ConsNoDuplicates(fd, BroadcastFrom(t, exclude, i + 1));
    }
  }

  /** Delivery is exact: one frame for every connected descriptor that the command addresses, none
      for any other descriptor. */
  lemma RecipientsAreExact(t: Table, c: Command)
    requires t.Agrees()
    ensures forall fd :: fd in Recipients(t, c) <==> (fd in t.Connected() && Addresses(c, fd))
    ensures NoDuplicates(Recipients(t, c))
  {
    match c
    case SendTo(target, _, _) =>
      LookupIsExact(t, target);
    case Broadcast(_, _, exclude) =>
      BroadcastFromIsExact(t, exclude, 0);
      assert t.pollFd[0..] == t.pollFd;
  }

  /** What one command leaves on a connection at descriptor `fd`. */
  function MessageFor(t: Table, c: Command, fd: int): seq<Message>
    requires t.Shape()
  {
    if Framed(c) && t.IsValidClient(fd) && Addresses(c, fd) then [OnWire(c.kind, c.payload)] else []
  }

  /** What commands leave on a connection at descriptor `fd`, while the tables stay as they are. */
  function MessagesFor(t: Table, cs: seq<Command>, fd: int): seq<Message>
    requires t.Shape()
  {
    if cs == [] then [] else MessageFor(t, cs[0], fd) + MessagesFor(t, cs[1..], fd)
  }

  lemma {:induction false} MessagesForSnoc(t: Table, cs: seq<Command>, c: Command, fd: int)
    requires t.Shape()
    ensures MessagesFor(t, cs + [c], fd) == MessagesFor(t, cs, fd) + MessageFor(t, c, fd)
  {
    hide MessageFor;
    if cs == [] {
      assert cs + [c] == [c];
    } else {
      assert (cs + [c])[1..] == cs[1..] + [c];
      MessagesForSnoc(t, cs[1..], c, fd);
      assert MessageFor(t, cs[0], fd) + (MessagesFor(t, cs[1..], fd) + MessageFor(t, c, fd))
          == MessagesFor(t, cs, fd) + MessageFor(t, c, fd);
    }
  }

  type Wires = map<int, seq<byte>>

  /** What processing commands does to the open sockets: a healthy connection gets its messages whole
      and in order, a broken one perhaps a part of them, and every other socket stays as it was. */
  ghost predicate Delivered(t: Table, cs: seq<Command>, broken: set<int>, before: Wires, after: Wires)
    requires t.Shape()
  {
    && after.Keys == before.Keys
    && forall fd | fd in before ::
         && before[fd] <= after[fd]
         && (fd !in broken ==> after[fd] == before[fd] + EncodeAll(MessagesFor(t, cs, fd)))
         && (!t.IsValidClient(fd) ==> after[fd] == before[fd])
  }

  lemma DeliveredNothing(t: Table, broken: set<int>, wires: Wires)
    requires t.Shape()
    ensures Delivered(t, [], broken, wires, wires)
  {
    forall fd | fd in wires ensures wires[fd] == wires[fd] + EncodeAll(MessagesFor(t, [], fd)) {}
  }

  lemma MessagesForOne(t: Table, c: Command, fd: int)
    requires t.Shape()
    ensures MessagesFor(t, [c], fd) == MessageFor(t, c, fd)
  {
    assert [c][1..] == [];
    assert MessageFor(t, c, fd) + [] == MessageFor(t, c, fd);
  }

  lemma EncodedSnoc(t: Table, cs: seq<Command>, c: Command, fd: int, wire: seq<byte>)
    requires t.Shape()
    ensures wire + EncodeAll(MessagesFor(t, cs, fd)) + EncodeAll(MessagesFor(t, [c], fd))
         == wire + EncodeAll(MessagesFor(t, cs + [c], fd))
  {
    hide MessagesFor, MessageFor, EncodeAll;
    MessagesForOne(t, c, fd);
    MessagesForSnoc(t, cs, c, fd);
    var first, last := EncodeAll(MessagesFor(t, cs, fd)), EncodeAll(MessageFor(t, c, fd));
    EncodeAllAppend(MessagesFor(t, cs, fd), MessageFor(t, c, fd));
    assert wire + first + last == wire + (first + last);
  }

  lemma DeliveredSnoc(t: Table, cs: seq<Command>, c: Command, broken: set<int>, a: Wires, b: Wires, d: Wires)
    requires t.Shape()
    requires Delivered(t, cs, broken, a, b) && Delivered(t, [c], broken, b, d)
    ensures Delivered(t, cs + [c], broken, a, d)
  {
    hide MessagesFor, EncodeAll;
    forall fd | fd in a
      ensures a[fd] <= d[fd] && (fd !in broken ==> d[fd] == a[fd] + EncodeAll(MessagesFor(t, cs + [c], fd)))
    {
      EncodedSnoc(t, cs, c, fd, a[fd]);
    }
  }

  /** Delivery in plain terms: a healthy socket grows by the frame of the command if it belongs to a client,
      the command is meant for it and has 1 to 4091 bytes of payload, and stays as it is otherwise. Nothing
      is taken back from any socket, and nothing written where no client is. */
  lemma DeliveryMeans(t: Table, c: Command, broken: set<int>, before: Wires, after: Wires, fd: int)
    requires t.Agrees() && Delivered(t, [c], broken, before, after) && fd in before
    ensures fd in after && before[fd] <= after[fd]
    ensures fd !in t.Connected() ==> after[fd] == before[fd]
    ensures fd !in broken ==>
      var meant := match c
            case SendTo(target, _, _) => fd == target
            case Broadcast(_, _, exclude) => fd != exclude;
      after[fd] == before[fd] + if fd in t.Connected() && meant && 1 <= |c.payload| <= 4091
                                then Encode(Message(c.kind % 256, c.payload)) else []
  {
    LookupIsExact(t, fd);
    MessagesForOne(t, c, fd);
    var m := Message(c.kind % 256, c.payload);
    assert EncodeAll([m]) == Encode(m);
  }
}
