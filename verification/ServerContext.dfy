/** The server's tables in memory, and the operations of the event loop on them. */
module ServerContexts {
  import opened Wrappers
  import opened Bytes
  import opened Framing
  import opened StreamParsing
  import opened Transport
  import opened SlotTables
  import opened Commands
  import opened CommandQueues

  /** Poll entries 0, 1 and 2 are the listening socket, the shutdown pipe and the command pipe. */
  const FIRST_CLIENT: nat := 3

  /** What poll and `recv` report for a client. */
  datatype Readiness = Received(bytes: seq<byte>) | Closed | Failed | OtherEvent

  function NonNull(parsers: seq<StreamParser?>): seq<bool> {
    seq(|parsers|, i requires 0 <= i < |parsers| => parsers[i] != null)
  }

  class ServerContext {
    const maxClients: nat
    const pollers: array<int>
    const clientSocket: array<int>
    const clientParser: array<StreamParser?>
    const clientMap: array<int>
    var clientCount: int
    const commandQueue: CommandQueue<Command>
    const net: Network

    ghost predicate Shaped()
      reads this
    {
      && pollers.Length == maxClients + FIRST_CLIENT
      && clientSocket.Length == clientParser.Length == maxClients
      && clientMap.Length == MAX_FD_LIMIT
      && pollers != clientSocket && pollers != clientMap && clientSocket != clientMap
    }

    ghost function View(): Table
      requires Shaped()
      reads this, pollers, clientSocket, clientParser, clientMap
    {
      Table(pollers[FIRST_CLIENT..], clientSocket[..], NonNull(clientParser[..]), clientMap[..], clientCount)
    }

    ghost predicate Valid()
      reads this, pollers, clientSocket, clientParser, clientMap
    {
      Shaped() && View().Agrees()
    }

    constructor (maxClients: nat, net: Network)
      requires 0 < maxClients
      ensures Valid() && View() == Empty(maxClients) && this.net == net && pollers.Length == maxClients + 3
      ensures commandQueue.Valid() && commandQueue.contents == []
      ensures fresh(pollers) && fresh(clientSocket) && fresh(clientParser) && fresh(clientMap) && fresh(commandQueue)
    {
      this.maxClients := maxClients;
      this.net := net;
      pollers := new int[maxClients + FIRST_CLIENT](_ => FREE);
      clientSocket := new int[maxClients](_ => 0);
      clientParser := new StreamParser?[maxClients](_ => null);
      clientMap := new int[MAX_FD_LIMIT](_ => NO_SLOT);
      clientCount := 0;
      commandQueue := new CommandQueue();
      new;
      EmptyAgrees(maxClients);
      assert View().hasParser == Empty(maxClients).hasParser;
      assert View() == Empty(maxClients);
    }

    /** The first-fit scan over the poll entries. */
    method FindFreePoller() returns (pollerIndex: int)
      requires Shaped()
      ensures pollerIndex == -1 <==> FirstFree(pollers[FIRST_CLIENT..], 0) == FREE
      ensures pollerIndex != -1 ==> pollerIndex == FirstFree(pollers[FIRST_CLIENT..], 0) + FIRST_CLIENT
    {
      pollerIndex := -1;
      ghost var fds := pollers[FIRST_CLIENT..];
      for i := FIRST_CLIENT to maxClients + FIRST_CLIENT
        invariant pollerIndex == -1
        invariant FirstFree(fds, 0) == FirstFree(fds, i - FIRST_CLIENT)
      {
        assert fds[i - FIRST_CLIENT] == pollers[i];
        if pollers[i] == FREE {
          pollerIndex := i;
          break;
        }
      }
    }

    /** Writes a new client into a free slot, or takes it back when it gets no parser. */
    method FillSlot(pollerIndex: nat, fd: nat, parserAllocated: bool) returns (admitted: bool)
      requires Shaped() && FIRST_CLIENT <= pollerIndex < pollers.Length && fd < MAX_FD_LIMIT
      requires pollers[pollerIndex] == FREE && clientParser[pollerIndex - FIRST_CLIENT] == null
      modifies this, pollers, clientSocket, clientParser, clientMap
      ensures admitted == parserAllocated
      ensures pollers[pollerIndex] == if admitted then fd else FREE
      ensures !admitted ==> clientParser[pollerIndex - FIRST_CLIENT] == null
      ensures forall i | 0 <= i < pollers.Length && i != pollerIndex :: pollers[i] == old(pollers[i])
      ensures var t, slot := old(View()), pollerIndex - FIRST_CLIENT;
        View() == if admitted
                  then Table(t.pollFd[slot := fd], t.socketFd[slot := fd], t.hasParser[slot := true],
                             t.clientMap[fd := slot], t.clientCount + 1)
                  else t.(socketFd := t.socketFd[slot := fd], hasParser := t.hasParser[slot := false])
      ensures forall i | 0 <= i < maxClients && i != pollerIndex - FIRST_CLIENT ::
                clientParser[i] == old(clientParser[i])
      ensures admitted ==>
                var parser := clientParser[pollerIndex - FIRST_CLIENT];
                parser != null && fresh(parser) && fresh(parser.Repr()) && parser.Valid() && parser.Held() == []
    {
      pollers[pollerIndex] := fd;
      var clientIndex := pollerIndex - FIRST_CLIENT;
      clientSocket[clientIndex] := fd;
      if !parserAllocated {
        clientParser[clientIndex] := null;
        pollers[pollerIndex] := FREE;
        return false;
      }
      var parser := new StreamParser();
      clientParser[clientIndex] := parser;
      clientCount := clientCount + 1;
      clientMap[fd] := clientIndex;
      return true;
    }

    lemma FreeEntries()
      requires Valid() && clientCount < maxClients
      ensures FREE in View().pollFd
      ensures forall i | FIRST_CLIENT <= i < pollers.Length && pollers[i] == FREE ::
                clientParser[i - FIRST_CLIENT] == null
    {
      Pigeonhole(View().pollFd);
      forall i | FIRST_CLIENT <= i < pollers.Length && pollers[i] == FREE
        ensures clientParser[i - FIRST_CLIENT] == null
      {
        assert View().SlotAgrees(i - FIRST_CLIENT);
      }
    }

    /** The capacity check has passed: the client gets a slot, and a parser if there is memory for it. */
    method AdmitClient(fd: nat, parserAllocated: bool) returns (outcome: AddOutcome)
      requires Shaped() && fd < MAX_FD_LIMIT && clientCount < maxClients && FREE in View().pollFd
      requires forall i | FIRST_CLIENT <= i < pollers.Length && pollers[i] == FREE ::
                 clientParser[i - FIRST_CLIENT] == null
      modifies this, pollers, clientSocket, clientParser, clientMap, net
      ensures (View(), outcome) == Add(old(View()), fd, parserAllocated)
      ensures net.wire == if outcome.Added? then old(net.wire) else old(net.wire) - {fd}
      ensures forall i | 0 <= i < maxClients && outcome != Added(i) ::
                clientParser[i] == old(clientParser[i]) && pollers[i + FIRST_CLIENT] == old(pollers[i + FIRST_CLIENT])
      ensures outcome.Added? ==>
                var parser := clientParser[outcome.slot];
                && outcome.slot < maxClients && pollers[outcome.slot + FIRST_CLIENT] == fd
                && old(clientParser[outcome.slot]) == null
                && parser != null && fresh(parser) && fresh(parser.Repr()) && parser.Valid() && parser.Held() == []
    {
      hide NonNull;
      assert View().pollFd[0..] == View().pollFd;
      var pollerIndex := FindFreePoller();
      if pollerIndex == -1 {
        // Never taken: an entry is free.
        assert false;
      }
      var admitted := FillSlot(pollerIndex, fd, parserAllocated);
      if !admitted {
        net.Close(fd);
        return NoParser;
      }
      return Added(pollerIndex - FIRST_CLIENT);
    }

    /** `accept` returned `fd`. A client that is not admitted is closed again. */
    method AddClient(fd: int, parserAllocated: bool) returns (outcome: AddOutcome)
      requires Valid() && View().Connected() <= net.wire.Keys
      requires 0 <= fd ==> fd in net.wire && fd !in View().Connected()
      modifies this, pollers, clientSocket, clientParser, clientMap, net
      ensures Valid() && View().Connected() <= net.wire.Keys
      ensures (View(), outcome) == Add(old(View()), fd, parserAllocated)
      ensures outcome != NoFreeSlot
      ensures net.wire == if fd < 0 || outcome.Added? then old(net.wire) else old(net.wire) - {fd}
      ensures forall i | 0 <= i < maxClients && outcome != Added(i) ::
                clientParser[i] == old(clientParser[i]) && pollers[i + FIRST_CLIENT] == old(pollers[i + FIRST_CLIENT])
      ensures outcome.Added? ==>
                var parser := clientParser[outcome.slot];
                && outcome.slot < maxClients && pollers[outcome.slot + FIRST_CLIENT] == fd
                && old(clientParser[outcome.slot]) == null
                && parser != null && fresh(parser) && fresh(parser.Repr()) && parser.Valid() && parser.Held() == []
    {
      AddKeepsAgreement(View(), fd, parserAllocated);
      hide Table.Agrees, NonNull, InUse, FirstFree;
      if fd < 0 {
        return AcceptFailed;
      }
      if MAX_FD_LIMIT <= fd {
        net.Close(fd);
        return FdTooBig;
      }
      if maxClients <= clientCount {
        net.Close(fd);
        return Full;
      }
      FreeEntries();
      outcome := AdmitClient(fd, parserAllocated);
    }

    /** Forgets the client of a poll entry and closes its socket. */
    method RemoveClient(pollerIndex: nat)
      requires Valid() && FIRST_CLIENT <= pollerIndex < pollers.Length
      modifies this, pollers, clientSocket, clientParser, clientMap, net
      ensures Valid()
      ensures View() == Remove(old(View()), pollerIndex - FIRST_CLIENT)
      ensures View().Connected() == old(View().Connected()) - {old(pollers[pollerIndex])}
      ensures net.wire == if old(pollers[pollerIndex]) < 0 then old(net.wire)
                          else old(net.wire) - {old(pollers[pollerIndex])}
      ensures forall i | 0 <= i < maxClients && i != pollerIndex - FIRST_CLIENT ::
                clientParser[i] == old(clientParser[i]) && pollers[i + FIRST_CLIENT] == old(pollers[i + FIRST_CLIENT])
      ensures clientParser[pollerIndex - FIRST_CLIENT] == null && pollers[pollerIndex] == FREE
    {
      ghost var before := View();
      var clientFd := pollers[pollerIndex];
      var slot := pollerIndex - FIRST_CLIENT;
      assert before.pollFd[slot] == clientFd && before.SlotAgrees(slot);
      if clientFd < 0 {
        return;
      }
      RemoveKeepsAgreement(before, slot);
      hide Table.Agrees, InUse, Occupied;
      if clientFd < MAX_FD_LIMIT {
        clientMap[clientFd] := NO_SLOT;
      }
      pollers[pollerIndex] := FREE;
      clientParser[slot] := null;
      clientSocket[slot] := 0;
      clientCount := clientCount - 1;
      net.Close(clientFd);
      assert View() == Remove(before, slot);
    }

    /** Whether the lookup in front of a send succeeds. */
    method IsValidClient(clientFd: int) returns (valid: bool)
      requires Shaped()
      ensures valid <==> View().IsValidClient(clientFd)
    {
      if clientFd < 0 || MAX_FD_LIMIT <= clientFd {
        return false;
      }
      return clientMap[clientFd] != NO_SLOT;
    }

    /** Frames and sends one command's payload to one descriptor. */
    method SendFrame(clientFd: int, c: Command) returns (sentLen: nat)
      modifies net
      ensures clientFd < 0 || !Framed(c) || clientFd !in old(net.wire) ==> net.wire == old(net.wire)
      ensures 0 <= clientFd && Framed(c) && clientFd in old(net.wire) ==>
                var frame := Encode(OnWire(c.kind, c.payload));
                && sentLen <= |frame| && (clientFd !in net.broken ==> sentLen == |frame|)
                && net.wire == old(net.wire)[clientFd := old(net.wire)[clientFd] + frame[..sentLen]]
    {
      if clientFd < 0 || c.payload == [] || OBJECT_MAX < |c.payload| {
        return 0;
      }
      var payload := new byte[|c.payload|](i requires 0 <= i < |c.payload| => c.payload[i]);
      assert payload[..|c.payload|] == c.payload;
      sentLen := net.SendPayload(clientFd, c.kind, payload, |c.payload|);
    }

    /** The sockets after the broadcast loop has passed the entries `fds`. */
    ghost predicate SentTo(c: Command, fds: seq<int>, before: Wires, after: Wires)
    {
      && after.Keys == before.Keys
      && forall fd | fd in before ::
           if fd in fds && fd != FREE && Addresses(c, fd) && Framed(c)
           then before[fd] <= after[fd]
             && (fd !in net.broken ==> after[fd] == before[fd] + Encode(OnWire(c.kind, c.payload)))
           else after[fd] == before[fd]
    }

    lemma SentToAll(c: Command, before: Wires, after: Wires)
      requires Valid() && SentTo(c, View().pollFd, before, after)
      ensures Delivered(View(), [c], net.broken, before, after)
    {
      forall fd | fd in before
        ensures before[fd] <= after[fd] && (!View().IsValidClient(fd) ==> after[fd] == before[fd])
        ensures fd !in net.broken ==> after[fd] == before[fd] + EncodeAll(MessagesFor(View(), [c], fd))
      {
        LookupIsExact(View(), fd);
        MessagesForOne(View(), c, fd);
      }
    }

    lemma SentToSnoc(c: Command, fds: seq<int>, fd: int, a: Wires, b: Wires, d: Wires)
      requires SentTo(c, fds, a, b) && SentTo(c, [fd], b, d)
      requires fd == FREE || fd !in fds
      ensures SentTo(c, fds + [fd], a, d)
    {
      hide Encode;
      assert forall x :: x in fds + [fd] <==> x in fds || x == fd;
    }

    method BroadcastToEntry(pollerIndex: nat, c: Command)
      requires Valid() && c.Broadcast? && FIRST_CLIENT <= pollerIndex < pollers.Length
      requires pollers[pollerIndex] == FREE || pollers[pollerIndex] in net.wire
      modifies net
      ensures SentTo(c, [pollers[pollerIndex]], old(net.wire), net.wire)
    {
      hide Encode;
      var clientFd := pollers[pollerIndex];
      assert View().pollFd[pollerIndex - FIRST_CLIENT] == clientFd;
      assert View().SlotAgrees(pollerIndex - FIRST_CLIENT);
      if clientFd < 0 || clientFd == c.exclude {
        return;
      }
      var valid := IsValidClient(clientFd);
      if valid {
        ghost var frame := Encode(OnWire(c.kind, c.payload));
        var sentLen := SendFrame(clientFd, c);
        assert sentLen == |frame| ==> frame[..sentLen] == frame;
      }
    }

    method BroadcastFrame(c: Command)
      requires Valid() && View().Connected() <= net.wire.Keys && c.Broadcast?
      modifies net
      ensures SentTo(c, View().pollFd, old(net.wire), net.wire)
    {
      hide SentTo;
      ghost var fds, before := View().pollFd, net.wire;
      LookupIsExact(View(), FREE);
      SentToNobody(c, before);
      for i := FIRST_CLIENT to maxClients + FIRST_CLIENT
        invariant SentTo(c, fds[..i - FIRST_CLIENT], before, net.wire) && net.wire.Keys == before.Keys
      {
        ghost var k, wires := i - FIRST_CLIENT, net.wire;
        assert fds[k] == pollers[i] && fds[..k + 1] == fds[..k] + [fds[k]];
        assert fds[k] in InUse(fds) || fds[k] == FREE;
        BroadcastToEntry(i, c);
        SentToSnoc(c, fds[..k], fds[k], before, wires, net.wire);
        SentToKeys(c, fds[..k + 1], before, net.wire);
      }
      assert fds[..maxClients] == fds;
    }

    lemma SentToNobody(c: Command, wires: Wires)
      ensures SentTo(c, [], wires, wires)
    {}

    lemma SentToKeys(c: Command, fds: seq<int>, before: Wires, after: Wires)
      requires SentTo(c, fds, before, after)
      ensures after.Keys == before.Keys
    {}

    /** One command, to its target or to every slot. */
    method ProcessCommand(c: Command)
      requires Valid() && View().Connected() <= net.wire.Keys
      modifies net
      ensures net.wire.Keys == old(net.wire).Keys
      ensures Delivered(View(), [c], net.broken, old(net.wire), net.wire)
    {
      match c {
        case SendTo(target, _, _) =>
          var valid := IsValidClient(target);
          if valid {
            var sentLen := SendFrame(target, c);
          }
          SentToOne(c, old(net.wire), net.wire);
        case Broadcast(_, _, _) =>
          BroadcastFrame(c);
          SentToAll(c, old(net.wire), net.wire);
      }
    }

    lemma SentToOne(c: Command, before: Wires, after: Wires)
      requires Valid() && c.SendTo? && after.Keys == before.Keys
      requires forall fd | fd in before && fd != c.target :: after[fd] == before[fd]
      requires c.target in before ==>
                 if View().IsValidClient(c.target) && Framed(c)
                 then before[c.target] <= after[c.target]
                   && (c.target !in net.broken ==>
                         after[c.target] == before[c.target] + Encode(OnWire(c.kind, c.payload)))
                 else after[c.target] == before[c.target]
      ensures Delivered(View(), [c], net.broken, before, after)
    {
      forall fd | fd in before
        ensures before[fd] <= after[fd] && (!View().IsValidClient(fd) ==> after[fd] == before[fd])
        ensures fd !in net.broken ==> after[fd] == before[fd] + EncodeAll(MessagesFor(View(), [c], fd))
      {
        MessagesForOne(View(), c, fd);
      }
    }

    /** Takes the first command off the queue and processes it. */
    method ProcessNext() returns (cmd: Command)
      requires Valid() && View().Connected() <= net.wire.Keys
      requires commandQueue.Valid() && commandQueue.contents != [] && commandQueue.contents[0].Some?
      modifies net, commandQueue, commandQueue.fakeHead
      ensures commandQueue.Valid() && commandQueue.fakeHead == old(commandQueue.fakeHead)
      ensures old(commandQueue.contents) == [Some(cmd)] + commandQueue.contents
      ensures net.wire.Keys == old(net.wire).Keys
      ensures Delivered(View(), [cmd], net.broken, old(net.wire), net.wire)
    {
      var datum := commandQueue.Pop();
      cmd := datum.value;
      ProcessCommand(cmd);
    }

    /** Empties the queue. Every command is popped, processed and destroyed once, in queue order, and
        each healthy connection gets exactly the frames addressed to it, in that order.
        (No command arrives meanwhile; the event loop's step relation covers that.) */
    method ProcessCommands() returns (destroyed: seq<Command>)
      requires Valid() && View().Connected() <= net.wire.Keys
      requires commandQueue.Valid() && (forall c <- commandQueue.contents :: c.Some?)
      modifies net, commandQueue, commandQueue.fakeHead
      ensures commandQueue.Valid() && commandQueue.contents == []
      ensures destroyed == Present(old(commandQueue.contents))
      ensures Delivered(View(), destroyed, net.broken, old(net.wire), net.wire)
    {
      ghost var t := View();
      assert t.Shape();
      hide Delivered, View, InUse, Table.Agrees, CommandQueue.Valid;
      destroyed := [];
      DeliveredNothing(t, net.broken, net.wire);
      ghost var before := net.wire;
      var empty := commandQueue.IsEmpty();
      while !empty
        invariant commandQueue.Valid() && commandQueue.fakeHead == old(commandQueue.fakeHead)
        invariant forall c <- commandQueue.contents :: c.Some?
        invariant empty <==> commandQueue.contents == []
        invariant net.wire.Keys == before.Keys
        invariant Present(old(commandQueue.contents)) == destroyed + Present(commandQueue.contents)
        invariant Delivered(t, destroyed, net.broken, before, net.wire)
        decreases |commandQueue.contents|
      {
        ghost var wires := net.wire;
        var cmd := ProcessNext();
        DeliveredSnoc(t, destroyed, cmd, net.broken, before, wires, net.wire);
        assert destroyed + ([cmd] + Present(commandQueue.contents))
            == destroyed + [cmd] + Present(commandQueue.contents);
        destroyed := destroyed + [cmd];
        empty := commandQueue.IsEmpty();
      }
    }

    lemma ConnectedAt(pollerIndex: nat)
      requires Valid() && FIRST_CLIENT <= pollerIndex < pollers.Length && pollers[pollerIndex] != FREE
      ensures 0 <= pollers[pollerIndex] && pollers[pollerIndex] in View().Connected()
    {
      assert View().pollFd[pollerIndex - FIRST_CLIENT] == pollers[pollerIndex];
      assert View().SlotAgrees(pollerIndex - FIRST_CLIENT);
    }

    /** Parses what arrived from a client, and drops it when that fails. */
    method ReceiveFrom(pollerIndex: nat, bytes: seq<byte>, alloc: Allocator) returns (delivered: seq<Message>)
      requires Valid() && FIRST_CLIENT <= pollerIndex < pollers.Length && pollers[pollerIndex] != FREE
      requires var parser := clientParser[pollerIndex - FIRST_CLIENT];
        && parser != null && parser.Valid() && Incomplete(alloc, parser.Held())
        && parser.Repr() !! OwnObjects()
      requires bytes != [] && View().Connected() <= net.wire.Keys
      modifies this, pollers, clientSocket, clientParser, clientMap, net
      modifies clientParser[pollerIndex - FIRST_CLIENT].Repr()
      ensures Valid()
      ensures var slot, d := pollerIndex - FIRST_CLIENT, Decode(alloc, old(HeldBy(pollerIndex - FIRST_CLIENT)) + bytes);
        && delivered == d.msgs
        && if d.ok
           then && View() == old(View()) && net.wire == old(net.wire)
                && clientParser[slot] == old(clientParser[slot]) && pollers[pollerIndex] == old(pollers[pollerIndex])
                && fresh(clientParser[slot].Repr() - old(clientParser[slot].Repr()))
                && clientParser[slot].Valid() && Incomplete(alloc, HeldBy(slot)) && HeldBy(slot) == d.rest
           else && View() == Remove(old(View()), slot) && net.wire == old(net.wire) - {old(pollers[pollerIndex])}
                && View().Connected() == old(View().Connected()) - {old(pollers[pollerIndex])}
                && clientParser[slot] == null && pollers[pollerIndex] == FREE
      ensures forall i | 0 <= i < maxClients && i != pollerIndex - FIRST_CLIENT ::
                clientParser[i] == old(clientParser[i]) && pollers[i + FIRST_CLIENT] == old(pollers[i + FIRST_CLIENT])
    {
      ConnectedAt(pollerIndex);
      hide Decode, InUse, Table.Agrees, Incomplete, StreamParser.Valid, StreamParser.Held;
      var ok;
      ok, delivered := ReceiveOne(clientParser[pollerIndex - FIRST_CLIENT], bytes, alloc);
      if !ok {
        RemoveClient(pollerIndex);
      }
    }

    /** Handles what poll reported for a client: parse what arrived, or drop the connection. `disconnect`
        tells whether the disconnect callback ran; it does not after a parse failure. No other slot is
        touched. */
    method HandleClientData(pollerIndex: nat, ready: Readiness, alloc: Allocator)
      returns (delivered: seq<Message>, disconnect: bool)
      requires Valid() && FIRST_CLIENT <= pollerIndex < pollers.Length && pollers[pollerIndex] != FREE
      requires var parser := clientParser[pollerIndex - FIRST_CLIENT];
        && parser != null && parser.Valid() && Incomplete(alloc, parser.Held())
        && parser.Repr() !! OwnObjects()
      requires ready.Received? ==> ready.bytes != []
      requires View().Connected() <= net.wire.Keys
      modifies this, pollers, clientSocket, clientParser, clientMap, net
      modifies clientParser[pollerIndex - FIRST_CLIENT].Repr()
      ensures Valid() && View().Connected() <= net.wire.Keys
      ensures ClosesDropped(old(View()), View(), old(net.wire), net.wire)
      ensures delivered == if !ready.Received? then []
                           else Decode(alloc, old(HeldBy(pollerIndex - FIRST_CLIENT)) + ready.bytes).msgs
      ensures disconnect <==> ready.Closed? || ready.Failed?
      ensures pollers[pollerIndex] == FREE <==>
                || ready.Closed? || ready.Failed?
                || (ready.Received? && !Decode(alloc, old(HeldBy(pollerIndex - FIRST_CLIENT)) + ready.bytes).ok)
      ensures var slot := pollerIndex - FIRST_CLIENT;
        if Stays(ready, alloc, old(HeldBy(slot)))
        then && View() == old(View()) && net.wire == old(net.wire)
             && clientParser[slot] == old(clientParser[slot]) && pollers[pollerIndex] == old(pollers[pollerIndex])
             && fresh(clientParser[slot].Repr() - old(clientParser[slot].Repr()))
             && clientParser[slot].Valid() && Incomplete(alloc, HeldBy(slot))
             && HeldBy(slot) == if ready.Received? then Decode(alloc, old(HeldBy(slot)) + ready.bytes).rest
                                else old(HeldBy(slot))
        else && View() == Remove(old(View()), slot) && net.wire == old(net.wire) - {old(pollers[pollerIndex])}
             && clientParser[slot] == null && pollers[pollerIndex] == FREE
      ensures forall i | 0 <= i < maxClients && i != pollerIndex - FIRST_CLIENT ::
                clientParser[i] == old(clientParser[i]) && pollers[i + FIRST_CLIENT] == old(pollers[i + FIRST_CLIENT])
    {
      delivered, disconnect := [], false;
      ConnectedAt(pollerIndex);
      hide Decode, InUse;
      match ready {
        case Received(bytes) =>
          delivered := ReceiveFrom(pollerIndex, bytes, alloc);
        case Closed =>
          disconnect := true;
          RemoveClient(pollerIndex);
        case Failed =>
          disconnect := true;
          RemoveClient(pollerIndex);
        case OtherEvent =>
      }
    }

    /** What the server itself consists of, without the parsers. */
    ghost function OwnObjects(): set<object> {
      {this, pollers, clientSocket, clientParser, clientMap, net, commandQueue}
    }

    /** The bytes of an unfinished message that the parser of a slot holds. */
    ghost function HeldBy(slot: nat): seq<byte>
      requires slot < clientParser.Length && clientParser[slot] != null && clientParser[slot].Valid()
      reads clientParser, clientParser[slot], clientParser[slot].headerBuffer, clientParser[slot].Repr()
    {
      clientParser[slot].Held()
    }
  }

  /** The sockets that were closed are those of the connections that were dropped. */
  ghost predicate ClosesDropped(t: Table, u: Table, before: Wires, after: Wires) {
    u.Connected() <= t.Connected() && after == before - (t.Connected() - u.Connected())
  }

  /** Whether a connection survives what poll reported for it, given what its parser held. */
  predicate Stays(ready: Readiness, alloc: Allocator, held: seq<byte>) {
    match ready
    case Received(bytes) => Decode(alloc, held + bytes).ok
    case Closed => false
    case Failed => false
    case OtherEvent => true
  }
}
