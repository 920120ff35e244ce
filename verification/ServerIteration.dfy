/** The part of an iteration that serves the clients: every connection has its own parser, and what
    arrives on one never touches another. */
module ServerIterations {
  import opened Wrappers
  import opened Bytes
  import opened Framing
  import opened StreamParsing
  import opened Transport
  import opened SlotTables
  import opened Commands
  import opened CommandQueues
  import opened ServerContexts

  ghost predicate ParserReady(stx: ServerContext, alloc: Allocator, i: nat)
    requires stx.Shaped() && i < stx.maxClients
    reads *
  {
    var parser := stx.clientParser[i];
    parser != null ==>
      parser.Valid() && Incomplete(alloc, parser.Held()) && parser.Repr() !! stx.OwnObjects()
  }

  /** The objects of a slot's parser. */
  ghost function ParserObjects(stx: ServerContext, i: nat): set<object>
    requires stx.Shaped() && i < stx.maxClients
    reads *
  {
    if stx.clientParser[i] == null then {} else stx.clientParser[i].Repr()
  }

  ghost function AllParserObjects(stx: ServerContext): set<object>
    requires stx.Shaped()
    reads *
  {
    set i: nat, o | i < stx.maxClients && o in ParserObjects(stx, i) :: o
  }

  ghost predicate ParsersApart(stx: ServerContext, i: nat, j: nat)
    requires stx.Shaped() && i < stx.maxClients && j < stx.maxClients
    reads *
  {
    ParserObjects(stx, i) !! ParserObjects(stx, j)
  }

  /** The tables agree, connected sockets are open, and every connection has a parser of its own that
      waits for more bytes. */
  ghost predicate Ready(stx: ServerContext, alloc: Allocator)
    reads *
  {
    && stx.Valid()
    && stx.View().Connected() <= stx.net.wire.Keys
    && (forall i: nat | i < stx.maxClients :: ParserReady(stx, alloc, i))
    && (forall i: nat, j: nat | i < j < stx.maxClients :: ParsersApart(stx, i, j))
  }

  /** A connection: its descriptor and the bytes of an unfinished message. */
  datatype Connection = Connection(fd: int, held: seq<byte>)

  /** The connection of a slot, if it has one. */
  ghost function ConnectionOf(stx: ServerContext, alloc: Allocator, i: nat): Option<Connection>
    requires Ready(stx, alloc) && i < stx.maxClients
    reads *
  {
    assert ParserReady(stx, alloc, i);
    if stx.clientParser[i] == null then None
    else Some(Connection(stx.pollers[i + FIRST_CLIENT], stx.clientParser[i].Held()))
  }

  /** What an event leaves of a connection. */
  function Served(c: Option<Connection>, event: Option<Readiness>, alloc: Allocator): Option<Connection> {
    if c == None || event == None then c
    else if !Stays(event.value, alloc, c.value.held) then None
    else if event.value.Received? then Some(c.value.(held := Decode(alloc, c.value.held + event.value.bytes).rest))
    else c
  }

  /** Whether it ends the connection. */
  predicate Dropped(c: Option<Connection>, event: Option<Readiness>, alloc: Allocator) {
    c.Some? && event.Some? && !Stays(event.value, alloc, c.value.held)
  }

  /** And the messages it completes. */
  function Completed(c: Option<Connection>, event: Option<Readiness>, alloc: Allocator): seq<Message> {
    if c.Some? && event.Some? && event.value.Received? then Decode(alloc, c.value.held + event.value.bytes).msgs else []
  }

  lemma ReadyIsShaped(stx: ServerContext, alloc: Allocator)
    requires Ready(stx, alloc)
    ensures stx.Shaped() && stx.View().Shape()
  {}

  lemma HasParser(stx: ServerContext, i: nat)
    requires stx.Valid() && i < stx.maxClients
    ensures stx.clientParser[i] != null <==> stx.pollers[i + FIRST_CLIENT] != FREE
  {
    assert stx.View().SlotAgrees(i);
  }

  /** In plain terms: a connection ends exactly when it was closed, failed, or sent what does not parse, and
      keeps its descriptor otherwise. */
  lemma ServedMeans(c: Connection, event: Option<Readiness>, alloc: Allocator)
    ensures var served := Served(Some(c), event, alloc);
      var parsed := if event.Some? && event.value.Received? then Decode(alloc, c.held + event.value.bytes)
                    else Decoded([], c.held, true);
      && (served == None <==> event == Some(Closed) || event == Some(Failed) || !parsed.ok)
      && (served == None <==> Dropped(Some(c), event, alloc))
      && (served.Some? ==> served.value.fd == c.fd && served.value.held == parsed.rest)
      && Completed(Some(c), event, alloc) == parsed.msgs
      && Served(None, event, alloc) == None
  {
    hide Decode;
  }

  /** A new server has no connections. There is none without capacity, nor when a socket, a pipe, a mutex
      or memory cannot be had. */
  method CreateServer(maxClients: int, resources: bool, net: Network, ghost alloc: Allocator)
    returns (stx: ServerContext?)
    ensures stx == null <==> maxClients <= 0 || !resources
    ensures stx != null ==>
              && fresh(stx) && stx.maxClients == maxClients && stx.net == net
              && Ready(stx, alloc) && stx.View() == Empty(maxClients)
              && (forall i: nat | i < stx.maxClients :: ConnectionOf(stx, alloc, i) == None)
              && stx.commandQueue.Valid() && stx.commandQueue.contents == []
  {
    if maxClients <= 0 || !resources {
      return null;
    }
    stx := new ServerContext(maxClients, net);
    EmptyAgrees(maxClients);
    forall i: nat | i < stx.maxClients ensures stx.clientParser[i] == null {
      assert !stx.View().hasParser[i];
    }
  }

  /** Serving one poll entry. */
  method ServeClient(stx: ServerContext, i: nat, event: Option<Readiness>, alloc: Allocator)
    returns (delivered: seq<Message>, disconnect: bool)
    requires Ready(stx, alloc) && i < stx.maxClients
    requires event.Some? ==> ConnectionOf(stx, alloc, i).Some? && (event.value.Received? ==> event.value.bytes != [])
    modifies stx, stx.pollers, stx.clientSocket, stx.clientParser, stx.clientMap, stx.net
    modifies ParserObjects(stx, i)
    ensures Ready(stx, alloc)
    ensures ClosesDropped(old(stx.View()), stx.View(), old(stx.net.wire), stx.net.wire)
    ensures stx.commandQueue.contents == old(stx.commandQueue.contents)
    ensures old(stx.commandQueue.Valid()) ==> stx.commandQueue.Valid()
    ensures stx.View() == if Dropped(old(ConnectionOf(stx, alloc, i)), event, alloc) then Remove(old(stx.View()), i)
                          else old(stx.View())
    ensures ConnectionOf(stx, alloc, i) == Served(old(ConnectionOf(stx, alloc, i)), event, alloc)
    ensures delivered == Completed(old(ConnectionOf(stx, alloc, i)), event, alloc)
    ensures disconnect <==> event == Some(Closed) || event == Some(Failed)
    ensures forall j: nat | j < stx.maxClients && j != i ::
              && ParserObjects(stx, j) == old(ParserObjects(stx, j))
              && ConnectionOf(stx, alloc, j) == old(ConnectionOf(stx, alloc, j))
  {
    hide Table.Agrees, InUse, Incomplete, Decode, StreamParser.Valid, StreamParser.Held, ServerContext.View,
      CommandQueue.Valid;
    if event == None {
      return [], false;
    }
    assert ParserReady(stx, alloc, i);
    HasParser(stx, i);
    ghost var mine := stx.clientParser[i].Repr();
    delivered, disconnect := stx.HandleClientData(i + FIRST_CLIENT, event.value, alloc);
    if stx.clientParser[i] != null {
      assert forall o <- stx.clientParser[i].Repr() :: o in mine || fresh(o);
      assert forall o <- stx.OwnObjects() :: !fresh(o);
    }
    assert ParserReady(stx, alloc, i);
    forall j: nat | j < stx.maxClients && j != i
      ensures ParserReady(stx, alloc, j) && ParserObjects(stx, j) == old(ParserObjects(stx, j))
      ensures stx.clientParser[j] != null ==>
                && old(stx.clientParser[j].Valid()) && stx.clientParser[j].Valid()
                && stx.clientParser[j].Held() == old(stx.clientParser[j].Held())
    {
      assert old(ParserReady(stx, alloc, j));
      assert if i < j then old(ParsersApart(stx, i, j)) else old(ParsersApart(stx, j, i));
    }
    forall j: nat, k: nat | j < k < stx.maxClients ensures ParsersApart(stx, j, k) {
      assert old(ParsersApart(stx, j, k));
    }
  }

  /** Serving all the entries with events, in order. Every connection ends up as its own event leaves it,
      whatever the others sent. */
  method ServeClients(stx: ServerContext, events: seq<Option<Readiness>>, alloc: Allocator)
    returns (delivered: seq<seq<Message>>, ghost dropped: seq<bool>)
    requires Ready(stx, alloc) && |events| == stx.maxClients
    requires forall i: nat | i < stx.maxClients && events[i].Some? ::
               ConnectionOf(stx, alloc, i).Some? && (events[i].value.Received? ==> events[i].value.bytes != [])
    modifies stx, stx.pollers, stx.clientSocket, stx.clientParser, stx.clientMap, stx.net
    modifies AllParserObjects(stx)
    ensures Ready(stx, alloc)
    ensures ClosesDropped(old(stx.View()), stx.View(), old(stx.net.wire), stx.net.wire)
    ensures stx.commandQueue.contents == old(stx.commandQueue.contents)
    ensures old(stx.commandQueue.Valid()) ==> stx.commandQueue.Valid()
    ensures |delivered| == |dropped| == stx.maxClients
    ensures stx.View() == RemoveMarked(old(stx.View()), dropped)
    ensures forall i: nat | i < stx.maxClients ::
              dropped[i] <==> Dropped(old(ConnectionOf(stx, alloc, i)), events[i], alloc)
    ensures forall i: nat | i < stx.maxClients ::
              && ConnectionOf(stx, alloc, i) == Served(old(ConnectionOf(stx, alloc, i)), events[i], alloc)
              && delivered[i] == Completed(old(ConnectionOf(stx, alloc, i)), events[i], alloc)
  {
    delivered, dropped := [], [];
    hide Ready, ConnectionOf, ParserObjects, Served, Completed, Dropped, Remove;
    ReadyIsShaped(stx, alloc);
    for i := 0 to stx.maxClients
      invariant Ready(stx, alloc) && stx.Shaped() && stx.View().Shape()
      invariant |dropped| == i && stx.View() == RemoveMarked(old(stx.View()), dropped)
      invariant forall j: nat | j < i :: dropped[j] <==> Dropped(old(ConnectionOf(stx, alloc, j)), events[j], alloc)
      invariant ClosesDropped(old(stx.View()), stx.View(), old(stx.net.wire), stx.net.wire)
      invariant old(stx.commandQueue.Valid()) ==> stx.commandQueue.Valid()
      invariant |delivered| == i && stx.commandQueue.contents == old(stx.commandQueue.contents)
      invariant forall j: nat | j < i ::
                  && ConnectionOf(stx, alloc, j) == Served(old(ConnectionOf(stx, alloc, j)), events[j], alloc)
                  && delivered[j] == Completed(old(ConnectionOf(stx, alloc, j)), events[j], alloc)
      invariant forall j: nat | i <= j < stx.maxClients ::
                  && ConnectionOf(stx, alloc, j) == old(ConnectionOf(stx, alloc, j))
                  && ParserObjects(stx, j) == old(ParserObjects(stx, j))
    {
      assert ParserObjects(stx, i) <= old(AllParserObjects(stx)) by {
        assert ParserObjects(stx, i) == old(ParserObjects(stx, i));
      }
      ReadyIsShaped(stx, alloc);
      ghost var connection := ConnectionOf(stx, alloc, i);
      var messages, disconnect := ServeClient(stx, i, events[i], alloc);
      delivered := delivered + [messages];
      dropped := dropped + [Dropped(connection, events[i], alloc)];
      assert dropped[..i] == dropped[..|dropped| - 1];
    }
  }

  /** Accepting a client. */
  method AcceptClient(stx: ServerContext, fd: int, parserAllocated: bool, alloc: Allocator)
    returns (outcome: AddOutcome)
    requires Ready(stx, alloc) && (0 <= fd ==> fd in stx.net.wire && fd !in stx.View().Connected())
    modifies stx, stx.pollers, stx.clientSocket, stx.clientParser, stx.clientMap, stx.net
    ensures Ready(stx, alloc)
    ensures (stx.View(), outcome) == Add(old(stx.View()), fd, parserAllocated)
    ensures old(stx.commandQueue.Valid()) ==> stx.commandQueue.Valid()
    ensures stx.net.wire == if fd < 0 || outcome.Added? then old(stx.net.wire) else old(stx.net.wire) - {fd}
    ensures forall i: nat | i < stx.maxClients ::
              || ParserObjects(stx, i) == old(ParserObjects(stx, i))
              || (outcome == Added(i) && fresh(ParserObjects(stx, i)))
    ensures forall i: nat | i < stx.maxClients ::
              ConnectionOf(stx, alloc, i)
              == if outcome == Added(i) then Some(Connection(fd, [])) else old(ConnectionOf(stx, alloc, i))
    ensures outcome.Added? ==> outcome.slot < stx.maxClients && old(ConnectionOf(stx, alloc, outcome.slot)) == None
  {
    hide Table.Agrees, InUse, Add, Decode, StreamParser.Valid, StreamParser.Held, ServerContext.View;
    outcome := stx.AddClient(fd, parserAllocated);
    forall j: nat | j < stx.maxClients && outcome != Added(j)
      ensures ParserReady(stx, alloc, j) && ParserObjects(stx, j) == old(ParserObjects(stx, j))
      ensures stx.clientParser[j] != null ==>
                && old(stx.clientParser[j].Valid()) && stx.clientParser[j].Valid()
                && stx.clientParser[j].Held() == old(stx.clientParser[j].Held())
    {
      assert old(ParserReady(stx, alloc, j));
    }
    forall j: nat, k: nat | j < k < stx.maxClients ensures ParsersApart(stx, j, k) {
      assert old(ParsersApart(stx, j, k));
    }
  }

  /** Draining the queue leaves every connection as it is. */
  method DrainCommands(stx: ServerContext, alloc: Allocator) returns (destroyed: seq<Command>)
    requires Ready(stx, alloc)
    requires stx.commandQueue.Valid() && (forall c <- stx.commandQueue.contents :: c.Some?)
    modifies stx.net, stx.commandQueue, stx.commandQueue.fakeHead
    ensures Ready(stx, alloc) && stx.View() == old(stx.View())
    ensures stx.commandQueue.Valid() && stx.commandQueue.contents == []
    ensures destroyed == Present(old(stx.commandQueue.contents))
    ensures stx.net.wire.Keys == old(stx.net.wire).Keys
    ensures Delivered(stx.View(), destroyed, stx.net.broken, old(stx.net.wire), stx.net.wire)
    ensures forall i: nat | i < stx.maxClients ::
              && ConnectionOf(stx, alloc, i) == old(ConnectionOf(stx, alloc, i))
              && ParserObjects(stx, i) == old(ParserObjects(stx, i))
  {
    hide Table.Agrees, InUse, Incomplete, Decode, StreamParser.Valid, StreamParser.Held, ServerContext.View;
    destroyed := stx.ProcessCommands();
    forall j: nat | j < stx.maxClients
      ensures ParserReady(stx, alloc, j) && ParserObjects(stx, j) == old(ParserObjects(stx, j))
      ensures stx.clientParser[j] != null ==>
                && old(stx.clientParser[j].Valid()) && stx.clientParser[j].Valid()
                && stx.clientParser[j].Held() == old(stx.clientParser[j].Held())
    {
      assert old(ParserReady(stx, alloc, j));
    }
    forall j: nat, k: nat | j < k < stx.maxClients ensures ParsersApart(stx, j, k) {
      assert old(ParsersApart(stx, j, k));
    }
  }

  /** Every socket that is still open and healthy was sent exactly its messages. */
  ghost predicate SentExactly(t: Table, cs: seq<Command>, broken: set<int>, before: Wires, after: Wires)
    requires t.Shape()
  {
    forall fd <- after | fd !in broken ::
      fd in before && after[fd] == before[fd] + EncodeAll(MessagesFor(t, cs, fd))
  }

  lemma DeliveredIsExact(t: Table, cs: seq<Command>, broken: set<int>, before: Wires, after: Wires)
    requires t.Shape() && Delivered(t, cs, broken, before, after)
    ensures SentExactly(t, cs, broken, before, after)
  {
    hide EncodeAll, MessagesFor;
  }

  lemma ClosingIsExact(t: Table, cs: seq<Command>, broken: set<int>, before: Wires, after: Wires, closed: set<int>)
    requires t.Shape() && SentExactly(t, cs, broken, before, after)
    ensures SentExactly(t, cs, broken, before, after - closed)
  {
    hide EncodeAll, MessagesFor;
  }

  /** The first half of an iteration. */
  method DrainAndAccept(stx: ServerContext, wake: bool, waiting: Option<int>, parserAllocated: bool, alloc: Allocator)
    returns (outcome: Option<AddOutcome>)
    requires Ready(stx, alloc)
    requires stx.commandQueue.Valid() && (forall c <- stx.commandQueue.contents :: c.Some?)
    requires waiting.Some? && 0 <= waiting.value ==>
               waiting.value in stx.net.wire && waiting.value !in stx.View().Connected()
    modifies stx, stx.pollers, stx.clientSocket, stx.clientParser, stx.clientMap, stx.net
    modifies stx.commandQueue, stx.commandQueue.fakeHead
    ensures Ready(stx, alloc)
    ensures stx.commandQueue.Valid()
    ensures stx.commandQueue.contents == if wake then [] else old(stx.commandQueue.contents)
    ensures outcome == if waiting == None then None else Some(Add(old(stx.View()), waiting.value, parserAllocated).1)
    ensures stx.View() == if waiting == None then old(stx.View())
                          else Add(old(stx.View()), waiting.value, parserAllocated).0
    ensures forall i: nat | i < stx.maxClients ::
              && ConnectionOf(stx, alloc, i)
                 == (if outcome == Some(Added(i)) then Some(Connection(waiting.value, []))
                     else old(ConnectionOf(stx, alloc, i)))
              && (outcome == Some(Added(i)) ==> old(ConnectionOf(stx, alloc, i)) == None)
              && (ParserObjects(stx, i) == old(ParserObjects(stx, i)) || fresh(ParserObjects(stx, i)))
    ensures SentExactly(old(stx.View()), if wake then Present(old(stx.commandQueue.contents)) else [], stx.net.broken,
                        old(stx.net.wire), stx.net.wire)
  {
    hide Ready, ConnectionOf, ParserObjects, Add, Delivered, SentExactly, ServerContext.View, CommandQueue.Valid;
    ReadyIsShaped(stx, alloc);
    outcome := None;
    ghost var t, commands, before := stx.View(), [], stx.net.wire;
    if wake {
      commands := DrainCommands(stx, alloc);
    } else {
      DeliveredNothing(t, stx.net.broken, before);
    }
    DeliveredIsExact(t, commands, stx.net.broken, before, stx.net.wire);
    if waiting.Some? {
      ClosingIsExact(t, commands, stx.net.broken, before, stx.net.wire, {waiting.value});
      var added := AcceptClient(stx, waiting.value, parserAllocated, alloc);
      outcome := Some(added);
    }
  }

  /** One iteration of the event loop, between two polls that nothing interrupts: drain the queue if the
      pipe was readable, accept a waiting client, serve the clients with events. The drained commands go
      to the connections from before; a client that was just accepted holds nothing yet; and every other
      connection ends up as its own event leaves it. */
  method RunIteration(stx: ServerContext, wake: bool, waiting: Option<int>, parserAllocated: bool,
                      events: seq<Option<Readiness>>, alloc: Allocator)
    returns (outcome: Option<AddOutcome>, delivered: seq<seq<Message>>, ghost dropped: seq<bool>)
    requires Ready(stx, alloc) && |events| == stx.maxClients
    requires stx.commandQueue.Valid() && (forall c <- stx.commandQueue.contents :: c.Some?)
    requires waiting.Some? && 0 <= waiting.value ==>
               waiting.value in stx.net.wire && waiting.value !in stx.View().Connected()
    requires forall i: nat | i < stx.maxClients && events[i].Some? ::
               ConnectionOf(stx, alloc, i).Some? && (events[i].value.Received? ==> events[i].value.bytes != [])
    modifies stx, stx.pollers, stx.clientSocket, stx.clientParser, stx.clientMap, stx.net
    modifies stx.commandQueue, stx.commandQueue.fakeHead
    modifies AllParserObjects(stx)
    ensures Ready(stx, alloc)
    ensures stx.commandQueue.Valid()
    ensures stx.commandQueue.contents == if wake then [] else old(stx.commandQueue.contents)
    ensures outcome == if waiting == None then None else Some(Add(old(stx.View()), waiting.value, parserAllocated).1)
    ensures |delivered| == |dropped| == stx.maxClients
    ensures stx.View() == RemoveMarked(if waiting == None then old(stx.View())
                                       else Add(old(stx.View()), waiting.value, parserAllocated).0,
                                       dropped)
    ensures forall i: nat | i < stx.maxClients ::
              dropped[i] <==> Dropped(old(ConnectionOf(stx, alloc, i)), events[i], alloc)
    ensures forall i: nat | i < stx.maxClients ::
              && ConnectionOf(stx, alloc, i)
                 == (if outcome == Some(Added(i)) then Some(Connection(waiting.value, []))
                     else Served(old(ConnectionOf(stx, alloc, i)), events[i], alloc))
              && delivered[i] == Completed(old(ConnectionOf(stx, alloc, i)), events[i], alloc)
    ensures SentExactly(old(stx.View()), if wake then Present(old(stx.commandQueue.contents)) else [], stx.net.broken,
                        old(stx.net.wire), stx.net.wire)
  {
    hide Ready, ConnectionOf, ParserObjects, Add, SentExactly, ServerContext.View, CommandQueue.Valid, Stays, Decode;
    ReadyIsShaped(stx, alloc);
    ghost var t, before := stx.View(), stx.net.wire;
    outcome := DrainAndAccept(stx, wake, waiting, parserAllocated, alloc);
    ghost var wires, connected := stx.net.wire, stx.View().Connected();
    delivered, dropped := ServeClients(stx, events, alloc);
    ClosingIsExact(t, if wake then Present(old(stx.commandQueue.contents)) else [], stx.net.broken, before, wires,
                   connected - stx.View().Connected());
  }
}
