/** The loop in memory against the step relation: an iteration of the server is a run of `EventLoops`. */
module LoopRefinement {
  import opened Wrappers
  import opened Framing
  import opened StreamParsing
  import opened SlotTables
  import opened Commands
  import opened CommandQueues
  import opened EventLoops
  import opened EventLoopSafety
  import opened EventLoopRuns
  import opened ServerContexts
  import opened ServerIterations

  /** A queue as it is stored. */
  function Stored(queue: seq<Queued>): seq<Option<Command>> {
    if queue == [] then [] else [Some(queue[0].cmd)] + Stored(queue[1..])
  }

  lemma {:induction false} StoredCommands(queue: seq<Queued>)
    ensures Present(Stored(queue)) == CommandsOf(queue)
    ensures forall c <- Stored(queue) :: c.Some?
  {
    if queue != [] {
      StoredCommands(queue[1..]);
      assert Stored(queue)[1..] == Stored(queue[1..]);
    }
  }

  /** Every healthy connection has been sent the encodings of the messages that the relation says. */
  ghost predicate WiresRepresent(s: State, broken: set<int>, wires: Wires) {
    forall fd <- s.live | fd !in broken ::
      fd in wires && s.live[fd] in s.wire && wires[fd] == EncodeAll(s.wire[s.live[fd]])
  }

  /** The server between two polls is as the state of the relation says. */
  ghost predicate Represents(s: State, stx: ServerContext, alloc: Allocator)
    reads *
  {
    && Ready(stx, alloc)
    && s.pc == AtPoll
    && s.table == stx.View()
    && stx.commandQueue.Valid() && stx.commandQueue.contents == Stored(s.queue)
    && WiresRepresent(s, stx.net.broken, stx.net.wire)
  }

  /** In plain terms: the tables are those of the state, the queue stores its commands, and on every healthy
      connection the bytes written are the encodings of its messages. */
  lemma RepresentsMeans(s: State, stx: ServerContext, alloc: Allocator, i: nat)
    requires Represents(s, stx, alloc)
    ensures stx.Valid() && s.table == stx.View() && |stx.commandQueue.contents| == |s.queue|
    ensures i < |s.queue| ==> stx.commandQueue.contents[i] == Some(s.queue[i].cmd)
    ensures forall fd <- s.live | fd !in stx.net.broken ::
              fd in stx.net.wire && s.live[fd] in s.wire && stx.net.wire[fd] == EncodeAll(s.wire[s.live[fd]])
  {
    StoredAt(s.queue, i);
    assert stx.Valid();
    hide Ready, EncodeAll, CommandQueue.Valid;
  }

  lemma {:induction false} StoredAt(queue: seq<Queued>, i: nat)
    ensures |Stored(queue)| == |queue|
    ensures i < |queue| ==> Stored(queue)[i] == Some(queue[i].cmd)
  {
    if queue != [] {
      StoredAt(queue[1..], if 0 < i then i - 1 else 0);
    }
  }

  lemma {:induction false} NotConnected(t: Table, cs: seq<Command>, fd: int)
    requires t.Shape() && !t.IsValidClient(fd)
    ensures MessagesFor(t, cs, fd) == []
  {
    if cs != [] {
      NotConnected(t, cs[1..], fd);
    }
  }

  lemma WiresStillRepresent(s: State, u: State, waiting: Option<int>, broken: set<int>, before: Wires, after: Wires)
    requires Inv(s) && WiresRepresent(s, broken, before) && IterationWires(s, u, waiting, broken)
    requires SentExactly(s.table, Drained(s), broken, before, after) && u.live.Keys <= after.Keys
    requires forall fd <- u.live :: 0 <= fd
    requires waiting.Some? && 0 <= waiting.value && waiting.value in after && waiting.value !in s.live ==>
               waiting.value in before && before[waiting.value] == []
    ensures WiresRepresent(u, broken, after)
  {
    LiveFacts(s);
    hide Inv, EncodeAll, MessagesFor;
    forall fd <- u.live | fd !in broken ensures after[fd] == EncodeAll(u.wire[u.live[fd]]) {
      if fd in s.live {
        EncodeAllAppend(s.wire[s.live[fd]], MessagesFor(s.table, Drained(s), fd));
      } else {
        LookupIsExact(s.table, fd);
        NotConnected(s.table, Drained(s), fd);
        NothingEncoded();
      }
    }
  }

  lemma NothingEncoded()
    ensures EncodeAll([]) == []
  {}

  function KindOf(event: Option<Readiness>, dropped: bool): SlotEvent {
    match event
    case None => Quiet
    case Some(Received(_)) => if dropped then Unparsed else Parsed
    case Some(Closed) => Left
    case Some(Failed) => Left
    case Some(OtherEvent) => Ignored
  }

  /** The disconnect callback runs exactly for a closed or failed client. */
  lemma KindMeans(event: Option<Readiness>, dropped: bool)
    ensures KindOf(event, dropped) == Left <==> event == Some(Closed) || event == Some(Failed)
    ensures KindOf(event, dropped) == Unparsed <==> event.Some? && event.value.Received? && dropped
    ensures KindOf(event, dropped) == Quiet <==> event == None
  {}

  function KindsOf(events: seq<Option<Readiness>>, dropped: seq<bool>): (kinds: seq<SlotEvent>)
    requires |events| == |dropped|
    ensures |kinds| == |events| && forall i | 0 <= i < |events| :: kinds[i] == KindOf(events[i], dropped[i])
  {
    seq(|events|, i requires 0 <= i < |events| => KindOf(events[i], dropped[i]))
  }

  /** A new server whose loop has just started is as the relation's initial state after its start. */
  lemma StartRepresents(stx: ServerContext, alloc: Allocator)
    requires Ready(stx, alloc) && stx.View() == Empty(stx.maxClients)
    requires stx.commandQueue.Valid() && stx.commandQueue.contents == []
    ensures Enabled(Init(stx.maxClients), Start)
    ensures Represents(Next(Init(stx.maxClients), Start), stx, alloc) && Inv(Next(Init(stx.maxClients), Start))
  {
    InitInv(stx.maxClients);
    StepInv(Init(stx.maxClients), Start);
  }

  lemma PushRun(s: State, cmd: Command, stored: bool) returns (u: State)
    requires Inv(s) && s.pc == AtPoll
    ensures CanBecome(s, u) && Inv(u) && u.pc == AtPoll && u.pipe == s.pipe + 1
    ensures (u.table, u.live, u.wire) == (s.table, s.live, s.wire)
    ensures Stored(u.queue) == if stored then Stored(s.queue) + [Some(cmd)] else Stored(s.queue)
  {
    CanStay(s);
    hide Inv, CanBecome, Stored, Covered;
    u := CanStep(s, s, OtherPush(cmd, stored));
    if stored {
      StoredSnoc(s.queue, u.queue[|s.queue|]);
    }
    u := CanStep(s, u, OtherWrite);
  }

  lemma {:induction false} StoredSnoc(queue: seq<Queued>, q: Queued)
    ensures Stored(queue + [q]) == Stored(queue) + [Some(q.cmd)]
  {
    if queue == [] {
      assert queue + [q] == [q];
    } else {
      assert (queue + [q])[1..] == queue[1..] + [q];
      StoredSnoc(queue[1..], q);
    }
  }

  /** Another thread's push and write between two polls are their two steps of the relation. */
  method Enqueue(stx: ServerContext, cmd: Command, stored: bool, alloc: Allocator, ghost s: State)
    returns (ghost u: State)
    requires Inv(s) && Represents(s, stx, alloc)
    modifies stx.commandQueue, stx.commandQueue.tail
    ensures CanBecome(s, u) && Inv(u) && Represents(u, stx, alloc) && 0 < u.pipe
  {
    u := PushRun(s, cmd, stored);
    hide Inv, CanBecome, Table.Agrees, InUse, Incomplete, StreamParser.Valid, StreamParser.Held, ServerContext.View;
    stx.commandQueue.Push(Some(cmd), stored);
    forall j: nat | j < stx.maxClients
      ensures ParserReady(stx, alloc, j) && ParserObjects(stx, j) == old(ParserObjects(stx, j))
    {
      assert old(ParserReady(stx, alloc, j));
    }
    forall j: nat, k: nat | j < k < stx.maxClients ensures ParsersApart(stx, j, k) {
      assert old(ParsersApart(stx, j, k));
    }
  }

  predicate DropFits(event: Option<Readiness>, dropped: bool) {
    dropped <==> Drops(KindOf(event, dropped))
  }

  lemma DroppedFits(c: Option<Connection>, event: Option<Readiness>, alloc: Allocator)
    requires event.Some? ==> c.Some?
    ensures DropFits(event, Dropped(c, event, alloc))
  {
    hide Decode;
  }

  lemma MarksOfKinds(events: seq<Option<Readiness>>, dropped: seq<bool>)
    requires |events| == |dropped| && forall i | 0 <= i < |events| :: DropFits(events[i], dropped[i])
    ensures Marks(KindsOf(events, dropped)) == dropped
  {}

  lemma InUseWithEvent(s: State, stx: ServerContext, alloc: Allocator, i: nat)
    requires Represents(s, stx, alloc) && i < stx.maxClients && ConnectionOf(stx, alloc, i).Some?
    ensures SlotInUse(s.table, i)
  {
    HasParser(stx, i);
  }

  lemma RepresentedFacts(s: State, stx: ServerContext, alloc: Allocator)
    requires Inv(s) && Represents(s, stx, alloc)
    ensures stx.Shaped() && s.table == stx.View() && s.table.MaxClients() == stx.maxClients
    ensures s.live.Keys == stx.View().Connected() <= stx.net.wire.Keys
    ensures WiresRepresent(s, stx.net.broken, stx.net.wire)
    ensures stx.commandQueue.contents == Stored(s.queue) && stx.commandQueue.Valid() && Ready(stx, alloc)
  {}

  lemma ReadyKeys(stx: ServerContext, alloc: Allocator)
    requires Ready(stx, alloc)
    ensures stx.Shaped() && stx.View().Connected() <= stx.net.wire.Keys
  {}

  /** Refinement: an iteration of the server in memory is a run of the step relation, from the state that
      the server represents to one that it represents again. */
  method Iterate(stx: ServerContext, wake: bool, waiting: Option<int>, parserAllocated: bool,
                 events: seq<Option<Readiness>>, alloc: Allocator, ghost s: State)
    returns (ghost u: State)
    requires Inv(s) && Represents(s, stx, alloc) && (wake <==> 0 < s.pipe) && |events| == stx.maxClients
    requires waiting.Some? && 0 <= waiting.value ==>
               && waiting.value in stx.net.wire && waiting.value !in stx.View().Connected()
               && stx.net.wire[waiting.value] == []
    requires forall i: nat | i < stx.maxClients && events[i].Some? ::
               ConnectionOf(stx, alloc, i).Some? && (events[i].value.Received? ==> events[i].value.bytes != [])
    modifies stx, stx.pollers, stx.clientSocket, stx.clientParser, stx.clientMap, stx.net
    modifies stx.commandQueue, stx.commandQueue.fakeHead
    modifies AllParserObjects(stx)
    ensures CanBecome(s, u) && Inv(u) && Represents(u, stx, alloc)
  {
    hide Inv, CanBecome, Ready, ConnectionOf, ParserObjects, Dropped, Add, RemoveMarked, Marks, KindsOf, KindOf,
      DropFits, Served, Completed, Stored, CommandsOf, SentExactly, WiresRepresent, IterationWires, SlotInUse, InUse,
      AllParserObjects,
      ServerContext.View, CommandQueue.Valid, Table.Agrees;
    RepresentedFacts(s, stx, alloc);
    StoredCommands(s.queue);
    forall i: nat | i < stx.maxClients && events[i].Some? ensures SlotInUse(s.table, i) {
      InUseWithEvent(s, stx, alloc, i);
    }
    ghost var before := stx.net.wire;
    var outcome, delivered;
    ghost var dropped;
    outcome, delivered, dropped := RunIteration(stx, wake, waiting, parserAllocated, events, alloc);
    forall i | 0 <= i < stx.maxClients ensures DropFits(events[i], dropped[i]) {
      DroppedFits(old(ConnectionOf(stx, alloc, i)), events[i], alloc);
    }
    MarksOfKinds(events, dropped);
    ghost var kinds := KindsOf(events, dropped);
    assert forall i: nat | i < |kinds| && kinds[i] != Quiet :: events[i].Some? by {
      OnlyEvents(events, dropped);
    }
    u := IterationRun(s, waiting, parserAllocated, kinds, stx.net.broken);
    LiveFacts(u);
    ReadyKeys(stx, alloc);
    WiresStillRepresent(s, u, waiting, stx.net.broken, before, stx.net.wire);
    assert stx.commandQueue.contents == Stored(u.queue) by { NothingStored(); }
  }

  lemma OnlyEvents(events: seq<Option<Readiness>>, dropped: seq<bool>)
    requires |events| == |dropped|
    ensures forall i: nat | i < |events| && KindsOf(events, dropped)[i] != Quiet :: events[i].Some?
  {}

  lemma NothingStored()
    ensures Stored([]) == []
  {}
}
