/** Whole phases of an undisturbed iteration as runs of the event loop. */
module EventLoopRuns {
  import opened Wrappers
  import opened Pipes
  import opened Framing
  import opened Transport
  import opened SlotTables
  import opened Commands
  import opened EventLoops
  import opened EventLoopSafety

  function CommandsOf(queue: seq<Queued>): seq<Command> {
    if queue == [] then [] else [queue[0].cmd] + CommandsOf(queue[1..])
  }

  /** What processing a queue adds to the log. */
  function EntriesOf(queue: seq<Queued>, live: Connections, failed: set<int>): (entries: seq<Entry>)
    ensures |entries| == |queue| && forall k | 0 <= k < |queue| :: entries[k] == Entry(queue[k], live, failed)
  {
    if queue == [] then [] else [Entry(queue[0], live, failed)] + EntriesOf(queue[1..], live, failed)
  }

  lemma OneMoreEntry(log: seq<Entry>, queue: seq<Queued>, live: Connections, failed: set<int>)
    requires queue != []
    ensures log + [Entry(queue[0], live, failed)] + EntriesOf(queue[1..], live, failed)
         == log + EntriesOf(queue, live, failed)
  {}

  /** One processed command, on the connections whose sends do not fail. */
  lemma ApplyOne(s: State, broken: set<int>, fd: int)
    requires Inv(s) && s.pc.AtApply? && fd in s.live && fd !in broken
    ensures s.live[fd] in s.wire && s.live[fd] in DoApply(s, broken).wire
    ensures DoApply(s, broken).wire[s.live[fd]] == s.wire[s.live[fd]] + MessageFor(s.table, s.pc.q.cmd, fd)
  {
    var cmd := s.pc.q.cmd;
    RecipientsAreExact(s.table, cmd);
    LookupIsExact(s.table, fd);
    assert s.live[fd] in s.wire;
    if Framed(cmd) {
      WriteIsExact(s.wire, s.live, Recipients(s.table, cmd), OnWire(cmd.kind, cmd.payload), broken, s.live[fd]);
    } else {
      assert s.wire[s.live[fd]] + [] == s.wire[s.live[fd]];
    }
  }

  /** The drain, when nobody pushes meanwhile. */
  lemma {:induction false} DrainRun(s0: State, s: State, broken: set<int>) returns (u: State)
    requires CanBecome(s0, s) && Inv(s) && s.pc.AtCheck?
    ensures CanBecome(s0, u) && Inv(u) && u.pc == AtAccept(s.pc.accept, s.pc.ready) && u.queue == []
    ensures (u.table, u.live, u.nextGeneration, u.pushed) == (s.table, s.live, s.nextGeneration, s.pushed)
    ensures u.log == s.log + EntriesOf(s.queue, s.live, broken)
    ensures forall fd <- s.live | fd !in broken ::
              && s.live[fd] in s.wire && s.live[fd] in u.wire
              && u.wire[s.live[fd]] == s.wire[s.live[fd]] + MessagesFor(s.table, CommandsOf(s.queue), fd)
    decreases |s.queue|
  {
    LiveFacts(s);
    hide Inv, CanBecome, MessagesFor, MessageFor, Table.Agrees, Enabled, Next, EntriesOf;
    if s.queue == [] {
      assert s.log + EntriesOf([], s.live, broken) == s.log;
      NothingToDrain(s);
      u := CanStep(s0, s, Check);
      forall fd <- s.live ensures s.wire[s.live[fd]] == s.wire[s.live[fd]] + MessagesFor(s.table, [], fd) {
        NoMessages(s.table, fd);
      }
    } else {
      var t := DrainOne(s0, s, broken);
      u := DrainRun(s0, t, broken);
      OneMoreEntry(s.log, s.queue, s.live, broken);
      forall fd <- s.live | fd !in broken
        ensures u.wire[s.live[fd]] == s.wire[s.live[fd]] + MessagesFor(s.table, CommandsOf(s.queue), fd)
      {
        OneMoreCommand(s.table, s.queue, fd, s.wire[s.live[fd]]);
      }
    }
  }

  lemma NothingToDrain(s: State)
    requires s.pc.AtCheck? && s.queue == []
    ensures Enabled(s, Check) && Next(s, Check) == s.(pc := AtAccept(s.pc.accept, s.pc.ready))
  {}

  lemma NoMessages(t: Table, fd: int)
    requires t.Shape()
    ensures MessagesFor(t, [], fd) == []
  {}

  lemma MessagesForCons(t: Table, cmd: Command, rest: seq<Command>, fd: int)
    requires t.Shape()
    ensures MessagesFor(t, [cmd] + rest, fd) == MessageFor(t, cmd, fd) + MessagesFor(t, rest, fd)
  {
    assert ([cmd] + rest)[1..] == rest;
  }

  lemma OneMoreCommand(t: Table, queue: seq<Queued>, fd: int, sent: seq<Message>)
    requires t.Shape() && queue != []
    ensures sent + MessageFor(t, queue[0].cmd, fd) + MessagesFor(t, CommandsOf(queue[1..]), fd)
         == sent + MessagesFor(t, CommandsOf(queue), fd)
  {
    hide MessageFor, MessagesFor;
    var rest := CommandsOf(queue[1..]);
    MessagesForCons(t, queue[0].cmd, rest, fd);
    assert sent + MessageFor(t, queue[0].cmd, fd) + MessagesFor(t, rest, fd)
        == sent + (MessageFor(t, queue[0].cmd, fd) + MessagesFor(t, rest, fd));
  }

  lemma LiveFacts(s: State)
    requires Inv(s)
    ensures s.table.Shape() && s.table.Agrees() && s.live.Keys == s.table.Connected()
    ensures forall fd <- s.live :: s.live[fd] in s.wire
    ensures s.nextGeneration !in s.wire
    ensures forall fd <- s.live :: 0 <= fd
  {
    forall fd <- s.live ensures 0 <= fd {
      LookupIsExact(s.table, fd);
    }
  }

  lemma DrainOne(s0: State, s: State, broken: set<int>) returns (u: State)
    requires CanBecome(s0, s) && Inv(s) && s.pc.AtCheck? && s.queue != []
    ensures CanBecome(s0, u) && Inv(u) && u.pc == s.pc && u.queue == s.queue[1..]
    ensures (u.table, u.live, u.nextGeneration, u.pushed) == (s.table, s.live, s.nextGeneration, s.pushed)
    ensures u.log == s.log + [Entry(s.queue[0], s.live, broken)]
    ensures forall fd <- s.live | fd !in broken ::
              && s.live[fd] in s.wire && s.live[fd] in u.wire
              && u.wire[s.live[fd]] == s.wire[s.live[fd]] + MessageFor(s.table, s.queue[0].cmd, fd)
  {
    LiveFacts(s);
    hide Inv, CanBecome, Write, MessageFor, Table.Agrees;
    u := CanStep(s0, s, Check);
    u := CanStep(s0, u, Pop);
    forall fd <- s.live | fd !in broken
      ensures s.live[fd] in DoApply(u, broken).wire
      ensures DoApply(u, broken).wire[s.live[fd]] == s.wire[s.live[fd]] + MessageFor(s.table, s.queue[0].cmd, fd)
    {
      ApplyOne(u, broken, fd);
    }
    u := CanStep(s0, u, Apply(broken));
  }

  /** The second phase: a waiting client is accepted, or there is none. */
  lemma AcceptRun(s0: State, s: State, waiting: Option<int>, parserAllocated: bool) returns (u: State)
    requires CanBecome(s0, s) && Inv(s) && s.pc.AtAccept? && (s.pc.accept <==> waiting.Some?)
    requires waiting.Some? && 0 <= waiting.value ==> waiting.value !in s.live
    ensures CanBecome(s0, u) && Inv(u) && u.pc == AtClient(0, s.pc.ready) && u.queue == s.queue
    ensures s.table.Shape()
    ensures if waiting == None then (u.table, u.live, u.wire) == (s.table, s.live, s.wire)
            else if Add(s.table, waiting.value, parserAllocated).1.Added?
            then && u.table == Add(s.table, waiting.value, parserAllocated).0
                 && u.live == s.live[waiting.value := s.nextGeneration]
                 && u.wire == s.wire[s.nextGeneration := []]
            else && u.table == Add(s.table, waiting.value, parserAllocated).0
                 && (u.live, u.wire) == (s.live, s.wire)
  {
    LiveFacts(s);
    hide Inv, CanBecome, Add, Table.Agrees, Enabled, Next;
    if waiting == None {
      NobodyWaits(s);
      u := CanStep(s0, s, SkipAccept);
    } else {
      AcceptStep(s, waiting.value, parserAllocated);
      u := CanStep(s0, s, Accept(waiting.value, parserAllocated));
      if Add(s.table, waiting.value, parserAllocated).1.Added? {
        LiveFacts(u);
        ConnectReturns(u);
        u := CanStep(s0, u, CallbackReturn(true));
      }
    }
  }

  lemma NobodyWaits(s: State)
    requires s.pc.AtAccept? && !s.pc.accept
    ensures Enabled(s, SkipAccept) && Next(s, SkipAccept) == s.(pc := AtClient(0, s.pc.ready))
  {}

  lemma AcceptStep(s: State, fd: int, parserAllocated: bool)
    requires s.pc.AtAccept? && s.pc.accept && s.table.Shape() && (0 <= fd ==> fd !in s.live)
    ensures Enabled(s, Accept(fd, parserAllocated))
    ensures var u := Next(s, Accept(fd, parserAllocated));
      && u.table == Add(s.table, fd, parserAllocated).0 && u.queue == s.queue
      && if Add(s.table, fd, parserAllocated).1.Added?
         then && u.pc == InCallback(OnConnect, false, s.pc.ready)
              && u.live == s.live[fd := s.nextGeneration] && u.wire == s.wire[s.nextGeneration := []]
         else u.pc == AtClient(0, s.pc.ready) && (u.live, u.wire) == (s.live, s.wire)
  {
    hide Add;
  }

  lemma ConnectReturns(s: State)
    requires s.pc.InCallback? && s.pc.callback == OnConnect && !s.pc.owes && s.table.Shape()
    ensures Enabled(s, CallbackReturn(true)) && Next(s, CallbackReturn(true)) == s.(pc := AtClient(0, s.pc.ready))
  {}

  /** What became of a slot: no event, all parsed, a parse failure, the client gone, or none of these. */
  datatype SlotEvent = Quiet | Parsed | Unparsed | Left | Ignored

  predicate Drops(kind: SlotEvent) {
    kind == Unparsed || kind == Left
  }

  function Marks(kinds: seq<SlotEvent>): (marked: seq<bool>)
    ensures |marked| == |kinds| && forall i | 0 <= i < |kinds| :: marked[i] <==> Drops(kinds[i])
  {
    seq(|kinds|, i requires 0 <= i < |kinds| => Drops(kinds[i]))
  }

  /** One slot of the third phase. */
  lemma SlotRun(s0: State, s: State, kind: SlotEvent) returns (u: State)
    requires CanBecome(s0, s) && Inv(s) && s.pc.AtClient? && s.pc.slot < s.table.MaxClients()
    requires s.pc.slot in s.pc.ready <==> kind != Quiet
    ensures s.table.Shape()
    ensures CanBecome(s0, u) && Inv(u) && u.pc == AtClient(s.pc.slot + 1, s.pc.ready)
    ensures u.table == if Drops(kind) then Remove(s.table, s.pc.slot) else s.table
    ensures u.live == if Drops(kind) then s.live - {s.table.pollFd[s.pc.slot]} else s.live
    ensures (u.wire, u.queue) == (s.wire, s.queue)
  {
    LiveFacts(s);
    hide Inv, CanBecome, Remove, Table.Agrees, Enabled, Next;
    if kind == Quiet {
      NoEvent(s);
      u := CanStep(s0, s, NextClient);
    } else if kind == Ignored {
      ClientStep(s, Nothing);
      u := CanStep(s0, s, Client(Nothing));
    } else {
      u := CallbackRun(s0, s, if kind == Left then Gone else Data, kind == Parsed);
    }
  }

  lemma CallbackRun(s0: State, s: State, event: ClientEvent, parsed: bool) returns (u: State)
    requires CanBecome(s0, s) && Inv(s) && s.pc.AtClient? && s.pc.slot < s.table.MaxClients() && s.pc.slot in s.pc.ready
    requires s.table.Shape() && event != Nothing && (parsed ==> event == Data)
    ensures CanBecome(s0, u) && Inv(u) && u.pc == AtClient(s.pc.slot + 1, s.pc.ready)
    ensures u.table == if parsed then s.table else Remove(s.table, s.pc.slot)
    ensures u.live == if parsed then s.live else s.live - {s.table.pollFd[s.pc.slot]}
    ensures (u.wire, u.queue) == (s.wire, s.queue)
  {
    hide Inv, CanBecome, Remove, Enabled, Next;
    ClientStep(s, event);
    u := CanStep(s0, s, Client(event));
    CallbackEnds(u, s.pc.slot, parsed);
    u := CanStep(s0, u, CallbackReturn(parsed));
  }

  lemma NoEvent(s: State)
    requires s.pc.AtClient? && s.pc.slot < s.table.MaxClients() && s.pc.slot !in s.pc.ready
    ensures Enabled(s, NextClient) && Next(s, NextClient) == s.(pc := AtClient(s.pc.slot + 1, s.pc.ready))
  {}

  lemma ClientStep(s: State, event: ClientEvent)
    requires s.pc.AtClient? && s.pc.slot < s.table.MaxClients() && s.pc.slot in s.pc.ready
    ensures Enabled(s, Client(event))
    ensures Next(s, Client(event)) == s.(pc := if event == Nothing then AtClient(s.pc.slot + 1, s.pc.ready)
              else InCallback(if event == Data then OnMessages(s.pc.slot) else OnDisconnect(s.pc.slot),
                              false, s.pc.ready))
  {}

  /** A callback for a slot returns; the client stays exactly if its messages parsed. */
  lemma CallbackEnds(s: State, slot: nat, parsed: bool)
    requires s.pc.InCallback? && !s.pc.owes
    requires s.pc.callback == OnMessages(slot) || s.pc.callback == OnDisconnect(slot)
    requires s.table.Shape() && slot < s.table.MaxClients()
    ensures Enabled(s, CallbackReturn(parsed))
    ensures var u := Next(s, CallbackReturn(parsed)); var stays := parsed && s.pc.callback.OnMessages?;
      && u.pc == AtClient(slot + 1, s.pc.ready)
      && u.table == (if stays then s.table else Remove(s.table, slot))
      && u.live == (if stays then s.live else s.live - {s.table.pollFd[slot]})
      && (u.wire, u.queue) == (s.wire, s.queue)
  {
    hide Remove;
  }

  /** The first `n` slots. */
  lemma {:induction false} SlotsRun(s0: State, s: State, kinds: seq<SlotEvent>, n: nat) returns (u: State)
    requires CanBecome(s0, s) && Inv(s) && s.pc.AtClient? && s.pc.slot == 0
    requires n <= |kinds| == s.table.MaxClients()
    requires forall i: nat | i < |kinds| :: i in s.pc.ready <==> kinds[i] != Quiet
    ensures s.table.Shape()
    ensures CanBecome(s0, u) && Inv(u) && u.pc == AtClient(n, s.pc.ready)
    ensures u.table == RemoveMarked(s.table, Marks(kinds)[..n])
    ensures forall fd <- u.live :: fd in s.live && u.live[fd] == s.live[fd]
    ensures (u.wire, u.queue) == (s.wire, s.queue)
  {
    LiveFacts(s);
    hide Inv, CanBecome, Remove, Table.Agrees, Marks;
    if n == 0 {
      u := s;
    } else {
      var t := SlotsRun(s0, s, kinds, n - 1);
      u := SlotRun(s0, t, kinds[n - 1]);
      assert Marks(kinds)[..n][..n - 1] == Marks(kinds)[..n - 1];
    }
  }

  lemma {:induction false} NothingMarked(t: Table, kinds: seq<SlotEvent>, n: nat)
    requires t.Shape() && n <= |kinds| <= t.MaxClients() && forall i | 0 <= i < |kinds| :: kinds[i] == Quiet
    ensures RemoveMarked(t, Marks(kinds)[..n]) == t
  {
    if 0 < n {
      assert Marks(kinds)[..n][..n - 1] == Marks(kinds)[..n - 1];
      NothingMarked(t, kinds, n - 1);
    }
  }

  lemma CanStay(s: State)
    ensures CanBecome(s, s)
  {
    assert IsRun(s, []) && After(s, []) == s;
  }

  /** The commands that an iteration drains: all, if the pipe holds a byte. */
  function Drained(s: State): seq<Command> {
    if 0 < s.pipe then CommandsOf(s.queue) else []
  }

  /** What an iteration leaves of the connections and of what was written to the healthy ones. */
  ghost predicate IterationWires(s: State, u: State, waiting: Option<int>, broken: set<int>) {
    s.table.Shape() && forall fd <- u.live | fd !in broken ::
      && u.live[fd] in u.wire
      && if fd in s.live
         then s.live[fd] in s.wire && u.wire[u.live[fd]] == s.wire[s.live[fd]] + MessagesFor(s.table, Drained(s), fd)
         else waiting == Some(fd) && u.wire[u.live[fd]] == []
  }

  /** The tables after an accept. */
  function Accepted(t: Table, waiting: Option<int>, parserAllocated: bool): (u: Table)
    requires t.Shape()
    ensures u.Shape() && u.MaxClients() == t.MaxClients()
  {
    if waiting == None then t else Add(t, waiting.value, parserAllocated).0
  }

  /** From poll to the end of the drain, or past it. */
  lemma PollAndDrain(s: State, accept: bool, ready: set<nat>, broken: set<int>) returns (u: State)
    requires Inv(s) && s.pc == AtPoll && (0 < s.pipe || accept || ready != {})
    requires forall slot <- ready :: SlotInUse(s.table, slot)
    ensures CanBecome(s, u) && Inv(u) && u.pc == AtAccept(accept, ready)
    ensures u.queue == if 0 < s.pipe then [] else s.queue
    ensures (u.table, u.live, u.nextGeneration) == (s.table, s.live, s.nextGeneration)
    ensures IterationWires(s, u, None, broken)
  {
    CanStay(s);
    LiveFacts(s);
    hide Inv, CanBecome, MessagesFor, Table.Agrees, Enabled, Next, IterationWires, EntriesOf;
    Poll(s, accept, ready);
    u := CanStep(s, s, PollReady(accept, ready));
    if 0 < s.pipe {
      var n := if s.pipe < READ_SIZE then s.pipe else READ_SIZE;
      ReadStep(u, n);
      u := CanStep(s, u, Read(n));
      u := DrainRun(s, u, broken);
      assert IterationWires(s, u, None, broken) by {
        forall fd <- s.live | fd !in broken
          ensures u.live[fd] in u.wire
          ensures u.wire[u.live[fd]] == s.wire[s.live[fd]] + MessagesFor(s.table, CommandsOf(s.queue), fd)
        {}
        WiresAfterDrain(s, u, broken);
      }
    } else {
      WiresOfNothing(s, u, broken);
    }
  }

  lemma WiresAfterDrain(s: State, u: State, broken: set<int>)
    requires s.table.Shape() && 0 < s.pipe && u.live == s.live
    requires forall fd <- s.live | fd !in broken ::
               && s.live[fd] in s.wire && u.live[fd] in u.wire
               && u.wire[u.live[fd]] == s.wire[s.live[fd]] + MessagesFor(s.table, CommandsOf(s.queue), fd)
    ensures IterationWires(s, u, None, broken)
  {}

  lemma WiresOfNothing(s: State, u: State, broken: set<int>)
    requires Inv(s) && s.pipe == 0 && (u.live, u.wire) == (s.live, s.wire)
    ensures IterationWires(s, u, None, broken)
  {
    LiveFacts(s);
    hide Inv, MessagesFor, Table.Agrees;
    forall fd <- s.live ensures s.wire[s.live[fd]] == s.wire[s.live[fd]] + MessagesFor(s.table, [], fd) {
      NoMessages(s.table, fd);
    }
  }

  lemma ReadStep(s: State, n: nat)
    requires s.pc.AtRead? && n <= s.pipe && n <= READ_SIZE
    ensures Enabled(s, Read(n)) && Next(s, Read(n)) == s.(pc := AtCheck(s.pc.accept, s.pc.ready), pipe := s.pipe - n)
  {}

  lemma WiresAfterAccept(s: State, a: State, b: State, waiting: Option<int>, parserAllocated: bool, broken: set<int>)
    requires a.table.Shape() && IterationWires(s, a, None, broken)
    requires waiting.Some? && 0 <= waiting.value ==> waiting.value !in s.live
    requires a.live == s.live && a.nextGeneration !in a.wire
    requires if waiting.Some? && Add(a.table, waiting.value, parserAllocated).1.Added?
             then b.live == a.live[waiting.value := a.nextGeneration] && b.wire == a.wire[a.nextGeneration := []]
             else (b.live, b.wire) == (a.live, a.wire)
    ensures IterationWires(s, b, waiting, broken)
  {
    hide MessagesFor;
  }

  lemma WiresAfterServe(s: State, b: State, c: State, waiting: Option<int>, broken: set<int>)
    requires IterationWires(s, b, waiting, broken) && c.wire == b.wire
    requires forall fd <- c.live :: fd in b.live && c.live[fd] == b.live[fd]
    ensures IterationWires(s, c, waiting, broken)
  {
    hide MessagesFor;
  }

  /** Without anything to report there is no iteration. */
  lemma NothingReported(s: State, kinds: seq<SlotEvent>, broken: set<int>)
    requires Inv(s) && s.pipe == 0 && |kinds| == s.table.MaxClients()
    requires forall i | 0 <= i < |kinds| :: kinds[i] == Quiet
    ensures s.table.Shape() && RemoveMarked(s.table, Marks(kinds)) == s.table
    ensures IterationWires(s, s, None, broken)
  {
    LiveFacts(s);
    hide Inv, MessagesFor, Table.Agrees;
    NothingMarked(s.table, kinds, |kinds|);
    assert Marks(kinds)[..|kinds|] == Marks(kinds);
    WiresOfNothing(s, s, broken);
  }

  /** From poll to the first slot. */
  lemma FirstHalf(s: State, waiting: Option<int>, parserAllocated: bool, ready: set<nat>, broken: set<int>)
    returns (u: State)
    requires Inv(s) && s.pc == AtPoll && (0 < s.pipe || waiting.Some? || ready != {})
    requires forall slot <- ready :: SlotInUse(s.table, slot)
    requires waiting.Some? && 0 <= waiting.value ==> waiting.value !in s.live
    ensures CanBecome(s, u) && Inv(u) && u.pc == AtClient(0, ready)
    ensures s.table.Shape() && u.table == Accepted(s.table, waiting, parserAllocated)
    ensures u.queue == if 0 < s.pipe then [] else s.queue
    ensures IterationWires(s, u, waiting, broken)
  {
    LiveFacts(s);
    hide Inv, Table.Agrees, Add, IterationWires, CanBecome, Enabled, Next, SlotInUse;
    var a := PollAndDrain(s, waiting.Some?, ready, broken);
    u := AcceptRun(s, a, waiting, parserAllocated);
    LiveFacts(a);
    WiresAfterAccept(s, a, u, waiting, parserAllocated, broken);
  }

  /** From the first slot to the next poll. */
  lemma SecondHalf(s: State, b: State, kinds: seq<SlotEvent>) returns (u: State)
    requires CanBecome(s, b) && Inv(b) && b.pc.AtClient? && b.pc.slot == 0 && |kinds| == b.table.MaxClients()
    requires forall i: nat | i < |kinds| :: i in b.pc.ready <==> kinds[i] != Quiet
    ensures CanBecome(s, u) && Inv(u) && u.pc == AtPoll
    ensures b.table.Shape() && u.table == RemoveMarked(b.table, Marks(kinds))
    ensures (u.queue, u.wire) == (b.queue, b.wire)
    ensures forall fd <- u.live :: fd in b.live && u.live[fd] == b.live[fd]
  {
    hide Inv, CanBecome, RemoveMarked, Enabled, Next, Marks;
    var c := SlotsRun(s, b, kinds, |kinds|);
    assert Marks(kinds)[..|kinds|] == Marks(kinds);
    LastSlot(c);
    u := CanStep(s, c, NextClient);
  }

  /** An iteration as a run: drain, accept, serve, in this order, and back to poll. */
  lemma IterationRun(s: State, waiting: Option<int>, parserAllocated: bool, kinds: seq<SlotEvent>, broken: set<int>)
    returns (u: State)
    requires Inv(s) && s.pc == AtPoll && |kinds| == s.table.MaxClients()
    requires forall i: nat | i < |kinds| && kinds[i] != Quiet :: SlotInUse(s.table, i)
    requires waiting.Some? && 0 <= waiting.value ==> waiting.value !in s.live
    ensures CanBecome(s, u) && Inv(u) && u.pc == AtPoll
    ensures s.table.Shape() && u.table == RemoveMarked(Accepted(s.table, waiting, parserAllocated), Marks(kinds))
    ensures u.queue == if 0 < s.pipe then [] else s.queue
    ensures IterationWires(s, u, waiting, broken)
  {
    LiveFacts(s);
    hide Inv, Table.Agrees, Add, IterationWires, CanBecome, RemoveMarked, SlotInUse, Marks, Accepted;
    var ready := set i: nat | i < |kinds| && kinds[i] != Quiet;
    assert forall i: nat | i < |kinds| :: i in ready <==> kinds[i] != Quiet;
    if s.pipe == 0 && waiting == None && ready == {} {
      NothingReported(s, kinds, broken);
      CanStay(s);
      u := s;
      assert Accepted(s.table, None, parserAllocated) == s.table by { NobodyAccepted(s.table, parserAllocated); }
    } else {
      var b := FirstHalf(s, waiting, parserAllocated, ready, broken);
      u := SecondHalf(s, b, kinds);
      WiresAfterServe(s, b, u, waiting, broken);
    }
  }

  lemma NobodyAccepted(t: Table, parserAllocated: bool)
    requires t.Shape()
    ensures Accepted(t, None, parserAllocated) == t
  {}

  lemma LastSlot(s: State)
    requires s.pc.AtClient? && s.table.MaxClients() <= s.pc.slot
    ensures Enabled(s, NextClient) && Next(s, NextClient) == s.(pc := AtPoll)
  {}
}
