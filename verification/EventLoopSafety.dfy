/** What every run of the event loop keeps. */
module EventLoopSafety {
  import opened Framing
  import opened Transport
  import opened SlotTables
  import opened Commands
  import opened EventLoops

  /** The table agrees and holds exactly the live connections; generations tell connections apart. */
  ghost predicate Indexed(s: State) {
    && s.table.Agrees()
    && s.live.Keys == s.table.Connected()
    && Generations(s.live, s.wire, s.nextGeneration)
  }

  ghost predicate Generations(live: Connections, wire: map<nat, seq<Message>>, nextGeneration: nat) {
    && (forall fd <- live :: live[fd] < nextGeneration)
    && (forall fd <- live, d <- live :: live[fd] == live[d] ==> fd == d)
    && (forall g: nat :: g in wire <==> g < nextGeneration)
  }

  lemma NewGeneration(live: Connections, wire: map<nat, seq<Message>>, nextGeneration: nat, fd: int)
    requires Generations(live, wire, nextGeneration)
    ensures Generations(live[fd := nextGeneration], wire[nextGeneration := []], nextGeneration + 1)
  {}

  predicate AllOccupied(t: Table, ready: set<nat>, from: nat) {
    forall slot <- ready :: from <= slot ==> SlotInUse(t, slot)
  }

  /** The loop handles data only for occupied slots, and a pop after a failed emptiness test finds a
      command. */
  predicate Guarded(s: State) {
    match s.pc
    case AtRead(_, ready) => AllOccupied(s.table, ready, 0)
    case AtCheck(_, ready) => AllOccupied(s.table, ready, 0)
    case AtPop(_, ready) => AllOccupied(s.table, ready, 0) && s.queue != []
    case AtApply(_, _, ready) => AllOccupied(s.table, ready, 0)
    case AtAccept(_, ready) => AllOccupied(s.table, ready, 0)
    case AtClient(slot, ready) => slot <= s.table.MaxClients() && AllOccupied(s.table, ready, slot)
    case InCallback(OnConnect, _, ready) => AllOccupied(s.table, ready, 0)
    case InCallback(OnMessages(slot), _, ready) => AllOccupied(s.table, ready, slot + 1) && SlotInUse(s.table, slot)
    case InCallback(OnDisconnect(slot), _, ready) => AllOccupied(s.table, ready, slot + 1) && SlotInUse(s.table, slot)
    case NullDereference => false
    case _ => true
  }

  function Owed(s: State): nat {
    s.others + if s.pc.InCallback? && s.pc.owes then 1 else 0
  }

  /** Outside the drain, every queued command is announced: by a byte in the pipe, or by a thread that
      is about to write one. */
  predicate Announced(s: State) {
    Draining(s.pc) || |s.queue| <= s.pipe + Owed(s)
  }

  function Held(s: State): seq<Queued> {
    if s.pc.AtApply? then [s.pc.q] else []
  }

  /** Every stored command is in exactly one place, in the order of the pushes. */
  predicate InOrder(s: State) {
    && s.pushed == s.destroyed + Held(s) + s.queue
    && (s.pc != Destroyed ==> |s.log| == |s.destroyed|)
    && |s.log| <= |s.destroyed|
    && (forall k | 0 <= k < |s.log| :: s.log[k].q == s.destroyed[k])
  }

  predicate CoveredIn(queue: seq<Queued>) {
    exists k :: 0 <= k < |queue| && queue[k].covered
  }

  /** The connections alive now against those at the time of a push: a connection is older than the
      push exactly when it was alive then under the same descriptor. */
  ghost predicate Dated(q: Queued, live: Connections) {
    forall fd <- live :: live[fd] < q.stamp <==> (fd in q.live && q.live[fd] == live[fd])
  }

  ghost predicate WellDated(q: Queued, live: Connections, nextGeneration: nat) {
    && Dated(q, live)
    && q.stamp <= nextGeneration
    && (q.origin == FromLoop ==> q.covered)
    && (q.covered ==> q.stamp == nextGeneration)
    && (forall fd <- q.live :: q.live[fd] < q.stamp)
  }

  /** No client is accepted while a covered command waits. */
  ghost predicate Fresh(s: State) {
    && (forall k | 0 <= k < |s.queue| :: WellDated(s.queue[k], s.live, s.nextGeneration))
    && (s.pc.AtApply? ==> WellDated(s.pc.q, s.live, s.nextGeneration))
    && (CoveredIn(s.queue) && !Draining(s.pc) && !s.pc.AtRead? ==> 0 < s.pipe || (s.pc.InCallback? && s.pc.owes))
    && (s.pc.AtAccept? && s.pc.accept && HasRoom(s) ==> !CoveredIn(s.queue))
  }

  /** The messages that the processed commands leave on generation `g`. */
  predicate Reaches(entry: Entry, g: nat) {
    Framed(entry.q.cmd)
    && exists fd <- entry.live :: entry.live[fd] == g && Addresses(entry.q.cmd, fd) && fd !in entry.failed
  }

  function Sent(log: seq<Entry>, g: nat): seq<Message> {
    if log == [] then []
    else
      var last := log[|log| - 1];
      Sent(log[..|log| - 1], g)
      + if Reaches(last, g) then [OnWire(last.q.cmd.kind, last.q.cmd.payload)] else []
  }

  /** Each connection has been sent exactly the messages addressed to it, and every processed command
      went to connections as dated at its push. */
  ghost predicate Recorded(s: State) {
    && (forall g <- s.wire :: s.wire[g] == Sent(s.log, g))
    && (forall k | 0 <= k < |s.log| ::
          && Dated(s.log[k].q, s.log[k].live)
          && (s.log[k].q.origin == FromLoop ==> s.log[k].q.covered)
          && (s.log[k].q.covered ==> forall fd <- s.log[k].live :: s.log[k].live[fd] < s.log[k].q.stamp))
    && (forall k, fd | 0 <= k < |s.log| && fd in s.log[k].live :: s.log[k].live[fd] < s.nextGeneration)
  }

  predicate Counted(s: State) {
    s.connects == s.disconnects + s.parseFailures + s.table.clientCount
  }

  ghost predicate Inv(s: State) {
    Indexed(s) && Guarded(s) && Announced(s) && InOrder(s) && Fresh(s) && Recorded(s) && Counted(s)
  }

  lemma InitInv(maxClients: nat)
    ensures Inv(Init(maxClients))
  {
    EmptyAgrees(maxClients);
  }

  lemma AnnouncedStep(s: State, e: Event)
    requires Guarded(s) && Announced(s) && Enabled(s, e)
    ensures Announced(Next(s, e))
  {
    hide AllOccupied, SlotInUse, Add, Remove, Write;
  }

  lemma InOrderStep(s: State, e: Event)
    requires InOrder(s) && Enabled(s, e)
    ensures InOrder(Next(s, e))
  {
    hide AllOccupied, SlotInUse, Add, Remove, Write;
    if e.Pop? || e.Apply? || e.Destroy? {
      InOrderMove(s, e);
    } else if e.CallbackPush? || e.OtherPush? {
      InOrderPush(s, e);
    } else {
      assert Held(Next(s, e)) == Held(s);
    }
  }

  lemma InOrderMove(s: State, e: Event)
    requires InOrder(s) && Enabled(s, e) && (e.Pop? || e.Apply? || e.Destroy?)
    ensures InOrder(Next(s, e))
  {
    hide AllOccupied, SlotInUse, Add, Remove, Write;
    match e
    case Pop =>
      assert s.queue != [] ==> s.queue == [s.queue[0]] + s.queue[1..];
    case Apply(_) =>
    case Destroy =>
  }

  lemma InOrderPush(s: State, e: Event)
    requires InOrder(s) && Enabled(s, e) && (e.CallbackPush? || e.OtherPush?)
    ensures InOrder(Next(s, e))
  {
    hide AllOccupied, SlotInUse, Add, Remove, Write;
    var t := Next(s, e);
    assert Held(t) == Held(s);
    assert t.queue == s.queue + t.queue[|s.queue|..];
    assert s.destroyed + Held(s) + s.queue + t.queue[|s.queue|..] == s.destroyed + Held(s) + t.queue;
  }

  lemma GuardedStep(s: State, e: Event)
    requires Guarded(s) && Indexed(s) && Enabled(s, e)
    ensures Guarded(Next(s, e))
  {
    hide Indexed, SlotInUse, Add, Remove, Write, Table.Agrees, Table.Shape;
    if e.Accept? {
      GuardedAccept(s, e.fd, e.parserAllocated);
    } else if e.CallbackReturn? {
      GuardedReturn(s, e.parsed);
    }
  }

  lemma GuardedAccept(s: State, fd: int, parserAllocated: bool)
    requires Guarded(s) && Indexed(s) && Enabled(s, Accept(fd, parserAllocated))
    ensures Guarded(Next(s, Accept(fd, parserAllocated)))
  {
    AddKeepsAgreement(s.table, fd, parserAllocated);
    var t := Next(s, Accept(fd, parserAllocated));
    hide Add, Table.Agrees;
    assert forall slot: nat :: SlotInUse(s.table, slot) ==> SlotInUse(t.table, slot);
  }

  lemma GuardedReturn(s: State, parsed: bool)
    requires Guarded(s) && Indexed(s) && Enabled(s, CallbackReturn(parsed))
    ensures Guarded(Next(s, CallbackReturn(parsed)))
  {
    if s.pc.callback != OnConnect {
      RemoveKeepsAgreement(s.table, s.pc.callback.slot);
    }
    hide Remove, Table.Agrees;
    var t := Next(s, CallbackReturn(parsed));
  }

  lemma CountedStep(s: State, e: Event)
    requires Counted(s) && Indexed(s) && Guarded(s) && Enabled(s, e)
    ensures Counted(Next(s, e))
  {
    if e.Accept? {
      AddKeepsAgreement(s.table, e.fd, e.parserAllocated);
    } else if e.CallbackReturn? && s.pc.callback != OnConnect {
      RemoveKeepsAgreement(s.table, s.pc.callback.slot);
    }
    hide Table.Agrees, AllOccupied, FirstFree;
  }

  lemma IndexedStep(s: State, e: Event)
    requires Indexed(s) && Guarded(s) && Enabled(s, e)
    ensures Indexed(Next(s, e))
  {
    if e.Accept? {
      IndexedAccept(s, e.fd, e.parserAllocated);
    } else if e.CallbackReturn? {
      IndexedReturn(s, e.parsed);
    } else if e.Apply? {
      hide Table.Agrees;
      if Framed(s.pc.q.cmd) {
        var cmd := s.pc.q.cmd;
        WriteKeys(s.wire, s.live, Recipients(s.table, cmd), OnWire(cmd.kind, cmd.payload), e.failed);
      }
    } else {
      hide Table.Agrees, Guarded, AllOccupied, SlotInUse;
      var t := Next(s, e);
      assert (t.table, t.live, t.nextGeneration, t.wire) == (s.table, s.live, s.nextGeneration, s.wire);
    }
  }

  lemma IndexedAccept(s: State, fd: int, parserAllocated: bool)
    requires Indexed(s) && Enabled(s, Accept(fd, parserAllocated))
    ensures Indexed(Next(s, Accept(fd, parserAllocated)))
  {
    AddKeepsAgreement(s.table, fd, parserAllocated);
    NewGeneration(s.live, s.wire, s.nextGeneration, fd);
    hide Add, Table.Agrees, InUse, Generations;
  }

  lemma IndexedReturn(s: State, parsed: bool)
    requires Indexed(s) && Guarded(s) && Enabled(s, CallbackReturn(parsed))
    ensures Indexed(Next(s, CallbackReturn(parsed)))
  {
    if s.pc.callback != OnConnect {
      RemoveKeepsAgreement(s.table, s.pc.callback.slot);
    }
    hide Remove, Table.Agrees;
  }

  lemma {:induction false} WriteKeys(wire: map<nat, seq<Message>>, live: Connections, fds: seq<int>, m: Message,
                                     failed: set<int>)
    ensures Write(wire, live, fds, m, failed).Keys == wire.Keys
  {
    if fds != [] {
      var fd := fds[0];
      var hit := fd !in failed && fd in live && live[fd] in wire;
      WriteKeys(if hit then wire[live[fd] := wire[live[fd]] + [m]] else wire, live, fds[1..], m, failed);
    }
  }

  /** Every connection whose descriptor is written to gets the message once, and no other gets it. */
  lemma {:induction false} WriteIsExact(wire: map<nat, seq<Message>>, live: Connections, fds: seq<int>, m: Message,
                                        failed: set<int>, g: nat)
    requires NoDuplicates(fds) && g in wire
    requires forall fd <- live, d <- live :: live[fd] == live[d] ==> fd == d
    ensures g in Write(wire, live, fds, m, failed)
    ensures Write(wire, live, fds, m, failed)[g]
         == wire[g] + if exists fd <- fds :: fd in live && live[fd] == g && fd !in failed then [m] else []
  {
    if fds != [] {
      var fd := fds[0];
      var hit := fd !in failed && fd in live && live[fd] in wire;
      var next := if hit then wire[live[fd] := wire[live[fd]] + [m]] else wire;
      assert forall i | 0 <= i < |fds[1..]| :: fds[1..][i] == fds[i + 1];
      WriteIsExact(next, live, fds[1..], m, failed, g);
      assert fds == [fd] + fds[1..];
      if hit && live[fd] == g {
        forall d <- fds[1..] ensures !(d in live && live[d] == g) {
          var i :| 0 <= i < |fds[1..]| && fds[1..][i] == d;
          assert fds[0] != fds[i + 1];
        }
      }
    }
  }

  lemma FreshStep(s: State, e: Event)
    requires Indexed(s) && Guarded(s) && Fresh(s) && Enabled(s, e)
    ensures Fresh(Next(s, e))
  {
    if e.Accept? {
      FreshAccept(s, e.fd, e.parserAllocated);
    } else if e.CallbackReturn? {
      FreshReturn(s, e.parsed);
    } else if e.CallbackPush? || e.OtherPush? {
      FreshPush(s, e);
    } else {
      hide WellDated, Indexed, AllOccupied, SlotInUse, Write;
      var t := Next(s, e);
    }
  }

  lemma FreshPush(s: State, e: Event)
    requires Indexed(s) && Fresh(s) && Enabled(s, e) && (e.CallbackPush? || e.OtherPush?)
    ensures Fresh(Next(s, e))
  {
    var t := Next(s, e);
    hide Table.Agrees;
    if s.queue != t.queue {
      var q := t.queue[|s.queue|];
      assert WellDated(q, t.live, t.nextGeneration);
      hide WellDated, Indexed;
      assert forall k | 0 <= k < |s.queue| :: t.queue[k] == s.queue[k];
      assert CoveredIn(s.queue) ==> CoveredIn(t.queue);
    }
  }

  lemma FreshAccept(s: State, fd: int, parserAllocated: bool)
    requires Indexed(s) && Fresh(s) && Enabled(s, Accept(fd, parserAllocated))
    ensures Fresh(Next(s, Accept(fd, parserAllocated)))
  {
    AddKeepsAgreement(s.table, fd, parserAllocated);
    var t := Next(s, Accept(fd, parserAllocated));
    var added := Add(s.table, fd, parserAllocated).1.Added?;
    assert added ==> HasRoom(s);
    hide Add, Table.Agrees, HasRoom;
    forall k | 0 <= k < |s.queue| ensures WellDated(t.queue[k], t.live, t.nextGeneration) {
      assert WellDated(s.queue[k], s.live, s.nextGeneration);
      assert added ==> !s.queue[k].covered;
    }
  }

  lemma FreshReturn(s: State, parsed: bool)
    requires Indexed(s) && Fresh(s) && Enabled(s, CallbackReturn(parsed))
    ensures Fresh(Next(s, CallbackReturn(parsed)))
  {
    hide Remove, Table.Agrees;
    var t := Next(s, CallbackReturn(parsed));
    forall k | 0 <= k < |s.queue| ensures WellDated(t.queue[k], t.live, t.nextGeneration) {
      assert WellDated(s.queue[k], s.live, s.nextGeneration);
    }
  }

  lemma RecordedStep(s: State, e: Event)
    requires Indexed(s) && Fresh(s) && Recorded(s) && Enabled(s, e)
    ensures Recorded(Next(s, e))
  {
    if e.Apply? {
      RecordedApply(s, e.failed);
    } else if e.Accept? {
      RecordedAccept(s, e.fd, e.parserAllocated);
    } else {
      hide Recorded, Indexed, Fresh, AllOccupied, SlotInUse, Write, Remove;
      var t := Next(s, e);
      assert (t.log, t.wire, t.nextGeneration) == (s.log, s.wire, s.nextGeneration);
      RecordedQuiet(s, t);
    }
  }

  lemma RecordedQuiet(s: State, t: State)
    requires Recorded(s) && (t.log, t.wire, t.nextGeneration) == (s.log, s.wire, s.nextGeneration)
    ensures Recorded(t)
  {}

  lemma {:induction false} NotYetSent(log: seq<Entry>, g: nat)
    requires forall k, fd | 0 <= k < |log| && fd in log[k].live :: log[k].live[fd] < g
    ensures Sent(log, g) == []
  {
    if log != [] {
      NotYetSent(log[..|log| - 1], g);
      assert !Reaches(log[|log| - 1], g);
    }
  }

  lemma RecordedAccept(s: State, fd: int, parserAllocated: bool)
    requires Indexed(s) && Fresh(s) && Recorded(s) && Enabled(s, Accept(fd, parserAllocated))
    ensures Recorded(Next(s, Accept(fd, parserAllocated)))
  {
    var t := Next(s, Accept(fd, parserAllocated));
    NotYetSent(s.log, s.nextGeneration);
    hide Add, Sent, Dated, Table.Agrees;
  }

  lemma RecordedApply(s: State, failed: set<int>)
    requires Indexed(s) && Fresh(s) && Recorded(s) && Enabled(s, Apply(failed))
    ensures Recorded(Next(s, Apply(failed)))
  {
    var t := Next(s, Apply(failed));
    var q := s.pc.q;
    var entry := Entry(q, s.live, failed);
    assert t.log == s.log + [entry];
    RecipientsAreExact(s.table, q.cmd);
    forall g <- t.wire ensures t.wire[g] == Sent(t.log, g) {
      SentOneMore(s, q, failed, g);
    }
    assert WellDated(q, s.live, s.nextGeneration);
    forall k, fd | 0 <= k < |t.log| && fd in t.log[k].live ensures t.log[k].live[fd] < t.nextGeneration {
      assert k < |s.log| ==> t.log[k] == s.log[k];
    }
    forall k | 0 <= k < |t.log|
      ensures Dated(t.log[k].q, t.log[k].live)
        && (t.log[k].q.origin == FromLoop ==> t.log[k].q.covered)
        && (t.log[k].q.covered ==> forall fd <- t.log[k].live :: t.log[k].live[fd] < t.log[k].q.stamp)
    {
      assert k < |s.log| ==> t.log[k] == s.log[k];
    }
  }

  lemma SentOneMore(s: State, q: Queued, failed: set<int>, g: nat)
    requires Indexed(s) && Recorded(s) && s.pc.AtApply? && s.pc.q == q && g in DoApply(s, failed).wire
    ensures DoApply(s, failed).wire[g] == Sent(s.log + [Entry(q, s.live, failed)], g)
  {
    var entry := Entry(q, s.live, failed);
    var fds := Recipients(s.table, q.cmd);
    var m := OnWire(q.cmd.kind, q.cmd.payload);
    RecipientsAreExact(s.table, q.cmd);
    if Framed(q.cmd) {
      WriteKeys(s.wire, s.live, fds, m, failed);
      WriteIsExact(s.wire, s.live, fds, m, failed, g);
    }
    assert (s.log + [entry])[..|s.log|] == s.log;
    hide Write, Recipients, Table.Agrees;
  }

  /** One step keeps everything. */
  lemma StepInv(s: State, e: Event)
    requires Inv(s) && Enabled(s, e)
    ensures Inv(Next(s, e))
  {
    IndexedStep(s, e);
    GuardedStep(s, e);
    AnnouncedStep(s, e);
    InOrderStep(s, e);
    FreshStep(s, e);
    RecordedStep(s, e);
    CountedStep(s, e);
  }

  /** So does every run. */
  lemma {:induction false} RunInv(s: State, events: seq<Event>)
    requires Inv(s) && IsRun(s, events)
    ensures Inv(After(s, events))
    decreases |events|
  {
    if events != [] {
      StepInv(s, events[0]);
      RunInv(Next(s, events[0]), events[1..]);
    }
  }

  /** `s` can become `t`. */
  ghost predicate CanBecome(s: State, t: State) {
    exists events :: IsRun(s, events) && After(s, events) == t
  }

  lemma {:induction false} RunSnoc(s: State, events: seq<Event>, e: Event)
    requires IsRun(s, events) && Enabled(After(s, events), e)
    ensures IsRun(s, events + [e]) && After(s, events + [e]) == Next(After(s, events), e)
    decreases |events|
  {
    if events == [] {
      assert events + [e] == [e] && [e][1..] == [];
    } else {
      assert (events + [e])[1..] == events[1..] + [e];
      RunSnoc(Next(s, events[0]), events[1..], e);
    }
  }

  lemma CanStep(s: State, t: State, e: Event) returns (u: State)
    requires CanBecome(s, t) && Inv(t) && Enabled(t, e)
    ensures u == Next(t, e) && CanBecome(s, u) && Inv(u)
  {
    u := Next(t, e);
    StepInv(t, e);
    var events :| IsRun(s, events) && After(s, events) == t;
    hide Inv, Enabled, Next;
    RunSnoc(s, events, e);
  }

  lemma IndexedFacts(s: State)
    requires Inv(s)
    ensures s.live.Keys == s.table.Connected() && s.table.Agrees()
  {}

  lemma Poll(t: State, accept: bool, ready: set<nat>)
    requires t.pc == AtPoll && (0 < t.pipe || accept || ready != {})
    requires forall slot <- ready :: SlotInUse(t.table, slot)
    ensures Enabled(t, PollReady(accept, ready))
    ensures Next(t, PollReady(accept, ready))
         == t.(pc := if 0 < t.pipe then AtRead(accept, ready) else AtAccept(accept, ready))
  {}

  /** Whom a processed command reached, in plain terms: a client connected then, for whom it was meant, with
      1 to 4091 bytes of payload and no failure. */
  lemma ReachesMeans(entry: Entry, g: nat)
    ensures Reaches(entry, g) <==>
              var cmd := entry.q.cmd;
              1 <= |cmd.payload| <= 4091 && exists fd <- entry.live ::
                && entry.live[fd] == g && fd !in entry.failed
                && match cmd case SendTo(target, _, _) => fd == target case Broadcast(_, _, exclude) => fd != exclude
  {}

  /** One more entry sends its message, with the low byte of the type, exactly to those it reached. */
  lemma SentMeans(log: seq<Entry>, entry: Entry, g: nat)
    ensures Sent(log + [entry], g)
         == Sent(log, g) + if Reaches(entry, g) then [Message(entry.q.cmd.kind % 256, entry.q.cmd.payload)] else []
  {
    assert (log + [entry])[..|log|] == log;
  }
}
