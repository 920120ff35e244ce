/** The promises of the event loop, over every run from a new server. */
module EventLoopTheorems {
  import opened Bytes
  import opened Framing
  import opened Transport
  import opened SlotTables
  import opened Commands
  import opened EventLoops
  import opened EventLoopSafety

  lemma Reached(maxClients: nat, events: seq<Event>)
    requires IsRun(Init(maxClients), events)
    ensures Inv(After(Init(maxClients), events))
  {
    InitInv(maxClients);
    RunInv(Init(maxClients), events);
  }

  /** No lost wake-up: when the loop is about to poll, the queue is no longer than the bytes in the pipe
      and the threads about to write one; so if no thread is in between, a poll that reports anything
      reports the pipe, and the loop goes on to drain the queue. */
  lemma NoLostWakeup(maxClients: nat, events: seq<Event>, accept: bool, ready: set<nat>)
    requires IsRun(Init(maxClients), events)
    ensures var s := After(Init(maxClients), events);
      s.pc == AtPoll ==>
        && |s.queue| <= s.pipe + s.others
        && (s.queue != [] && s.others == 0 && (forall slot <- ready :: SlotInUse(s.table, slot)) ==>
              && Enabled(s, PollReady(accept, ready))
              && Next(s, PollReady(accept, ready)).pc == AtRead(accept, ready))
  {
    Reached(maxClients, events);
  }

  /** Descriptor reuse: a command whose push was covered - always so in a callback on the loop thread - is
      processed while every connection is one that was there at the push, under the same descriptor, so
      that neither its target nor its excluded descriptor can have passed to a later client. For any
      command, a connection is one from the time of the push exactly when its generation is older than
      the push. */
  lemma FdReuseSafety(maxClients: nat, events: seq<Event>, k: nat, fd: int)
    requires IsRun(Init(maxClients), events)
    requires var log := After(Init(maxClients), events).log; k < |log| && fd in log[k].live
    ensures var entry := After(Init(maxClients), events).log[k];
      var heldAtPush := fd in entry.q.live && entry.q.live[fd] == entry.live[fd];
      && (heldAtPush <==> entry.live[fd] < entry.q.stamp)
      && (entry.q.origin == FromLoop ==> entry.q.covered)
      && (entry.q.covered ==> heldAtPush)
  {
    Reached(maxClients, events);
    var s := After(Init(maxClients), events);
    assert Dated(s.log[k].q, s.log[k].live);
  }

  /** Drain safety and exactly-once: a pop never comes back empty, the stored commands are, in push order,
      the destroyed ones, the one in hand and the waiting ones, and after the queue is destroyed every
      command ever stored has been destroyed once. */
  lemma DrainSafety(maxClients: nat, events: seq<Event>)
    requires IsRun(Init(maxClients), events)
    ensures var s := After(Init(maxClients), events);
      && s.pc != NullDereference
      && s.pushed == s.destroyed + Held(s) + s.queue
      && (Enabled(s, Destroy) ==> Next(s, Destroy).destroyed == s.pushed && Next(s, Destroy).queue == [])
  {
    Reached(maxClients, events);
    var s := After(Init(maxClients), events);
    assert s.destroyed + [] + s.queue == s.destroyed + s.queue;
  }

  /** Between any two steps the tables agree, the count is within the capacity, every accepted
      connection is accounted for, and the next `accept` cannot fail to find a slot once it has passed
      the capacity check. */
  lemma TablesAgree(maxClients: nat, events: seq<Event>, fd: int, parserAllocated: bool)
    requires IsRun(Init(maxClients), events)
    ensures var s := After(Init(maxClients), events);
      && s.table.Agrees()
      && s.live.Keys == s.table.Connected()
      && s.table.MaxClients() == maxClients
      && 0 <= s.table.clientCount <= maxClients
      && s.connects - s.disconnects - s.parseFailures == s.table.clientCount
      && (Enabled(s, Accept(fd, parserAllocated)) ==> Add(s.table, fd, parserAllocated).1 != NoFreeSlot)
  {
    Reached(maxClients, events);
    var s := After(Init(maxClients), events);
    SameCapacity(Init(maxClients), events);
    if Enabled(s, Accept(fd, parserAllocated)) {
      AddKeepsAgreement(s.table, fd, parserAllocated);
    }
  }

  lemma {:induction false} SameCapacity(s: State, events: seq<Event>)
    requires IsRun(s, events)
    ensures After(s, events).table.MaxClients() == s.table.MaxClients()
    decreases |events|
  {
    if events != [] {
      SameCapacity(Next(s, events[0]), events[1..]);
    }
  }

  /** The positions, in push order, of the commands whose message generation `g` was sent. */
  function Positions(log: seq<Entry>, g: nat): seq<nat> {
    if log == [] then []
    else Positions(log[..|log| - 1], g) + if Reaches(log[|log| - 1], g) then [|log| - 1] else []
  }

  predicate Increasing(ks: seq<nat>, bound: nat) {
    && (forall i | 0 <= i < |ks| :: ks[i] < bound)
    && (forall i, j | 0 <= i < j < |ks| :: ks[i] < ks[j])
  }

  lemma PositionsAreExact(log: seq<Entry>, g: nat)
    ensures Increasing(Positions(log, g), |log|)
    ensures forall k: nat :: k in Positions(log, g) <==> k < |log| && Reaches(log[k], g)
    ensures |Sent(log, g)| == |Positions(log, g)|
    ensures forall i | 0 <= i < |Positions(log, g)| ::
              var cmd := log[Positions(log, g)[i]].q.cmd; Sent(log, g)[i] == OnWire(cmd.kind, cmd.payload)
  {
    PositionsIncrease(log, g);
    forall k: nat ensures k in Positions(log, g) <==> k < |log| && Reaches(log[k], g) {
      IsPosition(log, g, k);
    }
    forall i: nat | i < |Positions(log, g)|
      ensures var cmd := log[Positions(log, g)[i]].q.cmd; Sent(log, g)[i] == OnWire(cmd.kind, cmd.payload)
    {
      SentAtPosition(log, g, i);
    }
  }

  lemma {:induction false} IsPosition(log: seq<Entry>, g: nat, k: nat)
    ensures k in Positions(log, g) <==> k < |log| && Reaches(log[k], g)
  {
    if log != [] {
      hide Reaches;
      IsPosition(log[..|log| - 1], g, k);
      assert k < |log| - 1 ==> log[..|log| - 1][k] == log[k];
    }
  }

  lemma {:induction false} PositionsIncrease(log: seq<Entry>, g: nat)
    ensures Increasing(Positions(log, g), |log|)
    ensures |Sent(log, g)| == |Positions(log, g)|
  {
    if log != [] {
      hide Reaches;
      PositionsIncrease(log[..|log| - 1], g);
    }
  }

  lemma {:induction false} SentAtPosition(log: seq<Entry>, g: nat, i: nat)
    requires i < |Positions(log, g)|
    ensures |Sent(log, g)| == |Positions(log, g)| && Positions(log, g)[i] < |log|
    ensures var cmd := log[Positions(log, g)[i]].q.cmd; Sent(log, g)[i] == OnWire(cmd.kind, cmd.payload)
  {
    PositionsIncrease(log, g);
    var earlier := log[..|log| - 1];
    PositionsIncrease(earlier, g);
    hide Reaches;
    if i < |Positions(earlier, g)| {
      SentAtPosition(earlier, g, i);
    }
  }

  /** Delivery is exact and in order: what was written to a connection is the messages of an increasing
      sequence of pushes, and these are exactly the processed commands that address it and whose send to
      it did not fail. */
  lemma DeliveryIsExact(maxClients: nat, events: seq<Event>, g: nat)
    requires IsRun(Init(maxClients), events)
    requires g in After(Init(maxClients), events).wire
    ensures var s := After(Init(maxClients), events);
      var ks := Positions(s.log, g);
      && (forall i | 0 <= i < |ks| :: ks[i] < |s.pushed|)
      && (forall i, j | 0 <= i < j < |ks| :: ks[i] < ks[j])
      && |s.wire[g]| == |ks|
      && (forall i | 0 <= i < |ks| ::
            s.wire[g][i] == OnWire(s.pushed[ks[i]].cmd.kind, s.pushed[ks[i]].cmd.payload))
      && (forall k: nat :: k in ks <==> k < |s.log| && Reaches(s.log[k], g))
  {
    Reached(maxClients, events);
    var s := After(Init(maxClients), events);
    PositionsAreExact(s.log, g);
    assert forall k | 0 <= k < |s.log| :: s.pushed[k] == s.log[k].q;
  }

  lemma {:induction false} SentAccepted(alloc: Allocator, log: seq<Entry>, g: nat)
    requires forall n :: 0 < n <= MAX_PAYLOAD ==> alloc(n)
    ensures AllAccepted(alloc, Sent(log, g))
  {
    if log != [] {
      var last := log[|log| - 1];
      SentAccepted(alloc, log[..|log| - 1], g);
      if Reaches(last, g) {
        AcceptedSnoc(alloc, Sent(log[..|log| - 1], g), OnWire(last.q.cmd.kind, last.q.cmd.payload));
      } else {
        assert Sent(log[..|log| - 1], g) + [] == Sent(log[..|log| - 1], g);
      }
    }
  }

  lemma {:induction false} AcceptedSnoc(alloc: Allocator, ms: seq<Message>, m: Message)
    requires AllAccepted(alloc, ms) && Accepted(alloc, m)
    ensures AllAccepted(alloc, ms + [m])
  {
    if ms != [] {
      assert (ms + [m])[1..] == ms[1..] + [m];
      AcceptedSnoc(alloc, ms[1..], m);
    }
  }

  /** A send to the connection failed and perhaps left a part of its frame on the wire. */
  predicate Fails(entry: Entry, g: nat) {
    !Reaches(entry, g) && Framed(entry.q.cmd)
    && exists fd <- entry.live :: entry.live[fd] == g && Addresses(entry.q.cmd, fd)
  }

  /** The position of the first failed send to a connection, or the end of the log. */
  function FirstFailure(log: seq<Entry>, g: nat): (k: nat)
    ensures k <= |log| && (k < |log| ==> Fails(log[k], g)) && forall j | 0 <= j < k :: !Fails(log[j], g)
  {
    if log == [] then 0 else if Fails(log[0], g) then 0 else 1 + FirstFailure(log[1..], g)
  }

  /** What the processed commands leave on a connection's wire, command by command: a whole frame, a part
      of one, or nothing. */
  ghost predicate IsStream(log: seq<Entry>, g: nat, parts: seq<seq<byte>>) {
    |parts| == |log| && forall k | 0 <= k < |log| ::
      var frame := Encode(OnWire(log[k].q.cmd.kind, log[k].q.cmd.payload));
      if Reaches(log[k], g) then parts[k] == frame else if Fails(log[k], g) then parts[k] <= frame else parts[k] == []
  }

  /** A send fails exactly if the connection belongs to a client that the command is meant for, the payload
      fits, and the socket is among those that failed. */
  lemma FailsMeans(entry: Entry, g: nat)
    requires forall c <- entry.live, d <- entry.live :: entry.live[c] == entry.live[d] ==> c == d
    ensures var cmd := entry.q.cmd;
      Fails(entry, g) <==>
        && 1 <= |cmd.payload| <= 4091
        && exists fd <- entry.live ::
             && entry.live[fd] == g && fd in entry.failed
             && if cmd.SendTo? then fd == cmd.target else fd != cmd.exclude
  {
    if fd :| fd in entry.live && entry.live[fd] == g {
      assert Reaches(entry, g) <==> Framed(entry.q.cmd) && Addresses(entry.q.cmd, fd) && fd !in entry.failed;
    }
  }

  /** So what a connection can carry is: the whole frame of a command that reached it, any part of one whose
      send failed, and nothing else. */
  lemma StreamMeans(log: seq<Entry>, g: nat, parts: seq<seq<byte>>)
    requires |parts| == |log|
    requires forall k | 0 <= k < |log| ::
               var cmd := log[k].q.cmd; var frame := Encode(Message(cmd.kind % 256, cmd.payload));
               && parts[k] <= frame
               && (Reaches(log[k], g) ==> parts[k] == frame)
               && (parts[k] != [] ==> Reaches(log[k], g) || Fails(log[k], g))
    ensures IsStream(log, g, parts)
  {
    hide Reaches, Fails, Encode;
  }

  lemma {:induction false} StreamBeforeFailure(log: seq<Entry>, g: nat, parts: seq<seq<byte>>, k: nat)
    requires IsStream(log, g, parts) && k <= |log| && forall j | 0 <= j < k :: !Fails(log[j], g)
    ensures Flatten(parts[..k]) == EncodeAll(Sent(log[..k], g))
  {
    hide Fails, Reaches, Encode;
    if 0 < k {
      StreamBeforeFailure(log, g, parts, k - 1);
      assert log[..k][..k - 1] == log[..k - 1] && parts[..k] == parts[..k - 1] + [parts[k - 1]];
      FlattenSnoc(parts[..k - 1], parts[k - 1]);
      var m := OnWire(log[k - 1].q.cmd.kind, log[k - 1].q.cmd.payload);
      if Reaches(log[k - 1], g) {
        EncodeAllAppend(Sent(log[..k - 1], g), [m]);
        assert EncodeAll([m]) == Encode(m);
      } else {
        assert Sent(log[..k - 1], g) + [] == Sent(log[..k - 1], g);
      }
    }
  }

  /** End to end: the client behind a connection, however its byte stream is cut, decodes the messages
      written to it - by `DeliveryIsExact` an in-order selection of the pushed commands - up to the first
      failed send, and all of them, with nothing held, if no send failed. */
  lemma ClientDecodesDeliveries(maxClients: nat, events: seq<Event>, g: nat, alloc: Allocator,
                                parts: seq<seq<byte>>, pieces: seq<seq<byte>>)
    requires IsRun(Init(maxClients), events)
    requires g in After(Init(maxClients), events).wire
    requires forall n :: 0 < n <= MAX_PAYLOAD ==> alloc(n)
    requires IsStream(After(Init(maxClients), events).log, g, parts) && Flatten(pieces) == Flatten(parts)
    ensures var s := After(Init(maxClients), events);
      var k := FirstFailure(s.log, g);
      && Sent(s.log[..k], g) <= Feed(alloc, [], pieces).msgs
      && (k == |s.log| ==> Feed(alloc, [], pieces) == Decoded(s.wire[g], [], true))
  {
    Reached(maxClients, events);
    DecodesLog(After(Init(maxClients), events).log, g, alloc, parts, pieces);
  }

  lemma DecodesLog(log: seq<Entry>, g: nat, alloc: Allocator, parts: seq<seq<byte>>, pieces: seq<seq<byte>>)
    requires forall n :: 0 < n <= MAX_PAYLOAD ==> alloc(n)
    requires IsStream(log, g, parts) && Flatten(pieces) == Flatten(parts)
    ensures var k := FirstFailure(log, g);
      && Sent(log[..k], g) <= Feed(alloc, [], pieces).msgs
      && (k == |log| ==> Feed(alloc, [], pieces) == Decoded(Sent(log, g), [], true))
  {
    var k := FirstFailure(log, g);
    hide Sent, EncodeAll, Decode, Feed, Fails, Flatten, IsStream, AllAccepted, FirstFailure;
    SentAccepted(alloc, log[..k], g);
    StreamBeforeFailure(log, g, parts, k);
    assert |parts| == |log| by { StreamLength(log, g, parts); }
    FlattenAppend(parts[..k], parts[k..]);
    assert parts == parts[..k] + parts[k..];
    DecodesPrefix(alloc, Sent(log[..k], g), Flatten(parts[k..]), pieces);
    if k == |log| {
      assert log[..k] == log && parts[..k] == parts;
      RoundTrip(alloc, Sent(log, g), pieces);
    }
  }

  lemma StreamLength(log: seq<Entry>, g: nat, parts: seq<seq<byte>>)
    requires IsStream(log, g, parts)
    ensures |parts| == |log|
  {}

  lemma DecodesPrefix(alloc: Allocator, ms: seq<Message>, tail: seq<byte>, pieces: seq<seq<byte>>)
    requires AllAccepted(alloc, ms) && Flatten(pieces) == EncodeAll(ms) + tail
    ensures ms <= Feed(alloc, [], pieces).msgs
  {
    hide EncodeAll, Decode, Feed, Flatten, AllAccepted;
    assert [] + Flatten(pieces) == EncodeAll(ms) + tail;
    FragmentationIndependence(alloc, [], pieces);
    DecodeEncodings(alloc, ms, tail);
  }

  /** Past the last slot with an event the loop goes on to the next poll. */
  lemma {:induction false} Sweep(s: State, t: State) returns (u: State)
    requires CanBecome(s, t) && Inv(t) && t.pc.AtClient? && t.pc.slot <= t.table.MaxClients()
    requires forall slot <- t.pc.ready :: slot < t.pc.slot
    ensures CanBecome(s, u) && Inv(u) && u == t.(pc := AtPoll)
    decreases t.table.MaxClients() - t.pc.slot
  {
    hide Inv, CanBecome;
    u := CanStep(s, t, NextClient);
    if t.pc.slot < t.table.MaxClients() {
      u := Sweep(s, u);
    }
  }

  /** The table of a server whose only client, if it has one, is in slot 0. */
  predicate OnlyFirst(t: Table, fd: int) {
    0 < |t.pollFd| && t.pollFd[0] == fd && forall i | 0 < i < |t.pollFd| :: t.pollFd[i] == FREE
  }

  lemma AddFirst(t: Table, fd: nat)
    requires t.Agrees() && OnlyFirst(t, FREE) && fd < MAX_FD_LIMIT
    ensures var (u, outcome) := Add(t, fd, true); outcome == Added(0) && OnlyFirst(u, fd)
    ensures t.Connected() == {}
  {
    Pigeonhole(t.pollFd);
    AddKeepsAgreement(t, fd, true);
  }

  // The steps of the run below, one by one.

  lemma Admit(t: State, fd: nat)
    requires t.pc == AtAccept(true, {}) && fd !in t.live && t.table.Shape() && Add(t.table, fd, true).1.Added?
    ensures Enabled(t, Accept(fd, true))
    ensures var u := Next(t, Accept(fd, true));
      && u.pc == InCallback(OnConnect, false, {}) && u.table == Add(t.table, fd, true).0
      && u.live == t.live[fd := t.nextGeneration] && u.nextGeneration == t.nextGeneration + 1
      && (u.queue, u.pipe, u.others, u.log) == (t.queue, t.pipe, t.others, t.log)
  {
    hide Add;
  }

  lemma Return(t: State)
    requires t.pc.InCallback? && t.pc.callback == OnConnect && !t.pc.owes && t.table.Shape()
    ensures Enabled(t, CallbackReturn(true)) && Next(t, CallbackReturn(true)) == t.(pc := AtClient(0, t.pc.ready))
  {}

  /** Another thread pushes and is delayed, and the loop polls and finds an event in slot 0. */
  lemma Push(s: State, t: State, cmd: Command) returns (u: State)
    requires CanBecome(s, t) && Inv(t) && t.pc == AtPoll && SlotInUse(t.table, 0) && t.pipe == 0 && t.queue == []
    ensures CanBecome(s, u) && Inv(u) && u.pc == AtClient(0, {0})
    ensures u.queue == [Queued(cmd, FromOther, t.live, t.nextGeneration, false)]
    ensures (u.table, u.live, u.nextGeneration, u.pipe, u.others, u.log)
         == (t.table, t.live, t.nextGeneration, t.pipe, t.others + 1, t.log)
  {
    hide Inv, CanBecome, SlotInUse;
    assert Enabled(t, OtherPush(cmd, true));
    u := CanStep(s, t, OtherPush(cmd, true));
    Poll(u, false, {0});
    u := CanStep(s, u, PollReady(false, {0}));
    hide DoPush, Covered;
    assert Enabled(u, SkipAccept) && Next(u, SkipAccept) == u.(pc := AtClient(0, {0}));
    u := CanStep(s, u, SkipAccept);
  }

  /** The client in slot 0 disconnects. */
  lemma Leave(s: State, t: State, fd: nat) returns (u: State)
    requires CanBecome(s, t) && Inv(t) && t.pc == AtClient(0, {0}) && OnlyFirst(t.table, fd)
    ensures CanBecome(s, u) && Inv(u) && u.pc == AtPoll && OnlyFirst(u.table, FREE) && u.live == t.live - {fd}
    ensures (u.queue, u.nextGeneration, u.pipe, u.others, u.log) == (t.queue, t.nextGeneration, t.pipe, t.others, t.log)
  {
    assert t.table.Shape() by { IndexedFacts(t); }
    hide Inv, CanBecome, Table.Agrees;
    u := RemoveGone(s, t);
    RemoveFirst(t.table, fd);
    hide Remove, OnlyFirst;
    u := Sweep(s, u);
  }

  lemma RemoveGone(s: State, t: State) returns (u: State)
    requires CanBecome(s, t) && Inv(t) && t.pc == AtClient(0, {0}) && t.table.Shape() && 0 < t.table.MaxClients()
    ensures CanBecome(s, u) && Inv(u)
         && u == t.(pc := AtClient(1, {0}), table := Remove(t.table, 0), live := t.live - {t.table.pollFd[0]},
                    disconnects := t.disconnects + 1)
  {
    hide Inv, CanBecome, Remove;
    u := CanStep(s, t, Client(Gone));
    u := CanStep(s, u, CallbackReturn(true));
  }

  lemma RemoveFirst(t: Table, fd: nat)
    requires t.Shape() && OnlyFirst(t, fd)
    ensures OnlyFirst(Remove(t, 0), FREE) && Remove(t, 0).MaxClients() == t.MaxClients()
  {}

  /** An empty server at poll, with nothing in the pipe: a client can connect at any descriptor. */
  lemma Connect(s: State, t: State, fd: nat) returns (u: State)
    requires CanBecome(s, t) && Inv(t) && t.pc == AtPoll && OnlyFirst(t.table, FREE) && t.pipe == 0 && fd < MAX_FD_LIMIT
    ensures CanBecome(s, u) && Inv(u) && u.pc == AtPoll && OnlyFirst(u.table, fd)
    ensures u.live == map[fd := t.nextGeneration] && u.nextGeneration == t.nextGeneration + 1
    ensures (u.queue, u.pipe, u.others, u.log) == (t.queue, t.pipe, t.others, t.log)
  {
    IndexedFacts(t);
    AddFirst(t.table, fd);
    assert t.live == map[];
    hide Inv, CanBecome, Add, Table.Agrees, OnlyFirst, InUse, Enabled, Next;
    Poll(t, true, {});
    u := CanStep(s, t, PollReady(true, {}));
    Admit(u, fd);
    u := CanStep(s, u, Accept(fd, true));
    assert u.table.Shape() by { IndexedFacts(u); }
    Return(u);
    u := CanStep(s, u, CallbackReturn(true));
    u := Sweep(s, u);
  }

  /** The pipe is written at last and the loop processes the one queued command. */
  lemma WakeAndApply(s: State, t: State) returns (u: State)
    requires CanBecome(s, t) && Inv(t) && t.pc == AtPoll && t.pipe == 0 && t.others == 1 && |t.queue| == 1
    ensures CanBecome(s, u) && u.log == t.log + [Entry(t.queue[0], t.live, {})]
  {
    hide Inv, CanBecome, Table.Agrees;
    u := Wake(s, t);
    assert u.table.Shape() by { IndexedFacts(u); }
    hide DoApply;
    u := CanStep(s, u, Check);
    u := CanStep(s, u, Pop);
    ghost var popped := u;
    u := CanStep(s, u, Apply({}));
    ApplyLogs(popped);
  }

  lemma ApplyLogs(t: State)
    requires t.pc.AtApply? && t.table.Shape()
    ensures DoApply(t, {}).log == t.log + [Entry(t.pc.q, t.live, {})]
  {
    hide Write, Recipients;
  }

  lemma Wake(s: State, t: State) returns (u: State)
    requires CanBecome(s, t) && Inv(t) && t.pc == AtPoll && t.pipe == 0 && t.others == 1
    ensures CanBecome(s, u) && Inv(u) && u == t.(pc := AtCheck(false, {}), others := 0)
  {
    hide Inv, CanBecome;
    u := CanStep(s, t, OtherWrite);
    Poll(u, false, {});
    u := CanStep(s, u, PollReady(false, {}));
    u := CanStep(s, u, Read(1));
  }

  lemma CanStart(maxClients: nat) returns (t: State)
    requires 0 < maxClients
    ensures CanBecome(Init(maxClients), t) && Inv(t) && t == Init(maxClients).(pc := AtPoll) && OnlyFirst(t.table, FREE)
  {
    var s := Init(maxClients);
    assert IsRun(s, []) && After(s, []) == s;
    InitInv(maxClients);
    hide Inv;
    t := CanStep(s, s, Start);
  }

  /** The promise of `FdReuseSafety` does not extend to every push: for every capacity and every descriptor
      there is a run in which a send that another thread pushed for the client at that descriptor is
      processed when a later client has it, and reaches that client. */
  lemma OtherThreadsCanMissTheirClient(maxClients: nat, cmd: Command)
    requires 0 < maxClients && cmd.SendTo? && 0 <= cmd.target < MAX_FD_LIMIT && Framed(cmd)
    ensures exists s :: CanBecome(Init(maxClients), s)
              && |s.log| == 1 && s.log[0].q.cmd == cmd && s.log[0].q.origin == FromOther
              && s.log[0].q.live == map[cmd.target := 0] && s.log[0].live == map[cmd.target := 1]
              && Reaches(s.log[0], 1)
  {
    hide Inv, CanBecome;
    var s0 := Init(maxClients);
    var s := CanStart(maxClients);
    s := Connect(s0, s, cmd.target);
    assert SlotInUse(s.table, 0);
    s := Push(s0, s, cmd);
    s := Leave(s0, s, cmd.target);
    s := Connect(s0, s, cmd.target);
    s := WakeAndApply(s0, s);
    assert cmd.target in s.log[0].live && Reaches(s.log[0], 1);
  }
}
