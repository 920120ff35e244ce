/** Which pushes of other threads are safe: exactly the covered ones. */
module EventLoopCoverage {
  import opened SlotTables
  import opened Commands
  import opened EventLoops
  import opened EventLoopSafety
  import opened EventLoopRuns

  /** Nothing happened to the queue, the pipe, the log or the other threads, and nobody connected. */
  predicate Undisturbed(s: State, u: State) {
    (u.queue, u.pipe, u.others, u.log, u.pushed, u.nextGeneration)
    == (s.queue, s.pipe, s.others, s.log, s.pushed, s.nextGeneration)
  }

  /** Whether a connection at the time of processing was there at the push, under the same descriptor. */
  predicate HeldAtPush(entry: Entry, fd: int)
    requires fd in entry.live
  {
    fd in entry.q.live && entry.q.live[fd] == entry.live[fd]
  }

  /** The events of the slots come to nothing, and the loop goes on to the next poll. */
  lemma {:induction false} PassClients(s0: State, s: State) returns (u: State)
    requires CanBecome(s0, s) && Inv(s) && s.pc.AtClient?
    ensures CanBecome(s0, u) && Inv(u) && u == s.(pc := AtPoll)
    decreases s.table.MaxClients() - s.pc.slot
  {
    assert s.pc.slot <= s.table.MaxClients();
    hide Inv, CanBecome, Enabled, Next;
    if s.pc.slot == s.table.MaxClients() {
      LastSlot(s);
      u := CanStep(s0, s, NextClient);
    } else {
      if s.pc.slot in s.pc.ready {
        ClientStep(s, Nothing);
        u := CanStep(s0, s, Client(Nothing));
      } else {
        NoEvent(s);
        u := CanStep(s0, s, NextClient);
      }
      u := PassClients(s0, u);
    }
  }

  /** A callback that owes nothing returns. */
  lemma PassCallback(s0: State, s: State) returns (u: State)
    requires CanBecome(s0, s) && Inv(s) && s.pc.InCallback? && !s.pc.owes
    ensures CanBecome(s0, u) && Inv(u) && u.pc.AtClient? && Undisturbed(s, u)
    ensures u.table.MaxClients() == s.table.MaxClients()
    ensures s.pc.callback == OnConnect ==> u.live == s.live
  {
    LiveFacts(s);
    assert s.pc.callback != OnConnect ==> s.pc.callback.slot < s.table.MaxClients();
    hide Inv, CanBecome, Remove, Enabled, Next;
    if s.pc.callback == OnConnect {
      ConnectReturns(s);
    } else {
      CallbackEnds(s, s.pc.callback.slot, true);
      CallbackKeeps(s);
    }
    u := CanStep(s0, s, CallbackReturn(true));
  }

  lemma CallbackKeeps(s: State)
    requires Enabled(s, CallbackReturn(true))
    ensures Undisturbed(s, Next(s, CallbackReturn(true)))
    ensures Next(s, CallbackReturn(true)).table.MaxClients() == s.table.MaxClients()
  {}

  /** The loop is not on its way to the queue and owes nothing to the pipe. */
  predicate Idle(pc: LoopPc) {
    !pc.AtRead? && !Draining(pc) && pc != Destroyed && !(pc.InCallback? && pc.owes)
  }

  /** From everywhere else it can come to the next poll without a disturbance. */
  lemma PassToPoll(s0: State, s: State) returns (u: State)
    requires CanBecome(s0, s) && Inv(s) && Idle(s.pc)
    ensures CanBecome(s0, u) && Inv(u) && u.pc == AtPoll && Undisturbed(s, u)
    ensures u.table.MaxClients() == s.table.MaxClients()
    ensures s.pc == InCallback(OnConnect, false, {}) ==> u.live == s.live
  {
    assert s.pc != NullDereference;
    assert s.table.Shape() by { LiveFacts(s); }
    hide Inv, CanBecome;
    u := s;
    if u.pc == Exiting {
      u := CanStep(s0, u, LoopExit);
    }
    if u.pc == NotRunning {
      u := CanStep(s0, u, Start);
    }
    if u.pc.AtAccept? {
      u := PassAccept(s0, u);
    }
    if u.pc.InCallback? {
      u := PassCallback(s0, u);
    }
    if u.pc.AtClient? {
      u := PassClients(s0, u);
    }
  }

  lemma PassAccept(s0: State, s: State) returns (u: State)
    requires CanBecome(s0, s) && Inv(s) && s.pc.AtAccept? && s.table.Shape()
    ensures CanBecome(s0, u) && Inv(u) && u == s.(pc := AtClient(0, s.pc.ready))
  {
    hide Inv, CanBecome;
    if s.pc.accept {
      u := CanStep(s0, s, Accept(-1, true));
    } else {
      u := CanStep(s0, s, SkipAccept);
    }
  }

  /** A client can be admitted now, and get descriptor `d`. */
  predicate RoomFor(s: State, d: int) {
    s.table.clientCount < s.table.MaxClients() && d !in s.live
  }

  /** A push of another thread is covered for a descriptor when the loop is bound to drain the queue before
      it gives the descriptor to a client: the descriptor is out of range, or the loop is on its way to the
      queue, draining it or about to write to the pipe, or a byte in the pipe will make the next poll report
      it and the descriptor is not given away now. */
  predicate CoveredFor(s: State, d: int) {
    !(0 <= d < MAX_FD_LIMIT) || DrainsBefore(s, d)
  }

  predicate DrainsBefore(s: State, d: int) {
    || s.pc.AtRead? || Draining(s.pc)
    || (s.pc.InCallback? && s.pc.owes)
    || (0 < s.pipe && !(s.pc.AtAccept? && s.pc.accept && RoomFor(s, d)))
  }

  /** A client is admitted where there is room. */
  lemma Admit(s0: State, s: State, fd: nat) returns (u: State)
    requires CanBecome(s0, s) && Inv(s) && s.pc.AtAccept? && s.pc.accept && RoomFor(s, fd) && fd < MAX_FD_LIMIT
    ensures CanBecome(s0, u) && Inv(u) && u.pc == InCallback(OnConnect, false, s.pc.ready)
    ensures fd in u.live && u.live[fd] == s.nextGeneration && u.nextGeneration == s.nextGeneration + 1
    ensures (u.queue, u.pipe, u.others, u.log, u.pushed) == (s.queue, s.pipe, s.others, s.log, s.pushed)
  {
    LiveFacts(s);
    AddKeepsAgreement(s.table, fd, true);
    Pigeonhole(s.table.pollFd);
    assert Add(s.table, fd, true).1.Added?;
    hide Inv, CanBecome, Add, Table.Agrees, InUse;
    u := CanStep(s0, s, Accept(fd, true));
  }

  /** The loop passes the slots before `slot`. */
  lemma {:induction false} SkipTo(s0: State, s: State, slot: nat) returns (u: State)
    requires CanBecome(s0, s) && Inv(s)
    requires s.pc.AtClient? && s.pc.slot <= slot < s.table.MaxClients() && s.pc.ready == {slot}
    ensures CanBecome(s0, u) && Inv(u) && u == s.(pc := AtClient(slot, {slot}))
    decreases slot - s.pc.slot
  {
    hide Inv, CanBecome, Enabled, Next;
    u := s;
    if s.pc.slot < slot {
      NoEvent(s);
      u := CanStep(s0, s, NextClient);
      u := SkipTo(s0, u, slot);
    }
  }

  /** A client can leave. */
  lemma Leave(s0: State, s: State, slot: nat) returns (u: State)
    requires CanBecome(s0, s) && Inv(s) && s.pc == AtPoll && s.pipe == 0 && SlotInUse(s.table, slot)
    ensures CanBecome(s0, u) && Inv(u) && u.pc == AtPoll && Undisturbed(s, u)
    ensures u.table.clientCount < u.table.MaxClients() && u.live == s.live - {s.table.pollFd[slot]}
  {
    LiveFacts(s);
    hide Inv, CanBecome, Table.Agrees, InUse, Remove;
    Poll(s, false, {slot});
    u := CanStep(s0, s, PollReady(false, {slot}));
    hide Enabled, Next;
    NobodyWaits(u);
    u := CanStep(s0, u, SkipAccept);
    u := SkipTo(s0, u, slot);
    ClientStep(u, Gone);
    u := CanStep(s0, u, Client(Gone));
    CallbackEnds(u, slot, true);
    CallbackKeeps(u);
    u := CanStep(s0, u, CallbackReturn(true));
    RemoveLeavesRoom(s.table, slot);
    u := PassClients(s0, u);
  }

  lemma RemoveLeavesRoom(t: Table, slot: nat)
    requires t.Agrees() && SlotInUse(t, slot)
    ensures Remove(t, slot).clientCount < Remove(t, slot).MaxClients()
  {
    RemoveKeepsAgreement(t, slot);
  }

  /** The slot to be freed for `d`: that of its holder, or any if the table is full. */
  lemma SlotToFree(s: State, d: nat) returns (slot: nat)
    requires Inv(s) && 0 < s.table.MaxClients() && !RoomFor(s, d)
    ensures SlotInUse(s.table, slot)
    ensures d in s.live ==> s.table.pollFd[slot] == d
  {
    LiveFacts(s);
    if d in s.live {
      slot :| slot < s.table.MaxClients() && s.table.pollFd[slot] == d;
    } else {
      Pigeonhole(s.table.pollFd);
      slot := 0;
      assert s.table.pollFd[0] in s.table.pollFd;
    }
  }

  lemma MakeRoom(s0: State, s: State, d: nat) returns (u: State)
    requires CanBecome(s0, s) && Inv(s) && s.pc == AtPoll && s.pipe == 0 && 0 < s.table.MaxClients()
    ensures CanBecome(s0, u) && Inv(u) && u.pc == AtPoll && Undisturbed(s, u) && RoomFor(u, d)
  {
    hide Inv, CanBecome, SlotInUse;
    u := s;
    if !RoomFor(s, d) {
      var slot := SlotToFree(s, d);
      u := Leave(s0, s, slot);
    }
  }

  /** A delayed thread writes to the pipe, and the loop drains the queue while the connections stay. */
  lemma WakeAndDrain(s0: State, s: State) returns (u: State)
    requires CanBecome(s0, s) && Inv(s) && s.pc == AtPoll && 0 < s.others
    ensures CanBecome(s0, u) && Inv(u) && u.pushed == s.pushed && u.queue == [] && u.pc.AtAccept?
    ensures u.log == s.log + EntriesOf(s.queue, s.live, {})
  {
    hide Inv, CanBecome, Table.Agrees, EntriesOf;
    u := CanStep(s0, s, OtherWrite);
    Poll(u, false, {});
    u := CanStep(s0, u, PollReady(false, {}));
    hide Enabled, Next;
    ReadStep(u, 1);
    u := CanStep(s0, u, Read(1));
    u := DrainRun(s0, u, {});
  }

  /** After a push that is not covered for `d`, a new client can be admitted at `d` before the queue is
      drained. */
  lemma AdmitFirst(s: State, d: int) returns (u: State)
    requires Inv(s) && s.pc != Destroyed && !CoveredFor(s, d) && 0 < s.table.MaxClients()
    ensures CanBecome(s, u) && Inv(u) && u.pc == AtPoll
    ensures d in u.live && s.nextGeneration <= u.live[d]
    ensures (u.queue, u.others, u.log, u.pushed) == (s.queue, s.others, s.log, s.pushed)
  {
    CanStay(s);
    if s.pc.AtAccept? && s.pc.accept && RoomFor(s, d) {
      hide Inv, CanBecome;
      u := Admit(s, s, d);
    } else {
      assert s.pipe == 0 && Idle(s.pc);
      hide Inv, CanBecome;
      u := PassToPoll(s, s);
      u := MakeRoom(s, u, d);
      Poll(u, true, {});
      u := CanStep(s, u, PollReady(true, {}));
      u := Admit(s, u, d);
    }
    assert u.pc.InCallback? && !u.pc.owes && u.pc.callback == OnConnect;
    u := PassCallback(s, u);
    u := PassClients(s, u);
  }

  /** Whoever holds `d` held it at the push. */
  ghost predicate OnlyHolder(q: Queued, live: Connections, d: int) {
    d in live ==> d in q.live && q.live[d] == live[d]
  }

  /** Push `n` has met only the holder of `d`, or is bound to. */
  ghost predicate Safe(s: State, n: nat, d: int) {
    && n < |s.pushed|
    && if n < |s.log| then OnlyHolder(s.pushed[n], s.log[n].live, d)
       else OnlyHolder(s.pushed[n], s.live, d) && (DrainsBefore(s, d) || s.pc == Destroyed)
  }

  lemma SafeStep(s: State, e: Event, n: nat, d: int)
    requires Inv(s) && Safe(s, n, d) && Enabled(s, e)
    ensures Safe(Next(s, e), n, d)
  {
    PlaceOfPush(s, n);
    hide Inv;
    if e.Accept? {
      SafeAccept(s, e.fd, e.parserAllocated, n, d);
    } else if e.CallbackReturn? {
      hide Remove, OnlyHolder;
      assert forall live, fd :: OnlyHolder(s.pushed[n], live, d) ==> OnlyHolder(s.pushed[n], live - {fd}, d) by {
        HolderLeaves(s.pushed[n], d);
      }
    } else if e.Apply? {
      hide Write, Recipients, OnlyHolder;
    } else {
      SafeQuiet(s, e, n, d);
    }
  }

  lemma HolderLeaves(q: Queued, d: int)
    ensures forall live: Connections, fd: int :: OnlyHolder(q, live, d) ==> OnlyHolder(q, live - {fd}, d)
  {}

  /** The other events leave log and connections alone. */
  lemma SafeQuiet(s: State, e: Event, n: nat, d: int)
    requires Safe(s, n, d) && Enabled(s, e) && !e.Accept? && !e.CallbackReturn? && !e.Apply?
    requires |s.log| <= n && s.pc != Destroyed && !s.pc.AtApply? ==> s.queue != []
    ensures Safe(Next(s, e), n, d)
  {
    hide OnlyHolder, Covered, SlotInUse;
    var t := Next(s, e);
    assert (t.log, t.live, t.table) == (s.log, s.live, s.table) && s.pushed <= t.pushed;
  }

  /** A command that is not in the log of a live server is in hand or queued. */
  lemma PlaceOfPush(s: State, n: nat)
    requires Inv(s) && n < |s.pushed|
    ensures |s.log| <= n && s.pc != Destroyed ==>
              if s.pc.AtApply? && n == |s.log| then s.pc.q == s.pushed[n] else s.queue != []
  {}

  lemma SafeAccept(s: State, fd: int, parserAllocated: bool, n: nat, d: int)
    requires Inv(s) && Safe(s, n, d) && Enabled(s, Accept(fd, parserAllocated))
    ensures Safe(Next(s, Accept(fd, parserAllocated)), n, d)
  {
    hide Inv, FirstFree;
  }

  lemma {:induction false} SafeRun(s: State, events: seq<Event>, n: nat, d: int)
    requires Inv(s) && Safe(s, n, d) && IsRun(s, events)
    ensures Safe(After(s, events), n, d) && Inv(After(s, events))
    decreases |events|
  {
    if events != [] {
      SafeStep(s, events[0], n, d);
      StepInv(s, events[0]);
      SafeRun(Next(s, events[0]), events[1..], n, d);
    }
  }

  /** From entry `m` of the log on, only descriptors in range are held. */
  ghost predicate InRange(s: State, m: nat) {
    forall k, fd | m <= k < |s.log| && fd in s.log[k].live :: 0 <= fd < MAX_FD_LIMIT
  }

  lemma {:induction false} RangeRun(s: State, events: seq<Event>, m: nat)
    requires Inv(s) && InRange(s, m) && IsRun(s, events)
    ensures InRange(After(s, events), m)
    decreases |events|
  {
    if events != [] {
      RangeStep(s, events[0], m);
      StepInv(s, events[0]);
      RangeRun(Next(s, events[0]), events[1..], m);
    }
  }

  lemma RangeStep(s: State, e: Event, m: nat)
    requires Inv(s) && InRange(s, m) && Enabled(s, e)
    ensures InRange(Next(s, e), m)
  {
    LiveFacts(s);
    forall fd <- s.live ensures 0 <= fd < MAX_FD_LIMIT {
      LookupIsExact(s.table, fd);
    }
    hide Inv, Table.Agrees;
    var t := Next(s, e);
    if e.Apply? {
      hide Write, Recipients;
    } else {
      assert t.log == s.log by { LogStays(s, e); }
    }
  }

  lemma LogStays(s: State, e: Event)
    requires Enabled(s, e) && !e.Apply?
    ensures Next(s, e).log == s.log
  {
    hide Add, Remove, Covered, SlotInUse;
  }

  lemma InOrderFacts(s: State)
    requires Inv(s) && s.pc != Destroyed && !s.pc.AtApply?
    ensures |s.log| + |s.queue| == |s.pushed|
  {}

  lemma LogFacts(s: State, n: nat)
    requires Inv(s) && n < |s.log|
    ensures n < |s.pushed| && s.log[n].q == s.pushed[n] && Dated(s.log[n].q, s.log[n].live)
  {}

  /** In every run from `p`, whoever holds `d` when push `n` is processed held it at the push. */
  ghost predicate NeverMisses(p: State, n: nat, d: int) {
    forall w :: CanBecome(p, w) && n < |w.log| && d in w.log[n].live ==> HeldAtPush(w.log[n], d)
  }

  lemma CoveredNeverMisses(p: State, n: nat, d: int, w: State)
    requires Inv(p) && Safe(p, n, d) && CanBecome(p, w) && n < |w.log| && d in w.log[n].live
    ensures HeldAtPush(w.log[n], d)
  {
    var events :| IsRun(p, events) && After(p, events) == w;
    SafeRun(p, events, n, d);
    LogFacts(w, n);
  }

  /** A descriptor out of range is nobody's. */
  lemma OutOfRange(p: State, n: nat, d: int, w: State)
    requires Inv(p) && |p.log| <= n && !(0 <= d < MAX_FD_LIMIT) && CanBecome(p, w) && n < |w.log|
    ensures d !in w.log[n].live
  {
    var events :| IsRun(p, events) && After(p, events) == w;
    RangeRun(p, events, n);
  }

  lemma UncoveredCanMiss(p: State, n: nat, d: int) returns (w: State)
    requires Inv(p) && p.pc != Destroyed && !CoveredFor(p, d) && 0 < p.table.MaxClients()
    requires 0 < p.others && |p.pushed| == n + 1 && p.queue != [] && p.pushed[n].stamp == p.nextGeneration
    ensures CanBecome(p, w) && n < |w.log| && d in w.log[n].live && !HeldAtPush(w.log[n], d)
  {
    var u := AdmitFirst(p, d);
    assert |u.log| <= n by { InOrderFacts(u); }
    w := WakeAndDrain(p, u);
    assert |w.log| == n + 1 by { InOrderFacts(w); }
    LogFacts(w, n);
  }

  lemma AfterPush(s: State, cmd: Command, d: int)
    requires Inv(s) && Enabled(s, OtherPush(cmd, true))
    ensures var p, n := Next(s, OtherPush(cmd, true)), |s.pushed|;
      && Inv(p) && p.pc != Destroyed && |p.log| <= n
      && 0 < p.others && |p.pushed| == n + 1 && p.queue != [] && p.pushed[n].stamp == p.nextGeneration
      && (p.pc, p.pipe, p.live, p.table) == (s.pc, s.pipe, s.live, s.table)
      && (DrainsBefore(s, d) ==> Safe(p, n, d))
  {
    StepInv(s, OtherPush(cmd, true));
  }

  /** Exactly when another thread's push is safe for a descriptor: if it is covered for `d`, no run that
      follows processes the command while a client that connected later holds `d`; if it is not, there is
      such a run. */
  lemma DescriptorIsExact(s: State, cmd: Command, d: int)
    requires Inv(s) && Enabled(s, OtherPush(cmd, true)) && 0 < s.table.MaxClients()
    ensures CoveredFor(s, d) <==> NeverMisses(Next(s, OtherPush(cmd, true)), |s.pushed|, d)
  {
    var p, n := Next(s, OtherPush(cmd, true)), |s.pushed|;
    AfterPush(s, cmd, d);
    assert CoveredFor(p, d) == CoveredFor(s, d);
    hide Inv, CanBecome, Next, HeldAtPush, DrainsBefore, Safe;
    if CoveredFor(s, d) {
      forall w | CanBecome(p, w) && n < |w.log| && d in w.log[n].live ensures HeldAtPush(w.log[n], d) {
        if 0 <= d < MAX_FD_LIMIT {
          CoveredNeverMisses(p, n, d, w);
        } else {
          OutOfRange(p, n, d, w);
        }
      }
    } else {
      var w := UncoveredCanMiss(p, n, d);
    }
  }

  /** So it is for the descriptor that the command names: its target, or the one it leaves out. */
  lemma NamedIsExact(s: State, cmd: Command)
    requires Inv(s) && Enabled(s, OtherPush(cmd, true)) && 0 < s.table.MaxClients()
    ensures var d := if cmd.SendTo? then cmd.target else cmd.exclude;
      CoveredFor(s, d) <==> NeverMisses(Next(s, OtherPush(cmd, true)), |s.pushed|, d)
  {
    DescriptorIsExact(s, cmd, if cmd.SendTo? then cmd.target else cmd.exclude);
  }

  /** A push is covered exactly when it is covered for every descriptor. */
  lemma CoveredForAll(s: State)
    ensures Covered(s, FromOther) <==> forall d :: CoveredFor(s, d)
  {
    if !Covered(s, FromOther) {
      if HasRoom(s) {
        var fd: nat :| fd < MAX_FD_LIMIT && fd !in s.live;
        assert !CoveredFor(s, fd);
      } else {
        assert !CoveredFor(s, 0);
      }
    } else {
      forall d ensures CoveredFor(s, d) {}
    }
  }

  /** And it is covered exactly when no client at all that connected later is present at the processing, in
      any run that follows. */
  lemma CoverageIsExact(s: State, cmd: Command)
    requires Inv(s) && Enabled(s, OtherPush(cmd, true)) && 0 < s.table.MaxClients()
    ensures Covered(s, FromOther) <==> forall d :: NeverMisses(Next(s, OtherPush(cmd, true)), |s.pushed|, d)
  {
    CoveredForAll(s);
    hide Inv, NeverMisses, CoveredFor, Covered, Next;
    forall d
      ensures CoveredFor(s, d) <==> NeverMisses(Next(s, OtherPush(cmd, true)), |s.pushed|, d)
    {
      DescriptorIsExact(s, cmd, d);
    }
  }
}
