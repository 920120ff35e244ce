/** What the events of the loop amount to over whole runs: nothing that is pushed, written, served or counted
    gets lost. */
module EventLoopLaws {
  import opened Bytes
  import opened SlotTables
  import opened Commands
  import opened EventLoops
  import opened EventLoopSafety

  /** A new server has nothing in it. */
  lemma InitIsEmpty(maxClients: nat)
    ensures var s := Init(maxClients);
      && s.pc == NotRunning && s.table.MaxClients() == maxClients && s.table.Connected() == {} && s.live == map[]
      && s.queue == [] && s.pushed == [] && s.destroyed == [] && s.log == [] && s.wire == map[]
      && s.pipe == s.others == s.connects == s.disconnects == s.parseFailures == 0
  {
    EmptyAgrees(maxClients);
  }

  /** A command and where it was pushed from. */
  type Push = (Command, Origin)

  function PushesOf(queue: seq<Queued>): seq<Push> {
    if queue == [] then [] else [(queue[0].cmd, queue[0].origin)] + PushesOf(queue[1..])
  }

  function StoredNow(e: Event): seq<Push> {
    match e
    case CallbackPush(cmd, stored) => if stored then [(cmd, FromLoop)] else []
    case OtherPush(cmd, stored) => if stored then [(cmd, FromOther)] else []
    case _ => []
  }

  /** The pushes of a run that the queue had memory for, in order. */
  function StoredBy(events: seq<Event>): seq<Push> {
    if events == [] then [] else StoredNow(events[0]) + StoredBy(events[1..])
  }

  lemma {:induction false} PushesOfAppend(a: seq<Queued>, b: seq<Queued>)
    ensures PushesOf(a + b) == PushesOf(a) + PushesOf(b)
  {
    if a == [] {
      assert a + b == b;
    } else {
      assert (a + b)[1..] == a[1..] + b;
      PushesOfAppend(a[1..], b);
    }
  }

  lemma PushesStep(s: State, e: Event)
    requires Enabled(s, e)
    ensures PushesOf(Next(s, e).pushed) == PushesOf(s.pushed) + StoredNow(e)
  {
    hide Add, Remove, Write, Covered, PushesOf;
    var t := Next(s, e);
    if e.CallbackPush? || e.OtherPush? {
      assert t.pushed == s.pushed + t.pushed[|s.pushed|..];
      PushesOfAppend(s.pushed, t.pushed[|s.pushed|..]);
      OnePush(t.pushed[|s.pushed|..]);
    } else {
      assert PushesOf(s.pushed) + [] == PushesOf(s.pushed);
    }
  }

  lemma OnePush(queue: seq<Queued>)
    ensures queue == [] ==> PushesOf(queue) == []
    ensures |queue| == 1 ==> PushesOf(queue) == [(queue[0].cmd, queue[0].origin)]
  {
    if |queue| == 1 {
      assert queue[1..] == [];
    }
  }

  /** Every push of a callback or of another thread that is stored is in the queue's history, in order, and
      nothing else is. */
  lemma {:induction false} PushesAreStored(s: State, events: seq<Event>)
    requires IsRun(s, events)
    ensures PushesOf(After(s, events).pushed) == PushesOf(s.pushed) + StoredBy(events)
    decreases |events|
  {
    hide PushesOf, StoredNow, Next, Enabled;
    if events == [] {
      assert PushesOf(s.pushed) + [] == PushesOf(s.pushed);
    } else {
      PushesStep(s, events[0]);
      PushesAreStored(Next(s, events[0]), events[1..]);
      assert PushesOf(s.pushed) + (StoredNow(events[0]) + StoredBy(events[1..]))
          == PushesOf(s.pushed) + StoredNow(events[0]) + StoredBy(events[1..]);
    }
  }

  function WrittenNow(e: Event): nat {
    if e.CallbackWrite? || e.OtherWrite? then 1 else 0
  }

  function Written(events: seq<Event>): nat {
    if events == [] then 0 else WrittenNow(events[0]) + Written(events[1..])
  }

  function ReadNow(e: Event): nat {
    if e.Read? then e.n else 0
  }

  function BytesRead(events: seq<Event>): nat {
    if events == [] then 0 else ReadNow(events[0]) + BytesRead(events[1..])
  }

  function PushedNow(e: Event): nat {
    if e.CallbackPush? || e.OtherPush? then 1 else 0
  }

  function Pushes(events: seq<Event>): nat {
    if events == [] then 0 else PushedNow(events[0]) + Pushes(events[1..])
  }

  lemma PipeStep(s: State, e: Event)
    requires Enabled(s, e)
    ensures Next(s, e).pipe + ReadNow(e) == s.pipe + WrittenNow(e)
    ensures ReadNow(e) <= 8
  {
    hide Add, Remove, Write, Covered, SlotInUse;
  }

  lemma OwedStep(s: State, e: Event)
    requires Enabled(s, e)
    ensures Owed(Next(s, e)) + WrittenNow(e) == Owed(s) + PushedNow(e)
  {
    hide Add, Remove, Write, Covered, SlotInUse;
  }

  /** Every push is followed by one byte for the pipe, and every byte written is in the pipe or was read, at
      most 8 at a time. */
  lemma {:induction false} SignalsAreConserved(s: State, events: seq<Event>)
    requires IsRun(s, events)
    ensures var t := After(s, events);
      && t.pipe + BytesRead(events) == s.pipe + Written(events)
      && Owed(t) + Written(events) == Owed(s) + Pushes(events)
      && forall i | 0 <= i < |events| :: events[i].Read? ==> events[i].n <= 8
    decreases |events|
  {
    if events != [] {
      PipeStep(s, events[0]);
      OwedStep(s, events[0]);
      SignalsAreConserved(Next(s, events[0]), events[1..]);
      assert forall i | 0 < i < |events| :: events[i] == events[1..][i - 1];
    }
  }

  /** The accepts of a run that admitted a client. */
  function Admissions(s: State, events: seq<Event>): nat
    requires IsRun(s, events)
    decreases |events|
  {
    if events == [] then 0
    else
      (if events[0].Accept? && Add(s.table, events[0].fd, events[0].parserAllocated).1.Added? then 1 else 0)
      + Admissions(Next(s, events[0]), events[1..])
  }

  /** The disconnect callbacks of a run that returned. */
  function Disconnects(s: State, events: seq<Event>): nat
    requires IsRun(s, events)
    decreases |events|
  {
    if events == [] then 0
    else
      (if events[0].CallbackReturn? && s.pc.callback.OnDisconnect? then 1 else 0)
      + Disconnects(Next(s, events[0]), events[1..])
  }

  /** The times in a run that a client's messages did not parse. */
  function ParseFailures(s: State, events: seq<Event>): nat
    requires IsRun(s, events)
    decreases |events|
  {
    if events == [] then 0
    else
      (if events[0].CallbackReturn? && s.pc.callback.OnMessages? && !events[0].parsed then 1 else 0)
      + ParseFailures(Next(s, events[0]), events[1..])
  }

  lemma CountStep(s: State, e: Event)
    requires Enabled(s, e)
    ensures var t := Next(s, e);
      && t.connects == s.connects + (if e.Accept? && Add(s.table, e.fd, e.parserAllocated).1.Added? then 1 else 0)
      && t.disconnects == s.disconnects + (if e.CallbackReturn? && s.pc.callback.OnDisconnect? then 1 else 0)
      && t.parseFailures
         == s.parseFailures + (if e.CallbackReturn? && s.pc.callback.OnMessages? && !e.parsed then 1 else 0)
  {
    hide Add, Remove, Write, Covered;
  }

  /** The counters count what they are named for. */
  lemma {:induction false} CountsAreExact(s: State, events: seq<Event>)
    requires IsRun(s, events)
    ensures var t := After(s, events);
      && t.connects == s.connects + Admissions(s, events)
      && t.disconnects == s.disconnects + Disconnects(s, events)
      && t.parseFailures == s.parseFailures + ParseFailures(s, events)
    decreases |events|
  {
    if events != [] {
      CountStep(s, events[0]);
      CountsAreExact(Next(s, events[0]), events[1..]);
    }
  }

  /** The events of the loop thread. */
  predicate OfLoop(e: Event) {
    !e.OtherPush? && !e.OtherWrite? && !e.Destroy? && !e.Start?
  }

  /** What can happen and when, in both directions. What poll reports: a pipe with bytes, and entries in use. */
  lemma PollIsExact(s: State, accept: bool, ready: set<nat>)
    ensures Enabled(s, PollReady(accept, ready)) <==>
              && s.pc == AtPoll
              && (forall slot <- ready :: slot < |s.table.pollFd| && s.table.pollFd[slot] != -1)
              && (s.pipe > 0 || accept || exists slot :: slot in ready)
    ensures Enabled(s, PollFails) <==> s.pc == AtPoll
    ensures Enabled(s, PollShutdown) <==> s.pc == AtPoll
  {
    assert ready != {} <==> exists slot :: slot in ready;
  }

  /** What a read, a send, an accept, a client and a callback can come back with. */
  lemma ResultsAreExact(s: State, n: nat, failed: set<int>, fd: int, yes: bool, event: ClientEvent)
    requires s.table.Shape() && Guarded(s)
    ensures Enabled(s, Read(n)) <==> s.pc.AtRead? && n <= s.pipe && n <= 8
    ensures Enabled(s, Apply(failed)) <==> s.pc.AtApply?
    ensures Enabled(s, Accept(fd, yes)) <==> s.pc.AtAccept? && s.pc.accept && (fd < 0 || fd !in s.live)
    ensures Enabled(s, Client(event)) <==>
              s.pc.AtClient? && s.pc.slot < |s.table.pollFd| && s.pc.slot in s.pc.ready
    ensures Enabled(s, CallbackReturn(yes)) <==> s.pc.InCallback? && !s.pc.owes
  {
    hide AllOccupied;
  }

  /** The other threads are never blocked. */
  lemma OthersNeverBlocked(s: State, cmd: Command, stored: bool)
    ensures Enabled(s, OtherPush(cmd, stored)) <==> s.pc != Destroyed
    ensures Enabled(s, OtherWrite) <==> s.others > 0
    ensures Enabled(s, CallbackPush(cmd, stored)) <==> s.pc.InCallback? && !s.pc.owes
    ensures Enabled(s, Start) <==> s.pc == NotRunning
    ensures Enabled(s, Destroy) <==> s.pc == NotRunning && s.others == 0
  {}

  /** A loop that has been started is never stuck: off the poll it has a step to take in every reachable
      state. */
  lemma LoopNeverStuck(s: State) returns (e: Event)
    requires Inv(s) && s.pc != NotRunning && s.pc != Destroyed
    ensures OfLoop(e) && Enabled(s, e)
  {
    assert s.table.Shape();
    match s.pc
    case AtPoll => e := PollShutdown;
    case AtRead(_, _) => e := Read(0);
    case AtCheck(_, _) => e := Check;
    case AtPop(_, _) => e := Pop;
    case AtApply(_, _, _) => e := Apply({});
    case AtAccept(accept, _) => e := if accept then Accept(-1, true) else SkipAccept;
    case AtClient(slot, ready) =>
      e := if slot < s.table.MaxClients() && slot in ready then Client(Nothing) else NextClient;
    case InCallback(_, owes, _) => e := if owes then CallbackWrite else CallbackReturn(true);
    case Exiting => e := LoopExit;
  }

  /** A reported shutdown, or a failing poll, ends the loop: it takes no other step than to leave. */
  lemma {:induction false} ShutdownEndsLoop(s: State, e: Event, events: seq<Event>)
    requires (e == PollShutdown || e == PollFails) && Enabled(s, e) && IsRun(Next(s, e), events)
    requires forall i | 0 <= i < |events| :: events[i] != LoopExit
    ensures forall i | 0 <= i < |events| :: !OfLoop(events[i])
    ensures var t := After(Next(s, e), events);
      && t.pc == Exiting && Enabled(t, LoopExit) && Next(t, LoopExit).pc == NotRunning
      && (t.table, t.live, t.log, t.wire) == (s.table, s.live, s.log, s.wire)
  {
    StaysExiting(Next(s, e), events);
  }

  lemma {:induction false} StaysExiting(s: State, events: seq<Event>)
    requires s.pc == Exiting && IsRun(s, events)
    requires forall i | 0 <= i < |events| :: events[i] != LoopExit
    ensures forall i | 0 <= i < |events| :: !OfLoop(events[i])
    ensures var t := After(s, events);
      t.pc == Exiting && (t.table, t.live, t.log, t.wire) == (s.table, s.live, s.log, s.wire)
    decreases |events|
  {
    if events != [] {
      hide Covered;
      assert forall i | 0 < i < |events| :: events[i] == events[1..][i - 1];
      StaysExiting(Next(s, events[0]), events[1..]);
    }
  }

  // One iteration.

  predicate OfPoll(e: Event) {
    e.PollReady? || e.PollShutdown? || e.PollFails?
  }

  /** The slots served in a run, in order. */
  function ServedSlots(s: State, events: seq<Event>): seq<nat>
    requires IsRun(s, events)
    decreases |events|
  {
    if events == [] then []
    else (if events[0].Client? then [s.pc.slot] else []) + ServedSlots(Next(s, events[0]), events[1..])
  }

  function Accepts(events: seq<Event>): nat {
    if events == [] then 0 else (if events[0].Accept? then 1 else 0) + Accepts(events[1..])
  }

  predicate Ascending(slots: seq<nat>) {
    forall i, j | 0 <= i < j < |slots| :: slots[i] < slots[j]
  }

  /** Where an iteration stands: the slots still to be served start here. */
  function From(pc: LoopPc): nat {
    match pc
    case AtClient(slot, _) => slot
    case InCallback(OnMessages(slot), _, _) => slot + 1
    case InCallback(OnDisconnect(slot), _, _) => slot + 1
    case _ => 0
  }

  predicate InIteration(pc: LoopPc) {
    || pc.AtRead? || Draining(pc) || pc.AtAccept? || pc.AtClient? || pc.InCallback?
  }

  function Ready(pc: LoopPc): set<nat>
    requires InIteration(pc)
  {
    pc.ready
  }

  /** What is left to do in an iteration, or nothing at its end. */
  predicate StillToServe(s: State, slot: nat) {
    InIteration(s.pc) && slot in Ready(s.pc) && From(s.pc) <= slot
  }

  function StillToAccept(pc: LoopPc): nat {
    if (pc.AtRead? || Draining(pc) || pc.AtAccept?) && pc.accept then 1 else 0
  }

  lemma ServingStep(s: State, e: Event)
    requires Inv(s) && InIteration(s.pc) && Enabled(s, e) && e.Client?
    ensures var t := Next(s, e);
      && InIteration(t.pc) && StillToServe(s, s.pc.slot)
      && (forall i: nat :: StillToServe(t, i) <==> StillToServe(s, i) && s.pc.slot < i)
      && (forall i: nat :: StillToServe(s, i) ==> s.pc.slot <= i)
  {
    hide Inv, Add, Remove, Write, Covered, SlotInUse;
  }

  lemma OtherStep(s: State, e: Event)
    requires Inv(s) && InIteration(s.pc) && Enabled(s, e) && !OfPoll(e) && !e.Client?
    ensures var t := Next(s, e);
      && (InIteration(t.pc) || t.pc == AtPoll)
      && (forall i: nat :: StillToServe(t, i) <==> StillToServe(s, i))
  {
    IterationFacts(s);
    hide Inv, Add, Remove, Write, Covered, SlotInUse;
  }

  lemma AcceptStep(s: State, e: Event)
    requires Inv(s) && InIteration(s.pc) && Enabled(s, e) && !OfPoll(e)
    ensures StillToAccept(s.pc) == (if e.Accept? then 1 else 0) + StillToAccept(Next(s, e).pc)
  {
    IterationFacts(s);
    hide Inv, Add, Remove, Write, Covered, SlotInUse;
  }

  lemma IterationFacts(s: State)
    requires Inv(s) && InIteration(s.pc)
    ensures s.pc.AtClient? ==> s.pc.slot <= s.table.MaxClients()
    ensures s.pc.AtClient? ==> forall i: nat :: StillToServe(s, i) ==> i < s.table.MaxClients()
    ensures s.pc.AtPop? ==> s.queue != []
  {}

  lemma AscendingCons(slot: nat, rest: seq<nat>)
    requires Ascending(rest) && forall i <- rest :: slot < i
    ensures Ascending([slot] + rest)
  {
    assert forall j | 0 < j < |[slot] + rest| :: ([slot] + rest)[j] == rest[j - 1] && rest[j - 1] in rest;
  }

  lemma {:induction false} RestOfIteration(s: State, events: seq<Event>)
    requires Inv(s) && (InIteration(s.pc) || s.pc == AtPoll) && IsRun(s, events) && After(s, events).pc == AtPoll
    requires forall i | 0 <= i < |events| :: !OfPoll(events[i])
    ensures var served := ServedSlots(s, events);
      Ascending(served) && forall i: nat :: i in served <==> StillToServe(s, i)
    ensures Accepts(events) == StillToAccept(s.pc)
    decreases |events|
  {
    if events != [] {
      var e, t := events[0], Next(s, events[0]);
      assert forall i | 0 < i < |events| :: events[i] == events[1..][i - 1];
      StepInv(s, e);
      if s.pc == AtPoll {
        assert t.pc == AtPoll && !e.Client? && !e.Accept?;
      } else {
        if e.Client? {
          ServingStep(s, e);
        } else {
          OtherStep(s, e);
        }
        AcceptStep(s, e);
      }
      hide InIteration, Inv, Enabled, Next, StillToServe, Ascending;
      RestOfIteration(t, events[1..]);
      if e.Client? {
        AscendingCons(s.pc.slot, ServedSlots(t, events[1..]));
      } else {
        assert [] + ServedSlots(t, events[1..]) == ServedSlots(t, events[1..]);
      }
    }
  }

  /** An iteration is complete: from one poll to the next the loop serves exactly the slots that were
      reported, each once and in order, accepts exactly if a client was waiting, and if the pipe held a byte
      processes every command that was pushed before. */
  lemma IterationIsComplete(s: State, accept: bool, ready: set<nat>, events: seq<Event>)
    requires Inv(s) && Enabled(s, PollReady(accept, ready))
    requires IsRun(Next(s, PollReady(accept, ready)), events)
    requires After(Next(s, PollReady(accept, ready)), events).pc == AtPoll
    requires forall i | 0 <= i < |events| ::
               !events[i].PollReady? && !events[i].PollShutdown? && !events[i].PollFails?
    ensures var t := Next(s, PollReady(accept, ready)); var served := ServedSlots(t, events);
      && (forall i, j | 0 <= i < j < |served| :: served[i] < served[j])
      && (forall i: nat :: i in served <==> i in ready)
      && Accepts(events) == (if accept then 1 else 0)
      && (0 < s.pipe ==> s.pushed <= After(t, events).destroyed)
  {
    hide Inv, Enabled, Next, StillToServe, StillToAccept, InIteration, Draining;
    var t := Next(s, PollReady(accept, ready));
    PollBegins(s, accept, ready);
    RestOfIteration(t, events);
    if 0 < s.pipe {
      DrainsAll(t, events);
    }
  }

  lemma PollBegins(s: State, accept: bool, ready: set<nat>)
    requires Inv(s) && Enabled(s, PollReady(accept, ready))
    ensures var t := Next(s, PollReady(accept, ready));
      && Inv(t) && InIteration(t.pc) && StillToAccept(t.pc) == (if accept then 1 else 0)
      && (forall i: nat :: StillToServe(t, i) <==> i in ready)
      && t.pushed == s.pushed && (0 < s.pipe ==> t.pc.AtRead?)
  {
    StepInv(s, PollReady(accept, ready));
    hide Inv;
  }

  lemma {:induction false} DestroyedGrows(s: State, events: seq<Event>)
    requires IsRun(s, events)
    ensures s.destroyed <= After(s, events).destroyed
    decreases |events|
  {
    if events != [] {
      GrowStep(s, events[0]);
      DestroyedGrows(Next(s, events[0]), events[1..]);
    }
  }

  lemma GrowStep(s: State, e: Event)
    requires Enabled(s, e)
    ensures s.destroyed <= Next(s, e).destroyed && s.pushed <= Next(s, e).pushed
  {
    hide Add, Remove, Write, Covered;
  }

  /** A drain that ends has processed all that was pushed before it began. */
  lemma {:induction false} DrainsAll(s: State, events: seq<Event>)
    requires Inv(s) && (s.pc.AtRead? || Draining(s.pc)) && IsRun(s, events) && After(s, events).pc == AtPoll
    ensures s.pushed <= After(s, events).destroyed
    decreases |events|
  {
    assert events != [];
    var t := Next(s, events[0]);
    StepInv(s, events[0]);
    GrowStep(s, events[0]);
    if t.pc.AtRead? || Draining(t.pc) {
      DrainsAll(t, events[1..]);
    } else {
      DrainEnds(s, events[0]);
      DestroyedGrows(t, events[1..]);
    }
  }

  lemma DrainEnds(s: State, e: Event)
    requires Inv(s) && (s.pc.AtRead? || Draining(s.pc)) && Enabled(s, e)
    requires !Next(s, e).pc.AtRead? && !Draining(Next(s, e).pc)
    ensures s.pushed <= Next(s, e).destroyed
  {
    assert s.pc.AtPop? ==> s.queue != [];
    assert s.destroyed + [] + [] == s.destroyed;
  }
}
