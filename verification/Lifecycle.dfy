/** Starting and stopping: any number of threads that call start and shutdown, and the loop threads,
    interleaved at the boundaries of the state mutex and of the calls that can block. */
module Lifecycles {
  import opened Pipes

  datatype ServerState = Stopped | Running | ShuttingDown

  /** A loop thread polls, has left the loop but not yet recorded it, or is over. */
  datatype LoopPhase = Looping | Leaving | Over

  /** A caller that won the shutdown. `epoch` is the number of starts when it did; `thread` is the loop
      thread it waits for. */
  datatype Stopper =
    | AtWrite(epoch: nat)
    | AtReadThread(epoch: nat)
    | AtJoin(epoch: nat, thread: nat)

  datatype Server = Server(
    state: ServerState,
    loops: map<nat, LoopPhase>,   // every loop thread ever created
    serverThread: nat,            // the thread recorded by the last start; 0 before the first
    starts: nat,
    shutdownPipe: nat,
    stoppers: map<nat, Stopper>)  // callers inside shutdown, past the check of the state

  datatype Event =
    | Start(created: bool)
    | StartRefused
    | LeaveOnSignal(thread: nat, bytesRead: nat)
    | LeaveOnPollError(thread: nat)
    | RecordStopped(thread: nat)
    | Shutdown(caller: nat)
    | ShutdownRefused
    | WriteSignal(caller: nat)
    | ReadThread(caller: nat)
    | Return(caller: nat)

  const INIT: Server := Server(Stopped, map[], 0, 0, 0, map[])

  predicate In(v: Server, thread: nat, phase: LoopPhase) {
    thread in v.loops && v.loops[thread] == phase
  }

  predicate Enabled(v: Server, e: Event) {
    match e
    case Start(_) => v.state == Stopped
    case StartRefused => v.state != Stopped
    case LeaveOnSignal(thread, bytesRead) =>
      In(v, thread, Looping) && 0 < v.shutdownPipe && bytesRead <= v.shutdownPipe && bytesRead <= READ_SIZE
    case LeaveOnPollError(thread) => In(v, thread, Looping)
    case RecordStopped(thread) => In(v, thread, Leaving)
    case Shutdown(caller) => v.state == Running && caller !in v.stoppers
    case ShutdownRefused => v.state != Running
    case WriteSignal(caller) => caller in v.stoppers && v.stoppers[caller].AtWrite?
    case ReadThread(caller) => caller in v.stoppers && v.stoppers[caller].AtReadThread?
    case Return(caller) =>
      caller in v.stoppers && v.stoppers[caller].AtJoin? && In(v, v.stoppers[caller].thread, Over)
  }

  function Next(v: Server, e: Event): Server
    requires Enabled(v, e)
  {
    match e
    case Start(created) =>
      if !created then v
      else
        var thread := v.starts + 1;
        v.(state := Running, loops := v.loops[thread := Looping], serverThread := thread, starts := v.starts + 1)
    case StartRefused => v
    case LeaveOnSignal(thread, bytesRead) =>
      v.(loops := v.loops[thread := Leaving], shutdownPipe := v.shutdownPipe - bytesRead)
    case LeaveOnPollError(thread) => v.(loops := v.loops[thread := Leaving])
    case RecordStopped(thread) => v.(state := Stopped, loops := v.loops[thread := Over])
    case Shutdown(caller) => v.(state := ShuttingDown, stoppers := v.stoppers[caller := AtWrite(v.starts)])
    case ShutdownRefused => v
    case WriteSignal(caller) =>
      v.(shutdownPipe := v.shutdownPipe + 1, stoppers := v.stoppers[caller := AtReadThread(v.stoppers[caller].epoch)])
    case ReadThread(caller) =>
      v.(stoppers := v.stoppers[caller := AtJoin(v.stoppers[caller].epoch, v.serverThread)])
    case Return(caller) => v.(stoppers := v.stoppers - {caller})
  }

  predicate IsRun(v: Server, events: seq<Event>)
    decreases |events|
  {
    events == [] || (Enabled(v, events[0]) && IsRun(Next(v, events[0]), events[1..]))
  }

  function After(v: Server, events: seq<Event>): Server
    requires IsRun(v, events)
    decreases |events|
  {
    if events == [] then v else After(Next(v, events[0]), events[1..])
  }

  /** Thread `t` is in the event loop until it has recorded that it left. */
  predicate InLoop(v: Server, t: nat) {
    t in v.loops && v.loops[t] != Over
  }

  /** The only thread that can be in the loop is that of the last start, and it is unless stopped. */
  ghost predicate OneLoop(v: Server) {
    && v.serverThread == v.starts
    && (forall t: nat :: t in v.loops <==> 1 <= t <= v.starts)
    && (forall t: nat | 1 <= t < v.starts :: v.loops[t] == Over)
    && (v.state == Stopped <==> (v.starts == 0 || v.loops[v.starts] == Over))
  }

  /** A start is shut down by at most one caller, and its caller waits for that start's thread or for a
      later one. */
  ghost predicate OneStopper(v: Server) {
    && (forall c <- v.stoppers :: 1 <= v.stoppers[c].epoch <= v.starts)
    && (v.state == Running ==> forall c <- v.stoppers :: v.stoppers[c].epoch < v.starts)
    && (forall c <- v.stoppers, d <- v.stoppers :: v.stoppers[c].epoch == v.stoppers[d].epoch ==> c == d)
    && (forall c <- v.stoppers | v.stoppers[c].AtJoin? :: v.stoppers[c].epoch <= v.stoppers[c].thread <= v.starts)
  }

  /** A shutdown that the loop has not yet noticed is in the pipe or about to be written. */
  ghost predicate Signalled(v: Server) {
    v.state == ShuttingDown && In(v, v.serverThread, Looping) ==>
      0 < v.shutdownPipe || exists c <- v.stoppers :: v.stoppers[c].AtWrite?
  }

  ghost predicate Inv(v: Server) {
    OneLoop(v) && OneStopper(v) && Signalled(v)
  }

  lemma StepInv(v: Server, e: Event)
    requires Inv(v) && Enabled(v, e)
    ensures Inv(Next(v, e))
  {
    StepOneLoop(v, e);
    StepOneStopper(v, e);
    StepSignalled(v, e);
  }

  lemma StepOneLoop(v: Server, e: Event)
    requires OneLoop(v) && Enabled(v, e)
    ensures OneLoop(Next(v, e))
  {}

  lemma StepOneStopper(v: Server, e: Event)
    requires OneLoop(v) && OneStopper(v) && Enabled(v, e)
    ensures OneStopper(Next(v, e))
  {
    assert v.serverThread == v.starts;
    hide OneLoop, In;
  }

  lemma StepSignalled(v: Server, e: Event)
    requires OneLoop(v) && Signalled(v) && Enabled(v, e)
    ensures Signalled(Next(v, e))
  {
    var w := Next(v, e);
    match e
    case Shutdown(caller) =>
      assert w.stoppers[caller].AtWrite?;
    case WriteSignal(caller) =>
    case ReadThread(caller) =>
      if c :| c in v.stoppers && v.stoppers[c].AtWrite? {
        assert w.stoppers[c].AtWrite?;
      }
    case Return(caller) =>
      if c :| c in v.stoppers && v.stoppers[c].AtWrite? {
        assert w.stoppers[c].AtWrite?;
      }
    case _ =>
  }

  lemma {:induction false} RunInv(v: Server, events: seq<Event>)
    requires Inv(v) && IsRun(v, events)
    ensures Inv(After(v, events))
    decreases |events|
  {
    if events != [] {
      StepInv(v, events[0]);
      RunInv(Next(v, events[0]), events[1..]);
    }
  }

  /** In every reachable state exactly one thread is in the event loop if the server is running or
      shutting down, and none if it is stopped. */
  lemma OneThreadInLoop(events: seq<Event>)
    requires IsRun(INIT, events)
    ensures var v := After(INIT, events);
      && (v.state == Stopped <==> forall t :: !InLoop(v, t))
      && (v.state != Stopped <==> exists t :: InLoop(v, t) && forall u :: InLoop(v, u) ==> u == t)
  {
    RunInv(INIT, events);
    var v := After(INIT, events);
    if v.state != Stopped {
      assert InLoop(v, v.starts);
    }
  }

  /** When the caller that moved the server from running to shutting down returns, a loop thread from
      its own start or a later one is over; and the server is stopped exactly when nobody has started it
      again since the call, or that loop is over too. */
  lemma ShutdownReturnsStopped(events: seq<Event>, caller: nat)
    requires IsRun(INIT, events) && Enabled(After(INIT, events), Return(caller))
    ensures var v := After(INIT, events);
      var stopper := v.stoppers[caller];
      && stopper.epoch <= stopper.thread && !InLoop(v, stopper.thread)
      && (v.state == Stopped <==> v.starts == stopper.epoch || In(v, v.starts, Over))
      && (v.starts == stopper.epoch ==> v.state == Stopped && stopper.thread == stopper.epoch)
  {
    RunInv(INIT, events);
  }

  /** No lost shutdown: while the server is shutting down and no caller is about to signal, the loop has
      left or its poll reports the shutdown pipe, so that the loop can leave. */
  lemma NoLostShutdown(events: seq<Event>)
    requires IsRun(INIT, events)
    ensures var v := After(INIT, events);
      v.state == ShuttingDown && (forall c <- v.stoppers :: !v.stoppers[c].AtWrite?) ==>
        || In(v, v.serverThread, Leaving)
        || Enabled(v, LeaveOnSignal(v.serverThread, 1))
  {
    RunInv(INIT, events);
  }

  lemma {:induction false} RunSnoc(v: Server, events: seq<Event>, e: Event)
    requires IsRun(v, events) && Enabled(After(v, events), e)
    ensures IsRun(v, events + [e]) && After(v, events + [e]) == Next(After(v, events), e)
    decreases |events|
  {
    if events == [] {
      assert events + [e] == [e] && [e][1..] == [];
    } else {
      assert (events + [e])[1..] == events[1..] + [e];
      RunSnoc(Next(v, events[0]), events[1..], e);
    }
  }

  /** A caller that reads the thread to wait for gets that of its own start exactly when nobody has started
      the server since. */
  lemma WaitsForOwnLoop(events: seq<Event>, caller: nat)
    requires IsRun(INIT, events) && Enabled(After(INIT, events), ReadThread(caller))
    ensures var v := After(INIT, events);
      Next(v, ReadThread(caller)).stoppers[caller].thread == v.stoppers[caller].epoch
      <==> v.starts == v.stoppers[caller].epoch
  {
    RunInv(INIT, events);
  }

  lemma {:induction false} FreshCaller(callers: set<nat>) returns (caller: nat)
    ensures forall c <- callers :: c < caller
  {
    if callers == {} {
      caller := 0;
    } else {
      var c :| c in callers;
      var above := FreshCaller(callers - {c});
      caller := if above <= c then c + 1 else above;
      assert callers == callers - {c} + {c};
    }
  }

  /** No poll fails, and what a loop reads from the pipe when it leaves is not nothing. */
  predicate SmoothEvent(e: Event) {
    !e.LeaveOnPollError? && (e.LeaveOnSignal? ==> 0 < e.bytesRead)
  }

  predicate Smooth(events: seq<Event>) {
    forall i | 0 <= i < |events| :: SmoothEvent(events[i])
  }

  /** Without a failing poll or read, `v` can become `w`. */
  ghost predicate CanBecome(v: Server, w: Server) {
    exists events :: Smooth(events) && IsRun(v, events) && After(v, events) == w
  }

  lemma CanStay(v: Server)
    ensures CanBecome(v, v)
  {
    assert Smooth([]) && IsRun(v, []) && After(v, []) == v;
  }

  lemma CanStep(v: Server, w: Server, e: Event) returns (x: Server)
    requires CanBecome(v, w) && Inv(w) && Enabled(w, e) && SmoothEvent(e)
    ensures x == Next(w, e) && CanBecome(v, x) && Inv(x)
  {
    x := Next(w, e);
    StepInv(w, e);
    var events :| Smooth(events) && IsRun(v, events) && After(v, events) == w;
    RunSnoc(v, events, e);
    assert Smooth(events + [e]);
  }

  /** A running server can be asked to stop. */
  lemma CanShutDown(v: Server, w: Server) returns (x: Server)
    requires CanBecome(v, w) && Inv(w) && w.state == Running
    ensures CanBecome(v, x) && Inv(x) && x.state == ShuttingDown && x.starts == w.starts
    ensures forall c <- w.stoppers :: c in x.stoppers && x.stoppers[c] == w.stoppers[c]
  {
    hide Inv, CanBecome;
    var d := FreshCaller(w.stoppers.Keys);
    x := CanStep(v, w, Shutdown(d));
  }

  /** The signal of a shutdown can come to be in the pipe. */
  lemma CanSignal(v: Server, w: Server) returns (x: Server)
    requires CanBecome(v, w) && Inv(w) && w.state == ShuttingDown && In(w, w.starts, Looping)
    ensures CanBecome(v, x) && Inv(x) && x.state == ShuttingDown && x.starts == w.starts
    ensures In(x, x.starts, Looping) && 0 < x.shutdownPipe
    ensures forall c <- w.stoppers | !w.stoppers[c].AtWrite? :: c in x.stoppers && x.stoppers[c] == w.stoppers[c]
  {
    x := w;
    if w.shutdownPipe == 0 {
      var c :| c in w.stoppers && w.stoppers[c].AtWrite?;
      hide Inv, CanBecome;
      x := CanStep(v, w, WriteSignal(c));
    }
  }

  /** Then the loop can leave. */
  lemma CanLeave(v: Server, w: Server) returns (x: Server)
    requires CanBecome(v, w) && Inv(w) && w.state == ShuttingDown
    ensures CanBecome(v, x) && Inv(x) && x.state == ShuttingDown && x.starts == w.starts
    ensures In(x, x.starts, Leaving)
    ensures forall c <- w.stoppers | !w.stoppers[c].AtWrite? :: c in x.stoppers && x.stoppers[c] == w.stoppers[c]
  {
    assert In(w, w.starts, Looping) || In(w, w.starts, Leaving);
    hide Inv, CanBecome;
    x := w;
    if In(w, w.starts, Looping) {
      x := CanSignal(v, w);
      x := CanStep(v, x, LeaveOnSignal(x.starts, 1));
    }
  }

  /** Altogether the last loop can be brought to its end, with the callers past their signal where they are. */
  lemma CanStop(v: Server, w: Server) returns (x: Server)
    requires CanBecome(v, w) && Inv(w)
    ensures CanBecome(v, x) && Inv(x) && x.state == Stopped && x.starts == w.starts
    ensures forall c <- w.stoppers | !w.stoppers[c].AtWrite? :: c in x.stoppers && x.stoppers[c] == w.stoppers[c]
  {
    hide Inv, CanBecome;
    x := w;
    if x.state == Running {
      x := CanShutDown(v, x);
    }
    if x.state == ShuttingDown {
      x := CanLeave(v, x);
      x := CanStep(v, x, RecordStopped(x.starts));
    }
  }

  lemma CanWrite(v: Server, caller: nat) returns (x: Server)
    requires Inv(v) && caller in v.stoppers
    ensures CanBecome(v, x) && Inv(x) && caller in x.stoppers && !x.stoppers[caller].AtWrite?
    ensures x.stoppers[caller].epoch == v.stoppers[caller].epoch
    ensures v.stoppers[caller].AtJoin? <==> x.stoppers[caller].AtJoin?
  {
    CanStay(v);
    hide Inv, CanBecome;
    x := v;
    if v.stoppers[caller].AtWrite? {
      x := CanStep(v, v, WriteSignal(caller));
    }
  }

  lemma StoppedIsOver(v: Server, caller: nat)
    requires Inv(v) && v.state == Stopped && caller in v.stoppers
    ensures v.stoppers[caller].epoch <= v.starts == v.serverThread
    ensures v.stoppers[caller].AtJoin? ==>
              In(v, v.stoppers[caller].thread, Over) && v.stoppers[caller].thread <= v.starts
  {}

  /** "No start meanwhile" is all that helps: from every reachable state, whatever a caller inside shutdown
      has done so far, it can still come to return while the server is running - although no poll and no
      read fails. */
  lemma AnyShutdownCanReturnRunning(v: Server, caller: nat)
    requires Inv(v) && caller in v.stoppers
    ensures exists w :: CanBecome(v, w) && Enabled(w, Return(caller)) && w.state == Running
  {
    hide Inv, CanBecome;
    var w := CanWrite(v, caller);
    if w.stoppers[caller].AtReadThread? {
      w := CanStep(v, w, ReadThread(caller));
    }
    w := CanStop(v, w);
    StoppedIsOver(w, caller);
    w := CanStep(v, w, Start(true));
    assert Enabled(w, Return(caller));
  }

  /** And a caller that has not yet read which thread to wait for can still come to wait for the loop of a
      later start, while the server is running. */
  lemma AnyShutdownCanWaitForALaterLoop(v: Server, caller: nat)
    requires Inv(v) && caller in v.stoppers && !v.stoppers[caller].AtJoin?
    ensures exists w :: CanBecome(v, w) && w.state == Running && caller in w.stoppers && w.stoppers[caller].AtJoin?
              && w.stoppers[caller].epoch < w.stoppers[caller].thread && In(w, w.stoppers[caller].thread, Looping)
  {
    hide Inv, CanBecome;
    var w := CanWrite(v, caller);
    w := CanStop(v, w);
    StoppedIsOver(w, caller);
    w := CanStep(v, w, Start(true));
    w := CanStep(v, w, ReadThread(caller));
    assert caller in w.stoppers;
  }

  /** A caller has signalled, the loop has left and recorded it, and the caller has not yet read which
      thread to wait for. */
  lemma StopBeforeJoin(caller: nat) returns (events: seq<Event>)
    ensures IsRun(INIT, events)
    ensures After(INIT, events) == Server(Stopped, map[1 := Over], 1, 1, 0, map[caller := AtReadThread(1)])
  {
    hide IsRun, After;
    events := [];
    assert IsRun(INIT, events) && After(INIT, events) == INIT by { EmptyRun(INIT); }
    RunSnoc(INIT, events, Start(true));
    events := events + [Start(true)];
    RunSnoc(INIT, events, Shutdown(caller));
    events := events + [Shutdown(caller)];
    RunSnoc(INIT, events, WriteSignal(caller));
    events := events + [WriteSignal(caller)];
    RunSnoc(INIT, events, LeaveOnSignal(1, 1));
    events := events + [LeaveOnSignal(1, 1)];
    RunSnoc(INIT, events, RecordStopped(1));
    events := events + [RecordStopped(1)];
  }

  lemma EmptyRun(v: Server)
    ensures IsRun(v, []) && After(v, []) == v
  {}

  /** The condition in `ShutdownReturnsStopped` is needed: with a start in between, a caller can return
      from shutdown while the server is running. */
  lemma ShutdownCanReturnRunning(caller: nat)
    ensures exists events :: IsRun(INIT, events)
              && Enabled(After(INIT, events), Return(caller))
              && After(INIT, events).state == Running
  {
    var events := StopBeforeJoin(caller);
    hide IsRun, After;
    RunSnoc(INIT, events, ReadThread(caller));
    events := events + [ReadThread(caller)];
    RunSnoc(INIT, events, Start(true));
    events := events + [Start(true)];
    assert Enabled(After(INIT, events), Return(caller));
  }

  /** And it can wait for a loop that nobody has told to stop: the start came before it read the thread. */
  lemma ShutdownCanWaitForAnotherLoop(caller: nat)
    ensures exists events :: IsRun(INIT, events) &&
              var v := After(INIT, events);
              && caller in v.stoppers && v.stoppers[caller] == AtJoin(1, 2)
              && v.state == Running && In(v, 2, Looping) && v.shutdownPipe == 0
  {
    var events := StopBeforeJoin(caller);
    hide IsRun, After;
    RunSnoc(INIT, events, Start(true));
    events := events + [Start(true)];
    RunSnoc(INIT, events, ReadThread(caller));
    events := events + [ReadThread(caller)];
    assert caller in After(INIT, events).stoppers;
  }

  /** Callers that have still to write their signal. */
  function WritersOf(stoppers: map<nat, Stopper>): set<nat> {
    set c | c in stoppers && Writing(stoppers[c])
  }

  predicate Writing(s: Stopper) {
    s.AtWrite?
  }

  function Writers(v: Server): set<nat> {
    WritersOf(v.stoppers)
  }

  /** Shutdowns that were won, and signals that were read. */
  function Won(events: seq<Event>): nat {
    if events == [] then 0 else (if events[0].Shutdown? then 1 else 0) + Won(events[1..])
  }

  function BytesRead(events: seq<Event>): nat {
    if events == [] then 0 else (if events[0].LeaveOnSignal? then events[0].bytesRead else 0) + BytesRead(events[1..])
  }

  lemma WritersUpdate(stoppers: map<nat, Stopper>, c: nat, s: Stopper)
    ensures var was := c in stoppers && Writing(stoppers[c]);
      |WritersOf(stoppers[c := s])| == |WritersOf(stoppers)| - (if was then 1 else 0) + (if Writing(s) then 1 else 0)
  {
    hide Writing;
    var before, after := WritersOf(stoppers), WritersOf(stoppers[c := s]);
    forall d: nat | d != c ensures d in after <==> d in before {}
    var rest := before - {c};
    assert after - {c} == rest;
    assert c in before ==> before == rest + {c};
    assert c !in before ==> before == rest;
    assert c in after ==> after == rest + {c};
    assert c !in after ==> after == rest;
  }

  lemma WritersStep(v: Server, e: Event)
    requires Enabled(v, e)
    ensures var w := Next(v, e);
      w.shutdownPipe + |Writers(w)| + BytesRead([e]) == v.shutdownPipe + |Writers(v)| + Won([e])
  {
    assert [e][1..] == [];
    match e
    case Shutdown(caller) =>
      WritersUpdate(v.stoppers, caller, AtWrite(v.starts));
    case WriteSignal(caller) =>
      WritersUpdate(v.stoppers, caller, AtReadThread(v.stoppers[caller].epoch));
    case ReadThread(caller) =>
      WritersUpdate(v.stoppers, caller, AtJoin(v.stoppers[caller].epoch, v.serverThread));
    case Return(caller) =>
      assert WritersOf(v.stoppers - {caller}) == WritersOf(v.stoppers);
    case _ =>
  }

  /** Conservation of signals: one for every shutdown that was won is with its caller, in the pipe or read. */
  lemma {:induction false} SignalsAreConserved(v: Server, events: seq<Event>)
    requires IsRun(v, events)
    ensures var w := After(v, events);
      w.shutdownPipe + |Writers(w)| + BytesRead(events) == v.shutdownPipe + |Writers(v)| + Won(events)
    decreases |events|
  {
    if events != [] {
      WritersStep(v, events[0]);
      SignalsAreConserved(Next(v, events[0]), events[1..]);
    }
  }

  /** After a start the new loop can come to leave on a signal although nobody has won a shutdown since,
      exactly when fewer signals have been read than shutdowns were won: one is left, in the pipe or with a
      caller that has still to write it. */
  lemma CleanStart(events: seq<Event>)
    requires IsRun(INIT, events) && Enabled(After(INIT, events), Start(true))
    ensures var v := After(INIT, events); var x := Next(v, Start(true));
      && (v.shutdownPipe == 0 && Writers(v) == {} <==> BytesRead(events) == Won(events))
      && ((exists es :: IsRun(x, es) && Won(es) == 0 && Enabled(After(x, es), LeaveOnSignal(x.serverThread, 1)))
          <==> BytesRead(events) != Won(events))
  {
    var v := After(INIT, events);
    SignalsAreConserved(INIT, events);
    if BytesRead(events) != Won(events) {
      LeftoverEndsLoop(v);
    } else {
      forall es | IsRun(Next(v, Start(true)), es) && Won(es) == 0
        ensures After(Next(v, Start(true)), es).shutdownPipe == 0
      {
        SignalsAreConserved(Next(v, Start(true)), es);
      }
    }
  }

  lemma LeftoverEndsLoop(v: Server)
    requires Enabled(v, Start(true)) && (0 < v.shutdownPipe || Writers(v) != {})
    ensures var x := Next(v, Start(true));
      exists es :: IsRun(x, es) && Won(es) == 0 && Enabled(After(x, es), LeaveOnSignal(x.serverThread, 1))
  {
    var x := Next(v, Start(true));
    EmptyRun(x);
    if 0 < v.shutdownPipe {
      assert Won([]) == 0 && Enabled(After(x, []), LeaveOnSignal(x.serverThread, 1));
    } else {
      var c :| c in Writers(v);
      RunSnoc(x, [], WriteSignal(c));
      assert Won([] + [WriteSignal(c)]) == 0;
      assert Enabled(After(x, [] + [WriteSignal(c)]), LeaveOnSignal(x.serverThread, 1));
    }
  }

  /** As long as no poll and no read fails, every signal is read by the loop it is meant for: a stopped or
      running server has none left. */
  lemma SmoothRunsStartClean(events: seq<Event>)
    requires IsRun(INIT, events) && Smooth(events)
    ensures var v := After(INIT, events);
      v.state != ShuttingDown ==> v.shutdownPipe == 0 && Writers(v) == {}
  {
    SmoothRun(INIT, events);
  }

  /** A running server's loop is looping; there is one signal while it is being shut down, none otherwise. */
  ghost predicate OneSignal(v: Server) {
    && (v.state == Running ==> In(v, v.serverThread, Looping))
    && v.shutdownPipe + |Writers(v)| == if v.state == ShuttingDown && In(v, v.serverThread, Looping) then 1 else 0
  }

  lemma {:induction false} SmoothRun(v: Server, events: seq<Event>)
    requires Inv(v) && OneSignal(v) && IsRun(v, events) && Smooth(events)
    ensures OneSignal(After(v, events))
    decreases |events|
  {
    if events != [] {
      StepInv(v, events[0]);
      SmoothStep(v, events[0]);
      assert forall i | 0 <= i < |events[1..]| :: events[1..][i] == events[i + 1];
      SmoothRun(Next(v, events[0]), events[1..]);
    }
  }

  lemma SmoothStep(v: Server, e: Event)
    requires Inv(v) && OneSignal(v) && Enabled(v, e)
    requires SmoothEvent(e)
    ensures OneSignal(Next(v, e))
  {
    WritersStep(v, e);
    assert [e][1..] == [];
  }

  /** It takes a failure to leave one behind: after a poll error, a shutdown that finds the loop gone and
      returns leaves its signal in the pipe, and the next loop leaves although nobody asks it to. */
  lemma StaleSignalStopsALaterLoop(caller: nat)
    ensures exists events :: IsRun(INIT, events) &&
              var v := After(INIT, events);
              v.state == Running && v.stoppers == map[] && Enabled(v, LeaveOnSignal(v.serverThread, 1))
  {
    hide IsRun, After;
    var events := [];
    EmptyRun(INIT);
    RunSnoc(INIT, events, Start(true));
    events := events + [Start(true)];
    RunSnoc(INIT, events, LeaveOnPollError(1));
    events := events + [LeaveOnPollError(1)];
    RunSnoc(INIT, events, Shutdown(caller));
    events := events + [Shutdown(caller)];
    RunSnoc(INIT, events, WriteSignal(caller));
    events := events + [WriteSignal(caller)];
    RunSnoc(INIT, events, RecordStopped(1));
    events := events + [RecordStopped(1)];
    RunSnoc(INIT, events, ReadThread(caller));
    events := events + [ReadThread(caller)];
    RunSnoc(INIT, events, Return(caller));
    events := events + [Return(caller)];
    RunSnoc(INIT, events, Start(true));
    events := events + [Start(true)];
    assert After(INIT, events).stoppers == map[];
  }

  /** What can happen and when, in both directions. */
  lemma EnabledMeans(v: Server, caller: nat, thread: nat, n: nat, created: bool)
    ensures Enabled(v, Start(created)) <==> v.state == Stopped
    ensures Enabled(v, Shutdown(caller)) <==> v.state == Running && caller !in v.stoppers
    ensures Enabled(v, LeaveOnSignal(thread, n)) <==>
              In(v, thread, Looping) && 0 < v.shutdownPipe && n <= v.shutdownPipe && n <= 8
    ensures Enabled(v, LeaveOnPollError(thread)) <==> In(v, thread, Looping)
    ensures Enabled(v, RecordStopped(thread)) <==> In(v, thread, Leaving)
    ensures Enabled(v, Return(caller)) <==>
              caller in v.stoppers && v.stoppers[caller].AtJoin? && In(v, v.stoppers[caller].thread, Over)
  {}
}
