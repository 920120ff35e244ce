/** The event loop and the threads that give it work, as a step relation.

    A step is one event of the loop thread or of another thread. The queue operations are atomic (they
    hold the queue's mutex); a push and the write to the wake-up pipe that follows it are two steps.
    Every accepted connection gets a generation number, so that a descriptor that is used again can be
    told from its former holder; the code itself does not have it. */
module EventLoops {
  import opened Pipes
  import opened Framing
  import opened Transport
  import opened SlotTables
  import opened Commands

  /** Whether a command was pushed by a callback on the loop thread or by some other thread. */
  datatype Origin = FromLoop | FromOther

  /** The connections at a moment: descriptor to generation. */
  type Connections = map<int, nat>

  /** A queued command, with the connections and the next generation number when it was pushed, and whether
      the push was covered. */
  datatype Queued = Queued(cmd: Command, origin: Origin, live: Connections, stamp: nat, covered: bool)

  datatype Callback = OnConnect | OnMessages(slot: nat) | OnDisconnect(slot: nat)

  /** Where the loop thread is. `accept` and `ready` are what the last poll reported: a waiting client,
      and the slots with events. */
  datatype LoopPc =
    | NotRunning
    | AtPoll
    | AtRead(accept: bool, ready: set<nat>)
    | AtCheck(accept: bool, ready: set<nat>)
    | AtPop(accept: bool, ready: set<nat>)
    | AtApply(q: Queued, accept: bool, ready: set<nat>)
    | AtAccept(accept: bool, ready: set<nat>)
    | AtClient(slot: nat, ready: set<nat>)
    | InCallback(callback: Callback, owes: bool, ready: set<nat>)
    | Exiting
    | NullDereference
    | Destroyed

  /** A processed command: the connections at that time and the descriptors whose send failed. */
  datatype Entry = Entry(q: Queued, live: Connections, failed: set<int>)

  datatype State = State(
    pc: LoopPc,
    table: Table,
    queue: seq<Queued>,
    pipe: nat,              // bytes in the wake-up pipe
    others: nat,            // other threads between their push and their write
    live: Connections,
    nextGeneration: nat,
    pushed: seq<Queued>,    // every command ever stored in the queue
    destroyed: seq<Queued>,
    log: seq<Entry>,
    wire: map<nat, seq<Message>>,  // messages written whole, per generation
    connects: nat,
    disconnects: nat,
    parseFailures: nat)

  datatype ClientEvent = Data | Gone | Nothing

  datatype Event =
    | Start
    | PollFails
    | PollShutdown
    | PollReady(accept: bool, ready: set<nat>)
    | Read(n: nat)
    | Check
    | Pop
    | Apply(failed: set<int>)
    | SkipAccept
    | Accept(fd: int, parserAllocated: bool)
    | NextClient
    | Client(event: ClientEvent)
    | CallbackPush(cmd: Command, stored: bool)
    | CallbackWrite
    | CallbackReturn(parsed: bool)
    | LoopExit
    | OtherPush(cmd: Command, stored: bool)
    | OtherWrite
    | Destroy

  function Init(maxClients: nat): State {
    State(NotRunning, Empty(maxClients), [], 0, 0, map[], 0, [], [], [], map[], 0, 0, 0)
  }

  predicate SlotInUse(t: Table, slot: nat) {
    slot < t.MaxClients() && t.pollFd[slot] != FREE
  }

  /** When an event can happen. Poll reports POLLIN for a pipe exactly when it holds bytes, and nothing
      for an entry with a negative descriptor; it returns only when there is something to report.
      `accept` fails or returns a descriptor that is not open. */
  predicate Enabled(s: State, e: Event) {
    match e
    case Start => s.pc == NotRunning
    case PollFails => s.pc == AtPoll
    case PollShutdown => s.pc == AtPoll
    case PollReady(accept, ready) =>
      && s.pc == AtPoll
      && (forall slot <- ready :: SlotInUse(s.table, slot))
      && (0 < s.pipe || accept || ready != {})
    case Read(n) => s.pc.AtRead? && n <= s.pipe && n <= READ_SIZE
    case Check => s.pc.AtCheck?
    case Pop => s.pc.AtPop?
    case Apply(_) => s.pc.AtApply? && s.table.Shape()
    case SkipAccept => s.pc.AtAccept? && !s.pc.accept
    case Accept(fd, _) =>
      s.pc.AtAccept? && s.pc.accept && s.table.Shape() && (0 <= fd ==> fd !in s.live)
    case NextClient =>
      s.pc.AtClient? && (s.table.MaxClients() <= s.pc.slot || s.pc.slot !in s.pc.ready)
    case Client(_) => s.pc.AtClient? && s.pc.slot < s.table.MaxClients() && s.pc.slot in s.pc.ready
    case CallbackPush(_, _) => s.pc.InCallback? && !s.pc.owes
    case CallbackWrite => s.pc.InCallback? && s.pc.owes
    case CallbackReturn(_) =>
      && s.pc.InCallback? && !s.pc.owes
      && s.table.Shape() && (s.pc.callback != OnConnect ==> s.pc.callback.slot < s.table.MaxClients())
    case LoopExit => s.pc == Exiting
    case OtherPush(_, _) => s.pc != Destroyed
    case OtherWrite => 0 < s.others
    case Destroy => s.pc == NotRunning && s.others == 0
  }

  function Next(s: State, e: Event): State
    requires Enabled(s, e)
  {
    match e
    case Start => s.(pc := AtPoll)
    case PollFails => s.(pc := Exiting)
    case PollShutdown => s.(pc := Exiting)
    case PollReady(accept, ready) =>
      s.(pc := if 0 < s.pipe then AtRead(accept, ready) else AtAccept(accept, ready))
    case Read(n) => s.(pc := AtCheck(s.pc.accept, s.pc.ready), pipe := s.pipe - n)
    case Check =>
      s.(pc := if s.queue == [] then AtAccept(s.pc.accept, s.pc.ready) else AtPop(s.pc.accept, s.pc.ready))
    case Pop =>
      if s.queue == [] then s.(pc := NullDereference)
      else s.(pc := AtApply(s.queue[0], s.pc.accept, s.pc.ready), queue := s.queue[1..])
    case Apply(failed) => DoApply(s, failed)
    case SkipAccept => s.(pc := AtClient(0, s.pc.ready))
    case Accept(fd, parserAllocated) => DoAccept(s, fd, parserAllocated)
    case NextClient =>
      s.(pc := if s.pc.slot < s.table.MaxClients() then AtClient(s.pc.slot + 1, s.pc.ready) else AtPoll)
    case Client(event) =>
      (match event
       case Data => s.(pc := InCallback(OnMessages(s.pc.slot), false, s.pc.ready))
       case Gone => s.(pc := InCallback(OnDisconnect(s.pc.slot), false, s.pc.ready))
       case Nothing => s.(pc := AtClient(s.pc.slot + 1, s.pc.ready)))
    case CallbackPush(cmd, stored) => DoPush(s.(pc := s.pc.(owes := true)), cmd, FromLoop, stored)
    case CallbackWrite => s.(pc := s.pc.(owes := false), pipe := s.pipe + 1)
    case CallbackReturn(parsed) => DoReturn(s, parsed)
    case LoopExit => s.(pc := NotRunning)
    case OtherPush(cmd, stored) => DoPush(s.(others := s.others + 1), cmd, FromOther, stored)
    case OtherWrite => s.(others := s.others - 1, pipe := s.pipe + 1)
    case Destroy => s.(pc := Destroyed, queue := [], destroyed := s.destroyed + s.queue)
  }

  predicate Draining(pc: LoopPc) {
    pc.AtCheck? || pc.AtPop? || pc.AtApply?
  }

  /** Whether a client can be admitted now: a slot and a descriptor are left. */
  predicate HasRoom(s: State) {
    s.table.clientCount < s.table.MaxClients() && exists fd: nat | fd < MAX_FD_LIMIT :: fd !in s.live
  }

  /** A push is covered when the loop is bound to drain the queue before it admits a client: it comes from a
      callback, or the loop is about to drain or draining, or it is about to write to the pipe, or a byte in
      the pipe will make the next poll report it and no client is being admitted now. */
  predicate Covered(s: State, origin: Origin) {
    || origin == FromLoop
    || s.pc.AtRead? || Draining(s.pc)
    || (s.pc.InCallback? && s.pc.owes)
    || (0 < s.pipe && !(s.pc.AtAccept? && s.pc.accept && HasRoom(s)))
  }

  /** A push; `stored` is false when the queue could not allocate a node and dropped the command. */
  function DoPush(s: State, cmd: Command, origin: Origin, stored: bool): State {
    if !stored then s
    else
      var q := Queued(cmd, origin, s.live, s.nextGeneration, Covered(s, origin));
      s.(queue := s.queue + [q], pushed := s.pushed + [q])
  }

  /** Process the popped command and destroy it. */
  function DoApply(s: State, failed: set<int>): State
    requires s.pc.AtApply? && s.table.Shape()
  {
    var q := s.pc.q;
    s.(pc := AtCheck(s.pc.accept, s.pc.ready),
       destroyed := s.destroyed + [q],
       log := s.log + [Entry(q, s.live, failed)],
       wire := if Framed(q.cmd)
               then Write(s.wire, s.live, Recipients(s.table, q.cmd), OnWire(q.cmd.kind, q.cmd.payload), failed)
               else s.wire)
  }

  /** Writes `m` to the descriptors `fds`, one after the other, except where the send fails. */
  function Write(wire: map<nat, seq<Message>>, live: Connections, fds: seq<int>, m: Message, failed: set<int>)
    : map<nat, seq<Message>>
  {
    if fds == [] then wire
    else
      var fd := fds[0];
      Write(if fd !in failed && fd in live && live[fd] in wire then wire[live[fd] := wire[live[fd]] + [m]] else wire,
            live, fds[1..], m, failed)
  }

  function DoAccept(s: State, fd: int, parserAllocated: bool): State
    requires s.pc.AtAccept? && s.table.Shape()
  {
    var (table, outcome) := Add(s.table, fd, parserAllocated);
    if outcome.Added? then
      s.(pc := InCallback(OnConnect, false, s.pc.ready),
         table := table,
         live := s.live[fd := s.nextGeneration],
         nextGeneration := s.nextGeneration + 1,
         wire := s.wire[s.nextGeneration := []],
         connects := s.connects + 1)
    else s.(pc := AtClient(0, s.pc.ready), table := table)
  }

  /** A callback returned. Messages that parsed leave the client in place; a parse failure and a
      disconnect remove it. */
  function DoReturn(s: State, parsed: bool): State
    requires s.pc.InCallback? && s.table.Shape()
    requires s.pc.callback != OnConnect ==> s.pc.callback.slot < s.table.MaxClients()
  {
    match s.pc.callback
    case OnConnect => s.(pc := AtClient(0, s.pc.ready))
    case OnMessages(slot) =>
      if parsed then s.(pc := AtClient(slot + 1, s.pc.ready))
      else DropClient(s, slot).(parseFailures := s.parseFailures + 1)
    case OnDisconnect(slot) => DropClient(s, slot).(disconnects := s.disconnects + 1)
  }

  function DropClient(s: State, slot: nat): State
    requires s.pc.InCallback? && s.table.Shape() && slot < s.table.MaxClients()
  {
    s.(pc := AtClient(slot + 1, s.pc.ready),
       table := Remove(s.table, slot),
       live := s.live - {s.table.pollFd[slot]})
  }

  /** Runs of any length. */
  predicate IsRun(s: State, events: seq<Event>)
    decreases |events|
  {
    events == [] || (Enabled(s, events[0]) && IsRun(Next(s, events[0]), events[1..]))
  }

  function After(s: State, events: seq<Event>): State
    requires IsRun(s, events)
    decreases |events|
  {
    if events == [] then s else After(Next(s, events[0]), events[1..])
  }
}
