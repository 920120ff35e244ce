/** The three tables that index the connections - the poll entries, the client slots and the map from
    descriptor to slot - as one value, with the effect of accepting and removing a client. */
module SlotTables {
  const MAX_FD_LIMIT: nat := 4096

  /** A poll entry without a connection. */
  const FREE: int := -1

  /** A map entry without a slot: the null pointer. */
  const NO_SLOT: int := -1

  datatype Table = Table(
    pollFd: seq<int>,
    socketFd: seq<int>,
    hasParser: seq<bool>,
    clientMap: seq<int>,
    clientCount: int)
  {
    function MaxClients(): nat {
      |pollFd|
    }

    predicate Shape() {
      && |pollFd| == |socketFd| == |hasParser|
      && |clientMap| == MAX_FD_LIMIT
    }

    /** A slot is occupied exactly when its poll entry has a descriptor; then the slot, the parser and
        the map entry say the same. */
    predicate SlotAgrees(i: nat)
      requires Shape() && i < MaxClients()
    {
      if pollFd[i] == FREE then !hasParser[i]
      else
        && 0 <= pollFd[i] < MAX_FD_LIMIT
        && socketFd[i] == pollFd[i]
        && hasParser[i]
        && clientMap[pollFd[i]] == i
    }

    /** A map entry points at a slot only if that slot holds the descriptor. */
    predicate EntryAgrees(fd: nat)
      requires Shape() && fd < MAX_FD_LIMIT
    {
      clientMap[fd] == NO_SLOT || (0 <= clientMap[fd] < MaxClients() && pollFd[clientMap[fd]] == fd)
    }

    ghost predicate Agrees() {
      && Shape()
      && (forall i: nat | i < MaxClients() :: SlotAgrees(i))
      && (forall fd: nat | fd < MAX_FD_LIMIT :: EntryAgrees(fd))
      && clientCount == Occupied(pollFd)
    }

    ghost function Connected(): set<int> {
      InUse(pollFd)
    }

    /** The lookup in front of every send. */
    predicate IsValidClient(fd: int)
      requires Shape()
    {
      0 <= fd < MAX_FD_LIMIT && clientMap[fd] != NO_SLOT
    }
  }

  ghost function InUse(fds: seq<int>): set<int> {
    set fd | fd in fds && fd != FREE
  }

  /** The number of poll entries in use. */
  function Occupied(fds: seq<int>): (n: nat)
    ensures n <= |fds|
  {
    if fds == [] then 0 else (if fds[0] == FREE then 0 else 1) + Occupied(fds[1..])
  }

  /** The tables of a new server. */
  function Empty(maxClients: nat): (t: Table) {
    Table(seq(maxClients, _ => FREE), seq(maxClients, _ => 0), seq(maxClients, _ => false),
          seq(MAX_FD_LIMIT, _ => NO_SLOT), 0)
  }

  /** First fit from slot `i` on; `FREE` when every entry is in use. */
  function FirstFree(fds: seq<int>, i: nat): (slot: int)
    requires i <= |fds|
    ensures slot == FREE ==> FREE !in fds[i..]
    ensures slot != FREE ==> i <= slot < |fds| && fds[slot] == FREE && FREE !in fds[i..slot]
    decreases |fds| - i
  {
    if i == |fds| then FREE
    else if fds[i] == FREE then i
    else
      assert fds[i..] == [fds[i]] + fds[i + 1..];
      FirstFree(fds, i + 1)
  }

  datatype AddOutcome = AcceptFailed | FdTooBig | Full | NoFreeSlot | NoParser | Added(slot: nat)

  /** `accept` returned `fd`; `parserAllocated` tells whether a parser could be allocated. */
  function Add(t: Table, fd: int, parserAllocated: bool): (Table, AddOutcome)
    requires t.Shape()
  {
    if fd < 0 then (t, AcceptFailed)
    else if MAX_FD_LIMIT <= fd then (t, FdTooBig)
    else if t.MaxClients() <= t.clientCount then (t, Full)
    else
      var slot := FirstFree(t.pollFd, 0);
      if slot == FREE then (t, NoFreeSlot)
      else if !parserAllocated then
        (t.(socketFd := t.socketFd[slot := fd], hasParser := t.hasParser[slot := false]), NoParser)
      else (Table(t.pollFd[slot := fd], t.socketFd[slot := fd], t.hasParser[slot := true],
                  t.clientMap[fd := slot], t.clientCount + 1), Added(slot))
  }

  function Remove(t: Table, slot: nat): Table
    requires t.Shape() && slot < t.MaxClients()
  {
    var fd := t.pollFd[slot];
    if fd < 0 then t
    else Table(t.pollFd[slot := FREE], t.socketFd[slot := 0], t.hasParser[slot := false],
               if fd < MAX_FD_LIMIT then t.clientMap[fd := NO_SLOT] else t.clientMap, t.clientCount - 1)
  }

  /** Removes the clients of the marked slots, from the first slot on. */
  function RemoveMarked(t: Table, marked: seq<bool>): (u: Table)
    requires t.Shape() && |marked| <= t.MaxClients()
    ensures u.Shape() && u.MaxClients() == t.MaxClients()
  {
    if marked == [] then t
    else
      var slot := |marked| - 1;
      var u := RemoveMarked(t, marked[..slot]);
      if marked[slot] then Remove(u, slot) else u
  }

  lemma {:induction false} EmptyOccupied(maxClients: nat)
    ensures Occupied(seq(maxClients, _ => FREE)) == 0
  {
    if maxClients > 0 {
      assert seq(maxClients, _ => FREE)[1..] == seq(maxClients - 1, _ => FREE);
      EmptyOccupied(maxClients - 1);
    }
  }

  lemma EmptyAgrees(maxClients: nat)
    ensures Empty(maxClients).Agrees() && Empty(maxClients).Connected() == {}
  {
    EmptyOccupied(maxClients);
  }

  lemma {:induction false} OccupiedUpdate(fds: seq<int>, i: nat, fd: int)
    requires i < |fds|
    ensures Occupied(fds[i := fd])
         == Occupied(fds) - (if fds[i] == FREE then 0 else 1) + (if fd == FREE then 0 else 1)
  {
    if i == 0 {
      assert fds[i := fd][1..] == fds[1..];
    } else {
      assert fds[i := fd][1..] == fds[1..][i - 1 := fd];
      OccupiedUpdate(fds[1..], i - 1, fd);
    }
  }

  /** Pigeonhole: fewer connections than entries leaves a free entry, and only then. */
  lemma {:induction false} Pigeonhole(fds: seq<int>)
    ensures Occupied(fds) < |fds| <==> FREE in fds
  {
    if fds != [] {
      Pigeonhole(fds[1..]);
      assert fds == [fds[0]] + fds[1..];
    }
  }

  /** Agreement in plain terms: a slot is occupied exactly if it has a parser, then slot, poll entry and map
      entry name each other, the map has no other entries, and the count is the number of connections. */
  lemma AgreementMeans(t: Table, i: nat, fd: nat)
    requires t.Agrees()
    ensures i < t.MaxClients() ==>
              && (t.pollFd[i] != -1 <==> t.hasParser[i])
              && (t.pollFd[i] != -1 ==>
                    && 0 <= t.pollFd[i] < 4096 && t.socketFd[i] == t.pollFd[i] && t.clientMap[t.pollFd[i]] == i)
    ensures fd < 4096 ==> (t.clientMap[fd] != -1 <==> fd in t.Connected())
    ensures t.clientCount == |t.Connected()|
  {
    assert i < t.MaxClients() ==> t.SlotAgrees(i);
    LookupIsExact(t, fd);
    OccupiedIsCount(t.pollFd);
  }

  lemma {:induction false} OccupiedIsCount(fds: seq<int>)
    requires forall i, j | 0 <= i < j < |fds| && fds[i] == fds[j] :: fds[i] == FREE
    ensures Occupied(fds) == |InUse(fds)|
  {
    if fds != [] {
      InUseCons(fds);
      assert fds[0] != FREE ==> fds[0] !in InUse(fds[1..]) by {
        if i :| 0 < i < |fds| && fds[i] == fds[0] != FREE {
          assert false;
        }
      }
      hide InUse;
      OccupiedIsCount(fds[1..]);
    }
  }

  lemma InUseCons(fds: seq<int>)
    requires fds != []
    ensures InUse(fds) == InUse(fds[1..]) + (if fds[0] == FREE then {} else {fds[0]})
  {
    assert fds == [fds[0]] + fds[1..];
  }

  /** In an agreeing table a descriptor is held by at most one slot, the one the map gives, and the
      lookup recognises exactly the connected descriptors. */
  lemma LookupIsExact(t: Table, fd: int)
    requires t.Agrees()
    ensures t.IsValidClient(fd) <==> fd in t.Connected()
    ensures forall i: nat, j: nat |
              i < t.MaxClients() && j < t.MaxClients() && t.pollFd[i] == t.pollFd[j] != FREE :: i == j
  {
    forall i: nat, j: nat | i < t.MaxClients() && j < t.MaxClients() && t.pollFd[i] == t.pollFd[j] != FREE
      ensures i == j
    {
      assert t.SlotAgrees(i) && t.SlotAgrees(j);
    }
    if fd in t.Connected() {
      var i: nat :| i < t.MaxClients() && t.pollFd[i] == fd;
      assert t.SlotAgrees(i);
    }
    if t.IsValidClient(fd) {
      assert t.EntryAgrees(fd);
    }
  }

  /** What becomes of an accept, in each case; the client takes the first free slot. */
  lemma AddIsExact(t: Table, fd: int, parserAllocated: bool)
    requires t.Agrees()
    ensures var (u, outcome) := Add(t, fd, parserAllocated); var full := t.clientCount >= t.MaxClients();
      && (outcome == AcceptFailed <==> fd < 0)
      && (outcome == FdTooBig <==> 4096 <= fd)
      && (outcome == Full <==> 0 <= fd < 4096 && full)
      && (outcome == NoParser <==> 0 <= fd < 4096 && !full && !parserAllocated)
      && (outcome.Added? <==> 0 <= fd < 4096 && !full && parserAllocated)
      && (outcome.Added? ==> FREE !in t.pollFd[..outcome.slot] && u.clientCount == t.clientCount + 1)
  {
    Pigeonhole(t.pollFd);
    assert t.pollFd[0..] == t.pollFd;
    var slot := FirstFree(t.pollFd, 0);
    assert 0 <= slot ==> t.pollFd[0..slot] == t.pollFd[..slot];
  }

  /** Accepting a descriptor that is not open keeps the tables in agreement. The scan that follows a
      passed capacity check always finds a slot, and the capacity check refuses only a full table. */
  lemma AddKeepsAgreement(t: Table, fd: int, parserAllocated: bool)
    requires t.Agrees() && (0 <= fd ==> fd !in t.Connected())
    ensures var (u, outcome) := Add(t, fd, parserAllocated);
      && u.Agrees() && u.MaxClients() == t.MaxClients()
      && outcome != NoFreeSlot
      && (outcome == Full <==> 0 <= fd < MAX_FD_LIMIT && FREE !in t.pollFd)
      && u.Connected() == t.Connected() + (if outcome.Added? then {fd} else {})
      && (outcome.Added? ==> t.pollFd[outcome.slot] == FREE && u.pollFd == t.pollFd[outcome.slot := fd])
      && (!outcome.Added? ==> u.pollFd == t.pollFd)
  {
    var (u, outcome) := Add(t, fd, parserAllocated);
    Pigeonhole(t.pollFd);
    assert t.pollFd[0..] == t.pollFd;
    if outcome.Added? {
      var slot := outcome.slot;
      OccupiedUpdate(t.pollFd, slot, fd);
      AddedSlots(t, fd, slot);
      AddedConnected(t.pollFd, slot, fd);
    } else if outcome.NoParser? {
      NoParserSlots(t, fd);
    }
  }

  lemma AddedSlots(t: Table, fd: nat, slot: nat)
    requires t.Agrees() && fd !in t.Connected() && fd < MAX_FD_LIMIT
    requires slot < t.MaxClients() && t.pollFd[slot] == FREE && Add(t, fd, true).1 == Added(slot)
    ensures var u := Add(t, fd, true).0;
      && u.Shape()
      && (forall i: nat | i < u.MaxClients() :: u.SlotAgrees(i))
      && (forall d: nat | d < MAX_FD_LIMIT :: u.EntryAgrees(d))
  {
    var u := Add(t, fd, true).0;
    forall i: nat | i < u.MaxClients() ensures u.SlotAgrees(i) {
      assert t.SlotAgrees(i);
      assert t.pollFd[i] in t.pollFd;
    }
    forall d: nat | d < MAX_FD_LIMIT ensures u.EntryAgrees(d) {
      assert t.EntryAgrees(d);
    }
  }

  lemma NoParserSlots(t: Table, fd: int)
    requires t.Agrees() && Add(t, fd, false).1 == NoParser
    ensures var u := Add(t, fd, false).0;
      && u.Shape()
      && (forall i: nat | i < u.MaxClients() :: u.SlotAgrees(i))
      && (forall d: nat | d < MAX_FD_LIMIT :: u.EntryAgrees(d))
  {
    var u := Add(t, fd, false).0;
    forall i: nat | i < u.MaxClients() ensures u.SlotAgrees(i) {
      assert t.SlotAgrees(i);
    }
    forall d: nat | d < MAX_FD_LIMIT ensures u.EntryAgrees(d) {
      assert t.EntryAgrees(d);
    }
  }

  lemma AddedConnected(fds: seq<int>, slot: nat, fd: nat)
    requires slot < |fds| && fds[slot] == FREE
    ensures InUse(fds[slot := fd]) == InUse(fds) + {fd}
  {
    var updated := fds[slot := fd];
    forall d | d in InUse(fds) ensures d in updated {
      var i :| 0 <= i < |fds| && fds[i] == d;
      assert updated[i] == d;
    }
    assert updated[slot] == fd;
    forall d | d in InUse(updated) ensures d in InUse(fds) + {fd} {
      var i :| 0 <= i < |updated| && updated[i] == d;
      assert i == slot || fds[i] == d;
    }
  }

  /** What a free slot holds: descriptor 0 in a new server and after a removal; after an accept that got no
      parser, the descriptor that was closed. */
  lemma FreeSlotsAreExact(t: Table, fd: int, slot: nat, maxClients: nat)
    requires t.Shape() && slot < t.MaxClients() && t.pollFd[slot] != FREE
    requires 0 <= t.pollFd[slot] < MAX_FD_LIMIT
    ensures Empty(maxClients).MaxClients() == |Empty(maxClients).socketFd| == maxClients
    ensures forall i: nat | i < maxClients :: Empty(maxClients).pollFd[i] == -1 && Empty(maxClients).socketFd[i] == 0
    ensures var u := Remove(t, slot);
      && u.pollFd[slot] == -1 && u.socketFd[slot] == 0 && !u.hasParser[slot] && u.clientMap[t.pollFd[slot]] == -1
      && (forall i: nat | i < t.MaxClients() && i != slot ::
            u.pollFd[i] == t.pollFd[i] && u.socketFd[i] == t.socketFd[i] && u.hasParser[i] == t.hasParser[i])
    ensures Add(t, fd, false).1 == NoParser ==>
              Add(t, fd, false).0.socketFd == t.socketFd[FirstFree(t.pollFd, 0) := fd]
  {}

  /** Removing a client frees its slot and forgets its descriptor, and nothing else. */
  lemma RemoveKeepsAgreement(t: Table, slot: nat)
    requires t.Agrees() && slot < t.MaxClients() && t.pollFd[slot] != FREE
    ensures var u := Remove(t, slot);
      && u.Agrees() && u.MaxClients() == t.MaxClients()
      && u.Connected() == t.Connected() - {t.pollFd[slot]}
      && u.pollFd == t.pollFd[slot := FREE]
      && u.clientCount == t.clientCount - 1
  {
    var u := Remove(t, slot);
    assert t.SlotAgrees(slot);
    OccupiedUpdate(t.pollFd, slot, FREE);
    forall i: nat | i < u.MaxClients() ensures u.SlotAgrees(i) {
      assert t.SlotAgrees(i);
    }
    forall d: nat | d < MAX_FD_LIMIT ensures u.EntryAgrees(d) {
      assert t.EntryAgrees(d);
    }
    RemovedConnected(t, slot);
  }

  lemma RemovedConnected(t: Table, slot: nat)
    requires t.Agrees() && slot < t.MaxClients() && t.pollFd[slot] != FREE
    ensures Remove(t, slot).Connected() == t.Connected() - {t.pollFd[slot]}
  {
    var u := Remove(t, slot);
    assert t.SlotAgrees(slot);
    LookupIsExact(t, t.pollFd[slot]);
    assert u.pollFd == t.pollFd[slot := FREE];
    forall d | d in t.Connected() && d != t.pollFd[slot] ensures d in u.Connected() {
      var i :| 0 <= i < t.MaxClients() && t.pollFd[i] == d;
      assert u.pollFd[i] == d;
    }
    forall d | d in u.Connected() ensures d in t.Connected() - {t.pollFd[slot]} {
      var i :| 0 <= i < |u.pollFd| && u.pollFd[i] == d;
      assert i != slot;
      assert t.pollFd[i] == d;
    }
  }
}
