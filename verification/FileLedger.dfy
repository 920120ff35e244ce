/** Runs of the file-transfer service by any number of clients, with the books that say what the disk
    must hold. */
module FileLedgers {
  import opened Wrappers
  import opened Bytes
  import opened FileTransfers

  datatype Op =
    | Start(client: int, fileName: string, fileSize: int, now: nat)
    | Chunk(client: int, bytes: seq<byte>)
    | End(client: int, checksum: string)
    | Cancel(client: int)

  /** A transfer that the service accepted. */
  datatype Deposit = Deposit(client: int, content: seq<byte>, declaredSize: int, checksum: string)

  /** The store, and beside it the chunks of each session and the accepted transfers. */
  datatype Ledger = Ledger(
    store: Store,
    chunks: map<int, seq<seq<byte>>>,
    accepted: map<Path, Deposit>)

  const EMPTY: Ledger := Ledger(Store(map[], map[]), map[], map[])

  predicate InSession(l: Ledger, p: Path) {
    exists c <- l.chunks :: c in l.store.sessions && l.store.sessions[c].filePath == p
  }

  /** No file has the path, and no session will write to it. */
  predicate PathFree(l: Ledger, p: Path) {
    p !in l.store.disk && !InSession(l, p)
  }

  /** A client without a session starts a transfer of positive size at a free path. */
  predicate Allowed(l: Ledger, op: Op) {
    op.Start? && op.client !in l.store.sessions ==>
      0 < op.fileSize && PathFree(l, UploadPath(op.now, op.fileName))
  }

  function Next(l: Ledger, op: Op, digest: Digest): Ledger {
    match op
    case Start(client, fileName, fileSize, now) =>
      var (store, outcome) := StartFileTransfer(l.store, client, fileName, fileSize, now);
      if outcome == Done then l.(store := store, chunks := l.chunks[client := []]) else l.(store := store)
    case Chunk(client, bytes) =>
      var (store, outcome) := ProcessFileChunk(l.store, client, bytes);
      if outcome == Done then
        var before := if client in l.chunks then l.chunks[client] else [];
        l.(store := store, chunks := l.chunks[client := before + [bytes]])
      else l.(store := store)
    case End(client, checksum) =>
      var (store, outcome) := EndFileTransfer(l.store, client, checksum, digest);
      (match outcome
       case Completed(session) =>
         var content := if session.filePath in store.disk then store.disk[session.filePath] else [];
         Ledger(store, l.chunks - {client},
                l.accepted[session.filePath := Deposit(client, content, session.fileSize, checksum)])
       case Incomplete => l.(store := store, chunks := l.chunks - {client})
       case ChecksumMismatch => l.(store := store, chunks := l.chunks - {client})
       case _ => l.(store := store))
    case Cancel(client) =>
      var (store, _) := CancelFileTransfer(l.store, client);
      l.(store := store, chunks := l.chunks - {client})
  }

  /** A session has received exactly its chunks; its file exists from the first chunk on and is their
      concatenation. */
  predicate SessionBooked(l: Ledger, client: int)
    requires client in l.store.sessions && client in l.chunks
  {
    var session := l.store.sessions[client];
    var content := Flatten(l.chunks[client]);
    && session.filePath !in l.accepted
    && 0 < session.fileSize
    && session.receivedBytes == |content|
    && (session.filePath in l.store.disk <==> l.chunks[client] != [])
    && (l.chunks[client] != [] ==> l.store.disk[session.filePath] == content)
  }

  /** An accepted transfer is on the disk, has its declared size and matches the sender's checksum. */
  predicate DepositBooked(l: Ledger, path: Path, digest: Digest)
    requires path in l.accepted
  {
    var deposit := l.accepted[path];
    && path in l.store.disk && l.store.disk[path] == deposit.content
    && |deposit.content| == deposit.declaredSize
    && digest(deposit.content) == deposit.checksum
  }

  ghost predicate Booked(l: Ledger, digest: Digest) {
    && l.store.sessions.Keys == l.chunks.Keys
    && (forall c <- l.chunks :: SessionBooked(l, c))
    && (forall c <- l.chunks, d <- l.chunks :: l.store.sessions[c].filePath == l.store.sessions[d].filePath ==> c == d)
    && (forall p <- l.accepted :: DepositBooked(l, p, digest))
    && (forall p <- l.store.disk :: p in l.accepted || InSession(l, p))
  }

  /** A file of a session stays one when that session stays. */
  lemma StillInSession(l: Ledger, n: Ledger, p: Path, gone: set<int>)
    requires InSession(l, p)
    requires forall c <- l.chunks | c !in gone && c in l.store.sessions ::
               c in n.chunks && c in n.store.sessions && n.store.sessions[c].filePath == l.store.sessions[c].filePath
    requires forall c <- gone :: c in l.store.sessions ==> l.store.sessions[c].filePath != p
    ensures InSession(n, p)
  {
    var c :| c in l.chunks && c in l.store.sessions && l.store.sessions[c].filePath == p;
    assert c in n.chunks && n.store.sessions[c].filePath == p;
  }

  lemma FlattenEmpty(chunks: seq<seq<byte>>)
    ensures chunks == [] ==> Flatten(chunks) == []
  {}

  lemma StepBooked(l: Ledger, op: Op, digest: Digest)
    requires Booked(l, digest) && Allowed(l, op)
    ensures Booked(Next(l, op, digest), digest)
  {
    match op
    case Start(client, _, _, _) =>
      StartBooked(l, op, digest);
    case Chunk(client, bytes) =>
      ChunkBooked(l, client, bytes, digest);
    case End(client, checksum) =>
      EndBooked(l, client, checksum, digest);
    case Cancel(client) =>
      CancelBooked(l, client, digest);
  }

  lemma StartBooked(l: Ledger, op: Op, digest: Digest)
    requires Booked(l, digest) && Allowed(l, op) && op.Start?
    ensures Booked(Next(l, op, digest), digest)
  {
    var n := Next(l, op, digest);
    if op.client !in l.store.sessions {
      forall p <- n.store.disk | p !in n.accepted ensures InSession(n, p) {
        StillInSession(l, n, p, {});
      }
      forall c <- n.chunks ensures SessionBooked(n, c) {
        assert c != op.client ==> SessionBooked(l, c);
      }
      forall p <- n.accepted ensures DepositBooked(n, p, digest) {
        assert DepositBooked(l, p, digest);
      }
    }
  }

  lemma ChunkBooked(l: Ledger, client: int, bytes: seq<byte>, digest: Digest)
    requires Booked(l, digest)
    ensures Booked(Next(l, Chunk(client, bytes), digest), digest)
  {
    var n := Next(l, Chunk(client, bytes), digest);
    if client in l.store.sessions {
      ChunkInSession(l, client, bytes, digest);
      ChunkOfSession(l, client, bytes, digest);
      hide InSession, SessionBooked;
      forall p <- n.accepted ensures DepositBooked(n, p, digest) {
        assert DepositBooked(l, p, digest);
      }
    }
  }

  lemma ChunkOfSession(l: Ledger, client: int, bytes: seq<byte>, digest: Digest)
    requires Booked(l, digest) && client in l.store.sessions
    ensures var n := Next(l, Chunk(client, bytes), digest);
      forall c <- n.chunks :: SessionBooked(n, c)
  {
    var n := Next(l, Chunk(client, bytes), digest);
    assert SessionBooked(l, client);
    FlattenSnoc(l.chunks[client], bytes);
    hide InSession, Flatten, DepositBooked;
    forall c <- n.chunks ensures SessionBooked(n, c) {
      assert SessionBooked(l, c);
    }
  }

  lemma ChunkInSession(l: Ledger, client: int, bytes: seq<byte>, digest: Digest)
    requires Booked(l, digest) && client in l.store.sessions
    ensures var n := Next(l, Chunk(client, bytes), digest);
      forall p <- n.store.disk :: p in n.accepted || InSession(n, p)
  {
    var n := Next(l, Chunk(client, bytes), digest);
    hide SessionBooked, DepositBooked;
    forall p <- n.store.disk | p !in n.accepted ensures InSession(n, p) {
      if p in l.store.disk {
        StillInSession(l, n, p, {});
      } else {
        assert client in n.chunks && n.store.sessions[client].filePath == p;
      }
    }
  }

  lemma DropBooked(l: Ledger, client: int, digest: Digest)
    requires Booked(l, digest) && client in l.store.sessions
    ensures Booked(l.(store := Store(l.store.sessions - {client}, l.store.disk - {l.store.sessions[client].filePath}),
                      chunks := l.chunks - {client}), digest)
  {
    var n := l.(store := Store(l.store.sessions - {client}, l.store.disk - {l.store.sessions[client].filePath}),
                chunks := l.chunks - {client});
    assert SessionBooked(l, client);
    forall p <- n.store.disk | p !in n.accepted ensures InSession(n, p) {
      StillInSession(l, n, p, {client});
    }
    forall c <- n.chunks ensures SessionBooked(n, c) {
      assert SessionBooked(l, c);
    }
    forall p <- n.accepted ensures DepositBooked(n, p, digest) {
      assert DepositBooked(l, p, digest);
    }
  }

  lemma CancelBooked(l: Ledger, client: int, digest: Digest)
    requires Booked(l, digest)
    ensures Booked(Next(l, Cancel(client), digest), digest)
  {
    if client in l.store.sessions {
      DropBooked(l, client, digest);
    } else {
      assert l.chunks - {client} == l.chunks;
    }
  }

  /** With the books in order, a complete transfer always has its file. */
  lemma EndBooked(l: Ledger, client: int, checksum: string, digest: Digest)
    requires Booked(l, digest)
    ensures Booked(Next(l, End(client, checksum), digest), digest)
    ensures EndFileTransfer(l.store, client, checksum, digest).1 != FileMissing
  {
    if client in l.store.sessions {
      assert SessionBooked(l, client);
      FlattenEmpty(l.chunks[client]);
      var n := Next(l, End(client, checksum), digest);
      if EndFileTransfer(l.store, client, checksum, digest).1.Completed? {
        forall p <- n.store.disk | p !in n.accepted ensures InSession(n, p) {
          StillInSession(l, n, p, {client});
        }
        forall c <- n.chunks ensures SessionBooked(n, c) {
          assert SessionBooked(l, c);
        }
        forall p <- n.accepted ensures DepositBooked(n, p, digest) {
          assert p in l.accepted ==> DepositBooked(l, p, digest);
        }
      } else {
        DropBooked(l, client, digest);
      }
    }
  }

  predicate IsRun(l: Ledger, ops: seq<Op>, digest: Digest)
    decreases |ops|
  {
    ops == [] || (Allowed(l, ops[0]) && IsRun(Next(l, ops[0], digest), ops[1..], digest))
  }

  function After(l: Ledger, ops: seq<Op>, digest: Digest): Ledger
    decreases |ops|
  {
    if ops == [] then l else After(Next(l, ops[0], digest), ops[1..], digest)
  }

  /** Disk accounting: after any run, the disk holds the files of the accepted transfers and of the
      sessions with a chunk, and nothing else, each with the content the books say. */
  lemma {:induction false} DiskAccounting(l: Ledger, ops: seq<Op>, digest: Digest)
    requires Booked(l, digest) && IsRun(l, ops, digest)
    ensures Booked(After(l, ops, digest), digest)
    decreases |ops|
  {
    if ops != [] {
      StepBooked(l, ops[0], digest);
      DiskAccounting(Next(l, ops[0], digest), ops[1..], digest);
    }
  }

  /** The books are in order before and after every operation. */
  ghost predicate BookedThroughout(l: Ledger, ops: seq<Op>, digest: Digest)
    decreases |ops|
  {
    Booked(l, digest) && (ops == [] || BookedThroughout(Next(l, ops[0], digest), ops[1..], digest))
  }

  /** Allowed starts are not only enough but needed: a sequence of operations keeps the books throughout
      if and only if every start in it is allowed. */
  lemma {:induction false} DiskAccountingIsExact(l: Ledger, ops: seq<Op>, digest: Digest)
    requires Booked(l, digest)
    ensures BookedThroughout(l, ops, digest) <==> IsRun(l, ops, digest)
    decreases |ops|
  {
    if ops != [] {
      var n := Next(l, ops[0], digest);
      if Allowed(l, ops[0]) {
        StepBooked(l, ops[0], digest);
        DiskAccountingIsExact(n, ops[1..], digest);
      } else {
        StartIsSafe(l, ops[0], digest);
      }
    }
  }

  /** In plain terms, after any run of allowed operations: a client has a session exactly if it has chunks on
      the books; the session counts their bytes, and from the first one on its file is their concatenation;
      an accepted file is on the disk as it was, with its declared size and the sender's checksum; and there
      is no other file. */
  lemma DiskAccountingFromStart(ops: seq<Op>, digest: Digest)
    requires IsRun(EMPTY, ops, digest)
    ensures var l := After(EMPTY, ops, digest);
      && l.store.sessions.Keys == l.chunks.Keys
      && (forall c <- l.chunks ::
            var session, content := l.store.sessions[c], Flatten(l.chunks[c]);
            && session.receivedBytes == |content|
            && (l.chunks[c] != [] ==>
                  session.filePath in l.store.disk && l.store.disk[session.filePath] == content))
      && (forall p <- l.accepted ::
            var deposit := l.accepted[p];
            && p in l.store.disk && l.store.disk[p] == deposit.content
            && |deposit.content| == deposit.declaredSize && digest(deposit.content) == deposit.checksum)
      && l.store.disk.Keys == l.accepted.Keys
                              + (set c | c in l.chunks && c in l.store.sessions && l.chunks[c] != []
                                   :: l.store.sessions[c].filePath)
  {
    DiskAccounting(EMPTY, ops, digest);
    var l := After(EMPTY, ops, digest);
    forall p <- l.accepted ensures DepositBooked(l, p, digest) {}
    forall c <- l.chunks ensures SessionBooked(l, c) {}
    hide Flatten, IsRun, After;
    assert forall c | c in l.chunks && l.chunks[c] != [] :: l.store.sessions[c].filePath in l.store.disk;
  }

  /** What a start needs, exactly: it keeps the books if and only if it is allowed. */
  lemma StartIsSafe(l: Ledger, op: Op, digest: Digest)
    requires Booked(l, digest) && op.Start?
    ensures Booked(Next(l, op, digest), digest) <==> Allowed(l, op)
  {
    var n, path := Next(l, op, digest), UploadPath(op.now, op.fileName);
    if Allowed(l, op) {
      StartBooked(l, op, digest);
    } else if InSession(l, path) {
      var c :| c in l.chunks && c in l.store.sessions && l.store.sessions[c].filePath == path;
      assert n.store.sessions[c].filePath == n.store.sessions[op.client].filePath;
    } else {
      assert !SessionBooked(n, op.client);
    }
  }

  /** What comes of a start at a path that is not free: the next chunk goes behind the bytes of the file
      that has the path, be it an accepted one or that of another session. */
  lemma SharedPathMixesFiles(l: Ledger, start: Op, bytes: seq<byte>, digest: Digest)
    requires Booked(l, digest) && start.Start? && start.client !in l.store.sessions && bytes != []
    requires !PathFree(l, UploadPath(start.now, start.fileName))
    ensures var path := UploadPath(start.now, start.fileName);
      var n := Next(Next(l, start, digest), Chunk(start.client, bytes), digest);
      && path in n.store.disk
      && (path in l.accepted ==> n.store.disk[path] == l.accepted[path].content + bytes)
      && (path !in l.accepted ==>
            exists c :: c in l.chunks && c in l.store.sessions && l.store.sessions[c].filePath == path
              && c in n.chunks && n.chunks[c] == l.chunks[c]
              && n.store.disk[path] == Flatten(n.chunks[c]) + bytes
              && |n.store.disk[path]| != n.store.sessions[c].receivedBytes)
  {
    var path := UploadPath(start.now, start.fileName);
    var n := Next(Next(l, start, digest), Chunk(start.client, bytes), digest);
    if path in l.accepted {
      assert DepositBooked(l, path, digest);
    } else {
      assert InSession(l, path);
      var c :| c in l.chunks && c in l.store.sessions && l.store.sessions[c].filePath == path;
      assert SessionBooked(l, c);
      FlattenEmpty(l.chunks[c]);
      assert c in n.chunks && n.chunks[c] == l.chunks[c];
    }
  }

  /** Two clients that start in one millisecond under one name: both files are received whole, but the
      first to end loses the file of both, and the other's session can never end. */
  lemma SameMillisecondSameName(now: nat, fileName: string, x: byte, y: byte, digest: Digest)
    requires digest([x, y]) != digest([x])
    ensures var s1 := StartFileTransfer(EMPTY.store, 1, fileName, 1, now).0;
      var s2 := StartFileTransfer(s1, 2, fileName, 1, now).0;
      var s3 := ProcessFileChunk(s2, 1, [x]).0;
      var s4 := ProcessFileChunk(s3, 2, [y]).0;
      var (s5, first) := EndFileTransfer(s4, 1, digest([x]), digest);
      && s4.sessions[1].IsCompleted() && s4.sessions[2].IsCompleted()
      && s4.disk[UploadPath(now, fileName)] == [x, y]
      && first == ChecksumMismatch
      && EndFileTransfer(s5, 2, digest([y]), digest) == (s5, FileMissing)
  {}

  // One client's part of a run.

  datatype Active = Active(session: SessionView, chunks: seq<seq<byte>>)

  /** All that concerns one client: its session with its chunks, and the transfers accepted from it. */
  datatype Own = Own(active: Option<Active>, accepted: map<Path, Deposit>)

  function OwnOf(l: Ledger, client: int): Own {
    Own(if client in l.store.sessions && client in l.chunks
        then Some(Active(l.store.sessions[client], l.chunks[client])) else None,
        map p | p in l.accepted && l.accepted[p].client == client :: l.accepted[p])
  }

  /** What an operation of the client itself does to its part, with no other client in sight. */
  function OwnNext(own: Own, op: Op, digest: Digest): Own {
    match op
    case Start(_, fileName, fileSize, now) =>
      if own.active.Some? then own
      else own.(active := Some(Active(SessionView(fileName, fileSize, UploadPath(now, fileName), 0), [])))
    case Chunk(_, bytes) =>
      (match own.active
       case None => own
       case Some(Active(session, chunks)) =>
         own.(active := Some(Active(session.(receivedBytes := session.receivedBytes + |bytes|), chunks + [bytes]))))
    case End(client, checksum) =>
      (match own.active
       case None => own
       case Some(Active(session, chunks)) =>
         var content := Flatten(chunks);
         if |content| == session.fileSize && digest(content) == checksum
         then Own(None, own.accepted[session.filePath := Deposit(client, content, session.fileSize, checksum)])
         else own.(active := None))
    case Cancel(_) => own.(active := None)
  }

  function OwnAfter(own: Own, ops: seq<Op>, digest: Digest): Own
    decreases |ops|
  {
    if ops == [] then own else OwnAfter(OwnNext(own, ops[0], digest), ops[1..], digest)
  }

  function OpsOf(ops: seq<Op>, client: int): seq<Op> {
    if ops == [] then [] else (if ops[0].client == client then [ops[0]] else []) + OpsOf(ops[1..], client)
  }

  /** An operation of another client leaves everything of this client as it is. */
  lemma OthersLeaveMine(l: Ledger, op: Op, client: int, digest: Digest)
    requires Booked(l, digest) && Allowed(l, op) && op.client != client
    ensures OwnOf(Next(l, op, digest), client) == OwnOf(l, client)
    ensures client in l.store.sessions ==>
              var path := l.store.sessions[client].filePath;
              var n := Next(l, op, digest);
              && (path in n.store.disk <==> path in l.store.disk)
              && (path in l.store.disk ==> n.store.disk[path] == l.store.disk[path])
  {
    OthersLeaveAccepted(l, op, client, digest);
    if client in l.store.sessions {
      OthersLeaveFile(l, op, client, digest);
    }
    hide Booked, SessionBooked, DepositBooked, InSession, PathFree, UploadPath;
  }

  lemma OthersLeaveFile(l: Ledger, op: Op, client: int, digest: Digest)
    requires Booked(l, digest) && op.client != client && client in l.store.sessions
    ensures var path := l.store.sessions[client].filePath;
      var n := Next(l, op, digest);
      && (path in n.store.disk <==> path in l.store.disk)
      && (path in l.store.disk ==> n.store.disk[path] == l.store.disk[path])
  {
    if op.client in l.store.sessions {
      assert l.store.sessions[client].filePath != l.store.sessions[op.client].filePath;
    }
    hide Booked, SessionBooked, DepositBooked, InSession, UploadPath;
  }

  lemma OthersLeaveAccepted(l: Ledger, op: Op, client: int, digest: Digest)
    requires Booked(l, digest) && op.client != client
    ensures OwnOf(Next(l, op, digest), client).accepted == OwnOf(l, client).accepted
  {
    if op.client in l.store.sessions {
      assert SessionBooked(l, op.client);
      assert l.store.sessions[op.client].filePath !in l.accepted;
    }
    hide Booked, SessionBooked;
  }

  /** The client's own operation does to its part what it would do alone. */
  lemma MineAsAlone(l: Ledger, op: Op, digest: Digest)
    requires Booked(l, digest) && Allowed(l, op)
    ensures OwnOf(Next(l, op, digest), op.client) == OwnNext(OwnOf(l, op.client), op, digest)
  {
    assert l.store.sessions.Keys == l.chunks.Keys;
    if op.End? {
      MyEndAsAlone(l, op.client, op.checksum, digest);
    } else {
      hide Booked;
    }
  }

  /** How a transfer ends: by the bytes of its chunks. */
  lemma EndDecision(l: Ledger, client: int, checksum: string, digest: Digest)
    requires Booked(l, digest) && client in l.store.sessions
    ensures client in l.chunks
    ensures var session, content := l.store.sessions[client], Flatten(l.chunks[client]);
      var (store, outcome) := EndFileTransfer(l.store, client, checksum, digest);
      if |content| == session.fileSize && digest(content) == checksum
      then && outcome == Completed(session) && store == l.store.(sessions := l.store.sessions - {client})
           && session.filePath in l.store.disk && l.store.disk[session.filePath] == content
      else && (outcome == Incomplete || outcome == ChecksumMismatch)
           && store == Store(l.store.sessions - {client}, l.store.disk - {session.filePath})
  {
    assert SessionBooked(l, client);
    FlattenEmpty(l.chunks[client]);
  }

  lemma MyEndAsAlone(l: Ledger, client: int, checksum: string, digest: Digest)
    requires Booked(l, digest)
    ensures OwnOf(Next(l, End(client, checksum), digest), client)
         == OwnNext(OwnOf(l, client), End(client, checksum), digest)
  {
    assert client in l.store.sessions <==> client in l.chunks;
    if client in l.store.sessions {
      EndDecision(l, client, checksum, digest);
      hide Booked, EndFileTransfer, Flatten;
      assert OwnOf(Next(l, End(client, checksum), digest), client).accepted
          == OwnNext(OwnOf(l, client), End(client, checksum), digest).accepted;
    }
  }

  /** Isolation: however the clients' operations are interleaved, what becomes of one client's transfers
      is decided by its own operations alone. */
  lemma {:induction false} Isolation(l: Ledger, ops: seq<Op>, client: int, digest: Digest)
    requires Booked(l, digest) && IsRun(l, ops, digest)
    ensures OwnOf(After(l, ops, digest), client) == OwnAfter(OwnOf(l, client), OpsOf(ops, client), digest)
    decreases |ops|
  {
    if ops != [] {
      var n := Next(l, ops[0], digest);
      StepBooked(l, ops[0], digest);
      Isolation(n, ops[1..], client, digest);
      if ops[0].client == client {
        MineAsAlone(l, ops[0], digest);
        assert OpsOf(ops, client) == [ops[0]] + OpsOf(ops[1..], client);
      } else {
        OthersLeaveMine(l, ops[0], client, digest);
        assert OpsOf(ops, client) == OpsOf(ops[1..], client);
      }
    }
  }
}
