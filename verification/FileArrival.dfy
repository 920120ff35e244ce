/** Which files arrive: from the sending loop over short writes, fragmentation, the parser and the
    service, with other clients' transfers in between. */
module FileArrival {
  import opened Wrappers
  import opened Strings
  import opened Bytes
  import opened Framing
  import opened Transport
  import opened FileTransfers
  import opened FileLedgers
  import opened FileSending

  /** The chunks that fit a frame. */
  function Small(chunks: seq<seq<byte>>): seq<seq<byte>> {
    if chunks == [] then []
    else (if |chunks[0]| <= MAX_PAYLOAD then [chunks[0]] else []) + Small(chunks[1..])
  }

  predicate NoneEmpty(chunks: seq<seq<byte>>) {
    chunks == [] || (chunks[0] != [] && NoneEmpty(chunks[1..]))
  }

  function ChunkOps(client: int, chunks: seq<seq<byte>>): seq<Op> {
    if chunks == [] then [] else [Chunk(client, chunks[0])] + ChunkOps(client, chunks[1..])
  }

  lemma {:induction false} ChunksAreNotEmpty(file: seq<byte>, size: int)
    requires -1 <= size
    ensures NoneEmpty(Chunks(file, size))
    decreases |file|
  {
    if file != [] && 0 < size < |file| {
      ChunksAreNotEmpty(file[size..], size);
    }
  }

  lemma {:induction false} SmallIsNotLonger(chunks: seq<seq<byte>>)
    ensures |Flatten(Small(chunks))| <= |Flatten(chunks)|
  {
    if chunks != [] {
      SmallIsNotLonger(chunks[1..]);
      if |chunks[0]| <= MAX_PAYLOAD {
        assert Small(chunks)[1..] == Small(chunks[1..]);
      } else {
        assert Small(chunks) == Small(chunks[1..]);
      }
    }
  }

  /** Chunks within the limit all get through. */
  lemma {:induction false} AllSmall(file: seq<byte>, size: int)
    requires -1 <= size && (0 <= size <= MAX_PAYLOAD || |file| <= MAX_PAYLOAD)
    ensures Small(Chunks(file, size)) == Chunks(file, size)
    decreases |file|
  {
    if file == [] || size == 0 {
    } else if size == -1 || |file| <= size {
      assert [file][1..] == [];
    } else {
      AllSmall(file[size..], size);
    }
  }

  /** With chunks over the limit, a file over the limit loses at least its first chunk. */
  lemma SmallLoses(file: seq<byte>, size: int)
    requires (size == -1 || MAX_PAYLOAD < size) && MAX_PAYLOAD < |file|
    ensures |Flatten(Small(Chunks(file, size)))| < |file|
  {
    if size == -1 || |file| <= size {
      assert [file][1..] == [];
      assert Small([file]) == [];
    } else {
      var rest := Chunks(file[size..], size);
      assert Chunks(file, size)[1..] == rest;
      assert Small(Chunks(file, size)) == Small(rest);
      SmallIsNotLonger(rest);
      ChunksRebuild(file[size..], size);
    }
  }

  lemma {:induction false} AllRequestedAppend(codec: Codec, client: int, a: seq<Message>, b: seq<Message>, now: nat)
    ensures AllRequested(codec, client, true, a + b, now)
         == AllRequested(codec, client, true, a, now) + AllRequested(codec, client, true, b, now)
  {
    if a == [] {
      assert a + b == b;
    } else {
      assert (a + b)[1..] == a[1..] + b;
      AllRequestedAppend(codec, client, a[1..], b, now);
      hide Requested;
    }
  }

  /** The chunk messages on the wire are the small chunks, and each asks for one append. */
  lemma {:induction false} ChunkRequests(codec: Codec, client: int, chunks: seq<seq<byte>>, now: nat)
    requires NoneEmpty(chunks)
    ensures AllRequested(codec, client, true, Sendable(AsMessages(chunks)), now) == ChunkOps(client, Small(chunks))
  {
    if chunks != [] {
      ChunkRequests(codec, client, chunks[1..], now);
      assert AsMessages(chunks)[1..] == AsMessages(chunks[1..]);
      var rest := Sendable(AsMessages(chunks[1..]));
      if |chunks[0]| <= MAX_PAYLOAD {
        var m := OnWire(FILE_CHUNK, chunks[0]);
        assert Sendable(AsMessages(chunks)) == [m] + rest && ([m] + rest)[1..] == rest;
        assert Small(chunks)[1..] == Small(chunks[1..]);
      } else {
        assert Sendable(AsMessages(chunks)) == rest;
        assert Small(chunks) == Small(chunks[1..]);
      }
    }
  }

  /** Appending chunks, alone. */
  lemma {:induction false} OwnChunks(own: Own, client: int, chunks: seq<seq<byte>>, digest: Digest)
    ensures OwnAfter(own, ChunkOps(client, chunks), digest)
         == match own.active
            case None => own
            case Some(Active(session, before)) =>
              var received := session.receivedBytes + |Flatten(chunks)|;
              own.(active := Some(Active(session.(receivedBytes := received), before + chunks)))
    decreases |chunks|
  {
    if chunks == [] {
      if own.active.Some? {
        assert own.active.value.chunks + [] == own.active.value.chunks;
      }
    } else {
      var op := Chunk(client, chunks[0]);
      assert ChunkOps(client, chunks) == [op] + ChunkOps(client, chunks[1..]);
      OwnAppend(own, [op], ChunkOps(client, chunks[1..]), digest);
      OwnOne(own, op, digest);
      OwnChunks(OwnNext(own, op, digest), client, chunks[1..], digest);
      hide OwnAfter, ChunkOps;
      if own.active.Some? {
        assert own.active.value.chunks + [chunks[0]] + chunks[1..] == own.active.value.chunks + chunks;
      }
    }
  }

  lemma {:induction false} OwnAppend(own: Own, a: seq<Op>, b: seq<Op>, digest: Digest)
    ensures OwnAfter(own, a + b, digest) == OwnAfter(OwnAfter(own, a, digest), b, digest)
    decreases |a|
  {
    if a == [] {
      assert a + b == b;
    } else {
      assert (a + b)[1..] == a[1..] + b;
      OwnAppend(OwnNext(own, a[0], digest), a[1..], b, digest);
      hide OwnNext;
    }
  }

  lemma OwnOne(own: Own, op: Op, digest: Digest)
    ensures OwnAfter(own, [op], digest) == OwnNext(own, op, digest)
  {
    assert [op][1..] == [];
  }

  lemma OneRequest(codec: Codec, client: int, m: Message, now: nat)
    ensures AllRequested(codec, client, true, [m], now)
         == match Requested(codec, client, true, m, now) case Some(op) => [op] case None => []
  {
    assert [m][1..] == [];
  }

  /** The operations that the service is asked for when the client sends a file. */
  function FileOps(client: int, digest: Digest, fileName: string, file: seq<byte>, size: int, now: nat): seq<Op> {
    (if file == [] then [] else [Start(client, Trim(fileName), |file|, now)])
    + if size < -1 then []
      else ChunkOps(client, Small(Chunks(file, size))) + [End(client, digest(Flatten(Chunks(file, size))))]
  }

  /** One payload, on its own. */
  lemma SingleRequest(codec: Codec, client: int, o: Outgoing, now: nat)
    requires |o.payload| <= MAX_PAYLOAD
    ensures AllRequested(codec, client, true, Sendable([o]), now)
         == match Requested(codec, client, true, OnWire(o.kind, o.payload), now) case Some(op) => [op] case None => []
  {
    assert Sendable([o]) == [OnWire(o.kind, o.payload)];
    OneRequest(codec, client, OnWire(o.kind, o.payload), now);
  }

  lemma RequestsAppend(codec: Codec, client: int, a: seq<Outgoing>, b: seq<Outgoing>, now: nat)
    ensures AllRequested(codec, client, true, Sendable(a + b), now)
         == AllRequested(codec, client, true, Sendable(a), now) + AllRequested(codec, client, true, Sendable(b), now)
  {
    hide Sendable, AllRequested;
    SendableAppend(a, b);
    AllRequestedAppend(codec, client, Sendable(a), Sendable(b), now);
  }

  lemma FileRequests(codec: Codec, client: int, digest: Digest, fileName: string, file: seq<byte>, size: int, now: nat)
    requires Reads(codec, fileName, |file|, Checksum(digest, file, size))
    requires Trim(fileName) != ""
    ensures AllRequested(codec, client, true, Sendable(FileMessages(codec, digest, fileName, file, size)), now)
         == FileOps(client, digest, fileName, file, size, now)
  {
    hide Sendable, AllRequested, Chunks, ChunkOps, Small, NoneEmpty, Flatten, AsMessages, Trim;
    var info := Outgoing(FILE_INFO, codec.writeInfo(fileName, |file|));
    SingleRequest(codec, client, info, now);
    if size < -1 {
      assert FileMessages(codec, digest, fileName, file, size) == [info];
    } else {
      var chunks := Chunks(file, size);
      var end := Outgoing(FILE_END, codec.writeEnd(digest(Flatten(chunks))));
      SingleRequest(codec, client, end, now);
      ChunksAreNotEmpty(file, size);
      ChunkRequests(codec, client, chunks, now);
      RequestsAppend(codec, client, AsMessages(chunks), [end], now);
      RequestsAppend(codec, client, [info], AsMessages(chunks) + [end], now);
    }
  }

  /** What the operations of one file come to, alone: an accepted transfer exactly when the file can
      arrive, and no session either way - unless the read size was an error and no end was sent. */
  lemma FileAlone(own: Own, client: int, digest: Digest, fileName: string, file: seq<byte>, size: int, now: nat)
    requires own.active == None
    ensures var path := UploadPath(now, Trim(fileName));
      OwnAfter(own, FileOps(client, digest, fileName, file, size, now), digest)
      == Own(if size < -1 && file != [] then Some(Active(SessionView(Trim(fileName), |file|, path, 0), [])) else None,
             if CanArrive(file, size) then own.accepted[path := Deposit(client, file, |file|, digest(file))]
             else own.accepted)
  {
    var start := if file == [] then [] else [Start(client, Trim(fileName), |file|, now)];
    var started := OwnAfter(own, start, digest);
    if file != [] {
      OwnOne(own, start[0], digest);
    }
    if size < -1 {
      assert FileOps(client, digest, fileName, file, size, now) == start;
    } else {
      var small := Small(Chunks(file, size));
      var checksum := digest(Flatten(Chunks(file, size)));
      var received := OwnAfter(started, ChunkOps(client, small), digest);
      OwnAppend(own, start, ChunkOps(client, small) + [End(client, checksum)], digest);
      OwnAppend(started, ChunkOps(client, small), [End(client, checksum)], digest);
      OwnOne(received, End(client, checksum), digest);
      OwnChunks(started, client, small, digest);
      assert [] + small == small;
      if file != [] {
        ContentIsWhole(file, size);
      }
    }
  }

  /** What gets through is as long as the file exactly when the file can arrive, and then it is the file. */
  lemma ContentIsWhole(file: seq<byte>, size: int)
    requires -1 <= size && file != []
    ensures |Flatten(Small(Chunks(file, size)))| == |file| <==> CanArrive(file, size)
    ensures CanArrive(file, size) ==>
              Flatten(Small(Chunks(file, size))) == file && Flatten(Chunks(file, size)) == file
  {
    if CanArrive(file, size) {
      AllSmall(file, size);
      ChunksRebuild(file, size);
    } else if size != 0 {
      SmallLoses(file, size);
    }
  }

  /** The digest that the sender computes, if it gets that far. */
  function Checksum(digest: Digest, file: seq<byte>, size: int): string {
    if size < -1 then "" else digest(Flatten(Chunks(file, size)))
  }

  /** The client sends `file` over a healthy connection, and its bytes arrive in these pieces. */
  ghost predicate FileSent(codec: Codec, digest: Digest, fileName: string, file: seq<byte>, size: int,
                           pieces: seq<seq<byte>>)
  {
    && Reads(codec, fileName, |file|, Checksum(digest, file, size))
    && Trim(fileName) != ""
    && Flatten(pieces) == EncodeAll(Sendable(FileMessages(codec, digest, fileName, file, size)))
  }

  /** The service handles what arrived from a logged-in client, between any operations of other clients. */
  ghost predicate Handled(codec: Codec, digest: Digest, alloc: Allocator, client: int, now: nat,
                          pieces: seq<seq<byte>>, l: Ledger, ops: seq<Op>)
  {
    && (forall n :: 0 < n <= MAX_PAYLOAD ==> alloc(n))
    && Booked(l, digest) && IsRun(l, ops, digest)
    && OpsOf(ops, client) == AllRequested(codec, client, true, Feed(alloc, [], pieces).msgs, now)
  }

  /** What is asked of the run in plain terms: the server has memory for every payload that fits, the run
      keeps the books, and the client's operations in it are those that its parsed messages ask for. */
  lemma HandledMeans(codec: Codec, digest: Digest, alloc: Allocator, client: int, now: nat,
                     pieces: seq<seq<byte>>, l: Ledger, ops: seq<Op>)
    ensures Handled(codec, digest, alloc, client, now, pieces, l, ops) <==>
              && (forall n: nat :: 1 <= n <= 4091 ==> alloc(n))
              && BookedThroughout(l, ops, digest)
              && OpsOf(ops, client) == AllRequested(codec, client, true, Feed(alloc, [], pieces).msgs, now)
  {
    if Booked(l, digest) {
      DiskAccountingIsExact(l, ops, digest);
    }
    hide AllRequested, Feed, OpsOf, Booked, IsRun;
    assert BookedThroughout(l, ops, digest) ==> Booked(l, digest);
  }

  /** And of the codec: the reader gives back what was written, which fits a frame and is not empty. */
  lemma ReadsMeans(codec: Codec, fileName: string, size: int, checksum: string)
    ensures var info, end := codec.writeInfo(fileName, size), codec.writeEnd(checksum);
      Reads(codec, fileName, size, checksum) <==>
        && codec.readInfo(info) == Some((fileName, size)) && codec.readEnd(end) == Some(checksum)
        && 1 <= |info| <= 4091 && 1 <= |end| <= 4091
  {}

  /** Which files can arrive, in numbers. */
  lemma CanArriveMeans(file: seq<byte>, size: int)
    ensures CanArrive(file, size) <==>
              file != [] && (1 <= size <= 4091 || ((size == -1 || 4091 < size) && |file| <= 4091))
  {}

  /** A file from end to end. The client, logged in and without a transfer under way, sends `file`; its
      bytes reach the server in any pieces, and the parsed messages are handled between any operations
      of other clients. Then the transfer is accepted, and the disk has the file, exactly when
      `CanArrive`; otherwise no transfer of this client is accepted, and its session is gone again unless
      the read size was an error. */
  lemma FileArrives(codec: Codec, digest: Digest, alloc: Allocator, client: int, fileName: string,
                    file: seq<byte>, size: int, now: nat, pieces: seq<seq<byte>>, l: Ledger, ops: seq<Op>)
    requires FileSent(codec, digest, fileName, file, size, pieces)
    requires Handled(codec, digest, alloc, client, now, pieces, l, ops) && client !in l.store.sessions
    ensures var path, before := UploadPath(now, Trim(fileName)), OwnOf(l, client).accepted;
      var after := After(l, ops, digest);
      && OwnOf(after, client).accepted
         == (if CanArrive(file, size) then before[path := Deposit(client, file, |file|, digest(file))] else before)
      && (CanArrive(file, size) ==> path in after.store.disk && after.store.disk[path] == file)
      && (client in after.store.sessions <==> size < -1 && file != [])
  {
    WireRoundTrip(alloc, FileMessages(codec, digest, fileName, file, size), pieces);
    FileRequests(codec, client, digest, fileName, file, size, now);
    Isolation(l, ops, client, digest);
    FileAlone(OwnOf(l, client), client, digest, fileName, file, size, now);
    DiskAccounting(l, ops, digest);
    var after, path := After(l, ops, digest), UploadPath(now, Trim(fileName));
    assert client in after.store.sessions <==> client in after.chunks;
    if CanArrive(file, size) {
      assert path in OwnOf(after, client).accepted;
      assert DepositBooked(after, path, digest);
    }
  }

  /** With the chunk size of 4096, which a client has when none is given, a file arrives exactly when it has
      1 to 4091 bytes. */
  lemma DefaultChunkSizeIsTooLarge(codec: Codec, digest: Digest, alloc: Allocator, client: int, fileName: string,
                                   file: seq<byte>, now: nat, pieces: seq<seq<byte>>, l: Ledger, ops: seq<Op>)
    requires FileSent(codec, digest, fileName, file, 4096, pieces)
    requires Handled(codec, digest, alloc, client, now, pieces, l, ops) && client !in l.store.sessions
    ensures var path, before := UploadPath(now, Trim(fileName)), OwnOf(l, client).accepted;
      var after := After(l, ops, digest);
      && client !in after.store.sessions
      && OwnOf(after, client).accepted
         == if 1 <= |file| <= 4091 then before[path := Deposit(client, file, |file|, digest(file))] else before
  {
    FileArrives(codec, digest, alloc, client, fileName, file, 4096, now, pieces, l, ops);
  }

  /** The file sender of the C client: chunks of a whole buffer, and an end message without a body. */
  function NativeFileMessages(header: seq<byte>, file: seq<byte>): seq<Outgoing> {
    [Outgoing(FILE_INFO, header)] + AsMessages(Chunks(file, BUFFER_SIZE)) + [Outgoing(FILE_END, [])]
  }

  /** Its loop: a buffer at a time until the file is at its end. */
  method SendNativeFile(header: seq<byte>, file: seq<byte>) returns (outgoing: seq<Outgoing>)
    ensures outgoing == NativeFileMessages(header, file)
  {
    hide Chunks, AsMessages;
    var sent: seq<seq<byte>> := [];
    var at := 0;
    assert file[0..] == file && [] + Chunks(file, BUFFER_SIZE) == Chunks(file, BUFFER_SIZE);
    var readLen := if |file| - at < BUFFER_SIZE then |file| - at else BUFFER_SIZE;
    while 0 < readLen
      invariant at <= |file| && readLen == if |file| - at < BUFFER_SIZE then |file| - at else BUFFER_SIZE
      invariant Chunks(file, BUFFER_SIZE) == sent + Chunks(file[at..], BUFFER_SIZE)
      decreases |file| - at
    {
      ChunksNext(file, BUFFER_SIZE, sent, at, file[at..at + readLen]);
      sent := sent + [file[at..at + readLen]];
      at := at + readLen;
      readLen := if |file| - at < BUFFER_SIZE then |file| - at else BUFFER_SIZE;
    }
    ChunksNext(file, BUFFER_SIZE, sent, at, []);
    return [Outgoing(FILE_INFO, header)] + AsMessages(sent) + [Outgoing(FILE_END, [])];
  }

  /** The payloads between the first message and the last. */
  function Between(sent: seq<Outgoing>): (payloads: seq<seq<byte>>)
    requires 2 <= |sent|
    ensures |payloads| == |sent| - 2 && forall i | 0 <= i < |sent| - 2 :: payloads[i] == sent[i + 1].payload
  {
    seq(|sent| - 2, i requires 0 <= i < |sent| - 2 => sent[i + 1].payload)
  }

  lemma ChunkMessages(first: Outgoing, chunks: seq<seq<byte>>, last: Outgoing)
    ensures var sent := [first] + AsMessages(chunks) + [last];
      && 2 <= |sent| && sent[0] == first && sent[|sent| - 1] == last && Between(sent) == chunks
      && forall i | 0 < i < |sent| - 1 :: sent[i].kind == 11
  {
    var sent := [first] + AsMessages(chunks) + [last];
    assert forall i | 0 <= i < |chunks| :: sent[i + 1] == Outgoing(FILE_CHUNK, chunks[i]);
  }

  /** What it sends, in plain terms: a start, the file in pieces of at most 4096 bytes, and an empty end. */
  lemma NativeFileMeans(header: seq<byte>, file: seq<byte>)
    ensures var sent := NativeFileMessages(header, file);
      && 2 <= |sent| && sent[0] == Outgoing(10, header) && sent[|sent| - 1] == Outgoing(12, [])
      && (forall i | 0 < i < |sent| - 1 :: sent[i].kind == 11)
      && Flatten(Between(sent)) == file
      && (forall i | 0 <= i < |sent| - 2 :: 0 < |Between(sent)[i]| <= 4096)
      && (forall i | 0 <= i < |sent| - 3 :: |Between(sent)[i]| == 4096)
  {
    var chunks := Chunks(file, BUFFER_SIZE);
    ChunkMessages(Outgoing(FILE_INFO, header), chunks, Outgoing(FILE_END, []));
    forall i | 0 <= i < |chunks| ensures 0 < |chunks[i]| <= 4096 && (i < |chunks| - 1 ==> |chunks[i]| == 4096) {
      ChunksAreFull(file, BUFFER_SIZE, i);
    }
    ChunksRebuild(file, BUFFER_SIZE);
    hide Chunks, AsMessages, Flatten, Between;
  }

  /** And what the other sender sends: a start with the name and the size, the chunks of the file, and an end
      with the digest of the file. */
  lemma FileMessagesMean(codec: Codec, digest: Digest, fileName: string, file: seq<byte>, size: int)
    requires size == -1 || 0 < size
    ensures var sent := FileMessages(codec, digest, fileName, file, size);
      && 2 <= |sent| && sent[0] == Outgoing(10, codec.writeInfo(fileName, |file|))
      && sent[|sent| - 1] == Outgoing(12, codec.writeEnd(digest(file)))
      && (forall i | 0 < i < |sent| - 1 :: sent[i].kind == 11)
      && Flatten(Between(sent)) == file
  {
    ChunksRebuild(file, size);
    hide Chunks, AsMessages, Flatten, Between;
    var info := Outgoing(FILE_INFO, codec.writeInfo(fileName, |file|));
    var end := Outgoing(FILE_END, codec.writeEnd(digest(file)));
    ChunkMessages(info, Chunks(file, size), end);
    assert FileMessages(codec, digest, fileName, file, size) == [info] + AsMessages(Chunks(file, size)) + [end];
  }

  /** No file sent that way is ever accepted, whatever its size: the server gets no end request. */
  lemma NativeFilesNeverArrive(codec: Codec, digest: Digest, alloc: Allocator, client: int, header: seq<byte>,
                               file: seq<byte>, now: nat, pieces: seq<seq<byte>>, l: Ledger, ops: seq<Op>)
    requires Flatten(pieces) == EncodeAll(Sendable(NativeFileMessages(header, file)))
    requires Handled(codec, digest, alloc, client, now, pieces, l, ops)
    ensures OwnOf(After(l, ops, digest), client).accepted == OwnOf(l, client).accepted
  {
    WireRoundTrip(alloc, NativeFileMessages(header, file), pieces);
    Isolation(l, ops, client, digest);
    NoEndRequested(codec, client, NativeFileMessages(header, file), now);
    NothingAccepted(OwnOf(l, client), OpsOf(ops, client), digest);
  }

  /** End messages without a body ask for nothing. */
  lemma {:induction false} NoEndRequested(codec: Codec, client: int, outgoing: seq<Outgoing>, now: nat)
    requires forall i | 0 <= i < |outgoing| :: outgoing[i].kind % 0x100 == FILE_END ==> outgoing[i].payload == []
    ensures NoEnd(AllRequested(codec, client, true, Sendable(outgoing), now))
  {
    if outgoing != [] {
      NoEndRequested(codec, client, outgoing[1..], now);
      var kept, rest := Kept(outgoing[0]), Sendable(outgoing[1..]);
      AllRequestedAppend(codec, client, kept, rest, now);
      if kept != [] {
        OneRequest(codec, client, kept[0], now);
      }
      assert NoEnd(AllRequested(codec, client, true, kept, now));
      hide AllRequested, Requested;
    }
  }

  predicate NoEnd(ops: seq<Op>) {
    forall i | 0 <= i < |ops| :: !ops[i].End?
  }

  lemma {:induction false} NothingAccepted(own: Own, ops: seq<Op>, digest: Digest)
    requires NoEnd(ops)
    ensures OwnAfter(own, ops, digest).accepted == own.accepted
    decreases |ops|
  {
    if ops != [] {
      NothingAccepted(OwnNext(own, ops[0], digest), ops[1..], digest);
    }
  }
}
