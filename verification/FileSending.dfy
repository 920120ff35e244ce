/** The client that cuts a file into chunks, the handlers that turn messages into operations of the
    file-transfer service, and the file's way from one to the other. */
module FileSending {
  import opened Wrappers
  import opened Strings
  import opened Bytes
  import opened Framing
  import opened Transport
  import opened FileTransfers
  import opened FileLedgers

  const FILE_INFO: int := 10
  const FILE_CHUNK: int := 11
  const FILE_END: int := 12

  /** The JSON codecs of the requests, as unknown functions on payloads. */
  datatype Codec = Codec(
    writeInfo: (string, int) -> seq<byte>,
    writeEnd: string -> seq<byte>,
    readInfo: seq<byte> -> Option<(string, int)>,
    readEnd: seq<byte> -> Option<string>)

  /** What the reader makes of the writer's output for this file, and that both fit a frame. */
  predicate Reads(codec: Codec, fileName: string, size: int, checksum: string) {
    && codec.readInfo(codec.writeInfo(fileName, size)) == Some((fileName, size))
    && codec.readEnd(codec.writeEnd(checksum)) == Some(checksum)
    && 0 < |codec.writeInfo(fileName, size)| <= MAX_PAYLOAD
    && 0 < |codec.writeEnd(checksum)| <= MAX_PAYLOAD
  }

  /** The pieces that reading `size` bytes at a time gives; `-1` reads everything at once. */
  function Chunks(file: seq<byte>, size: int): seq<seq<byte>>
    requires -1 <= size
    decreases |file|
  {
    if file == [] || size == 0 then []
    else if size == -1 || |file| <= size then [file]
    else [file[..size]] + Chunks(file[size..], size)
  }

  function AsMessages(chunks: seq<seq<byte>>): seq<Outgoing> {
    seq(|chunks|, i requires 0 <= i < |chunks| => Outgoing(FILE_CHUNK, chunks[i]))
  }

  /** All that the client hands to the sender for one file. A read size below -1 raises an error after
      the first message. */
  function FileMessages(codec: Codec, digest: Digest, fileName: string, file: seq<byte>, size: int): seq<Outgoing> {
    [Outgoing(FILE_INFO, codec.writeInfo(fileName, |file|))]
    + if size < -1 then []
      else AsMessages(Chunks(file, size)) + [Outgoing(FILE_END, codec.writeEnd(digest(Flatten(Chunks(file, size)))))]
  }

  /** `file.read(size)` at position `at`; `None` is the error for a size below -1. */
  method ReadFile(file: seq<byte>, at: nat, size: int) returns (chunk: Option<seq<byte>>)
    requires at <= |file|
    ensures chunk == if size < -1 then None
                     else if size == -1 || |file| - at <= size then Some(file[at..])
                     else Some(file[at..at + size])
  {
    if size < -1 {
      return None;
    }
    if size == -1 || |file| - at <= size {
      return Some(file[at..]);
    }
    return Some(file[at..at + size]);
  }

  /** One turn of the sending loop. */
  lemma ChunksNext(file: seq<byte>, size: int, sent: seq<seq<byte>>, at: nat, chunk: seq<byte>)
    requires -1 <= size && at <= |file| && Chunks(file, size) == sent + Chunks(file[at..], size)
    requires chunk == if size == -1 || |file| - at <= size then file[at..] else file[at..at + size]
    ensures chunk == [] ==> Chunks(file, size) == sent
    ensures chunk != [] ==> Chunks(file, size) == sent + [chunk] + Chunks(file[at + |chunk|..], size)
  {
    var rest := file[at..];
    if chunk == [] {
      assert sent + [] == sent;
    } else {
      assert rest[|chunk|..] == file[at + |chunk|..];
      assert chunk == if size == -1 || |rest| <= size then rest else rest[..size];
      assert Chunks(rest, size) == [chunk] + Chunks(rest[|chunk|..], size);
    }
  }

  /** The sending loop: read a chunk, stop when there is none, hash it, send it; then send the digest of
      what was read. */
  method SendFile(codec: Codec, digest: Digest, fileName: string, file: seq<byte>, size: int)
    returns (outgoing: seq<Outgoing>, raised: bool)
    ensures outgoing == FileMessages(codec, digest, fileName, file, size)
    ensures raised <==> size < -1
  {
    hide Chunks, Flatten;
    var info := Outgoing(FILE_INFO, codec.writeInfo(fileName, |file|));
    var sent: seq<seq<byte>> := [];
    var hashed: seq<byte> := [];
    var at := 0;
    assert file[0..] == file && (-1 <= size ==> [] + Chunks(file, size) == Chunks(file, size));
    assert hashed == Flatten(sent) by { FlattenNothing(); }
    while true
      invariant at <= |file| && hashed == Flatten(sent)
      invariant size < -1 ==> sent == []
      invariant -1 <= size ==> Chunks(file, size) == sent + Chunks(file[at..], size)
      decreases |file| - at
    {
      var chunk := ReadFile(file, at, size);
      if chunk == None {
        return [info], true;
      }
      ChunksNext(file, size, sent, at, chunk.value);
      if chunk.value == [] {
        break;
      }
      FlattenSnoc(sent, chunk.value);
      hashed := hashed + chunk.value;
      sent := sent + [chunk.value];
      at := at + |chunk.value|;
    }
    assert Chunks(file, size) == sent;
    outgoing := [info] + (AsMessages(sent) + [Outgoing(FILE_END, codec.writeEnd(digest(hashed)))]);
    return outgoing, false;
  }

  lemma FlattenNothing()
    ensures Flatten<byte>([]) == []
  {}

  lemma {:induction false} ChunksRebuild(file: seq<byte>, size: int)
    requires size == -1 || 0 < size
    ensures Flatten(Chunks(file, size)) == file
    decreases |file|
  {
    if file != [] && size != -1 && size < |file| {
      ChunksRebuild(file[size..], size);
      assert file == file[..size] + file[size..];
    } else if file != [] {
      assert [file][1..] == [];
    }
  }

  /** Every chunk but the last is full, and the last is neither empty nor over the size. */
  lemma {:induction false} ChunksAreFull(file: seq<byte>, size: int, i: nat)
    requires 0 < size && i < |Chunks(file, size)|
    ensures 0 < |Chunks(file, size)[i]| <= size
    ensures i < |Chunks(file, size)| - 1 ==> |Chunks(file, size)[i]| == size
    decreases |file|
  {
    if size < |file| && 0 < i {
      assert Chunks(file, size)[1..] == Chunks(file[size..], size);
      ChunksAreFull(file[size..], size, i - 1);
    }
  }

  /** The operation a message asks of the service: none for an empty payload (which the listener cannot
      read), for a request that does not parse or is not allowed, or for another type. */
  function Requested(codec: Codec, client: int, loggedIn: bool, m: Message, now: nat): Option<Op> {
    if m.body == [] then None
    else if m.kind == FILE_INFO then
      (if !loggedIn then None
       else match codec.readInfo(m.body)
            case Some((fileName, size)) =>
              if Trim(fileName) == "" || size <= 0 then None else Some(Start(client, Trim(fileName), size, now))
            case None => None)
    else if m.kind == FILE_CHUNK then Some(Chunk(client, m.body))
    else if m.kind == FILE_END then
      (if !loggedIn then None
       else match codec.readEnd(m.body)
            case Some(checksum) => Some(End(client, checksum))
            case None => None)
    else None
  }

  /** Which message asks for which operation, in both directions. */
  lemma RequestIsExact(codec: Codec, client: int, loggedIn: bool, m: Message, now: nat, op: Op)
    ensures Requested(codec, client, loggedIn, m, now) == Some(op) <==>
              && m.body != [] && op.client == client
              && match op
                 case Start(_, name, size, at) =>
                   && m.kind == 10 && loggedIn && codec.readInfo(m.body).Some?
                   && name == Trim(codec.readInfo(m.body).value.0) && size == codec.readInfo(m.body).value.1
                   && name != "" && 0 < size && at == now
                 case Chunk(_, bytes) => m.kind == 11 && bytes == m.body
                 case End(_, checksum) => m.kind == 12 && loggedIn && codec.readEnd(m.body) == Some(checksum)
                 case Cancel(_) => false
  {}

  function AllRequested(codec: Codec, client: int, loggedIn: bool, ms: seq<Message>, now: nat): seq<Op> {
    if ms == [] then []
    else
      (match Requested(codec, client, loggedIn, ms[0], now)
       case Some(op) => [op]
       case None => [])
      + AllRequested(codec, client, loggedIn, ms[1..], now)
  }

  /** Exactly the files that can arrive: not empty, read in pieces, and no piece over the limit. */
  predicate CanArrive(file: seq<byte>, size: int) {
    && file != []
    && (size == -1 || 0 < size)
    && (0 < size <= MAX_PAYLOAD || |file| <= MAX_PAYLOAD)
  }
}
