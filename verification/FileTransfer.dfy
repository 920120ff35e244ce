/** File-transfer sessions over a disk: the service, and the books a run of it keeps. */
module FileTransfers {
  import opened Bytes

  /** A file's place under the upload directory. */
  type Path = string

  /** A number as Java prints it. */
  function Digits(n: nat): (d: string)
    ensures d != "" && AllDigits(d)
  {
    (if n < 10 then "" else Digits(n / 10)) + [('0' as int + n % 10) as char]
  }

  lemma {:induction false} DigitsAreUnique(m: nat, n: nat)
    requires Digits(m) == Digits(n)
    ensures m == n
  {
    var d, e := Digits(m), Digits(n);
    assert d[|d| - 1] as int == '0' as int + m % 10 && e[|e| - 1] as int == '0' as int + n % 10;
    assert d[..|d| - 1] == if m < 10 then "" else Digits(m / 10);
    assert e[..|e| - 1] == if n < 10 then "" else Digits(n / 10);
    if 10 <= m && 10 <= n {
      DigitsAreUnique(m / 10, n / 10);
    }
  }

  /** The number that decimal digits stand for. */
  function Value(d: string): int {
    if d == "" then 0 else 10 * Value(d[..|d| - 1]) + (d[|d| - 1] as int - '0' as int)
  }

  lemma {:induction false} DigitsAreDecimal(n: nat)
    ensures Value(Digits(n)) == n && (0 < n ==> Digits(n)[0] != '0')
  {
    var d := Digits(n);
    assert d[..|d| - 1] == if n < 10 then "" else Digits(n / 10);
    if 10 <= n {
      DigitsAreDecimal(n / 10);
    }
  }

  /** The path of a transfer that starts at millisecond `now`. */
  function UploadPath(now: nat, fileName: string): Path {
    Digits(now) + "_" + fileName
  }

  predicate AllDigits(d: string) {
    forall i | 0 <= i < |d| :: '0' <= d[i] <= '9'
  }

  /** The first underscore ends the number. */
  lemma SameNumber(d: string, a: string, e: string, b: string)
    requires AllDigits(d) && AllDigits(e) && d + "_" + a == e + "_" + b
    ensures d == e && a == b
  {
    var p := d + "_" + a;
    assert p[|d|] == '_' && p[|e|] == '_';
    assert forall i | 0 <= i < |d| :: p[i] == d[i];
    assert forall i | 0 <= i < |e| :: p[i] == e[i];
    assert d == p[..|d|] && e == p[..|e|] && a == p[|d| + 1..] && b == p[|e| + 1..];
  }

  /** Two transfers get one path exactly when they start in the same millisecond under the same name. */
  lemma PathsCollide(m: nat, a: string, n: nat, b: string)
    ensures UploadPath(m, a) == UploadPath(n, b) <==> m == n && a == b
  {
    if UploadPath(m, a) == UploadPath(n, b) {
      SameNumber(Digits(m), a, Digits(n), b);
      DigitsAreUnique(m, n);
    }
  }

  /** The SHA-256 digest in hexadecimal, as an unknown function. */
  type Digest = seq<byte> -> string

  datatype SessionView = SessionView(fileName: string, fileSize: int, filePath: Path, receivedBytes: int) {
    predicate IsCompleted() {
      receivedBytes == fileSize
    }
  }

  datatype Store = Store(sessions: map<int, SessionView>, disk: map<Path, seq<byte>>)

  datatype Outcome =
    | Done
    | Completed(session: SessionView)
    | AlreadyTransferring
    | NoSession
    | Incomplete
    | FileMissing
    | ChecksumMismatch

  function StartFileTransfer(s: Store, client: int, fileName: string, fileSize: int, now: nat): (Store, Outcome) {
    if client in s.sessions then (s, AlreadyTransferring)
    else (s.(sessions := s.sessions[client := SessionView(fileName, fileSize, UploadPath(now, fileName), 0)]), Done)
  }

  /** Appends to the file, creating it if need be. */
  function ProcessFileChunk(s: Store, client: int, chunk: seq<byte>): (Store, Outcome) {
    if client !in s.sessions then (s, NoSession)
    else
      var session := s.sessions[client];
      var before := if session.filePath in s.disk then s.disk[session.filePath] else [];
      (Store(s.sessions[client := session.(receivedBytes := session.receivedBytes + |chunk|)],
             s.disk[session.filePath := before + chunk]), Done)
  }

  /** An incomplete transfer and one with a wrong checksum lose their file and their session; a complete
      one whose file is missing keeps the session. */
  function EndFileTransfer(s: Store, client: int, checksum: string, digest: Digest): (Store, Outcome) {
    if client !in s.sessions then (s, NoSession)
    else
      var session := s.sessions[client];
      if !session.IsCompleted() then (Store(s.sessions - {client}, s.disk - {session.filePath}), Incomplete)
      else if session.filePath !in s.disk then (s, FileMissing)
      else if digest(s.disk[session.filePath]) != checksum then
        (Store(s.sessions - {client}, s.disk - {session.filePath}), ChecksumMismatch)
      else (s.(sessions := s.sessions - {client}), Completed(session))
  }

  function CancelFileTransfer(s: Store, client: int): (Store, Outcome) {
    if client !in s.sessions then (s, NoSession)
    else (Store(s.sessions - {client}, s.disk - {s.sessions[client].filePath}), Done)
  }

  /** How the operations answer. */
  lemma OutcomesAreExact(s: Store, client: int, fileName: string, fileSize: int, now: nat, chunk: seq<byte>,
                         checksum: string, digest: Digest)
    ensures StartFileTransfer(s, client, fileName, fileSize, now).1
         == if client in s.sessions then AlreadyTransferring else Done
    ensures var after := StartFileTransfer(s, client, fileName, fileSize, now).0;
      && after.disk == s.disk && after.sessions.Keys == s.sessions.Keys + {client}
      && (forall c <- s.sessions :: after.sessions[c] == s.sessions[c])
      && (client !in s.sessions ==>
            var session := after.sessions[client];
            && session.fileName == fileName && session.fileSize == fileSize && session.receivedBytes == 0
            && session.filePath == Digits(now) + "_" + fileName)
    ensures ProcessFileChunk(s, client, chunk).1 == CancelFileTransfer(s, client).1
         == if client in s.sessions then Done else NoSession
    ensures var (after, outcome) := EndFileTransfer(s, client, checksum, digest);
      && (client !in s.sessions ==> outcome == NoSession && after == s)
      && (client in s.sessions ==>
            var session := s.sessions[client];
            && (outcome == Incomplete <==> session.receivedBytes != session.fileSize)
            && (outcome == FileMissing <==>
                  session.receivedBytes == session.fileSize && session.filePath !in s.disk)
            && (outcome == ChecksumMismatch <==>
                  && session.receivedBytes == session.fileSize && session.filePath in s.disk
                  && digest(s.disk[session.filePath]) != checksum)
            && (outcome.Completed? ==> outcome.session == session)
            && (client in after.sessions <==> outcome == FileMissing)
            && (session.filePath in after.disk <==> outcome.Completed?))
  {}

  class FileTransferSession {
    const fileName: string
    const fileSize: int
    const filePath: Path
    var receivedBytes: int

    constructor (fileName: string, fileSize: int, filePath: Path)
      ensures View() == SessionView(fileName, fileSize, filePath, 0)
    {
      this.fileName := fileName;
      this.fileSize := fileSize;
      this.filePath := filePath;
      receivedBytes := 0;
    }

    ghost function View(): SessionView
      reads this
    {
      SessionView(fileName, fileSize, filePath, receivedBytes)
    }

    method AddReceivedBytes(length: int)
      modifies this
      ensures View() == old(View()).(receivedBytes := old(receivedBytes) + length)
    {
      receivedBytes := receivedBytes + length;
    }

    predicate IsCompleted()
      reads this
    {
      receivedBytes == fileSize
    }
  }

  /** The service. Its sessions are objects, one per client; the disk is the files by path. */
  class FileTransferService {
    var activeSessions: map<int, FileTransferSession>
    var disk: map<Path, seq<byte>>

    ghost predicate Valid()
      reads this
    {
      forall c <- activeSessions, d <- activeSessions :: activeSessions[c] == activeSessions[d] ==> c == d
    }

    ghost function View(): Store
      reads this, activeSessions.Values
    {
      Store(map c | c in activeSessions :: activeSessions[c].View(), disk)
    }

    constructor (disk: map<Path, seq<byte>>)
      ensures Valid() && View() == Store(map[], disk)
    {
      activeSessions := map[];
      this.disk := disk;
    }

    method Start(client: int, fileName: string, fileSize: int, now: nat) returns (outcome: Outcome)
      requires Valid()
      modifies this
      ensures Valid() && (View(), outcome) == StartFileTransfer(old(View()), client, fileName, fileSize, now)
    {
      if client in activeSessions {
        return AlreadyTransferring;
      }
      var path := Digits(now) + "_" + fileName;
      var session := new FileTransferSession(fileName, fileSize, path);
      activeSessions := activeSessions[client := session];
      assert View().sessions == old(View()).sessions[client := SessionView(fileName, fileSize, path, 0)];
      return Done;
    }

    method ProcessChunk(client: int, chunk: seq<byte>) returns (outcome: Outcome)
      requires Valid()
      modifies this, activeSessions.Values
      ensures Valid() && (View(), outcome) == ProcessFileChunk(old(View()), client, chunk)
    {
      if client !in activeSessions {
        return NoSession;
      }
      var session := activeSessions[client];
      disk := disk[session.filePath := (if session.filePath in disk then disk[session.filePath] else []) + chunk];
      session.AddReceivedBytes(|chunk|);
      forall d <- activeSessions | d != client ensures activeSessions[d].View() == old(activeSessions[d].View()) {
        assert activeSessions[d] != session;
      }
      assert View().sessions == old(View()).sessions[client := session.View()];
      return Done;
    }

    method End(client: int, checksum: string, digest: Digest) returns (outcome: Outcome)
      requires Valid()
      modifies this
      ensures Valid() && (View(), outcome) == EndFileTransfer(old(View()), client, checksum, digest)
    {
      if client !in activeSessions {
        return NoSession;
      }
      var session := activeSessions[client];
      if !session.IsCompleted() {
        activeSessions := activeSessions - {client};
        disk := disk - {session.filePath};
        assert View().sessions == old(View()).sessions - {client};
        return Incomplete;
      }
      if session.filePath !in disk {
        return FileMissing;
      }
      var serverChecksum := digest(disk[session.filePath]);
      if serverChecksum != checksum {
        disk := disk - {session.filePath};
        activeSessions := activeSessions - {client};
        assert View().sessions == old(View()).sessions - {client};
        return ChecksumMismatch;
      }
      activeSessions := activeSessions - {client};
      assert View().sessions == old(View()).sessions - {client};
      return Completed(SessionView(session.fileName, session.fileSize, session.filePath, session.receivedBytes));
    }

    method Cancel(client: int) returns (outcome: Outcome)
      requires Valid()
      modifies this
      ensures Valid() && (View(), outcome) == CancelFileTransfer(old(View()), client)
    {
      if client !in activeSessions {
        return NoSession;
      }
      var session := activeSessions[client];
      activeSessions := activeSessions - {client};
      disk := disk - {session.filePath};
      assert View().sessions == old(View()).sessions - {client};
      return Done;
    }
  }
}
