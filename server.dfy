/**
 * The primary storage node (Server/Server.py): the command dispatcher that
 * serves one connection, its file store and lock table, and the sender that
 * pushes a committed write to the backup node.
 *
 * The directory is a map from file name to bytes.  A connection is the
 * command line it opened with plus the script of what the client sends after
 * it; the node answers with a sequence of messages.  Replication and the
 * backup delete are recorded, in order, in an outbox; the retry loop that
 * delivers a replication is `ReplicateToBackup`.
 */
module Server {
  import opened Wrappers
  import opened Text
  import opened Framing
  import Locks

  // ---------------------------------------------------------------------------
  // Replies

  const READY := "READY"
  const NOT_FOUND := "ERROR: File not found"
  const INVALID_COMMAND := "ERROR: Invalid command"
  const TIMEOUT_REPLY := "ERROR: Connection timeout"
  const WRITE_OK := "Write successful (replicated to backup)"
  const DELETE_OK := "Delete successful (removed from main and backup)"

  /** One `send` on the client connection: text, raw file bytes, or the directory listing. */
  datatype Message = Text(text: string) | Binary(bytes: seq<byte>) | Listing(names: set<string>)

  /** Work handed to the backup node: a detached replication, or the synchronous delete. */
  datatype BackupRequest = Replicate(name: string, data: seq<byte>) | DeleteOnBackup(name: string)

  function UploadReply(name: string, size: int): string {
    "Upload successful: " + name + " (" + IntToString(size) + " bytes) - replicated to backup"
  }

  /** The text of the ValueError raised by `a, b = words` (or `a, b, c = words`) on the wrong count. */
  function UnpackMessage(expected: nat, got: nat): string {
    if got < expected then
      "not enough values to unpack (expected " + NatToString(expected) + ", got " + NatToString(got) + ")"
    else
      "too many values to unpack (expected " + NatToString(expected) + ")"
  }

  /** The text of the ValueError raised by `int(token)`. */
  function IntLiteralMessage(token: string): string {
    "invalid literal for int() with base 10: '" + token + "'"
  }

  // ---------------------------------------------------------------------------
  // Parsing the command line

  datatype Request =
    | ListFiles
    | ReadFile(name: string)
    | WriteFile(name: string)
    | UploadFile(name: string, size: int)
    | DownloadFile(name: string)
    | DeleteFile(name: string)
    | Unknown
    | Malformed(message: string)

  /** The prefixes `handle_client` tests, after the exact test for `LIST`. */
  predicate HasVerbPrefix(c: string) {
    "READ" <= c || "WRITE" <= c || "UPLOAD" <= c || "DOWNLOAD" <= c || "DELETE" <= c
  }

  /**
   * The branch `handle_client` takes for a stripped command line `c` whose
   * words are `words`: an exact test for `LIST`, then prefix tests in the
   * order READ, WRITE, UPLOAD, DOWNLOAD, DELETE.  The first word is not
   * looked at again, so `READX a` reads `a`.  A wrong number of words, or a
   * size that `int()` rejects, is the exception the branch would raise
   * before touching anything.
   */
  function Branch(c: string, words: seq<string>): (r: Request)
    ensures r == ListFiles <==> c == "LIST"
    ensures r == Unknown <==> c != "LIST" && !HasVerbPrefix(c)
    ensures r.Malformed? ==> c != "LIST" && HasVerbPrefix(c)
    ensures r.ReadFile? || r.WriteFile? || r.DownloadFile? || r.DeleteFile? ==>
      |words| == 2 && words[1] == r.name
    ensures r.UploadFile? ==> |words| == 3 && words[1] == r.name && ParseInt(words[2]) == Some(r.size)
  {
    var unpack2 := Malformed(UnpackMessage(2, |words|));
    if c == "LIST" then ListFiles
    else if "READ" <= c then (if |words| == 2 then ReadFile(words[1]) else unpack2)
    else if "WRITE" <= c then (if |words| == 2 then WriteFile(words[1]) else unpack2)
    else if "UPLOAD" <= c then
      if |words| != 3 then Malformed(UnpackMessage(3, |words|))
      else match ParseInt(words[2])
        case None => Malformed(IntLiteralMessage(words[2]))
        case Some(n) => UploadFile(words[1], n)
    else if "DOWNLOAD" <= c then (if |words| == 2 then DownloadFile(words[1]) else unpack2)
    else if "DELETE" <= c then (if |words| == 2 then DeleteFile(words[1]) else unpack2)
    else Unknown
  }

  /** `handle_client`'s reading of a received command line: `strip()` it, `split()` it, take the branch. */
  function ParseCommand(raw: string): (r: Request)
    ensures r == ListFiles <==> Strip(raw) == "LIST"
    ensures r == Unknown <==> Strip(raw) != "LIST" && !HasVerbPrefix(Strip(raw))
    ensures r.Malformed? ==> HasVerbPrefix(Strip(raw))
  {
    Branch(Strip(raw), Split(Strip(raw)))
  }

  /** A space-joined line of words survives `strip()` and `split()`: the branch is taken on those words. */
  lemma ParseJoined(words: seq<string>)
    requires words != []
    requires forall k | 0 <= k < |words| :: IsToken(words[k])
    ensures ParseCommand(Join(words)) == Branch(Join(words), words)
    ensures words[0] <= Join(words)
  {
    StripJoin(words);
    SplitJoin(words);
    JoinPrefix(words);
  }

  // Each verb prefix takes its own branch, whatever follows it; a wrong
  // number of words is the unpacking error of that branch.

  lemma ReadBranch(c: string, words: seq<string>)
    requires "READ" <= c
    ensures Branch(c, words) == if |words| == 2 then ReadFile(words[1]) else Malformed(UnpackMessage(2, |words|))
  {
    PrefixIndex("READ", c, 0);
    NotPrefixAt("LIST", c, 0);
  }

  lemma WriteBranch(c: string, words: seq<string>)
    requires "WRITE" <= c
    ensures Branch(c, words) == if |words| == 2 then WriteFile(words[1]) else Malformed(UnpackMessage(2, |words|))
  {
    PrefixIndex("WRITE", c, 0);
    NotPrefixAt("LIST", c, 0);
    NotPrefixAt("READ", c, 0);
  }

  lemma UploadBranch(c: string, words: seq<string>)
    requires "UPLOAD" <= c
    ensures Branch(c, words) ==
      if |words| != 3 then Malformed(UnpackMessage(3, |words|))
      else if ParseInt(words[2]).None? then Malformed(IntLiteralMessage(words[2]))
      else UploadFile(words[1], ParseInt(words[2]).value)
  {
    PrefixIndex("UPLOAD", c, 0);
    NotPrefixAt("LIST", c, 0);
    NotPrefixAt("READ", c, 0);
    NotPrefixAt("WRITE", c, 0);
  }

  lemma DownloadBranch(c: string, words: seq<string>)
    requires "DOWNLOAD" <= c
    ensures Branch(c, words) == if |words| == 2 then DownloadFile(words[1]) else Malformed(UnpackMessage(2, |words|))
  {
    PrefixIndex("DOWNLOAD", c, 0);
    PrefixIndex("DOWNLOAD", c, 1);
    NotPrefixAt("LIST", c, 0);
    NotPrefixAt("READ", c, 0);
    NotPrefixAt("WRITE", c, 0);
    NotPrefixAt("UPLOAD", c, 0);
  }

  lemma DeleteBranch(c: string, words: seq<string>)
    requires "DELETE" <= c
    ensures Branch(c, words) == if |words| == 2 then DeleteFile(words[1]) else Malformed(UnpackMessage(2, |words|))
  {
    PrefixIndex("DELETE", c, 0);
    PrefixIndex("DELETE", c, 1);
    NotPrefixAt("LIST", c, 0);
    NotPrefixAt("READ", c, 0);
    NotPrefixAt("WRITE", c, 0);
    NotPrefixAt("UPLOAD", c, 0);
    NotPrefixAt("DOWNLOAD", c, 1);
  }

  /** The test is on a prefix, not on the first word: `READX a` is a read of `a`. */
  lemma ReadPrefixQuirk(verb: string, name: string)
    requires "READ" <= verb && IsToken(verb)
    requires IsToken(name)
    ensures ParseCommand(Join([verb, name])) == ReadFile(name)
  {
    ParseJoined([verb, name]);
    PrefixTrans("READ", verb, Join([verb, name]));
    ReadBranch(Join([verb, name]), [verb, name]);
  }

  // The request lines a client builds are parsed back into the request it meant.

  lemma ParseReadLine(name: string)
    requires IsToken(name)
    ensures ParseCommand(Join(["READ", name])) == ReadFile(name)
  {
    ParseJoined(["READ", name]);
    ReadBranch(Join(["READ", name]), ["READ", name]);
  }

  lemma ParseWriteLine(name: string)
    requires IsToken(name)
    ensures ParseCommand(Join(["WRITE", name])) == WriteFile(name)
  {
    ParseJoined(["WRITE", name]);
    WriteBranch(Join(["WRITE", name]), ["WRITE", name]);
  }

  lemma ParseDownloadLine(name: string)
    requires IsToken(name)
    ensures ParseCommand(Join(["DOWNLOAD", name])) == DownloadFile(name)
  {
    ParseJoined(["DOWNLOAD", name]);
    DownloadBranch(Join(["DOWNLOAD", name]), ["DOWNLOAD", name]);
  }

  lemma ParseDeleteLine(name: string)
    requires IsToken(name)
    ensures ParseCommand(Join(["DELETE", name])) == DeleteFile(name)
  {
    ParseJoined(["DELETE", name]);
    DeleteBranch(Join(["DELETE", name]), ["DELETE", name]);
  }

  /** The UPLOAD line a client builds from a name and `str(size)` is parsed back to that name and size. */
  lemma ParseUploadLine(name: string, size: int)
    requires IsToken(name)
    ensures ParseCommand(Join(["UPLOAD", name, IntToString(size)])) == UploadFile(name, size)
  {
    ParseJoined(["UPLOAD", name, IntToString(size)]);
    UploadBranch(Join(["UPLOAD", name, IntToString(size)]), ["UPLOAD", name, IntToString(size)]);
    ParseIntRoundTrip(size);
  }

  /** The primary has no APPEND branch: the local client's APPEND line is an invalid command here. */
  lemma AppendIsUnknown(name: string)
    requires IsToken(name)
    ensures ParseCommand(Join(["APPEND", name])) == Unknown
  {
    var line := Join(["APPEND", name]);
    ParseJoined(["APPEND", name]);
    PrefixIndex("APPEND", line, 0);
    NotPrefixAt("READ", line, 0);
    NotPrefixAt("WRITE", line, 0);
    NotPrefixAt("UPLOAD", line, 0);
    NotPrefixAt("DOWNLOAD", line, 0);
    NotPrefixAt("DELETE", line, 0);
  }

  /** Nor a REPLICATE branch (`REPLICATE`, `REPLICATE_BINARY`, ...): the primary never acts as a backup. */
  lemma ReplicateIsUnknown(verb: string, name: string)
    requires "REPLICATE" <= verb && IsToken(verb)
    requires IsToken(name)
    ensures ParseCommand(Join([verb, name])) == Unknown
  {
    var line := Join([verb, name]);
    ParseJoined([verb, name]);
    PrefixIndex("REPLICATE", verb, 0);
    PrefixIndex("REPLICATE", verb, 2);
    PrefixIndex(verb, line, 0);
    PrefixIndex(verb, line, 2);
    NotPrefixAt("READ", line, 2);
    NotPrefixAt("WRITE", line, 0);
    NotPrefixAt("UPLOAD", line, 0);
    NotPrefixAt("DOWNLOAD", line, 0);
    NotPrefixAt("DELETE", line, 0);
  }

  /** A verb with its file name missing is answered with the unpacking error. */
  lemma MissingName()
    ensures ParseCommand("READ") == Malformed(UnpackMessage(2, 1))
  {
    ParseJoined(["READ"]);
    ReadBranch("READ", ["READ"]);
  }

  /** A verb with one word too many is answered with the unpacking error. */
  lemma ExtraWord(name: string)
    requires IsToken(name)
    ensures ParseCommand(Join(["DELETE", name, name])) == Malformed(UnpackMessage(2, 3))
  {
    ParseJoined(["DELETE", name, name]);
    DeleteBranch(Join(["DELETE", name, name]), ["DELETE", name, name]);
  }

  /** UPLOAD without its size is answered with the three-way unpacking error. */
  lemma UploadWithoutSize(name: string)
    requires IsToken(name)
    ensures ParseCommand(Join(["UPLOAD", name])) == Malformed(UnpackMessage(3, 2))
  {
    ParseJoined(["UPLOAD", name]);
    UploadBranch(Join(["UPLOAD", name]), ["UPLOAD", name]);
  }

  // ---------------------------------------------------------------------------
  // Replication sender

  const MAX_RETRIES: nat := 3

  /**
   * One attempt of `replicate_to_backup`: an exception somewhere in it
   * (connect, send, recv, timeout), or the backup's reply to the REPLICATE
   * line.  A `READY` reply stands for an attempt whose body transfer then
   * completes; one that fails after `READY` is an exception.
   */
  datatype ReplicaAttempt = Raises | Answers(reply: string)

  /** The outcome of attempt `k`; past the end of a script the backup is unreachable. */
  function ReplicaAt(attempts: seq<ReplicaAttempt>, k: nat): ReplicaAttempt {
    if k < |attempts| then attempts[k] else Raises
  }

  /** How many of the first `n` attempts raise. */
  function RaisesBefore(attempts: seq<ReplicaAttempt>, n: nat): nat {
    if n == 0 then 0
    else RaisesBefore(attempts, n - 1) + (if ReplicaAt(attempts, n - 1).Raises? then 1 else 0)
  }

  /**
   * `replicate_to_backup`: at most three attempts, True at the first one
   * answered `READY`.  A two-second sleep follows an attempt that raised,
   * unless it was the last; a reply other than `READY` moves on at once.
   */
  method ReplicateToBackup(attempts: seq<ReplicaAttempt>) returns (ok: bool, tried: nat, delays: nat)
    ensures 1 <= tried <= MAX_RETRIES
    ensures ok <==> ReplicaAt(attempts, tried - 1) == Answers(READY)
    ensures forall k | 0 <= k < tried - 1 :: ReplicaAt(attempts, k) != Answers(READY)
    ensures !ok ==> tried == MAX_RETRIES
    ensures delays == RaisesBefore(attempts, if ok then tried - 1 else MAX_RETRIES - 1)
  {
    ok, tried, delays := false, 0, 0;
    var attempt := 0;
    while attempt < MAX_RETRIES
      invariant 0 <= attempt <= MAX_RETRIES && tried == attempt
      invariant delays == RaisesBefore(attempts, if attempt < MAX_RETRIES - 1 then attempt else MAX_RETRIES - 1)
      invariant forall k | 0 <= k < attempt :: ReplicaAt(attempts, k) != Answers(READY)
    {
      tried := tried + 1;
      match ReplicaAt(attempts, attempt) {
        case Raises =>
          if attempt < MAX_RETRIES - 1 {
            delays := delays + 1;
          }
        case Answers(reply) =>
          if reply == READY {
            return true, tried, delays;
          }
      }
      attempt := attempt + 1;
    }
  }

  // ---------------------------------------------------------------------------
  // The storage node

  /** The bytes carried by the raw messages of a reply. */
  function Payload(msgs: seq<Message>): seq<byte> {
    if msgs == [] then []
    else (if msgs[0].Binary? then msgs[0].bytes else []) + Payload(msgs[1..])
  }

  function Binaries(chunks: seq<seq<byte>>): (msgs: seq<Message>)
    ensures |msgs| == |chunks|
    ensures forall i | 0 <= i < |chunks| :: msgs[i] == Binary(chunks[i])
  {
    if chunks == [] then [] else [Binary(chunks[0])] + Binaries(chunks[1..])
  }

  lemma {:induction false} PayloadOfBinaries(chunks: seq<seq<byte>>)
    ensures Payload(Binaries(chunks)) == Concat(chunks)
  {
    if chunks != [] {
      var msgs := Binaries(chunks);
      assert msgs[1..] == Binaries(chunks[1..]);
      PayloadOfBinaries(chunks[1..]);
    }
  }

  /** The size of the node's first `recv`: the whole command line must fit. */
  const COMMAND_BUFFER: nat := 1024

  /** A command line of at most 1024 bytes sent as one segment is received whole, and the rest of the connection follows it. */
  lemma CommandReceivedWhole(line: seq<byte>, rest: seq<Event>)
    requires |line| <= COMMAND_BUFFER
    ensures Recv([Data(line)] + rest, COMMAND_BUFFER) == (Got(line), rest)
  {
    assert ([Data(line)] + rest)[1..] == rest;
  }

  /** A longer one is cut after 1024 bytes, and the remainder stays on the connection, read by the branch as body or acknowledgment. */
  lemma LongCommandCut(line: seq<byte>, rest: seq<Event>)
    requires |line| > COMMAND_BUFFER
    ensures Recv([Data(line)] + rest, COMMAND_BUFFER) == (Got(line[..COMMAND_BUFFER]), [Data(line[COMMAND_BUFFER..])] + rest)
  {
    assert ([Data(line)] + rest)[1..] == rest;
  }

  class StorageNode {
    var files: map<string, seq<byte>>
    var lockTable: Locks.Table
    var outbox: seq<BackupRequest>

    ghost predicate Valid()
      reads this
    {
      Locks.Valid(lockTable)
    }

    /** A node starting on an existing directory, with no lock created yet. */
    constructor (directory: map<string, seq<byte>>)
      ensures Valid()
      ensures files == directory && lockTable == Locks.Empty && outbox == []
    {
      files := directory;
      lockTable := Locks.Empty;
      outbox := [];
      Locks.EmptyValid();
    }

    /** `get_lock`: the lock of `name`, created and recorded on its first use. */
    method GetLock(name: string) returns (lock: Locks.LockId)
      requires Valid()
      modifies this
      ensures Valid()
      ensures (lockTable, lock) == Locks.Acquire(old(lockTable), name)
      ensures files == old(files) && outbox == old(outbox)
    {
      if name !in lockTable.locks {
        lockTable := Locks.Table(lockTable.locks[name := lockTable.created], lockTable.created + 1);
      }
      lock := lockTable.locks[name];
    }

    /** The READ branch: the file's bytes in one send, under its lock. */
    method ServeRead(name: string) returns (sent: seq<Message>)
      requires Valid()
      modifies this
      ensures Valid() && files == old(files) && outbox == old(outbox)
      ensures name !in old(files) ==> sent == [Text(NOT_FOUND)] && lockTable == old(lockTable)
      ensures name in old(files) ==>
        sent == [Binary(old(files)[name])] && lockTable == Locks.Acquire(old(lockTable), name).0
    {
      if name !in files {
        return [Text(NOT_FOUND)];
      }
      var lock := GetLock(name);
      sent := [Binary(files[name])];
    }

    /**
     * The WRITE branch: `READY`, then the body up to the end-of-file marker,
     * committed and replicated only when the marker arrives.  `closes` is
     * false only when the loop keeps reading from a closed peer and the
     * handler never finishes.
     */
    method ServeWrite(name: string, incoming: seq<Event>) returns (sent: seq<Message>, closes: bool)
      requires Valid()
      modifies this
      ensures Valid()
      ensures lockTable == Locks.Acquire(old(lockTable), name).0
      ensures var body := SentinelBody(incoming);
        && (closes <==> !body.NeverEnds?)
        && (body.Complete? ==>
              && files == old(files)[name := body.data]
              && outbox == old(outbox) + [Replicate(name, body.data)]
              && sent == [Text(READY), Text(WRITE_OK)])
        && (!body.Complete? ==> files == old(files) && outbox == old(outbox))
        && (body.PeerStalled? ==> sent == [Text(READY), Text(TIMEOUT_REPLY)])
        && (body.PeerReset? || body.NeverEnds? ==> sent == [Text(READY)])
    {
      var lock := GetLock(name);
      sent, closes := [Text(READY)], true;
      var body := ReceiveUntilSentinel(incoming);
      match body {
        case Complete(data) =>
          files := files[name := data];
          outbox := outbox + [Replicate(name, data)];
          sent := sent + [Text(WRITE_OK)];
        case PeerStalled =>
          sent := sent + [Text(TIMEOUT_REPLY)];
        case PeerReset =>
        case NeverEnds =>
          closes := false;
      }
    }

    /** The UPLOAD branch: `READY`, then exactly `size` bytes (fewer if the peer closes first), committed and replicated. */
    method ServeUpload(name: string, size: int, incoming: seq<Event>) returns (sent: seq<Message>)
      requires Valid()
      modifies this
      ensures Valid()
      ensures lockTable == Locks.Acquire(old(lockTable), name).0
      ensures var body := LengthBody(incoming, size);
        && (body.Complete? ==>
              && files == old(files)[name := body.data]
              && outbox == old(outbox) + [Replicate(name, body.data)]
              && sent == [Text(READY), Text(UploadReply(name, size))])
        && (!body.Complete? ==> files == old(files) && outbox == old(outbox))
        && (body.PeerStalled? ==> sent == [Text(READY), Text(TIMEOUT_REPLY)])
        && (body.PeerReset? ==> sent == [Text(READY)])
    {
      var lock := GetLock(name);
      sent := [Text(READY)];
      var body := ReceiveExactly(incoming, size);
      match body {
        case Complete(data) =>
          files := files[name := data];
          outbox := outbox + [Replicate(name, data)];
          sent := sent + [Text(UploadReply(name, size))];
        case PeerStalled =>
          sent := sent + [Text(TIMEOUT_REPLY)];
        case PeerReset =>
        case NeverEnds =>
      }
    }

    /**
     * The DOWNLOAD branch: `READY <size>`, and after the client's `ACK` the
     * file in pieces of at most 4096 bytes.
     */
    method ServeDownload(name: string, incoming: seq<Event>) returns (sent: seq<Message>)
      requires Valid()
      modifies this
      ensures Valid() && files == old(files) && outbox == old(outbox)
      ensures name !in old(files) ==> sent == [Text(NOT_FOUND)] && lockTable == old(lockTable)
      ensures name in old(files) ==>
        var ack := Recv(incoming, 1024).0;
        && lockTable == Locks.Acquire(old(lockTable), name).0
        && |sent| >= 1 && sent[0] == Text(READY + " " + IntToString(|old(files)[name]|))
        && (ack == Got(ACK) ==>
              && Payload(sent[1..]) == old(files)[name]
              && forall i | 1 <= i < |sent| :: sent[i].Binary? && 0 < |sent[i].bytes| <= MAX_CHUNK)
        && (ack.TimedOut? ==> sent[1..] == [Text(TIMEOUT_REPLY)])
        && (ack != Got(ACK) && !ack.TimedOut? ==> |sent| == 1)
    {
      if name !in files {
        return [Text(NOT_FOUND)];
      }
      var lock := GetLock(name);
      var content := files[name];
      sent := [Text(READY + " " + IntToString(|content|))];
      var (ack, _) := Recv(incoming, 1024);
      match ack {
        case Got(reply) =>
          if reply == ACK {
            var chunks := ReadChunks(content);
            PayloadOfBinaries(chunks);
            sent := sent + Binaries(chunks);
            assert sent[1..] == Binaries(chunks);
          }
        case TimedOut =>
          sent := sent + [Text(TIMEOUT_REPLY)];
        case ResetByPeer =>
      }
    }

    /** The DELETE branch: remove the file under its lock, then ask the backup to do the same. */
    method ServeDelete(name: string) returns (sent: seq<Message>)
      requires Valid()
      modifies this
      ensures Valid()
      ensures name !in old(files) ==> sent == [Text(NOT_FOUND)] && unchanged(this)
      ensures name in old(files) ==>
        && files == old(files) - {name}
        && lockTable == Locks.Acquire(old(lockTable), name).0
        && outbox == old(outbox) + [DeleteOnBackup(name)]
        && sent == [Text(DELETE_OK)]
    {
      if name !in files {
        return [Text(NOT_FOUND)];
      }
      var lock := GetLock(name);
      files := files - {name};
      // the backup's answer to DELETE, or the failure to reach it, is only logged
      outbox := outbox + [DeleteOnBackup(name)];
      sent := [Text(DELETE_OK)];
    }

    /**
     * What answering the command line `command` does, with `incoming` the rest
     * of the connection: LIST, a malformed line and an unknown verb answer
     * once and change nothing; each verb has the effect and the replies of its
     * branch.
     */
    twostate predicate Handled(command: string, incoming: seq<Event>, sent: seq<Message>, closes: bool)
      reads this
    {
      && (var request := ParseCommand(command);
            && (request == ListFiles ==> sent == [Listing(old(files).Keys)] && closes && unchanged(this))
            && (request.Malformed? ==> sent == [Text("ERROR: " + request.message)] && closes && unchanged(this))
            && (request == Unknown ==> sent == [Text(INVALID_COMMAND)] && closes && unchanged(this))
            && (!request.WriteFile? ==> closes))
      // READ
      && (ParseCommand(command).ReadFile? ==>
            var name := ParseCommand(command).name;
            && files == old(files) && outbox == old(outbox)
            && (name !in old(files) ==> sent == [Text(NOT_FOUND)] && lockTable == old(lockTable))
            && (name in old(files) ==>
                  sent == [Binary(old(files)[name])] && lockTable == Locks.Acquire(old(lockTable), name).0))
      // WRITE
      && (ParseCommand(command).WriteFile? ==>
            var name := ParseCommand(command).name;
            var body := SentinelBody(incoming);
            && lockTable == Locks.Acquire(old(lockTable), name).0
            && (closes <==> !body.NeverEnds?)
            && (body.Complete? ==>
                  && files == old(files)[name := body.data]
                  && outbox == old(outbox) + [Replicate(name, body.data)]
                  && sent == [Text(READY), Text(WRITE_OK)])
            && (!body.Complete? ==> files == old(files) && outbox == old(outbox))
            && (body.PeerStalled? ==> sent == [Text(READY), Text(TIMEOUT_REPLY)])
            && (body.PeerReset? || body.NeverEnds? ==> sent == [Text(READY)]))
      // UPLOAD
      && (ParseCommand(command).UploadFile? ==>
            var (name, size) := (ParseCommand(command).name, ParseCommand(command).size);
            var body := LengthBody(incoming, size);
            && lockTable == Locks.Acquire(old(lockTable), name).0
            && (body.Complete? ==>
                  && files == old(files)[name := body.data]
                  && outbox == old(outbox) + [Replicate(name, body.data)]
                  && sent == [Text(READY), Text(UploadReply(name, size))])
            && (!body.Complete? ==> files == old(files) && outbox == old(outbox))
            && (body.PeerStalled? ==> sent == [Text(READY), Text(TIMEOUT_REPLY)])
            && (body.PeerReset? ==> sent == [Text(READY)]))
      // DOWNLOAD
      && (ParseCommand(command).DownloadFile? ==>
            var name := ParseCommand(command).name;
            var ack := Recv(incoming, 1024).0;
            && files == old(files) && outbox == old(outbox)
            && (name !in old(files) ==> sent == [Text(NOT_FOUND)] && lockTable == old(lockTable))
            && (name in old(files) ==>
                  && lockTable == Locks.Acquire(old(lockTable), name).0
                  && |sent| >= 1 && sent[0] == Text(READY + " " + IntToString(|old(files)[name]|))
                  && (ack == Got(ACK) ==>
                        && Payload(sent[1..]) == old(files)[name]
                        && forall i | 1 <= i < |sent| :: sent[i].Binary? && 0 < |sent[i].bytes| <= MAX_CHUNK)
                  && (ack.TimedOut? ==> sent[1..] == [Text(TIMEOUT_REPLY)])
                  && (ack != Got(ACK) && !ack.TimedOut? ==> |sent| == 1)))
      // DELETE
      && (ParseCommand(command).DeleteFile? ==>
            var name := ParseCommand(command).name;
            && (name !in old(files) ==> sent == [Text(NOT_FOUND)] && unchanged(this))
            && (name in old(files) ==>
                  && files == old(files) - {name}
                  && lockTable == Locks.Acquire(old(lockTable), name).0
                  && outbox == old(outbox) + [DeleteOnBackup(name)]
                  && sent == [Text(DELETE_OK)]))
    }

    /** The branches of `handle_client` once the command line has been received. */
    method Dispatch(command: string, incoming: seq<Event>) returns (sent: seq<Message>, closes: bool)
      requires Valid()
      modifies this
      ensures Valid()
      ensures Handled(command, incoming, sent, closes)
    {
      closes := true;
      match ParseCommand(command) {
        case ListFiles =>
          sent := [Listing(files.Keys)];
        case Malformed(message) =>
          sent := [Text("ERROR: " + message)];
        case Unknown =>
          sent := [Text(INVALID_COMMAND)];
        case ReadFile(name) =>
          sent := ServeRead(name);
        case WriteFile(name) =>
          sent, closes := ServeWrite(name, incoming);
        case UploadFile(name, size) =>
          sent := ServeUpload(name, size, incoming);
        case DownloadFile(name) =>
          sent := ServeDownload(name, incoming);
        case DeleteFile(name) =>
          sent := ServeDelete(name);
      }
    }

    /**
     * `handle_client` for one connection: the first `recv(1024)` of `stream`
     * is the command line.  A timeout there is answered with the timeout
     * reply and a reset with nothing, and neither changes the node.
     */
    method HandleClient(stream: seq<Event>) returns (sent: seq<Message>, closes: bool)
      requires Valid()
      modifies this
      ensures Valid()
      ensures var (head, incoming) := Recv(stream, COMMAND_BUFFER);
        && (head.TimedOut? ==> sent == [Text(TIMEOUT_REPLY)] && closes && unchanged(this))
        && (head.ResetByPeer? ==> sent == [] && closes && unchanged(this))
        && (head.Got? ==> Handled(Decode(head.chunk), incoming, sent, closes))
    {
      var (head, incoming) := Recv(stream, COMMAND_BUFFER);
      match head {
        case TimedOut =>
          sent, closes := [Text(TIMEOUT_REPLY)], true;
        case ResetByPeer =>
          sent, closes := [], true;
        case Got(chunk) =>
          sent, closes := Dispatch(Decode(chunk), incoming);
      }
    }
  }
}
