/**
 * The local client's file transfers (Client/client.py): `download_file`,
 * which asks for a file, acknowledges its size and receives that many bytes,
 * and `upload_file`, which announces a local file by name and size and sends
 * it in pieces.  Each makes up to three attempts with a pause after every
 * failed one but the last; any exception in an attempt moves on to the next.
 *
 * A node's side of an attempt is scripted; the local files are a map from
 * path to bytes.
 */
module Transfer {
  import opened Wrappers
  import opened Text
  import opened Framing
  import opened Cache
  import Server

  const MAX_ATTEMPTS: nat := 3
  const DOWNLOAD_ERROR := "ERROR: Could not download file after multiple attempts"
  const UPLOAD_ERROR := "ERROR: Could not upload file after multiple attempts"
  const LOCAL_NOT_FOUND := "ERROR: File not found on local system"

  /** `os.path.basename`: what follows the last `/` of the path. */
  function Basename(path: string): (name: string)
    ensures |name| <= |path| && forall i | 0 <= i < |name| :: name[i] == path[|path| - |name| + i]
    ensures forall i | 0 <= i < |name| :: name[i] != '/'
    ensures |name| < |path| ==> path[|path| - |name| - 1] == '/'
  {
    if path == [] || path[|path| - 1] == '/' then []
    else Basename(path[..|path| - 1]) + [path[|path| - 1]]
  }

  // ---------------------------------------------------------------------------
  // download_file

  /**
   * One download attempt: an exception before a response arrives, or the
   * node's response to `DOWNLOAD <file>` and what it sends after the `ACK`.
   */
  datatype DownloadAttempt = NoResponse | Responded(response: string, incoming: seq<Event>)

  function DownloadAt(attempts: seq<DownloadAttempt>, k: nat): DownloadAttempt {
    if k < |attempts| then attempts[k] else NoResponse
  }

  /** What a download that got through returns, and the bytes it wrote to the save path (if it wrote). */
  datatype Fetched = Fetched(message: string, saved: Option<seq<byte>>)

  function DownloadReport(filename: string, size: int, savePath: string): string {
    "Download successful: " + filename + " (" + IntToString(size) + " bytes) saved to " + savePath
  }

  /**
   * The decision of one attempt, `None` when it raises: a response not
   * starting with `READY` is returned as it is; a `READY` response must be
   * two words with an integer second word (else `ValueError`), and the
   * length-bounded body must arrive without a timeout or reset.  Whatever
   * arrived is saved, even short, and the report quotes the announced size.
   */
  function DownloadTry(filename: string, savePath: string, a: DownloadAttempt): (r: Option<Fetched>)
    ensures a.Responded? && !("READY" <= a.response) ==> r == Some(Fetched(a.response, None))
    ensures r.Some? && r.value.saved.Some? ==>
      a.Responded? && "READY" <= a.response && |Split(a.response)| == 2 && ParseInt(Split(a.response)[1]).Some?
      && r.value.message == DownloadReport(filename, ParseInt(Split(a.response)[1]).value, savePath)
      && LengthBody(a.incoming, ParseInt(Split(a.response)[1]).value) == Complete(r.value.saved.value)
  {
    match a
    case NoResponse => None
    case Responded(response, incoming) =>
      if !("READY" <= response) then Some(Fetched(response, None))
      else
        var words := Split(response);
        if |words| != 2 then None
        else match ParseInt(words[1])
          case None => None
          case Some(size) =>
            match LengthBody(incoming, size)
            case Complete(data) => Some(Fetched(DownloadReport(filename, size, savePath), Some(data)))
            case _ => None
  }

  /** One attempt of `download_file`: `done` when it returns, with the message it returns and the bytes it saved. */
  method DownloadOnce(filename: string, savePath: string, a: DownloadAttempt)
    returns (done: bool, message: string, saved: Option<seq<byte>>)
    ensures var r := DownloadTry(filename, savePath, a);
      && (done <==> r.Some?)
      && (done ==> message == r.value.message && saved == r.value.saved)
  {
    done, message, saved := false, "", None;
    match a {
      case NoResponse =>
      case Responded(response, incoming) =>
        if !("READY" <= response) {
          return true, response, None;
        }
        var words := Split(response);
        if |words| == 2 && ParseInt(words[1]).Some? {
          var size := ParseInt(words[1]).value;
          // the ACK goes out here
          var body := ReceiveExactly(incoming, size);
          if body.Complete? {
            return true, DownloadReport(filename, size, savePath), Some(body.data);
          }
        }
    }
  }

  /** `save_path`, which defaults to the file name itself. */
  function SaveTarget(filename: string, savePath: Option<string>): string {
    if savePath.Some? then savePath.value else filename
  }

  /** `download_file(filename, save_path)`. */
  method DownloadFile(filename: string, savePath: Option<string>, attempts: seq<DownloadAttempt>)
    returns (message: string, saved: Option<seq<byte>>, tries: nat, delays: nat)
    ensures 1 <= tries <= MAX_ATTEMPTS && delays == tries - 1
    ensures forall k | 0 <= k < tries - 1 :: DownloadTry(filename, SaveTarget(filename, savePath), DownloadAt(attempts, k)).None?
    ensures var last := DownloadTry(filename, SaveTarget(filename, savePath), DownloadAt(attempts, tries - 1));
      && (last.Some? ==> message == last.value.message && saved == last.value.saved)
      && (last.None? ==> tries == MAX_ATTEMPTS && message == DOWNLOAD_ERROR && saved == None)
  {
    var path := SaveTarget(filename, savePath);
    tries, delays := 0, 0;
    var attempt := 0;
    while attempt < MAX_ATTEMPTS
      invariant 0 <= attempt <= MAX_ATTEMPTS && tries == attempt
      invariant delays == (if attempt < MAX_ATTEMPTS then attempt else MAX_ATTEMPTS - 1)
      invariant forall k | 0 <= k < attempt :: DownloadTry(filename, path, DownloadAt(attempts, k)).None?
    {
      tries := tries + 1;
      var done;
      done, message, saved := DownloadOnce(filename, path, DownloadAt(attempts, attempt));
      if done {
        return message, saved, tries, delays;
      }
      assert forall k | 0 <= k <= attempt :: DownloadTry(filename, path, DownloadAt(attempts, k)).None? by {
        assert DownloadTry(filename, path, DownloadAt(attempts, attempt)).None?;
      }
      if attempt < MAX_ATTEMPTS - 1 {
        delays := delays + 1;
      }
      attempt := attempt + 1;
    }
    return DOWNLOAD_ERROR, None, tries, delays;
  }

  /** The text of the storage node's `READY <size>` reply splits into the verb and the size it quotes. */
  lemma ReadyReplyParses(n: int)
    ensures var words := Split(Server.READY + " " + IntToString(n));
      |words| == 2 && "READY" <= Server.READY + " " + IntToString(n) && ParseInt(words[1]) == Some(n)
  {
    var words := ["READY", IntToString(n)];
    SplitJoin(words);
    JoinPrefix(words);
    assert Join(words) == Server.READY + " " + IntToString(n);
    ParseIntRoundTrip(n);
  }

  /**
   * A download served by the storage node arrives whole: the reply
   * `READY <size>` followed by the file in pieces makes the client save
   * exactly the stored bytes and report their number.
   */
  lemma DownloadRoundTrip(filename: string, savePath: string, chunks: seq<seq<byte>>)
    ensures var content := Concat(chunks);
      var a := Responded(Server.READY + " " + IntToString(|content|), Wire(chunks));
      DownloadTry(filename, savePath, a) == Some(Fetched(DownloadReport(filename, |content|, savePath), Some(content)))
  {
    ReadyReplyParses(|Concat(chunks)|);
    TransferRoundTrip(chunks);
  }

  /** A node that closes early still yields a "successful" download: the short body is saved under the announced size. */
  lemma ShortDownloadSaved(filename: string, savePath: string, sent: seq<byte>, size: nat)
    requires |sent| < size
    ensures var a := Responded(Server.READY + " " + IntToString(size), Wire([sent]));
      DownloadTry(filename, savePath, a) == Some(Fetched(DownloadReport(filename, size, savePath), Some(sent)))
  {
    ReadyReplyParses(size);
    TruncatedTransfer(sent, size);
  }

  // ---------------------------------------------------------------------------
  // upload_file

  /**
   * One upload attempt: an exception before a response arrives, or the
   * node's response to the UPLOAD line and its final reply (`None` when
   * sending the file or receiving that reply raises).
   */
  datatype UploadAttempt = Refused | Replied(response: string, result: Option<string>)

  function UploadAt(attempts: seq<UploadAttempt>, k: nat): UploadAttempt {
    if k < |attempts| then attempts[k] else Refused
  }

  /** The line `upload_file` announces a file with. */
  function UploadLine(filename: string, size: nat): string {
    Join(["UPLOAD", filename, IntToString(size)])
  }

  /**
   * The decision of one attempt, `None` when it raises: after `READY` the
   * node's final reply, which is returned and invalidates the cache entry;
   * any other response is returned as an error.
   */
  function UploadTry(a: UploadAttempt): (r: Option<(string, bool)>)
    ensures r.Some? && r.value.1 ==> a.Replied? && a.response == Server.READY && a.result == Some(r.value.0)
    ensures a.Replied? && a.response != Server.READY ==> r == Some(("ERROR: " + a.response, false))
  {
    match a
    case Refused => None
    case Replied(response, result) =>
      if response != Server.READY then Some(("ERROR: " + response, false))
      else if result.None? then None
      else Some((result.value, true))
  }

  /**
   * The send loop of `upload_file`: while fewer than the file's size bytes
   * have gone out, read up to 4096 more and send them.
   */
  method SendPieces(content: seq<byte>) returns (chunks: seq<seq<byte>>)
    ensures Concat(chunks) == content
    ensures forall i | 0 <= i < |chunks| :: 0 < |chunks[i]| <= MAX_CHUNK
    ensures forall i | 0 <= i < |chunks| - 1 :: |chunks[i]| == MAX_CHUNK
  {
    chunks := [];
    var sent := 0;
    while sent < |content|
      invariant 0 <= sent <= |content|
      invariant Concat(chunks) == content[..sent]
      invariant forall i | 0 <= i < |chunks| :: 0 < |chunks[i]| <= MAX_CHUNK
      invariant forall i | 0 <= i < |chunks| - 1 :: |chunks[i]| == MAX_CHUNK
      invariant sent < |content| ==> forall i | 0 <= i < |chunks| :: |chunks[i]| == MAX_CHUNK
    {
      var end := if |content| - sent < MAX_CHUNK then |content| else sent + MAX_CHUNK;
      var chunk := content[sent..end];
      ConcatAppend(chunks, chunk);
      assert content[..end] == content[..sent] + chunk;
      chunks := chunks + [chunk];
      sent := sent + |chunk|;
    }
    assert content[..sent] == content;
  }

  /**
   * One attempt of `upload_file` on the file `content` announced as `name`:
   * `done` when it returns, with the message it returns; the cache entry is
   * dropped only after the node's final reply, and then the node has
   * received exactly the file.
   */
  method UploadOnce(content: seq<byte>, name: string, a: UploadAttempt, store: CacheDisk)
    returns (done: bool, message: string, chunks: seq<seq<byte>>)
    modifies store
    ensures var r := UploadTry(a);
      && (done <==> r.Some?)
      && (done ==> message == r.value.0)
      && store.file == (if done && r.value.1 then Invalidated(old(store.file), name) else old(store.file))
      && (done && r.value.1 ==> Concat(chunks) == content && LengthBody(Wire(chunks), |content|) == Complete(content))
  {
    done, message, chunks := false, "", [];
    match a {
      case Refused =>
      case Replied(response, result) =>
        if response != Server.READY {
          return true, "ERROR: " + response, chunks;
        }
        chunks := SendPieces(content);
        if result.Some? {
          store.Invalidate(name);
          TransferRoundTrip(chunks);
          return true, result.value, chunks;
        }
    }
  }

  /**
   * `upload_file(filepath)` against the local files `local`: every attempt
   * announces the file as `UploadLine(name, size)` and, on the attempt that
   * gets `READY`, sends it in `chunks`, which the storage node receives as
   * exactly the file's bytes.
   */
  method UploadFile(local: map<string, seq<byte>>, path: string, attempts: seq<UploadAttempt>, store: CacheDisk)
    returns (message: string, tries: nat, delays: nat, name: string, size: nat, chunks: seq<seq<byte>>)
    modifies store
    ensures path !in local ==> message == LOCAL_NOT_FOUND && tries == 0 && store.file == old(store.file)
    ensures path in local ==>
      && 1 <= tries <= MAX_ATTEMPTS && delays == tries - 1
      && name == Basename(path) && size == |local[path]|
    ensures path in local ==>
      var content := local[path];
      var last := UploadTry(UploadAt(attempts, tries - 1));
      && (forall k | 0 <= k < tries - 1 :: UploadTry(UploadAt(attempts, k)).None?)
      && (last.Some? ==> message == last.value.0)
      && (last.None? ==> tries == MAX_ATTEMPTS && message == UPLOAD_ERROR)
      && store.file == (if last.Some? && last.value.1 then Invalidated(old(store.file), name) else old(store.file))
      && (last.Some? && last.value.1 ==>
            Concat(chunks) == content && LengthBody(Wire(chunks), |content|) == Complete(content))
  {
    tries, delays, name, size, chunks := 0, 0, "", 0, [];
    if path !in local {
      return LOCAL_NOT_FOUND, tries, delays, name, size, chunks;
    }
    name := Basename(path);
    var content := local[path];
    size := |content|;
    var attempt := 0;
    while attempt < MAX_ATTEMPTS
      invariant 0 <= attempt <= MAX_ATTEMPTS && tries == attempt
      invariant delays == (if attempt < MAX_ATTEMPTS then attempt else MAX_ATTEMPTS - 1)
      invariant forall k | 0 <= k < attempt :: UploadTry(UploadAt(attempts, k)).None?
      invariant store.file == old(store.file)
    {
      tries := tries + 1;
      var done;
      done, message, chunks := UploadOnce(content, name, UploadAt(attempts, attempt), store);
      if done {
        return message, tries, delays, name, size, chunks;
      }
      if attempt < MAX_ATTEMPTS - 1 {
        delays := delays + 1;
      }
      attempt := attempt + 1;
    }
    return UPLOAD_ERROR, tries, delays, name, size, chunks;
  }

  /** The storage node parses the announced line back to the file's base name and size. */
  lemma UploadLineParses(path: string, size: nat)
    requires IsToken(Basename(path))
    ensures Server.ParseCommand(UploadLine(Basename(path), size)) == Server.UploadFile(Basename(path), size)
  {
    Server.ParseUploadLine(Basename(path), size);
  }
}
