# A verified model of a small replicated file service

The system is a primary storage node (`Server/Server.py`) and two
command-line clients (`Client/client.py`, and `Client/client_remote.py`, the
same client set up for another machine). A client sends a one-line command.
The node answers READ, WRITE, UPLOAD, DOWNLOAD, DELETE and LIST. After a
committed write the node replicates the file to a backup node. The client
retries up to three times. If the primary cannot be reached for a READ, it
fails over to the backup, and as a last resort it answers from a local JSON
cache.

The model has one module per concern:

- `Text`: Python's `split()`, `strip()`, `int()` and `str()` on the command
  line, with the round trips between them.
- `Framing`: the byte stream. A connection's incoming side is a script of
  segments, stalls (a timeout) and resets. The module defines the two ways a
  body is received: up to the `<<EOF>>` sentinel (WRITE) and up to a declared
  size (UPLOAD and download).
- `Locks`: the per-file lock table of `get_lock`.
- `Server`: the command parser, `replicate_to_backup`, and a `StorageNode`
  class whose fields are the directory, the lock table, and an outbox of
  requests to the backup. Its methods are the branches of `handle_client`.
- `Cache`: the client's cache file, as pure functions and as a `CacheDisk`
  object that the client rewrites in place.
- `Orchestrator`: `send_command`, meaning the attempts, the failover to the
  backup, the cache fallback and the framed WRITE. The two client files are
  the two `Variant`s. For the remote client, only WRITE is framed and only
  WRITE invalidates the cache.
- `Transfer`: the client's `upload_file` and `download_file`.

Each loop in the source is a method with a `while` loop. The method is
proved equal to a specification function, and the properties are proved
about that function. Examples: `ReceiveUntilSentinel` against
`SentinelBody`, `ReceiveExactly` against `LengthBody`, and `SendCommand`
against `Attempts`.

Where the system's documentation and its code disagree, the model follows
the code:

- The client invalidates a cache entry only after an exchange that got an
  answer. The documentation says the entry is invalidated on every attempt,
  whether or not it succeeds.
- UPLOAD on the node, and `download_file` on the client, commit whatever
  arrived when the peer closes early (`Framing.TruncatedTransfer`). The
  documentation says no partial file is left committed.
- The remote client does not invalidate on UPLOAD or DELETE
  (`Orchestrator.RemoteKeepsEntry`).

## Model

| member | source | states |
|---|---|---|
| Locks.Acquire | Server/Server.py:16-21 | The first use of a name creates a fresh lock, distinct from every existing one, and records it. A later use returns the recorded lock. The table is otherwise unchanged and stays well formed. |
| Locks.AcquireIdempotent | Server/Server.py:18-21 | Asking twice for a name's lock gives the same lock and the same table as asking once. |
| Locks.DistinctNamesDistinctLocks | Server/Server.py:18-21 | Two different file names never share a lock, so operations on different files never serialise on each other. |
| Server.StorageNode.GetLock | Server/Server.py:18-21 | Updates the node's lock table in place exactly as `Acquire` says, and leaves the files and the outbox alone. |
| Server.ReplicateToBackup | Server/Server.py:24-58 | At most three attempts. It succeeds exactly when the last attempt was answered `READY`, and every earlier attempt was not. A failure means all three were used. The number of sleeps is the number of raising attempts, not counting the last one. |
| Server.Branch | Server/Server.py:68-201 | LIST only for the exact line. Unknown exactly when no verb prefix matches, and a malformed result always has one. A read, write, download or delete carries the second of exactly two words as its name. An upload carries the second of exactly three words and the parsed third as its size. |
| Server.ParseCommand | Server/Server.py:68-77 | The request of a raw command line is decided on its stripped form: LIST and Unknown exactly as for `Branch`, and a malformed request always has a verb prefix. |
| Text.Strip | Server/Server.py:68 | The stripped line neither starts nor ends with whitespace. |
| Text.Split | Server/Server.py:77 | Every word of a split line is a non-empty token with no whitespace. |
| Text.ParseInt | Server/Server.py:120 | `int()` accepts exactly an optional sign followed by one or more digits, and gives a negative value only after a minus sign. |
| Text.IntToString | Server/Server.py:143 | `str(n)` of an integer is a single token, so it survives the node's `split()`. |
| Server.UnpackMessage | Server/Server.py:77 | The text of the `ValueError` from unpacking the wrong number of words: "not enough values" with both counts when too few, "too many values" with the expected count otherwise. |
| Server.IntLiteralMessage | Server/Server.py:120 | The text of the `ValueError` from `int()` on a token that is not an integer. |
| Server.UploadReply | Server/Server.py:143 | The success reply of an UPLOAD, quoting the name and the declared size. |
| Server.ReadBranch | Server/Server.py:76-77 | Every line starting with `READ`, whatever follows, is a read of the second word when there are two words, and the expected-2 unpacking error otherwise. |
| Server.WriteBranch | Server/Server.py:92-93 | Every line starting with `WRITE` is a write of the second word when there are two words, and the unpacking error otherwise. |
| Server.UploadBranch | Server/Server.py:118-120 | Every line starting with `UPLOAD` needs three words (else the expected-3 unpacking error), and an integer third word (else the `int()` error); then it is an upload of the second word with that size. |
| Server.DownloadBranch | Server/Server.py:147-148 | Every line starting with `DOWNLOAD` is a download of the second word when there are two words, and the unpacking error otherwise. |
| Server.ReadPrefixQuirk | Server/Server.py:76-77 | The test is on a prefix, not on the first word: any token starting with `READ` (such as `READX`), followed by a name, is a read of that name. |
| Server.ParseJoined | Server/Server.py:68-77 | A client-built line (words joined by single spaces) survives `strip()` and `split()`, so it parses by its own words. |
| Server.ParseReadLine | Server/Server.py:76-77 | `READ <name>` is a read of that name. |
| Server.ParseWriteLine | Server/Server.py:92-93 | `WRITE <name>` is a write of that name. |
| Server.ParseUploadLine | Server/Server.py:118-120 | `UPLOAD <name> <str(size)>` is an upload of that name with that size. |
| Server.ParseDownloadLine | Server/Server.py:147-148 | `DOWNLOAD <name>` is a download of that name. |
| Server.DeleteBranch | Server/Server.py:173-174 | A line that starts with `DELETE` takes the DELETE branch: a delete of the second word when there are two words, the unpacking error otherwise. |
| Server.ParseDeleteLine | Server/Server.py:173-174 | `DELETE <name>` is a delete of that name. |
| Server.AppendIsUnknown | Server/Server.py:200-201 | The client's APPEND verb is not handled by the node: it gets the invalid-command reply. |
| Server.ReplicateIsUnknown | Server/Server.py:200-201 | A replication line sent to the primary is an invalid command there. |
| Server.MissingName | Server/Server.py:76-77 | `READ` alone fails to unpack: expected 2 values, got 1. |
| Server.ExtraWord | Server/Server.py:173-174 | `DELETE` with an extra word fails to unpack: too many values, expected 2. |
| Server.UploadWithoutSize | Server/Server.py:118-119 | `UPLOAD <name>` without a size fails to unpack: expected 3 values, got 2. |
| Server.StorageNode.ServeRead | Server/Server.py:76-89 | A missing file gets the not-found reply and no lock is created. Otherwise the file's bytes go out in one send, under its lock. Nothing is written. |
| Server.StorageNode.ServeWrite | Server/Server.py:92-115 | The node sends `READY`. The file is committed and replicated only when the body ends at the sentinel, and then the success reply follows. A stall gives the timeout reply and a reset gives nothing. A peer that closes without the sentinel keeps the handler reading forever. |
| Server.StorageNode.ServeUpload | Server/Server.py:118-143 | The node sends `READY` and takes the first `size` bytes, or fewer if the peer closes. It commits and replicates them, then sends the success reply naming the declared size. A stall or a reset commits nothing. |
| Server.StorageNode.ServeDownload | Server/Server.py:147-168 | A missing file gets the not-found reply. Otherwise the node sends `READY <size>`. After an `ACK` the raw sends carry exactly the file, in pieces of 1 to 4096 bytes. Any other answer ends the exchange, or a timeout gives the timeout reply. |
| Server.StorageNode.ServeDelete | Server/Server.py:173-197 | A missing file gets the not-found reply and nothing changes. Otherwise the file is removed, a delete is queued for the backup and the success reply is sent. |
| Server.StorageNode.HandleClient | Server/Server.py:61-211 | The command line is the first `recv(1024)` of the connection. A timeout there gets the timeout reply and a reset gets nothing, and neither changes the node. Otherwise the decoded line is answered as `Handled` states. |
| Server.StorageNode.Dispatch | Server/Server.py:70-211 | The state after answering a command line is `Handled`: LIST sends the directory's names. Malformed and unknown lines get one error reply. Those three change nothing. The five verbs have exactly their branch's effect and replies. The connection closes unless a WRITE body never ends. |
| Server.CommandReceivedWhole | Server/Server.py:68 | A command line of at most 1024 bytes, sent as one segment, is received whole, and what follows it is left for the branch. |
| Server.LongCommandCut | Server/Server.py:68 | A longer line is cut after 1024 bytes. The remainder is still on the connection, where the branch reads it as body or acknowledgment. |
| Text.Decode | Server/Server.py:68 | `.decode()` of ASCII bytes keeps the length, and each character has its byte's code. |
| Framing.Wire | Server/Server.py:168 | A sender's `send` calls give a script of non-empty byte segments, one per non-empty send, with no stall or reset. |
| Framing.Recv | Server/Server.py:103 | One `recv(n)` gives at most `n` bytes, in stream order. On a closed peer it gives no bytes, and it always consumes something of a non-empty script. |
| Framing.SentinelBody | Server/Server.py:101-106 | The meaning of the WRITE loop: a committed body, followed by the marker, is a prefix of the bytes the peer sent. A stall or a reset ends it without a body, and a closed peer never ends it. |
| Framing.LengthBody | Server/Server.py:127-134 | The size-bounded receive never exceeds the declared size and always ends. |
| Framing.ReceiveUntilSentinel | Server/Server.py:101-106 | The WRITE receive loop computes exactly `SentinelBody` of the incoming script. |
| Framing.ReceiveExactly | Server/Server.py:127-134 | The UPLOAD receive loop computes exactly `LengthBody` of the incoming script and the declared size. |
| Framing.ReadChunks | Server/Server.py:163-168 | The DOWNLOAD send loop cuts the file into non-empty pieces of at most 4096 bytes, all full but the last, which together are the file. |
| Framing.LengthBodyOfPlain | Server/Server.py:127-134 | From a peer that neither stalls nor resets, the size-bounded receive yields the first `size` bytes of the stream, or all of them when fewer arrive. |
| Framing.TransferRoundTrip | Server/Server.py:127-134 | Bytes sent in any pieces and received with their total as the size arrive byte for byte. |
| Framing.TruncatedTransfer | Server/Server.py:129-138 | A sender that closes after fewer bytes than declared has exactly those bytes committed. |
| Framing.SentinelRoundTrip | Server/Server.py:101-106 | A body followed by a separately sent `<<EOF>>` is received whole, unless the body's own last 4096-byte piece is the marker, in which case it is cut there. |
| Framing.GluedMarkerNotRecognised | Server/Server.py:103-105 | When the marker arrives in the same chunk as data, it is not recognised, and the loop never ends. |
| Framing.EmptyChunkIgnored | Server/Server.py:102-106 | An empty chunk neither ends the WRITE loop nor adds to the body. |
| Text.SplitJoin | Server/Server.py:77 | Splitting a line of single-space-joined words gives back those words. |
| Text.StripJoin | Server/Server.py:68 | A single-space-joined line is unchanged by `strip()`. |
| Text.ParseIntRoundTrip | Server/Server.py:119-120 | `int(str(n)) == n` for every integer. |
| Cache.Load | Client/client.py:17-25 | A stored dictionary loads as itself. A missing or unreadable file loads as the empty cache. |
| Cache.Lookup | Client/client.py:32-38 | There is a hit exactly when the name has an entry. |
| Cache.Added | Client/client.py:40-47 | Adding always leaves a readable file whose names are the old ones plus the added one. |
| Cache.Invalidated | Client/client.py:50-56 | Invalidating a cached name rewrites the file without it and with every other name kept. |
| Cache.LookupUnreadable | Client/client.py:17-25 | Every lookup in a missing or corrupt cache misses. |
| Cache.LookupAdded | Client/client.py:32-47 | A lookup right after adding a name returns the added content. |
| Cache.AddedKeepsOthers | Client/client.py:40-47 | An add leaves every other name's lookup and entry as they were. |
| Cache.InvalidatedRemovesOnly | Client/client.py:50-56 | After invalidating, the name misses and every other name looks up as before. |
| Cache.InvalidateAbsent | Client/client.py:50-56 | Invalidating a name that has no entry does not touch the file, even a corrupt one. |
| Cache.AddedTwice | Client/client.py:40-47 | When a name is added twice, the later add wins. |
| Cache.CacheDisk.Add | Client/client.py:40-47 | Rewrites the client's cache file in place to `Added` of its old contents. |
| Cache.CacheDisk.Invalidate | Client/client.py:50-56 | Updates the client's cache file in place to `Invalidated` of its old contents. |
| Orchestrator.Exchange | Client/client.py:72-93 | An answered attempt always sends the command first. A framed command then sends the body and the marker after `READY`. Only a READ or an invalidating command leaves a different cache behind. |
| Orchestrator.SendCommand | Client/client.py:59-121 | The retry loop, the failover call and the cache are exactly `Attempts` from the first attempt on the chosen node. That covers the outcome, the attempt and sleep counts, the new cache file and the sends. |
| Orchestrator.TryOnce | Client/client.py:67-109 | One pass of the loop body either returns what `Attempts` gives from that attempt, with the counts so far added, or fails with the cache untouched. A failure then continues at the next attempt after one sleep, or ends in the connect error after the last. |
| Orchestrator.Answer | Client/client.py:72-93 | One answered exchange sends, caches and invalidates exactly as `Exchange` says. |
| Orchestrator.Attempts | Client/client.py:59-121 | The meaning of `send_command` from attempt k on one node: an answer or another exception ends the call; an unreachable node moves on after a sleep, to the backup after the third primary failure of a READ, to the cache after the last failure of a READ, and to the connect error otherwise. |
| Orchestrator.SendCommandRun | Client/client.py:59-66 | A call of `send_command` starts with attempt 0 on the primary. |
| Orchestrator.RunFootprint | Client/client.py:70-93 | Whatever a run puts on the wire starts with the command line. Only a READ or an invalidating command changes the cache file. |
| Orchestrator.BackupTally | Client/client.py:66-109 | A run on the backup from attempt k makes no primary attempt, at most the remaining attempts, and one sleep fewer than its attempts. |
| Orchestrator.AttemptsTally | Client/client.py:66-109 | A run on the primary from attempt k makes at most the remaining primary attempts and at most three backup attempts. There is one sleep between consecutive attempts on a node. The backup is reached only for a READ whose remaining primary attempts all failed. |
| Orchestrator.SendCommandTally | Client/client.py:63-109 | A call makes 1 to 3 primary attempts and at most 3 backup attempts. The sleeps are one fewer than the attempts on each node used. The backup is tried only for a READ after three primary failures. |
| Orchestrator.FailureStep | Client/client.py:95-109 | An unreachable attempt that does not end the call is followed by the next attempt after one sleep. On the last attempt it gives the cache or connect-error answer. |
| Orchestrator.NonReadGivesUp | Client/client.py:95-121 | A non-READ command whose three attempts are all unreachable returns the connect error after two sleeps, sends nothing and leaves the cache alone. |
| Orchestrator.PrimaryExhausted | Client/client.py:95-100 | A READ whose three primary attempts fail continues as a fresh call on the backup. |
| Orchestrator.BackupExhausted | Client/client.py:95-109 | A READ whose three backup attempts fail ends as the last backup attempt decides, after two sleeps, with the cache unchanged. |
| Orchestrator.ReadFallback | Client/client.py:95-121 | A READ that reaches neither node returns the tagged cached content when the entry is non-empty, and the connect error otherwise, after six attempts and four sleeps. |
| Orchestrator.OneWordReadRaises | Client/client.py:102-104 | A one-word READ that reaches neither node raises the IndexError out of `send_command`. |
| Orchestrator.FirstAnswerWins | Client/client.py:66-93 | When the first answered attempt on the primary is attempt k, the call is that exchange, after k failures and k sleeps. |
| Orchestrator.BackupAnswerWins | Client/client.py:98-100 | When a READ reaches only the backup, at attempt k, the call is that exchange, after 3 + k failures and 2 + k sleeps. |
| Orchestrator.BackupReaches | Client/client.py:106-109 | On the backup, unreachable attempts j to k - 1 only add k - j attempts and k - j sleeps to the run from attempt k. |
| Orchestrator.ReadIsPlain | Client/client.py:74-91 | READ is never framed and never invalidates. |
| Orchestrator.ReadResultCached | Client/client.py:84-86 | A READ answered with a non-error result returns it and caches it under the name, leaving other entries as they were. |
| Orchestrator.ReadErrorNotCached | Client/client.py:84-86 | A READ answered with an error returns it, and the cache is untouched. |
| Orchestrator.InvalidatingDropsEntry | Client/client.py:88-91 | An answered invalidating command returns the result, and the name's entry is gone while other entries are kept. |
| Orchestrator.RemoteKeepsEntry | Client/client_remote.py:91-94 | For the remote client, an answered command other than READ and WRITE leaves the cache as it was and sends only the command. |
| Orchestrator.FramedSends | Client/client.py:74-78 | After `READY` a framed command sends its body and then the marker. Anything else sends only the command. |
| Orchestrator.Framed | Client/client.py:74 | The local client frames WRITE and APPEND; the remote client (Client/client_remote.py line 77) frames only WRITE. |
| Orchestrator.Invalidates | Client/client.py:89 | The local client invalidates on WRITE, UPLOAD, APPEND and DELETE; the remote client (Client/client_remote.py line 92) only on WRITE. |
| Transfer.Basename | Client/client.py:128 | The name is the path's final component: a suffix with no `/`, preceded by a `/` when it is not the whole path. |
| Transfer.DownloadTry | Client/client.py:183-210 | A reply that does not start with `READY` is returned as it is. A file is saved only after a `READY <size>` reply, and what is saved is what the size-bounded receive delivered. |
| Transfer.DownloadReport | Client/client.py:207 | The success message of a download, quoting the name, the announced size and the save path. |
| Transfer.DownloadFile | Client/client.py:171-222 | The save path defaults to the file name. From 1 to 3 attempts, with one sleep between consecutive ones. Every attempt but the last failed, and the last decides the message and the saved bytes. |
| Transfer.SaveTarget | Client/client.py:173-174 | A download without a save path saves under the file name. |
| Transfer.DownloadOnce | Client/client.py:178-210 | One attempt of the download loop finishes exactly when `DownloadTry` gives a result, and then returns its message and saved bytes. |
| Transfer.ReadyReplyParses | Client/client.py:186-188 | The node's `READY <size>` reply splits into two words whose second parses back to the size. |
| Transfer.DownloadRoundTrip | Client/client.py:186-207 | A download served against the node's reply saves exactly the file's bytes. |
| Transfer.ShortDownloadSaved | Client/client.py:195-207 | A download whose sender closes early saves the bytes that did arrive and still reports success. |
| Transfer.UploadTry | Client/client.py:140-157 | A non-`READY` reply is returned as an error. Success means `READY` and then the node's result. |
| Transfer.SendPieces | Client/client.py:144-149 | The upload send loop cuts the file into non-empty pieces of at most 4096 bytes, all full but the last, which together are the file. |
| Transfer.UploadFile | Client/client.py:123-169 | A missing local file is reported without an attempt. Otherwise the file is announced by its base name and size, the attempts happen as for a download, and the cache entry is dropped only on success. On success the node receives exactly the file. |
| Transfer.UploadOnce | Client/client.py:133-157 | One attempt of the upload loop finishes exactly when `UploadTry` gives a result. The cache entry is dropped only when the node answered after `READY`. On success the pieces sent are the file, and the node's size-bounded receive gets exactly the file. |
| Transfer.UploadLine | Client/client.py:139 | The announcement `UPLOAD <name> <size>`, as single-space-joined words. |
| Transfer.UploadLineParses | Client/client.py:139 | The announced line parses on the node as an upload of the base name with the file's size. |

## Left out

- Sockets: each `send` arrives as one segment of the script (or is split only where the model says).
- Threads and locking: the replication thread is an outbox entry on the node and `ReplicateToBackup` models its retry loop separately. Lock acquisition and mutual exclusion are not modelled beyond the lock table. The accept loop and the interleaving of concurrent handlers are not modelled.
- The filesystem: the directory is a map. `os.listdir` and `str(files)` become the set of names. Paths are not joined, so path traversal is not captured.
- Server.StorageNode.ServeRead: sends the stored bytes unchanged. The source opens the file in text mode, which turns `\r\n` and `\r` into `\n` and raises on bytes that are not UTF-8 (for example a binary file stored by UPLOAD). Neither is modelled, because files are bytes and no decoder is modelled.
- Strict UTF-8 decoding of received chunks: the node's and the client's `.decode()` of each `recv` raises when a multi-byte character is split across two chunks, or when the bytes are not UTF-8 at all. For the command line that reply is `ERROR: ` and the decoder's message. In the WRITE loop that ends in the `ERROR: ...` reply with nothing committed. The model treats every chunk as decodable, and `Text.Decode` reads bytes of 128 and above as single characters.
- The lossy UTF-8 decode of an uploaded body before replication: the outbox holds the raw bytes.
- String encoding: text and bytes are related only where the model needs it (the constants are their ASCII bytes).
- The JSON shape of the cache file and failures to write it. Cache content that is not a string is not modelled.
- Time: `time.time()` is the `now` parameter, and sleeps are counted rather than taken.
- `int()` accepting underscores, surrounding whitespace and non-ASCII digits. The model accepts an optional sign and ASCII digits.
- Exception texts other than the unpacking, `int()`, missing-body and index errors. A broken exchange carries an opaque message.
- Server.UnpackMessage: the texts follow Python 3.13 and earlier, where "too many values to unpack" quotes only the expected count. Python 3.14 adds ", got N".
- Server.IntLiteralMessage: the token is always quoted with single quotes. Python quotes it with `repr()`, which uses double quotes for a token containing `'` and escapes backslashes.
- The interactive menus of both clients.
- `Backup Server/backup_server.py` is not part of this model.
- Orchestrator.SendCommand: reports only the sends of the exchange that answered, not the command bytes sent on attempts that then failed.
