/**
 * `send_command` (Client/client.py, and its near-copy in
 * Client/client_remote.py): send one command line to the primary node, with
 * up to three connection attempts and a two-second pause between them; a
 * READ that cannot reach the primary is sent to the backup node, and a READ
 * that reaches neither is answered from the local cache when it can be.  A
 * successful exchange updates the cache.
 *
 * The two clients are two configurations of the same machine: the local one
 * frames WRITE and APPEND (waits for `READY`, then sends the body and
 * `<<EOF>>`) and invalidates on WRITE, UPLOAD, APPEND and DELETE; the remote
 * one frames and invalidates on WRITE only.
 *
 * Each connection attempt is a scripted outcome; pauses are counted, not taken.
 */
module Orchestrator {
  import opened Wrappers
  import opened Text
  import opened Cache
  import Server

  datatype Variant = LocalClient | RemoteClient

  const MAX_ATTEMPTS: nat := 3
  const EOF_TEXT := "<<EOF>>"
  const CONNECT_ERROR := "ERROR: Could not connect to server after multiple attempts"
  const CACHE_TAG := "[FROM CACHE]\n"
  /** What `str(e)` gives for `data.encode()` when a framed command was sent without a body. */
  const NO_BODY_ERROR := "ERROR: 'NoneType' object has no attribute 'encode'"
  /** What `str(e)` gives for `command.split()[1]` on a one-word command. */
  const INDEX_ERROR := "list index out of range"

  predicate IsRead(command: string) {
    "READ" <= command
  }

  /** The commands for which the client waits for `READY` and then sends the body and the end marker. */
  predicate Framed(v: Variant, command: string) {
    "WRITE" <= command || (v == LocalClient && "APPEND" <= command)
  }

  /** The commands whose successful exchange drops the file's cache entry. */
  predicate Invalidates(v: Variant, command: string) {
    || "WRITE" <= command
    || (v == LocalClient && ("UPLOAD" <= command || "APPEND" <= command || "DELETE" <= command))
  }

  /**
   * One connection attempt: an `OSError` somewhere in it (refused, timed
   * out, reset), another exception (its message), or the node's answers:
   * `response` to the command line of a framed command (not read for other
   * commands) and `result`, the final reply.
   */
  datatype Attempt = Unreachable | Broken(message: string) | Answered(response: string, result: string)

  /** The outcome of attempt `k`; past the end of a script the node is unreachable. */
  function AttemptAt(script: seq<Attempt>, k: nat): Attempt {
    if k < |script| then script[k] else Unreachable
  }

  /** What `send_command` returns, or the exception that escapes it. */
  datatype Outcome = Returned(text: string) | Raised(message: string)

  /** Attempts made on each node, and pauses taken. */
  datatype Tally = Tally(primary: nat, backup: nat, delays: nat)

  /**
   * A whole run: its outcome, the count, the cache file afterwards, and the
   * sends of the exchange that answered (none when no exchange answered).
   */
  datatype Run = Run(outcome: Outcome, tally: Tally, cache: CacheFile, sends: seq<string>)

  function Plus(r: Run, t: Tally): Run {
    r.(tally := Tally(r.tally.primary + t.primary, r.tally.backup + t.backup, r.tally.delays + t.delays))
  }

  /** `attempts` attempts on the node `onBackup` names, and `delays` pauses. */
  function Counted(onBackup: bool, attempts: nat, delays: nat): Tally {
    if onBackup then Tally(0, attempts, delays) else Tally(attempts, 0, delays)
  }

  /**
   * The exchange of an attempt that reached a node: the outcome, the cache
   * file after it and what the client sent.  A READ result not starting
   * with `ERROR` is cached under the second word of the command, then an
   * invalidating command drops that word's entry; a one-word command fails
   * there with an `IndexError`, which `send_command` returns as an error.
   */
  function Exchange(v: Variant, command: string, data: Option<string>, response: string, result: string,
                    cache: CacheFile, now: int): (r: (Outcome, CacheFile, seq<string>))
    ensures r.2 != [] && r.2[0] == command
    ensures r.1 != cache ==> IsRead(command) || Invalidates(v, command)
  {
    var ready := Framed(v, command) && response == Server.READY;
    if ready && data.None? then (Returned(NO_BODY_ERROR), cache, [command])
    else
      var sends := [command] + (if ready then [data.value, EOF_TEXT] else []);
      var words := Split(command);
      var caches := IsRead(command) && !("ERROR" <= result);
      if caches && |words| < 2 then (Returned("ERROR: " + INDEX_ERROR), cache, sends)
      else
        var cached := if caches then Added(cache, words[1], result, now) else cache;
        if Invalidates(v, command) && |words| < 2 then (Returned("ERROR: " + INDEX_ERROR), cached, sends)
        else (Returned(result), if Invalidates(v, command) then Invalidated(cached, words[1]) else cached, sends)
  }

  /**
   * The run from attempt `k` on the node `onBackup` names, counting only
   * from `k` on.  After the third failure on the primary a READ starts
   * over on the backup; after the third failure on the backup it is
   * answered from a non-empty cache entry, or else gets the connect error.
   * Looking up the cache reads `command.split()[1]` outside the `try`, so a
   * one-word READ raises there.  A pause follows every failure but the third.
   */
  function Attempts(v: Variant, command: string, data: Option<string>, primary: seq<Attempt>, backup: seq<Attempt>,
                    onBackup: bool, k: nat, cache: CacheFile, now: int): Run
    requires k < MAX_ATTEMPTS
    decreases if onBackup then 0 else 1, MAX_ATTEMPTS - k
  {
    var one := Counted(onBackup, 1, 0);
    match AttemptAt(if onBackup then backup else primary, k)
    case Answered(response, result) =>
      var (outcome, updated, sends) := Exchange(v, command, data, response, result, cache, now);
      Run(outcome, one, updated, sends)
    case Broken(message) =>
      Run(Returned("ERROR: " + message), one, cache, [])
    case Unreachable =>
      var last := k == MAX_ATTEMPTS - 1;
      if !onBackup && IsRead(command) && last then
        Plus(Attempts(v, command, data, primary, backup, true, 0, cache, now), one)
      else if IsRead(command) && last && |Split(command)| < 2 then
        Run(Raised(INDEX_ERROR), one, cache, [])
      else if IsRead(command) && last && Lookup(cache, Split(command)[1]).Some? && Lookup(cache, Split(command)[1]).value != "" then
        Run(Returned(CACHE_TAG + Lookup(cache, Split(command)[1]).value), one, cache, [])
      else if !last then
        Plus(Attempts(v, command, data, primary, backup, onBackup, k + 1, cache, now), Counted(onBackup, 1, 1))
      else
        Run(Returned(CONNECT_ERROR), one, cache, [])
  }

  /** `send_command(command, data)` from the start: the first attempt on the primary. */
  function SendCommandRun(v: Variant, command: string, data: Option<string>, primary: seq<Attempt>, backup: seq<Attempt>,
                          cache: CacheFile, now: int): Run
  {
    Attempts(v, command, data, primary, backup, false, 0, cache, now)
  }

  /** A failure on the node tried, in the cases where `send_command` neither moves on nor answers from the cache. */
  lemma FailureStep(v: Variant, command: string, data: Option<string>, primary: seq<Attempt>, backup: seq<Attempt>,
                    onBackup: bool, k: nat, cache: CacheFile, now: int)
    requires k < MAX_ATTEMPTS
    requires AttemptAt(if onBackup then backup else primary, k) == Unreachable
    requires !(!onBackup && IsRead(command) && k == MAX_ATTEMPTS - 1)
    requires IsRead(command) && k == MAX_ATTEMPTS - 1 ==>
      |Split(command)| >= 2 && !(Lookup(cache, Split(command)[1]).Some? && Lookup(cache, Split(command)[1]).value != "")
    ensures k < MAX_ATTEMPTS - 1 ==>
      Attempts(v, command, data, primary, backup, onBackup, k, cache, now)
      == Plus(Attempts(v, command, data, primary, backup, onBackup, k + 1, cache, now), Counted(onBackup, 1, 1))
    ensures k == MAX_ATTEMPTS - 1 ==>
      Attempts(v, command, data, primary, backup, onBackup, k, cache, now)
      == Run(Returned(CONNECT_ERROR), Counted(onBackup, 1, 0), cache, [])
  {
  }

  /** Counts added in two steps on one node add up. */
  lemma PlusCounted(r: Run, onBackup: bool, a1: nat, d1: nat, a2: nat, d2: nat)
    ensures Plus(Plus(r, Counted(onBackup, a1, d1)), Counted(onBackup, a2, d2))
            == Plus(r, Counted(onBackup, a1 + a2, d1 + d2))
  {
  }

  // ---------------------------------------------------------------------------
  // The retry loop

  /**
   * `send_command(command, data, use_backup)`: the `for attempt` loop, with
   * the recursive call that moves a READ to the backup.  The cache is the
   * client's cache file, loaded and rewritten by the cache operations.
   */
  method SendCommand(v: Variant, command: string, data: Option<string>, useBackup: bool,
                     primary: seq<Attempt>, backup: seq<Attempt>, store: CacheDisk, now: int)
    returns (outcome: Outcome, tally: Tally, sends: seq<string>)
    modifies store
    ensures var run := Attempts(v, command, data, primary, backup, useBackup, 0, old(store.file), now);
      && outcome == run.outcome && tally == run.tally && sends == run.sends && store.file == run.cache
    decreases if useBackup then 0 else 1, 1
  {
    ghost var cache := store.file;
    ghost var run := Attempts(v, command, data, primary, backup, useBackup, 0, cache, now);
    var attempt, delays := 0, 0;
    while attempt < MAX_ATTEMPTS
      invariant 0 <= attempt <= MAX_ATTEMPTS && delays == (if attempt < MAX_ATTEMPTS then attempt else MAX_ATTEMPTS - 1)
      invariant store.file == cache
      invariant attempt < MAX_ATTEMPTS ==>
        run == Plus(Attempts(v, command, data, primary, backup, useBackup, attempt, cache, now),
                    Counted(useBackup, attempt, delays))
      invariant attempt == MAX_ATTEMPTS ==>
        run == Run(Returned(CONNECT_ERROR), Counted(useBackup, MAX_ATTEMPTS, delays), cache, [])
    {
      var done;
      done, outcome, tally, sends := TryOnce(v, command, data, useBackup, primary, backup, store, now, attempt, delays);
      if done {
        return;
      }
      if attempt < MAX_ATTEMPTS - 1 {
        delays := delays + 1;
      }
      attempt := attempt + 1;
    }
    return Returned(CONNECT_ERROR), Counted(useBackup, MAX_ATTEMPTS, delays), [];
  }

  /**
   * One pass of the `for attempt` loop's body, after `delays` pauses: either
   * `send_command` returns from it (`done`, with the counts so far) or the
   * attempt failed and the loop goes on, the cache untouched.
   */
  method TryOnce(v: Variant, command: string, data: Option<string>, useBackup: bool,
                 primary: seq<Attempt>, backup: seq<Attempt>, store: CacheDisk, now: int, attempt: nat, delays: nat)
    returns (done: bool, outcome: Outcome, tally: Tally, sends: seq<string>)
    requires attempt < MAX_ATTEMPTS
    modifies store
    ensures var sofar := Plus(Attempts(v, command, data, primary, backup, useBackup, attempt, old(store.file), now),
                              Counted(useBackup, attempt, delays));
      && (done ==> outcome == sofar.outcome && tally == sofar.tally && sends == sofar.sends && store.file == sofar.cache)
      && (!done ==> store.file == old(store.file))
      && (!done && attempt < MAX_ATTEMPTS - 1 ==>
            sofar == Plus(Attempts(v, command, data, primary, backup, useBackup, attempt + 1, old(store.file), now),
                          Counted(useBackup, attempt + 1, delays + 1)))
      && (!done && attempt == MAX_ATTEMPTS - 1 ==>
            sofar == Run(Returned(CONNECT_ERROR), Counted(useBackup, MAX_ATTEMPTS, delays), old(store.file), []))
    decreases if useBackup then 0 else 1, 0
  {
    var script := if useBackup then backup else primary;
    var tried := Counted(useBackup, attempt + 1, delays);
    match AttemptAt(script, attempt) {
      case Answered(response, result) =>
        outcome, sends := Answer(v, command, data, response, result, store, now);
        return true, outcome, tried, sends;
      case Broken(message) =>
        return true, Returned("ERROR: " + message), tried, [];
      case Unreachable =>
        var last := attempt == MAX_ATTEMPTS - 1;
        if !useBackup && IsRead(command) && last {
          var t;
          outcome, t, sends := SendCommand(v, command, data, true, primary, backup, store, now);
          return true, outcome, Tally(tried.primary + t.primary, t.backup, tried.delays + t.delays), sends;
        }
        if IsRead(command) && last {
          var words := Split(command);
          if |words| < 2 {
            return true, Raised(INDEX_ERROR), tried, [];
          }
          var cached := Lookup(store.file, words[1]);
          if cached.Some? && cached.value != "" {
            return true, Returned(CACHE_TAG + cached.value), tried, [];
          }
        }
        FailureStep(v, command, data, primary, backup, useBackup, attempt, store.file, now);
        ghost var sofar := Plus(Attempts(v, command, data, primary, backup, useBackup, attempt, store.file, now),
                                Counted(useBackup, attempt, delays));
        if !last {
          ghost var next := Attempts(v, command, data, primary, backup, useBackup, attempt + 1, store.file, now);
          PlusCounted(next, useBackup, 1, 1, attempt, delays);
          assert sofar == Plus(next, Counted(useBackup, attempt + 1, delays + 1));
        } else {
          ghost var failed := Run(Returned(CONNECT_ERROR), Counted(useBackup, 1, 0), store.file, []);
          PlusCounted(failed, useBackup, 1, 0, attempt, delays);
          assert Counted(useBackup, 1 + attempt, 0 + delays) == Counted(useBackup, MAX_ATTEMPTS, delays);
          assert sofar == Run(Returned(CONNECT_ERROR), Counted(useBackup, MAX_ATTEMPTS, delays), store.file, []);
        }
        return false, Returned(CONNECT_ERROR), tried, [];
    }
  }

  /** The body of the `try` once a node has answered: framing, then the cache updates. */
  method Answer(v: Variant, command: string, data: Option<string>, response: string, result: string,
                store: CacheDisk, now: int)
    returns (outcome: Outcome, sends: seq<string>)
    modifies store
    ensures (outcome, store.file, sends) == Exchange(v, command, data, response, result, old(store.file), now)
  {
    var ready := Framed(v, command) && response == Server.READY;
    if ready && data.None? {
      return Returned(NO_BODY_ERROR), [command];
    }
    sends := [command] + (if ready then [data.value, EOF_TEXT] else []);
    var words := Split(command);
    var caches := IsRead(command) && !("ERROR" <= result);
    if caches {
      if |words| < 2 {
        return Returned("ERROR: " + INDEX_ERROR), sends;
      }
      store.Add(words[1], result, now);
    }
    if Invalidates(v, command) {
      if |words| < 2 {
        return Returned("ERROR: " + INDEX_ERROR), sends;
      }
      store.Invalidate(words[1]);
    }
    return Returned(result), sends;
  }

  // ---------------------------------------------------------------------------
  // Properties of a run

  /** The counts of one unfolding of `Attempts`, whatever the answer or the cache holds. */
  lemma TallyStep(v: Variant, command: string, data: Option<string>, primary: seq<Attempt>,
                  backup: seq<Attempt>, onBackup: bool, k: nat, cache: CacheFile, now: int)
    requires k < MAX_ATTEMPTS
    ensures var t := Attempts(v, command, data, primary, backup, onBackup, k, cache, now).tally;
      var down := AttemptAt(if onBackup then backup else primary, k).Unreachable?;
      && (down && !onBackup && IsRead(command) && k == MAX_ATTEMPTS - 1 ==>
            t == Plus(Attempts(v, command, data, primary, backup, true, 0, cache, now), Counted(false, 1, 0)).tally)
      && (down && k < MAX_ATTEMPTS - 1 ==>
            t == Plus(Attempts(v, command, data, primary, backup, onBackup, k + 1, cache, now), Counted(onBackup, 1, 1)).tally)
      && (!down || (k == MAX_ATTEMPTS - 1 && (onBackup || !IsRead(command))) ==> t == Counted(onBackup, 1, 0))
  {
  }

  /**
   * What a run puts on the wire starts with the command line, and only a
   * READ or an invalidating command leaves a different cache file behind.
   */
  lemma {:induction false} RunFootprint(v: Variant, command: string, data: Option<string>, primary: seq<Attempt>,
                                        backup: seq<Attempt>, onBackup: bool, k: nat, cache: CacheFile, now: int)
    requires k < MAX_ATTEMPTS
    ensures var r := Attempts(v, command, data, primary, backup, onBackup, k, cache, now);
      && (r.sends != [] ==> r.sends[0] == command)
      && (r.cache != cache ==> IsRead(command) || Invalidates(v, command))
    decreases if onBackup then 0 else 1, MAX_ATTEMPTS - k
  {
    if AttemptAt(if onBackup then backup else primary, k).Unreachable? {
      if !onBackup && IsRead(command) && k == MAX_ATTEMPTS - 1 {
        RunFootprint(v, command, data, primary, backup, true, 0, cache, now);
      } else if k < MAX_ATTEMPTS - 1 {
        RunFootprint(v, command, data, primary, backup, onBackup, k + 1, cache, now);
      }
    }
  }

  /**
   * The counts of a run on the backup from attempt `k`: at most the
   * remaining attempts, no primary attempt, and a pause between
   * consecutive attempts.
   */
  lemma {:induction false} BackupTally(v: Variant, command: string, data: Option<string>, primary: seq<Attempt>,
                                       backup: seq<Attempt>, k: nat, cache: CacheFile, now: int)
    requires k < MAX_ATTEMPTS
    ensures var t := Attempts(v, command, data, primary, backup, true, k, cache, now).tally;
      t.primary == 0 && 1 <= t.backup <= MAX_ATTEMPTS - k && t.delays == t.backup - 1
    decreases MAX_ATTEMPTS - k
  {
    TallyStep(v, command, data, primary, backup, true, k, cache, now);
    if k < MAX_ATTEMPTS - 1 {
      BackupTally(v, command, data, primary, backup, k + 1, cache, now);
    }
  }

  /**
   * The counts of a run on the primary from attempt `k`: a node is tried at
   * most the remaining times, the backup only for a READ after the
   * primary's last failure, and a pause separates consecutive attempts on
   * one node and nothing else.
   */
  lemma {:induction false} AttemptsTally(v: Variant, command: string, data: Option<string>, primary: seq<Attempt>,
                                         backup: seq<Attempt>, k: nat, cache: CacheFile, now: int)
    requires k < MAX_ATTEMPTS
    ensures var t := Attempts(v, command, data, primary, backup, false, k, cache, now).tally;
      && 1 <= t.primary <= MAX_ATTEMPTS - k && t.backup <= MAX_ATTEMPTS
      && t.delays == t.primary - 1 + (if t.backup > 0 then t.backup - 1 else 0)
      && (t.backup > 0 ==> IsRead(command) && t.primary == MAX_ATTEMPTS - k)
      && (t.backup > 0 ==> forall j | k <= j < MAX_ATTEMPTS :: AttemptAt(primary, j) == Unreachable)
    decreases MAX_ATTEMPTS - k
  {
    TallyStep(v, command, data, primary, backup, false, k, cache, now);
    BackupTally(v, command, data, primary, backup, 0, cache, now);
    if k < MAX_ATTEMPTS - 1 {
      AttemptsTally(v, command, data, primary, backup, k + 1, cache, now);
    }
    var t := Attempts(v, command, data, primary, backup, false, k, cache, now).tally;
    if t.backup > 0 {
      assert AttemptAt(primary, k) == Unreachable;
      assert forall j | k <= j < MAX_ATTEMPTS :: AttemptAt(primary, j) == Unreachable by {
        if k < MAX_ATTEMPTS - 1 {
          assert Attempts(v, command, data, primary, backup, false, k + 1, cache, now).tally.backup == t.backup;
        }
      }
    }
  }

  /** At most three attempts per node and six in all; no pause after the last attempt on a node. */
  lemma SendCommandTally(v: Variant, command: string, data: Option<string>, primary: seq<Attempt>,
                         backup: seq<Attempt>, cache: CacheFile, now: int)
    ensures var t := SendCommandRun(v, command, data, primary, backup, cache, now).tally;
      && 1 <= t.primary <= MAX_ATTEMPTS && t.backup <= MAX_ATTEMPTS && t.primary + t.backup <= 2 * MAX_ATTEMPTS
      && t.delays == t.primary - 1 + (if t.backup > 0 then t.backup - 1 else 0)
      && (t.backup > 0 ==> IsRead(command) && t.primary == MAX_ATTEMPTS)
      && (t.backup > 0 ==> forall j | 0 <= j < MAX_ATTEMPTS :: AttemptAt(primary, j) == Unreachable)
  {
    AttemptsTally(v, command, data, primary, backup, 0, cache, now);
  }

  /** A command other than READ that never reaches the primary ends with the connect error, the cache untouched. */
  lemma NonReadGivesUp(v: Variant, command: string, data: Option<string>, primary: seq<Attempt>,
                       backup: seq<Attempt>, cache: CacheFile, now: int)
    requires !IsRead(command)
    requires forall k | 0 <= k < MAX_ATTEMPTS :: AttemptAt(primary, k) == Unreachable
    ensures SendCommandRun(v, command, data, primary, backup, cache, now)
      == Run(Returned(CONNECT_ERROR), Tally(MAX_ATTEMPTS, 0, MAX_ATTEMPTS - 1), cache, [])
  {
    FailureStep(v, command, data, primary, backup, false, 0, cache, now);
    FailureStep(v, command, data, primary, backup, false, 1, cache, now);
    FailureStep(v, command, data, primary, backup, false, 2, cache, now);
  }

  /** The backup's part of a READ it never answers: three attempts, two pauses, then the cache or the error. */
  lemma BackupExhausted(v: Variant, command: string, data: Option<string>, primary: seq<Attempt>,
                        backup: seq<Attempt>, cache: CacheFile, now: int)
    requires IsRead(command)
    requires forall k | 0 <= k < MAX_ATTEMPTS :: AttemptAt(backup, k) == Unreachable
    ensures var r := Attempts(v, command, data, primary, backup, true, 0, cache, now);
      && r.tally == Tally(0, MAX_ATTEMPTS, MAX_ATTEMPTS - 1) && r.cache == cache
      && r.outcome == Attempts(v, command, data, primary, backup, true, MAX_ATTEMPTS - 1, cache, now).outcome
  {
    var last := Attempts(v, command, data, primary, backup, true, MAX_ATTEMPTS - 1, cache, now);
    assert last.tally == Tally(0, 1, 0) && last.cache == cache;
    FailureStep(v, command, data, primary, backup, true, 0, cache, now);
    FailureStep(v, command, data, primary, backup, true, 1, cache, now);
  }

  /** The third failure on the backup ends a READ: raised on a one-word command, else the cache or the error. */
  lemma BackupLastAttempt(v: Variant, command: string, data: Option<string>, primary: seq<Attempt>,
                          backup: seq<Attempt>, cache: CacheFile, now: int)
    requires IsRead(command)
    requires AttemptAt(backup, MAX_ATTEMPTS - 1) == Unreachable
    ensures var r := Attempts(v, command, data, primary, backup, true, MAX_ATTEMPTS - 1, cache, now);
      var words := Split(command);
      && r.tally == Tally(0, 1, 0) && r.cache == cache
      && r.outcome == (if |words| < 2 then Raised(INDEX_ERROR)
                       else if Lookup(cache, words[1]).Some? && Lookup(cache, words[1]).value != "" then
                         Returned(CACHE_TAG + Lookup(cache, words[1]).value)
                       else Returned(CONNECT_ERROR))
  {
  }

  /** The primary's part of a READ it never answers: three attempts, two pauses, then the backup's run. */
  lemma PrimaryExhausted(v: Variant, command: string, data: Option<string>, primary: seq<Attempt>,
                         backup: seq<Attempt>, cache: CacheFile, now: int)
    requires IsRead(command)
    requires forall k | 0 <= k < MAX_ATTEMPTS :: AttemptAt(primary, k) == Unreachable
    ensures SendCommandRun(v, command, data, primary, backup, cache, now)
      == Plus(Attempts(v, command, data, primary, backup, true, 0, cache, now), Tally(MAX_ATTEMPTS, 0, MAX_ATTEMPTS - 1))
  {
    FailureStep(v, command, data, primary, backup, false, 0, cache, now);
    FailureStep(v, command, data, primary, backup, false, 1, cache, now);
  }

  /**
   * A READ that reaches neither node: three attempts on each, then the
   * cached content under the `[FROM CACHE]` tag when the entry is non-empty,
   * else the connect error.  The cache is not changed.
   */
  lemma ReadFallback(v: Variant, command: string, data: Option<string>, primary: seq<Attempt>,
                     backup: seq<Attempt>, cache: CacheFile, now: int)
    requires IsRead(command) && |Split(command)| >= 2
    requires forall k | 0 <= k < MAX_ATTEMPTS :: AttemptAt(primary, k) == Unreachable && AttemptAt(backup, k) == Unreachable
    ensures var r := SendCommandRun(v, command, data, primary, backup, cache, now);
      var hit := Lookup(cache, Split(command)[1]);
      && r.tally == Tally(MAX_ATTEMPTS, MAX_ATTEMPTS, 2 * (MAX_ATTEMPTS - 1)) && r.cache == cache
      && r.outcome == (if hit.Some? && hit.value != "" then Returned(CACHE_TAG + hit.value) else Returned(CONNECT_ERROR))
  {
    PrimaryExhausted(v, command, data, primary, backup, cache, now);
    BackupExhausted(v, command, data, primary, backup, cache, now);
    BackupLastAttempt(v, command, data, primary, backup, cache, now);
  }

  /** A one-word READ that reaches neither node raises `IndexError` out of `send_command`. */
  lemma OneWordReadRaises(v: Variant, command: string, data: Option<string>, primary: seq<Attempt>,
                          backup: seq<Attempt>, cache: CacheFile, now: int)
    requires IsRead(command) && |Split(command)| < 2
    requires forall k | 0 <= k < MAX_ATTEMPTS :: AttemptAt(primary, k) == Unreachable && AttemptAt(backup, k) == Unreachable
    ensures var r := SendCommandRun(v, command, data, primary, backup, cache, now);
      r.outcome == Raised(INDEX_ERROR) && r.tally == Tally(MAX_ATTEMPTS, MAX_ATTEMPTS, 2 * (MAX_ATTEMPTS - 1))
  {
    PrimaryExhausted(v, command, data, primary, backup, cache, now);
    BackupExhausted(v, command, data, primary, backup, cache, now);
    BackupLastAttempt(v, command, data, primary, backup, cache, now);
    var onBackup := Attempts(v, command, data, primary, backup, true, 0, cache, now);
    assert onBackup.outcome == Raised(INDEX_ERROR);
    assert SendCommandRun(v, command, data, primary, backup, cache, now) == Plus(onBackup, Tally(MAX_ATTEMPTS, 0, MAX_ATTEMPTS - 1));
  }

  /** The first attempt that reaches the primary decides the run: its exchange, after `k` failures and `k` pauses. */
  lemma FirstAnswerWins(v: Variant, command: string, data: Option<string>, primary: seq<Attempt>,
                        backup: seq<Attempt>, cache: CacheFile, now: int, k: nat)
    requires k < MAX_ATTEMPTS
    requires forall j | 0 <= j < k :: AttemptAt(primary, j) == Unreachable
    requires AttemptAt(primary, k).Answered?
    ensures var r := SendCommandRun(v, command, data, primary, backup, cache, now);
      var a := AttemptAt(primary, k);
      && r.tally == Tally(k + 1, 0, k)
      && (r.outcome, r.cache, r.sends) == Exchange(v, command, data, a.response, a.result, cache, now)
  {
    if k > 0 {
      FailureStep(v, command, data, primary, backup, false, 0, cache, now);
    }
    if k > 1 {
      FailureStep(v, command, data, primary, backup, false, 1, cache, now);
    }
  }

  /** A READ the primary never answered is decided by the first attempt that reaches the backup. */
  lemma BackupAnswerWins(v: Variant, command: string, data: Option<string>, primary: seq<Attempt>,
                         backup: seq<Attempt>, cache: CacheFile, now: int, k: nat)
    requires IsRead(command) && k < MAX_ATTEMPTS
    requires forall j | 0 <= j < MAX_ATTEMPTS :: AttemptAt(primary, j) == Unreachable
    requires forall j | 0 <= j < k :: AttemptAt(backup, j) == Unreachable
    requires AttemptAt(backup, k).Answered?
    ensures var r := SendCommandRun(v, command, data, primary, backup, cache, now);
      var a := AttemptAt(backup, k);
      && r.tally == Tally(MAX_ATTEMPTS, k + 1, MAX_ATTEMPTS - 1 + k)
      && (r.outcome, r.cache, r.sends) == Exchange(v, command, data, a.response, a.result, cache, now)
  {
    PrimaryExhausted(v, command, data, primary, backup, cache, now);
    BackupReaches(v, command, data, primary, backup, cache, now, 0, k);
    var here := Attempts(v, command, data, primary, backup, true, k, cache, now);
    var a := AttemptAt(backup, k);
    assert here.tally == Tally(0, 1, 0);
    assert (here.outcome, here.cache, here.sends) == Exchange(v, command, data, a.response, a.result, cache, now);
  }

  /** On the backup, failed attempts `j` to `k - 1` only add their counts to the run from attempt `k`. */
  lemma {:induction false} BackupReaches(v: Variant, command: string, data: Option<string>, primary: seq<Attempt>,
                                         backup: seq<Attempt>, cache: CacheFile, now: int, j: nat, k: nat)
    requires j <= k < MAX_ATTEMPTS
    requires forall i | j <= i < k :: AttemptAt(backup, i) == Unreachable
    ensures Attempts(v, command, data, primary, backup, true, j, cache, now)
      == Plus(Attempts(v, command, data, primary, backup, true, k, cache, now), Counted(true, k - j, k - j))
    decreases k - j
  {
    var target := Attempts(v, command, data, primary, backup, true, k, cache, now);
    if j == k {
      assert Plus(target, Counted(true, 0, 0)) == target;
    } else {
      FailureStep(v, command, data, primary, backup, true, j, cache, now);
      BackupReaches(v, command, data, primary, backup, cache, now, j + 1, k);
      PlusCounted(target, true, k - j - 1, k - j - 1, 1, 1);
    }
  }

  // ---------------------------------------------------------------------------
  // Properties of one exchange

  /** A READ line is neither framed nor invalidating. */
  lemma ReadIsPlain(v: Variant, command: string)
    requires IsRead(command)
    ensures !Framed(v, command) && !Invalidates(v, command)
  {
    assert command[0] == 'R';
  }

  /** A READ answered without `ERROR` is cached under its file name, and only that entry changes. */
  lemma ReadResultCached(v: Variant, command: string, data: Option<string>, response: string, result: string,
                         cache: CacheFile, now: int, other: string)
    requires IsRead(command) && !("ERROR" <= result) && |Split(command)| >= 2
    requires other != Split(command)[1]
    ensures var (outcome, updated, sends) := Exchange(v, command, data, response, result, cache, now);
      && outcome == Returned(result) && sends == [command]
      && Lookup(updated, Split(command)[1]) == Some(result)
      && Lookup(updated, other) == Lookup(cache, other)
  {
    ReadIsPlain(v, command);
  }

  /** A READ answered with an error text returns it and leaves the cache alone. */
  lemma ReadErrorNotCached(v: Variant, command: string, data: Option<string>, response: string, result: string,
                           cache: CacheFile, now: int)
    requires IsRead(command) && "ERROR" <= result
    ensures Exchange(v, command, data, response, result, cache, now) == (Returned(result), cache, [command])
  {
    ReadIsPlain(v, command);
    assert [command] + [] == [command];
  }

  /** A successful invalidating exchange drops the file's entry and keeps every other one. */
  lemma InvalidatingDropsEntry(v: Variant, command: string, data: Option<string>, response: string, result: string,
                               cache: CacheFile, now: int, other: string)
    requires Invalidates(v, command) && |Split(command)| >= 2
    requires !(Framed(v, command) && response == Server.READY && data.None?)
    requires other != Split(command)[1]
    ensures var (outcome, updated, _) := Exchange(v, command, data, response, result, cache, now);
      && outcome == Returned(result)
      && Lookup(updated, Split(command)[1]) == None
      && Lookup(updated, other) == Lookup(cache, other)
  {
    if IsRead(command) {
      ReadIsPlain(v, command);
    }
  }

  /** The remote client leaves the cache alone for everything but READ and WRITE: a DELETE keeps a stale entry. */
  lemma RemoteKeepsEntry(command: string, data: Option<string>, response: string, result: string,
                         cache: CacheFile, now: int)
    requires !IsRead(command) && !("WRITE" <= command)
    ensures var (outcome, updated, sends) := Exchange(RemoteClient, command, data, response, result, cache, now);
      outcome == Returned(result) && updated == cache && sends == [command]
  {
  }

  /** The body and the end marker go out only for a framed command the node answered `READY`. */
  lemma FramedSends(v: Variant, command: string, data: Option<string>, response: string, result: string,
                    cache: CacheFile, now: int)
    ensures var sends := Exchange(v, command, data, response, result, cache, now).2;
      && (Framed(v, command) && response == Server.READY && data.Some? ==> sends == [command, data.value, EOF_TEXT])
      && (!(Framed(v, command) && response == Server.READY) ==> sends == [command])
  {
  }
}
