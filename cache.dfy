/**
 * The client's file cache (Client/client.py and Client/client_remote.py
 * carry identical copies): a JSON file that maps a file name to the content
 * last read and the time it was read.  Every operation loads the whole file,
 * and the two that change it write the whole dictionary back.
 */
module Cache {
  import opened Wrappers

  /** One cached file: its content and when it was stored (`time.time()`, passed in). */
  datatype Entry = Entry(content: string, timestamp: int)

  /** The cache file on disk: absent, not parseable as JSON, or a dictionary of entries. */
  datatype CacheFile = Missing | Corrupt | Stored(entries: map<string, Entry>)

  /** `load_cache`: the stored dictionary, or an empty one when the file is missing or unreadable. */
  function Load(file: CacheFile): (cache: map<string, Entry>)
    ensures file.Stored? ==> cache == file.entries
    ensures !file.Stored? ==> cache == map[]
  {
    match file
    case Stored(entries) => entries
    case _ => map[]
  }

  /** `get_from_cache`: the cached content of `name`, if there is an entry for it. */
  function Lookup(file: CacheFile, name: string): (r: Option<string>)
    ensures r.Some? <==> name in Load(file)
  {
    var cache := Load(file);
    if name in cache then Some(cache[name].content) else None
  }

  /** The file after `add_to_cache(name, content)` at time `now`: always rewritten. */
  function Added(file: CacheFile, name: string, content: string, now: int): (r: CacheFile)
    ensures r.Stored? && r.entries.Keys == Load(file).Keys + {name}
  {
    Stored(Load(file)[name := Entry(content, now)])
  }

  /** The file after `invalidate_cache(name)`: rewritten without `name`, or untouched when there is no entry. */
  function Invalidated(file: CacheFile, name: string): (r: CacheFile)
    ensures name in Load(file) ==> r.Stored? && r.entries.Keys == Load(file).Keys - {name}
  {
    var cache := Load(file);
    if name in cache then Stored(cache - {name}) else file
  }

  /** A missing or corrupt file reads as an empty cache: every lookup misses. */
  lemma LookupUnreadable(file: CacheFile, name: string)
    requires !file.Stored?
    ensures Lookup(file, name) == None
  {
  }

  /** After an add, a lookup of that name gives the added content. */
  lemma LookupAdded(file: CacheFile, name: string, content: string, now: int)
    ensures Lookup(Added(file, name, content, now), name) == Some(content)
  {
  }

  /** An add leaves every other entry as it was. */
  lemma AddedKeepsOthers(file: CacheFile, name: string, content: string, now: int, other: string)
    requires other != name
    ensures Lookup(Added(file, name, content, now), other) == Lookup(file, other)
    ensures other in Load(file) ==> Load(Added(file, name, content, now))[other] == Load(file)[other]
  {
  }

  /** After an invalidate, the name is gone and every other entry is as it was. */
  lemma InvalidatedRemovesOnly(file: CacheFile, name: string, other: string)
    requires other != name
    ensures Lookup(Invalidated(file, name), name) == None
    ensures Lookup(Invalidated(file, name), other) == Lookup(file, other)
  {
  }

  /** Invalidating a name with no entry leaves the file exactly as it was, corrupt or not: it is not rewritten. */
  lemma InvalidateAbsent(file: CacheFile, name: string)
    requires Lookup(file, name) == None
    ensures Invalidated(file, name) == file
  {
  }

  /** The last add of a name wins: adding twice is adding once with the later content. */
  lemma AddedTwice(file: CacheFile, name: string, c1: string, t1: int, c2: string, t2: int)
    ensures Added(Added(file, name, c1, t1), name, c2, t2) == Added(file, name, c2, t2)
  {
  }

  /** The cache file of one client, which `add_to_cache` and `invalidate_cache` rewrite in place. */
  class CacheDisk {
    var file: CacheFile

    constructor (initial: CacheFile)
      ensures file == initial
    {
      file := initial;
    }

    /** `add_to_cache`: load, set the entry, write the whole dictionary back. */
    method Add(name: string, content: string, now: int)
      modifies this
      ensures file == Added(old(file), name, content, now)
    {
      var cache := Load(file);
      cache := cache[name := Entry(content, now)];
      file := Stored(cache);
    }

    /** `invalidate_cache`: load, and only if the name has an entry, delete it and write back. */
    method Invalidate(name: string)
      modifies this
      ensures file == Invalidated(old(file), name)
    {
      var cache := Load(file);
      if name in cache {
        cache := cache - {name};
        file := Stored(cache);
      }
    }
  }
}
