/** The decision logic of `main` that reconciles the requested passage, the
    `--no-cache` and `--refresh-cache` switches and the state of the single
    cache slot into one plan: which cache and network operations happen, in
    which order, and which verse comes out. The network exchange and the
    cache file's contents are inputs; the operations are recorded as a
    trace. */
module Resolver {
  import opened Outcomes
  import opened FetchVerse
  import opened Passage

  /** A quarter of a day, in seconds: the cache's time to live. */
  const CacheExpireTime: int := 21600

  /** The query value sent when no passage was requested. */
  const VotdQuery: string := "votd"

  /** The switches and words of the command line that steer the plan. */
  datatype Options = Options(words: seq<string>, noCache: bool, refreshCache: bool)

  /** What the cache slot looks like at start-up: whether a cache directory
      could be determined, the file's age in whole seconds (now minus last
      modification; negative when the clock went backwards) and whether its
      bytes decode to a verse. */
  datatype CacheSlot = CacheSlot(located: bool, age: int, decoded: Option<Verse>)

  /** The observable operations: the notice printed when no cache directory
      exists, opening (and creating) the cache file, reading and decoding
      it, one request to the service, writing a verse back. */
  datatype Event =
    | CachePathNotice
    | OpenCache
    | ReadCache
    | FetchRemote(query: string)
    | WriteCache(verse: Verse)

  datatype Outcome = Outcome(trace: seq<Event>, result: Result<Verse, FetchError>)

  /** The queries sent to the service, in order. */
  function Fetches(t: seq<Event>): seq<string>
    decreases |t|
  {
    if |t| == 0 then []
    else (if t[0].FetchRemote? then [t[0].query] else []) + Fetches(t[1..])
  }

  /** The verses written to the cache, in order. */
  function Writes(t: seq<Event>): seq<Verse>
    decreases |t|
  {
    if |t| == 0 then []
    else (if t[0].WriteCache? then [t[0].verse] else []) + Writes(t[1..])
  }

  /** How often the cache is read. */
  function Reads(t: seq<Event>): nat
    decreases |t|
  {
    if |t| == 0 then 0 else (if t[0].ReadCache? then 1 else 0) + Reads(t[1..])
  }

  /** Whether the trace opens, reads or writes the cache file. */
  predicate TouchesCache(t: seq<Event>)
  {
    exists i :: 0 <= i < |t| && (t[i].OpenCache? || t[i].ReadCache? || t[i].WriteCache?)
  }

  /** A concatenated trace touches the cache when either part does. */
  lemma TouchesAppend(a: seq<Event>, b: seq<Event>)
    ensures TouchesCache(a + b) <==> TouchesCache(a) || TouchesCache(b)
  {
    if TouchesCache(a + b) {
      var i :| 0 <= i < |a + b| && ((a + b)[i].OpenCache? || (a + b)[i].ReadCache? || (a + b)[i].WriteCache?);
      if i >= |a| {
        assert b[i - |a|] == (a + b)[i];
      }
    }
    if TouchesCache(b) {
      var j :| 0 <= j < |b| && (b[j].OpenCache? || b[j].ReadCache? || b[j].WriteCache?);
      assert (a + b)[|a| + j] == b[j];
    }
    if TouchesCache(a) {
      var j :| 0 <= j < |a| && (a[j].OpenCache? || a[j].ReadCache? || a[j].WriteCache?);
      assert (a + b)[j] == a[j];
    }
  }

  /** The three counts distribute over concatenated traces. */
  lemma {:induction false} CountsAppend(a: seq<Event>, b: seq<Event>)
    ensures Fetches(a + b) == Fetches(a) + Fetches(b)
    ensures Writes(a + b) == Writes(a) + Writes(b)
    ensures Reads(a + b) == Reads(a) + Reads(b)
    decreases |a|
  {
    if |a| > 0 {
      assert (a + b)[1..] == a[1..] + b;
      CountsAppend(a[1..], b);
    } else {
      assert a + b == b;
    }
  }

  lemma CountsSingle(e: Event)
    ensures Fetches([e]) == if e.FetchRemote? then [e.query] else []
    ensures Writes([e]) == if e.WriteCache? then [e.verse] else []
    ensures Reads([e]) == if e.ReadCache? then 1 else 0
  {
    assert [e][1..] == [];
  }

  /** Lines 131-151: the cache file is opened only on the verse-of-the-day
      path with caching enabled and a known cache directory; `Some(usable)`
      then says whether it is recent enough (inclusive bound) and not
      overridden by `--refresh-cache`. */
  function OpenedCache(requested: Option<string>, opts: Options, slot: CacheSlot): Option<bool>
  {
    if requested.None? && !opts.noCache && slot.located then
      Some(slot.age <= CacheExpireTime && !opts.refreshCache)
    else None
  }

  /** Lines 163-168 and 192-195: after the operations in `prefix`, send
      one request for `query`, answered by `r`; on success write the verse
      back when `store` holds. A failed request ends the run before any
      write. */
  function FetchAndStore(prefix: seq<Event>, query: string, r: Result<Verse, FetchError>, store: bool): (o: Outcome)
    requires Fetches(prefix) == [] && Writes(prefix) == []
    ensures Fetches(o.trace) == [query]
    ensures Reads(o.trace) == Reads(prefix)
    ensures o.result == r
    ensures Writes(o.trace) == if store && r.Success? then [r.value] else []
    ensures o.trace == prefix + [FetchRemote(query)] + (if store && r.Success? then [WriteCache(r.value)] else [])
    ensures TouchesCache(o.trace) <==> TouchesCache(prefix) || (store && r.Success?)
  {
    var fetching := prefix + [FetchRemote(query)];
    CountsSingle(FetchRemote(query));
    CountsAppend(prefix, [FetchRemote(query)]);
    TouchesAppend(prefix, [FetchRemote(query)]);
    if r.Failure? || !store then
      assert fetching == fetching + [];
      Outcome(fetching, r)
    else
      var writing := [WriteCache(r.value)];
      CountsSingle(WriteCache(r.value));
      CountsAppend(fetching, writing);
      TouchesAppend(fetching, writing);
      assert writing[0].WriteCache?;
      Outcome(fetching + writing, r)
  }

  /** The operations before any read or request: opening the cache file, or
      the notice that no cache directory exists. */
  function Opening(requested: Option<string>, opts: Options, slot: CacheSlot): (t: seq<Event>)
    ensures Fetches(t) == [] && Writes(t) == [] && Reads(t) == 0
    ensures TouchesCache(t) <==> OpenedCache(requested, opts, slot).Some?
  {
    CountsSingle(OpenCache);
    CountsSingle(CachePathNotice);
    if requested.Some? || opts.noCache then []
    else if slot.located then [OpenCache]
    else [CachePathNotice]
  }

  /** Lines 123-168 and 192-195: resolve the verse to show. A usable cache
      that decodes is returned as is; every other path sends exactly one
      request and, on the verse-of-the-day path with an opened cache, writes
      the fetched verse back. */
  function Resolve(opts: Options, slot: CacheSlot, remote: Remote): (o: Outcome)
    ensures |Fetches(o.trace)| <= 1 && |Writes(o.trace)| <= 1 && Reads(o.trace) <= 1
    ensures Fetches(o.trace) == [] <==> o.result.Success? && Reads(o.trace) == 1 && Writes(o.trace) == []
    ensures Fetches(o.trace) == [] ==> Some(o.result.value) == slot.decoded
    ensures Fetches(o.trace) != [] ==> o.result == Fetch(remote(Fetches(o.trace)[0]))
    ensures Writes(o.trace) != [] ==>
              && Requested(opts.words).None?
              && Fetches(o.trace) == [VotdQuery]
              && o.result.Success?
              && Writes(o.trace) == [o.result.value]
    ensures TouchesCache(o.trace) <==> Requested(opts.words).None? && !opts.noCache && slot.located
    ensures Reads(o.trace) == 1 <==>
              && Requested(opts.words).None? && !opts.noCache && slot.located
              && slot.age <= CacheExpireTime && !opts.refreshCache
  {
    var requested := Requested(opts.words);
    var cache := OpenedCache(requested, opts, slot);
    var opening := Opening(requested, opts, slot);
    if cache == Some(true) then
      CountsSingle(ReadCache);
      CountsAppend(opening, [ReadCache]);
      TouchesAppend(opening, [ReadCache]);
      if slot.decoded.Some? then Outcome(opening + [ReadCache], Success(slot.decoded.value))
      // A decode failure re-fetches the verse of the day and stores it.
      else FetchAndStore(opening + [ReadCache], VotdQuery, Fetch(remote(VotdQuery)), true)
    else
      // Line 167 asks to write on the verse-of-the-day path with caching
      // enabled; line 192 writes only when the cache file was opened.
      var writeCache := requested.None? && !opts.noCache;
      var query := requested.GetOr(VotdQuery);
      FetchAndStore(opening, query, Fetch(remote(query)), writeCache && cache.Some?)
  }

  /** An explicit passage, or `--no-cache`, never touches the cache: one
      request for the passage (or for the verse of the day) and nothing
      else. */
  lemma UncachedPath(opts: Options, slot: CacheSlot, remote: Remote)
    requires Requested(opts.words).Some? || opts.noCache
    ensures var query := Requested(opts.words).GetOr(VotdQuery);
            var o := Resolve(opts, slot, remote);
            && o.trace == [FetchRemote(query)]
            && o.result == Fetch(remote(query))
            && !TouchesCache(o.trace)
  {
    assert [] + [FetchRemote(Requested(opts.words).GetOr(VotdQuery))] + [] == [FetchRemote(Requested(opts.words).GetOr(VotdQuery))];
  }

  /** On the verse-of-the-day path, a cache at most six hours old that
      decodes, without `--refresh-cache`, is shown as is: no request, no
      write. */
  lemma FreshCacheHit(opts: Options, slot: CacheSlot, remote: Remote)
    requires |opts.words| == 0 && !opts.noCache && !opts.refreshCache
    requires slot.located && slot.age <= CacheExpireTime && slot.decoded.Some?
    ensures Resolve(opts, slot, remote) == Outcome([OpenCache, ReadCache], Success(slot.decoded.value))
  {
  }

  /** On the verse-of-the-day path with an opened cache that is stale, forced
      or undecodable, exactly one `votd` request is sent, and a fetched
      verse is both written back and returned. */
  lemma CacheMiss(opts: Options, slot: CacheSlot, remote: Remote)
    requires |opts.words| == 0 && !opts.noCache && slot.located
    requires slot.age > CacheExpireTime || opts.refreshCache || slot.decoded.None?
    ensures var o := Resolve(opts, slot, remote);
            var read := if slot.age <= CacheExpireTime && !opts.refreshCache then [ReadCache] else [];
            var r := Fetch(remote(VotdQuery));
            && o.result == r
            && o.trace == [OpenCache] + read + [FetchRemote(VotdQuery)]
                          + (if r.Success? then [WriteCache(r.value)] else [])
            && Fetches(o.trace) == [VotdQuery]
            && Writes(o.trace) == (if r.Success? then [r.value] else [])
  {
    var requested := Requested(opts.words);
    assert requested == None;
    assert Opening(requested, opts, slot) == [OpenCache];
    var r := Fetch(remote(VotdQuery));
    var o := Resolve(opts, slot, remote);
    if slot.age <= CacheExpireTime && !opts.refreshCache {
      CountsSingle(OpenCache);
      CountsSingle(ReadCache);
      CountsAppend([OpenCache], [ReadCache]);
      assert OpenedCache(requested, opts, slot) == Some(true);
      assert o == FetchAndStore([OpenCache] + [ReadCache], VotdQuery, r, true);
    } else {
      assert OpenedCache(requested, opts, slot) == Some(false);
      assert o == FetchAndStore([OpenCache], VotdQuery, r, true);
      assert [OpenCache] + [] == [OpenCache];
    }
  }

  /** Without a cache directory the verse of the day is fetched after a
      notice, and nothing is opened or written even though the write-back
      was requested. */
  lemma NoCacheLocation(opts: Options, slot: CacheSlot, remote: Remote)
    requires |opts.words| == 0 && !opts.noCache && !slot.located
    ensures var o := Resolve(opts, slot, remote);
            && o.trace == [CachePathNotice, FetchRemote(VotdQuery)]
            && o.result == Fetch(remote(VotdQuery))
            && !TouchesCache(o.trace)
  {
  }

  /** The six-hour bound is inclusive: a cache exactly 21600 seconds old is
      still used, one second older is not. */
  lemma FreshnessBoundary(v: Verse, remote: Remote)
    ensures Resolve(Options([], false, false), CacheSlot(true, 21600, Some(v)), remote).trace
            == [OpenCache, ReadCache]
    ensures Resolve(Options([], false, false), CacheSlot(true, 21601, Some(v)), remote).trace[1]
            == FetchRemote(VotdQuery)
  {
    FreshCacheHit(Options([], false, false), CacheSlot(true, 21600, Some(v)), remote);
    CacheMiss(Options([], false, false), CacheSlot(true, 21601, Some(v)), remote);
  }

  /** A seven-hour-old cache is stale: the fresh verse is fetched, written
      back and returned instead of the cached one. */
  lemma StaleCacheExample(cached: Verse, rs: seq<ApiVerse>, remote: Remote)
    requires remote(VotdQuery) == Success(rs) && Merge(rs).Success?
    ensures var o := Resolve(Options([], false, false), CacheSlot(true, 7 * 3600, Some(cached)), remote);
            && o.result == Merge(rs)
            && Fetches(o.trace) == [VotdQuery]
            && Writes(o.trace) == [Merge(rs).value]
  {
    CacheMiss(Options([], false, false), CacheSlot(true, 7 * 3600, Some(cached)), remote);
  }

  /** An empty answer to the verse-of-the-day request fails the run with the
      empty-response error, and nothing is written to the cache. */
  lemma EmptyVotdResponse(opts: Options, slot: CacheSlot, remote: Remote)
    requires |opts.words| == 0 && remote(VotdQuery) == Success([])
    requires !(slot.located && slot.age <= CacheExpireTime && slot.decoded.Some?) || opts.noCache || opts.refreshCache
    ensures Resolve(opts, slot, remote).result == Failure(Empty)
    ensures Writes(Resolve(opts, slot, remote).trace) == []
  {
  }

  /** Asking for the passage `votd` explicitly sends the same query as the
      verse of the day, yet never consults or fills the cache, however fresh
      it is. */
  lemma ExplicitVotdWord(noCache: bool, refreshCache: bool, slot: CacheSlot, remote: Remote)
    ensures Resolve(Options(["votd"], noCache, refreshCache), slot, remote).trace == [FetchRemote(VotdQuery)]
  {
    UncachedPath(Options(["votd"], noCache, refreshCache), slot, remote);
  }
}
