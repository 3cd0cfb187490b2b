/** The redirect read-cache (backend/link_cache.py): what its two locked sections and its
    eviction do, and the object that does it in place. */
module RedirectCache {
  import opened Common
  import opened Links

  const TTL_SECONDS: real := 300.0

  datatype CacheEntry = CacheEntry(snapshot: Snapshot, insertedAt: real)

  type Cache = map<string, CacheEntry>

  /** What the cache shows for a token: an entry is invisible once its TTL is up. */
  function Live(c: Cache, token: string, timer: real): Option<Snapshot> {
    if token in c && timer < c[token].insertedAt + TTL_SECONDS then Some(c[token].snapshot) else None
  }

  /** The second locked section: insert, or adopt what another thread inserted meanwhile. */
  function InsertOrAdopt(c: Cache, token: string, s: Snapshot, timer: real): (Cache, Snapshot) {
    var live := Live(c, token, timer);
    if live.Some? then (c, live.value) else (c[token := CacheEntry(s, timer)], s)
  }

  /** The whole of `get_or_load`, with `loaded` what the loader finds (None: no such link). */
  function CachedGetOrLoad(c: Cache, token: string, loaded: Option<Snapshot>, lookupAt: real, insertAt: real):
    (Cache, Option<Snapshot>)
  {
    var hit := Live(c, token, lookupAt);
    if hit.Some? then (c, hit)
    else if loaded.None? then (c, None)
    else
      var (c', s) := InsertOrAdopt(c, token, loaded.value, insertAt);
      (c', Some(s))
  }

  /** What a load inserted is what every lookup sees for exactly the next 300 seconds, whatever
      the loader would find then; after that the loader decides again. */
  lemma SeenForTtl(c: Cache, token: string, loaded: Snapshot, insertAt: real, now: Option<Snapshot>, t: real, t': real)
    requires Live(c, token, insertAt).None? && insertAt <= t <= t'
    ensures var (c', first) := CachedGetOrLoad(c, token, Some(loaded), insertAt, insertAt);
      var (c'', later) := CachedGetOrLoad(c', token, now, t, t');
      first == Some(loaded) &&
      (t < insertAt + 300.0 ==> later == Some(loaded) && c'' == c') &&
      (t >= insertAt + 300.0 ==> later == now)
  {
  }

  /** Between a load and its insert another thread may have filled the entry; that one wins. */
  lemma AdoptsLiveEntry(c: Cache, token: string, loaded: Snapshot, insertAt: real)
    requires token in c && insertAt < c[token].insertedAt + 300.0
    ensures InsertOrAdopt(c, token, loaded, insertAt) == (c, c[token].snapshot)
  {
  }

  /** An operation on one token leaves every other entry as it is. */
  lemma OneTokenOnly(c: Cache, token: string, other: string, loaded: Option<Snapshot>, t: real, t': real)
    requires other != token
    ensures var c' := CachedGetOrLoad(c, token, loaded, t, t').0;
      (other in c' <==> other in c) && (other in c ==> c'[other] == c[other])
  {
  }

  class LinkCache {
    var cache: Cache

    constructor ()
      ensures cache == map[]
    {
      cache := map[];
    }

    method Lookup(token: string, timer: real) returns (hit: Option<Snapshot>)
      ensures hit == Live(cache, token, timer)
    {
      hit := None;
      if token in cache && timer < cache[token].insertedAt + TTL_SECONDS {
        hit := Some(cache[token].snapshot);
      }
    }

    method Insert(token: string, snapshot: Snapshot, timer: real) returns (result: Snapshot)
      modifies this
      ensures (cache, result) == InsertOrAdopt(old(cache), token, snapshot, timer)
    {
      var present := Lookup(token, timer);
      if present.None? {
        cache := cache[token := CacheEntry(snapshot, timer)];
        result := snapshot;
      } else {
        result := present.value;
      }
    }

    method GetOrLoad(token: string, loaded: Option<Snapshot>, lookupAt: real, insertAt: real)
        returns (result: Option<Snapshot>)
      modifies this
      ensures (cache, result) == CachedGetOrLoad(old(cache), token, loaded, lookupAt, insertAt)
    {
      result := Lookup(token, lookupAt);
      if result.None? && loaded.Some? {
        var s := Insert(token, loaded.value, insertAt);
        result := Some(s);
      }
    }

    method Evict(token: string)
      modifies this
      ensures cache == old(cache) - {token}
    {
      if token in cache {
        cache := cache - {token};
      }
    }

    /** Capacity eviction, or the lazy removal of expired entries: the environment's choice. */
    method Drop(tokens: set<string>)
      modifies this
      ensures cache == old(cache) - tokens
    {
      cache := cache - tokens;
    }
  }
}
