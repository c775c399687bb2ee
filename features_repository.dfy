/** The JavaScript SDK's feature repository: an in-memory cache of feature
    payloads per API host and client key, a table of the fetches in flight
    (so that concurrent callers for the same key share one network request),
    and a copy of the cache in the browser's local storage.

    The asynchronous parts are made explicit: `FetchFeatures` starts a fetch
    (or joins the one in flight) and records who is waiting for it, and
    `SettleFetch` is the moment the network answers and every waiter resumes.
    The clock is the parameter `now` (milliseconds), the network's answer is
    the parameter `response`, the URLs handed to `fetch` are logged in
    `requests`, and local storage is the field `storage`. */
module FeaturesRepository {
  import opened Wrappers
  import opened Assoc
  import opened Json

  /** How long a fetched payload stays fresh: one minute. */
  const CacheTTL: int := 1000 * 60

  /** A cache entry: the payload and the instant after which it is stale. */
  datatype Entry = Entry(data: Json, staleAt: int)

  /** Who awaits a fetch: a `loadFeatures` call that missed the cache, or the
      background refresh a stale hit starts (whose result is discarded). */
  datatype Waiter = Load | Refresh

  /** A fetch in flight: the URL requested and its waiters, in the order they
      started awaiting it. */
  datatype Fetch = Fetch(url: string, waiters: seq<Waiter>)

  /** One persisted record's value after `JSON.parse`: an object (its `data`
      and its `staleAt` converted by `new Date`, `None` for an invalid date),
      or something that is not an object (`null`, a string, a number), on
      which assigning `staleAt` throws. */
  datatype StoredValue = Stored(data: Json, staleAt: Option<int>) | NonObject

  /** What local storage holds under the cache's item: nothing (or the empty
      string), text that does not parse into a list of pairs, or the parsed
      list of `[key, value]` pairs. */
  datatype Slot = Absent | Unreadable | Records(records: seq<(string, StoredValue)>)

  /** What a `loadFeatures` call does right away: it returns a cached payload,
      or it suspends until the key's fetch settles. */
  datatype LoadStep = Served(data: Json) | Awaiting

  // ---------------------------------------------------------------- keys

  /** The cache key for one API host and client key. */
  function RepositoryKey(apiHost: string, clientKey: string): (key: string)
    ensures |key| == |apiHost| + 2 + |clientKey|
    ensures key[|apiHost|..|apiHost| + 2] == "||"
  {
    apiHost + "||" + clientKey
  }

  /** `s.split("||")`: the pieces between non-overlapping occurrences of
      `||`, scanned from the left. */
  function Split(s: string): (parts: seq<string>)
    ensures |parts| >= 1
    decreases |s|
  {
    if |s| < 2 then [s]
    else if s[..2] == "||" then [""] + Split(s[2..])
    else var rest := Split(s[1..]); [[s[0]] + rest[0]] + rest[1..]
  }

  predicate NoSeparator(s: string) {
    forall i :: 0 <= i < |s| - 1 ==> !(s[i] == '|' && s[i + 1] == '|')
  }

  predicate EndsWithBar(s: string) {
    |s| > 0 && s[|s| - 1] == '|'
  }

  /** The URL fetched for a cache key: its host part, then `/api/features/`,
      then its client-key part (`undefined` when the key has no `||`). */
  function FeatureUrl(key: string): (url: string)
    ensures |url| >= |"/api/features/"|
  {
    var parts := Split(key);
    parts[0] + "/api/features/" + (if |parts| > 1 then parts[1] else "undefined")
  }

  /** A string without `||` is one piece. */
  lemma {:induction false} SplitWhole(s: string)
    requires NoSeparator(s)
    ensures Split(s) == [s]
    decreases |s|
  {
    if |s| >= 2 {
      assert s[..2] != "||" by { assert !(s[0] == '|' && s[1] == '|'); }
      SplitWhole(s[1..]);
      assert [s[0]] + s[1..] == s;
    }
  }

  /** Splitting a key recovers its host and client key, provided neither
      contains `||` and the host does not end with `|`. */
  lemma {:induction false} SplitKey(apiHost: string, clientKey: string)
    requires NoSeparator(apiHost) && NoSeparator(clientKey) && !EndsWithBar(apiHost)
    ensures Split(RepositoryKey(apiHost, clientKey)) == [apiHost, clientKey]
    decreases |apiHost|
  {
    var s := RepositoryKey(apiHost, clientKey);
    if apiHost == [] {
      assert s[..2] == "||" && s[2..] == clientKey;
      SplitWhole(clientKey);
    } else {
      var tail := apiHost[1..];
      KeyAfterFirst(apiHost, clientKey);
      SplitKey(tail, clientKey);
      assert [s[0]] + tail == apiHost;
    }
  }

  /** A key whose host is not empty does not start with `||`, and past its first
      character it is the key of the rest of the host. */
  lemma KeyAfterFirst(apiHost: string, clientKey: string)
    requires apiHost != [] && NoSeparator(apiHost) && !EndsWithBar(apiHost)
    ensures var s := RepositoryKey(apiHost, clientKey);
      |s| >= 2 && s[..2] != "||" && s[0] == apiHost[0] && s[1..] == RepositoryKey(apiHost[1..], clientKey)
    ensures NoSeparator(apiHost[1..]) && !EndsWithBar(apiHost[1..])
  {
    var s := RepositoryKey(apiHost, clientKey);
    var tail := apiHost[1..];
    assert s[..2] != "||" by {
      if |apiHost| >= 2 {
        assert s[..2] == apiHost[..2];
        assert !(apiHost[0] == '|' && apiHost[1] == '|');
      } else {
        assert s[0] == apiHost[0] == apiHost[|apiHost| - 1];
      }
    }
    assert s[1..] == RepositoryKey(tail, clientKey);
    if |tail| > 0 {
      assert tail[|tail| - 1] == apiHost[|apiHost| - 1];
    }
    forall i | 0 <= i < |tail| - 1 ensures !(tail[i] == '|' && tail[i + 1] == '|') {
      assert tail[i] == apiHost[i + 1] && tail[i + 1] == apiHost[i + 2];
    }
  }

  /** Under the same conditions, the fetched URL is the host, the features
      path and the client key. */
  lemma KeyRoundTrip(apiHost: string, clientKey: string)
    requires NoSeparator(apiHost) && NoSeparator(clientKey) && !EndsWithBar(apiHost)
    ensures FeatureUrl(RepositoryKey(apiHost, clientKey)) == apiHost + "/api/features/" + clientKey
  {
    SplitKey(apiHost, clientKey);
  }

  /** A host ending in `|` breaks the round trip: it shares its key, hence
      its cache entry, its fetch and its URL, with the host that lacks the
      final `|` and a client key that gains a leading one. */
  lemma KeysCollide(apiHost: string, clientKey: string)
    requires NoSeparator(apiHost) && !EndsWithBar(apiHost) && NoSeparator("|" + clientKey)
    ensures RepositoryKey(apiHost + "|", clientKey) == RepositoryKey(apiHost, "|" + clientKey)
    ensures Split(RepositoryKey(apiHost + "|", clientKey)) == [apiHost, "|" + clientKey]
    ensures FeatureUrl(RepositoryKey(apiHost + "|", clientKey)) == apiHost + "/api/features/|" + clientKey
  {
    assert RepositoryKey(apiHost + "|", clientKey) == RepositoryKey(apiHost, "|" + clientKey);
    SplitKey(apiHost, "|" + clientKey);
  }

  // ------------------------------------------------------- fetch bookkeeping

  /** The table of fetches after a caller awaits the fetch for `key`: it joins
      the one in flight, or a new one is recorded. */
  function Joined(fetches: map<string, Fetch>, key: string, w: Waiter): (r: map<string, Fetch>)
    ensures r.Keys == fetches.Keys + {key}
    ensures key in fetches ==> r[key] == fetches[key].(waiters := fetches[key].waiters + [w])
    ensures key !in fetches ==> r[key] == Fetch(FeatureUrl(key), [w])
    ensures forall k :: k in fetches && k != key ==> r[k] == fetches[k]
  {
    if key in fetches then fetches[key := fetches[key].(waiters := fetches[key].waiters + [w])]
    else fetches[key := Fetch(FeatureUrl(key), [w])]
  }

  /** The request log after that: a request goes out only when none is in
      flight for the key. */
  function Requested(requests: seq<string>, fetches: map<string, Fetch>, key: string): (r: seq<string>)
    ensures key in fetches ==> r == requests
    ensures key !in fetches ==> r == requests + [FeatureUrl(key)]
  {
    if key in fetches then requests else requests + [FeatureUrl(key)]
  }

  /** Debouncing: however many callers pile onto one key before its fetch
      settles, only the first sends a request. */
  lemma JoiningTwiceRequestsOnce(requests: seq<string>, fetches: map<string, Fetch>, key: string, w1: Waiter, w2: Waiter)
    ensures Requested(Requested(requests, fetches, key), Joined(fetches, key, w1), key)
         == Requested(requests, fetches, key)
    ensures |Requested(requests, fetches, key)| <= |requests| + 1
    ensures Joined(Joined(fetches, key, w1), key, w2)[key].waiters == Joined(fetches, key, w1)[key].waiters + [w2]
  {
  }

  /** Once a fetch has settled, the next caller for that key sends a new request. */
  lemma SettledKeyRequestsAgain(requests: seq<string>, fetches: map<string, Fetch>, key: string)
    ensures Requested(requests, fetches - {key}, key) == requests + [FeatureUrl(key)]
  {
  }

  /** How many waiters are `loadFeatures` calls. */
  function LoadCount(ws: seq<Waiter>): (n: nat)
    ensures n <= |ws|
    decreases |ws|
  {
    if ws == [] then 0
    else LoadCount(ws[..|ws| - 1]) + (if ws[|ws| - 1].Load? then 1 else 0)
  }

  lemma LoadCountPrefix(ws: seq<Waiter>, i: nat)
    requires i < |ws|
    ensures LoadCount(ws[..i + 1]) == LoadCount(ws[..i]) + (if ws[i].Load? then 1 else 0)
  {
    assert ws[..i + 1][..i] == ws[..i];
  }

  /** The fetch succeeded with a truthy payload; a failed fetch (`None`) and a
      falsy payload both reach the callers as `null`. */
  predicate Delivered(response: Option<Json>) {
    response.Some? && Truthy(response.value)
  }

  /** What each resuming `loadFeatures` call returns: the payload, or `null` (`None`). */
  function Resolution(response: Option<Json>): (r: Option<Json>)
    ensures r.Some? <==> Delivered(response)
    ensures r.Some? ==> r == response
  {
    if Delivered(response) then response else None
  }

  /** The cache once a `loadFeatures` call has resumed with `response`: a
      truthy payload is stored under `key`, fresh until one minute from `now`. */
  function AfterLoad(cache: seq<(string, Entry)>, key: string, response: Option<Json>, now: int): (r: seq<(string, Entry)>)
    ensures Delivered(response) ==> Get(r, key) == Some(Entry(response.value, now + CacheTTL))
    ensures forall k :: k != key || !Delivered(response) ==> Get(r, k) == Get(cache, k)
  {
    if Delivered(response) then
      var e := Entry(response.value, now + CacheTTL);
      assert forall k :: Get(Put(cache, key, e), k) == if k == key then Some(e) else Get(cache, k) by {
        forall k { GetPut(cache, key, e, k); }
      }
      Put(cache, key, e)
    else cache
  }

  /** Several `loadFeatures` calls waiting on one fetch leave the same cache as one. */
  lemma AfterLoadIdempotent(cache: seq<(string, Entry)>, key: string, response: Option<Json>, now: int)
    ensures AfterLoad(AfterLoad(cache, key, response, now), key, response, now) == AfterLoad(cache, key, response, now)
  {
    if Delivered(response) {
      PutIdempotent(cache, key, Entry(response.value, now + CacheTTL));
    }
  }

  /** A payload just stored is fresh: a new `loadFeatures` call for the key
      before the minute is up is served from the cache without a refresh. */
  lemma StoredPayloadIsFresh(cache: seq<(string, Entry)>, key: string, response: Option<Json>, now: int, later: int)
    requires Delivered(response) && now <= later <= now + CacheTTL
    ensures Get(AfterLoad(cache, key, response, now), key).Some?
    ensures var e := Get(AfterLoad(cache, key, response, now), key).value;
      e.data == response.value && !(e.staleAt < later)
  {
  }

  // ------------------------------------------------------------ persistence

  /** The records `savePersistentCache` writes: every cache entry, in the
      cache's order, with its expiry. */
  function Persisted(cache: seq<(string, Entry)>): (r: seq<(string, StoredValue)>)
    ensures |r| == |cache|
    ensures forall i :: 0 <= i < |cache| ==>
      r[i] == (cache[i].0, Stored(cache[i].1.data, Some(cache[i].1.staleAt)))
  {
    seq(|cache|, i requires 0 <= i < |cache| => (cache[i].0, Stored(cache[i].1.data, Some(cache[i].1.staleAt))))
  }

  /** Whether a stored value is still fresh at `now`: its date is valid and not yet passed. */
  predicate Fresh(v: StoredValue, now: int) {
    v.Stored? && v.staleAt.Some? && v.staleAt.value >= now
  }

  /** The cache after `loadPersistentCache` walks the restored Map `recs`:
      a fresh record is set, any other object removes its key, and the first
      value that is not an object throws, which ends the walk. */
  function Admitted(cache: seq<(string, Entry)>, recs: seq<(string, StoredValue)>, now: int): seq<(string, Entry)>
    decreases |recs|
  {
    if recs == [] then cache
    else match recs[0].1
      case NonObject => cache
      case Stored(data, staleAt) =>
        var next := if Fresh(recs[0].1, now) then Put(cache, recs[0].0, Entry(data, staleAt.value)) else Remove(cache, recs[0].0);
        Admitted(next, recs[1..], now)
  }

  predicate AllObjects(recs: seq<(string, StoredValue)>) {
    forall i :: 0 <= i < |recs| ==> recs[i].1.Stored?
  }

  /** The entry a record contributes, if it is fresh. */
  function FreshEntry(v: StoredValue, now: int): (r: Option<Entry>)
    ensures r.Some? <==> Fresh(v, now)
    ensures r.Some? ==> r.value.data == v.data && Some(r.value.staleAt) == v.staleAt
  {
    if Fresh(v, now) then Some(Entry(v.data, v.staleAt.value)) else None
  }

  /** Loading admits exactly the fresh records: a key with a record ends up
      holding that record's entry when it is fresh and nothing otherwise; every
      other key keeps what it had. */
  lemma {:induction false} AdmittedGet(cache: seq<(string, Entry)>, recs: seq<(string, StoredValue)>, now: int, k: string)
    requires Distinct(recs) && AllObjects(recs)
    ensures Get(Admitted(cache, recs, now), k)
         == if Get(recs, k).Some? then FreshEntry(Get(recs, k).value, now) else Get(cache, k)
    decreases |recs|
  {
    if recs != [] {
      var k0 := recs[0].0;
      var v0 := recs[0].1;
      var next := if Fresh(v0, now) then Put(cache, k0, Entry(v0.data, v0.staleAt.value)) else Remove(cache, k0);
      assert Admitted(cache, recs, now) == Admitted(next, recs[1..], now);
      assert Keys(recs) == [k0] + Keys(recs[1..]);
      assert AllObjects(recs[1..]) by {
        forall i | 0 <= i < |recs[1..]| ensures recs[1..][i].1.Stored? {
          assert recs[1..][i] == recs[i + 1];
        }
      }
      assert Distinct(recs[1..]) by {
        forall i, j | 0 <= i < j < |recs[1..]| ensures recs[1..][i].0 != recs[1..][j].0 {
          assert recs[1..][i] == recs[i + 1] && recs[1..][j] == recs[j + 1];
        }
      }
      AdmittedGet(next, recs[1..], now, k);
      if Fresh(v0, now) {
        GetPut(cache, k0, Entry(v0.data, v0.staleAt.value), k);
      } else {
        GetRemove(cache, k0, k);
      }
      if k == k0 {
        assert k0 !in Keys(recs[1..]) by {
          forall i | 0 <= i < |recs[1..]| ensures Keys(recs[1..])[i] != k0 {
            assert recs[1..][i] == recs[i + 1];
          }
        }
        GetSome(recs[1..], k0);
      }
    }
  }

  /** A record that is not an object aborts the load: the records before it
      are admitted and none after it. */
  lemma {:induction false} BadRecordAbortsRest(cache: seq<(string, Entry)>, pre: seq<(string, StoredValue)>, k: string, post: seq<(string, StoredValue)>, now: int)
    requires AllObjects(pre)
    ensures Admitted(cache, pre + [(k, NonObject)] + post, now) == Admitted(cache, pre, now)
    decreases |pre|
  {
    var recs := pre + [(k, NonObject)] + post;
    if pre == [] {
      assert recs[0] == (k, NonObject);
    } else {
      assert recs[0] == pre[0];
      assert recs[1..] == pre[1..] + [(k, NonObject)] + post;
      var v0 := pre[0].1;
      var next := if Fresh(v0, now) then Put(cache, pre[0].0, Entry(v0.data, v0.staleAt.value)) else Remove(cache, pre[0].0);
      assert AllObjects(pre[1..]) by {
        forall i | 0 <= i < |pre[1..]| ensures pre[1..][i].1.Stored? {
          assert pre[1..][i] == pre[i + 1];
        }
      }
      BadRecordAbortsRest(next, pre[1..], k, post, now);
    }
  }

  /** The cache entries still fresh at `now`, in order. */
  function FreshEntries(cache: seq<(string, Entry)>, now: int): (r: seq<(string, Entry)>)
    ensures |r| <= |cache|
    decreases |cache|
  {
    if cache == [] then []
    else (if cache[0].1.staleAt >= now then [cache[0]] else []) + FreshEntries(cache[1..], now)
  }

  /** Restoring what was saved, starting from a cache that shares no key with
      it, appends the entries still fresh, in their saved order. */
  lemma {:induction false} AdmitPersisted(acc: seq<(string, Entry)>, cache: seq<(string, Entry)>, now: int)
    requires Distinct(cache)
    requires forall i :: 0 <= i < |cache| ==> cache[i].0 !in Keys(acc)
    ensures Admitted(acc, Persisted(cache), now) == acc + FreshEntries(cache, now)
    decreases |cache|
  {
    if cache == [] {
      assert acc + [] == acc;
    } else {
      var head := if cache[0].1.staleAt >= now then [cache[0]] else [];
      AdmitPersistedHead(acc, cache, now);
      TailDisjoint(acc, cache, head);
      AdmitPersisted(acc + head, cache[1..], now);
      assert acc + (head + FreshEntries(cache[1..], now)) == acc + head + FreshEntries(cache[1..], now);
    }
  }

  /** After the first saved record, the remaining ones still have distinct
      keys that are not yet in the cache. */
  lemma TailDisjoint(acc: seq<(string, Entry)>, cache: seq<(string, Entry)>, head: seq<(string, Entry)>)
    requires Distinct(cache) && cache != []
    requires forall i :: 0 <= i < |cache| ==> cache[i].0 !in Keys(acc)
    requires head == [] || head == [cache[0]]
    ensures Distinct(cache[1..])
    ensures forall i :: 0 <= i < |cache[1..]| ==> cache[1..][i].0 !in Keys(acc + head)
  {
    DistinctTail(cache);
    KeysAppend(acc, head);
    forall i | 0 <= i < |cache[1..]| ensures cache[1..][i].0 !in Keys(acc + head) {
      assert cache[1..][i] == cache[i + 1];
    }
  }

  /** The first saved record of the round trip, in isolation. */
  lemma AdmitPersistedHead(acc: seq<(string, Entry)>, cache: seq<(string, Entry)>, now: int)
    requires cache != [] && cache[0].0 !in Keys(acc)
    ensures Admitted(acc, Persisted(cache), now)
         == Admitted(acc + (if cache[0].1.staleAt >= now then [cache[0]] else []), Persisted(cache[1..]), now)
    ensures FreshEntries(cache, now) == (if cache[0].1.staleAt >= now then [cache[0]] else []) + FreshEntries(cache[1..], now)
  {
    var recs := Persisted(cache);
    var e0 := cache[0].1;
    assert recs[0] == (cache[0].0, Stored(e0.data, Some(e0.staleAt)));
    assert recs[1..] == Persisted(cache[1..]);
    if e0.staleAt >= now {
      assert Put(acc, cache[0].0, Entry(e0.data, e0.staleAt)) == acc + [cache[0]];
    } else {
      RemoveAbsent(acc, cache[0].0);
      assert acc + [] == acc;
    }
  }

  /** Persistence round trip: a fresh page that loads what was saved holds
      exactly the saved entries that are still fresh, in the saved order. */
  lemma PersistRoundTrip(cache: seq<(string, Entry)>, now: int)
    requires Distinct(cache)
    ensures Admitted([], FromPairs(Persisted(cache)), now) == FreshEntries(cache, now)
  {
    var recs := Persisted(cache);
    assert Distinct(recs) by {
      forall i, j | 0 <= i < j < |recs| ensures recs[i].0 != recs[j].0 {
        assert recs[i].0 == cache[i].0 && recs[j].0 == cache[j].0;
      }
    }
    FromDistinctPairs(recs);
    AdmitPersisted([], cache, now);
    assert [] + FreshEntries(cache, now) == FreshEntries(cache, now);
  }

  /** In particular, when nothing has expired the whole cache comes back. */
  lemma {:induction false} FreshEntriesAll(cache: seq<(string, Entry)>, now: int)
    requires forall i :: 0 <= i < |cache| ==> cache[i].1.staleAt >= now
    ensures FreshEntries(cache, now) == cache
    decreases |cache|
  {
    if cache != [] {
      FreshEntriesAll(cache[1..], now);
      assert [cache[0]] + cache[1..] == cache;
    }
  }

  // ------------------------------------------------------------- the repository

  class Repository {
    /** The in-memory cache, a Map from repository key to entry. */
    var cache: seq<(string, Entry)>
    /** The fetches in flight, by repository key. */
    var activeFetches: map<string, Fetch>
    /** The URLs passed to `fetch`, in order. */
    var requests: seq<string>
    /** What local storage holds under the cache's single item,
        `growthbook:cache:features`. */
    var storage: Slot
    /** Whether `globalThis.localStorage` is an object. */
    const storageAvailable: bool

    /** The cache is a Map, and each fetch in flight is for its key's URL,
        which was requested. */
    ghost predicate Valid()
      reads this
    {
      Distinct(cache)
      && forall k :: k in activeFetches ==> activeFetches[k].url == FeatureUrl(k) && FeatureUrl(k) in requests
    }

    /** Module initialisation: an empty cache and no fetches, then the
        persisted cache is loaded. */
    constructor(storageAvailable: bool, storage: Slot, now: int)
      ensures Valid()
      ensures this.storageAvailable == storageAvailable && this.storage == storage
      ensures activeFetches == map[] && requests == []
      ensures cache == if storageAvailable && storage.Records? then Admitted([], FromPairs(storage.records), now) else []
    {
      this.storageAvailable := storageAvailable;
      this.storage := storage;
      cache := [];
      activeFetches := map[];
      requests := [];
      new;
      LoadPersistentCache(now);
    }

    /** `fetchFeatures(key)`: await the key's fetch, starting it when none is
        in flight. At most one fetch per key is ever in flight. */
    method FetchFeatures(key: string, w: Waiter)
      requires Valid()
      modifies this
      ensures Valid()
      ensures activeFetches == Joined(old(activeFetches), key, w)
      ensures requests == Requested(old(requests), old(activeFetches), key)
      ensures cache == old(cache) && storage == old(storage)
    {
      if key in activeFetches {
        var f := activeFetches[key];
        activeFetches := activeFetches[key := f.(waiters := f.waiters + [w])];
      } else {
        var url := FeatureUrl(key);
        requests := requests + [url];
        activeFetches := activeFetches[key := Fetch(url, [w])];
      }
    }

    /** `loadFeatures(apiHost, clientKey)` up to its first suspension. A hit
        returns the cached payload and, when the entry is stale, starts a
        background refresh that leaves the cache alone; a miss awaits the
        key's fetch. */
    method LoadFeatures(apiHost: string, clientKey: string, now: int) returns (r: LoadStep)
      requires Valid()
      modifies this
      ensures Valid()
      ensures cache == old(cache) && storage == old(storage)
      ensures var key := RepositoryKey(apiHost, clientKey);
        match Get(old(cache), key)
        case None =>
          r == Awaiting
          && activeFetches == Joined(old(activeFetches), key, Load)
          && requests == Requested(old(requests), old(activeFetches), key)
        case Some(entry) =>
          r == Served(entry.data)
          && (entry.staleAt < now ==>
                activeFetches == Joined(old(activeFetches), key, Refresh)
                && requests == Requested(old(requests), old(activeFetches), key))
          && (entry.staleAt >= now ==>
                activeFetches == old(activeFetches) && requests == old(requests))
    {
      var key := RepositoryKey(apiHost, clientKey);
      var entry := Get(cache, key);
      if entry.None? {
        FetchFeatures(key, Load);
        return Awaiting;
      }
      if entry.value.staleAt < now {
        FetchFeatures(key, Refresh);
      }
      return Served(entry.value.data);
    }

    /** The network answers the fetch for `key`: the fetch leaves the table
        first, then each waiter resumes in turn. A `loadFeatures` call stores
        a truthy payload with a fresh expiry, saves the cache and returns the
        payload; given `null` it returns `null` and changes nothing. The
        background refresh ignores the answer. */
    method SettleFetch(key: string, response: Option<Json>, now: int) returns (results: seq<Option<Json>>)
      requires Valid() && key in activeFetches
      modifies this
      ensures Valid()
      ensures activeFetches == old(activeFetches) - {key}
      ensures requests == old(requests)
      ensures var loads := LoadCount(old(activeFetches)[key].waiters);
        |results| == loads
        && (forall i :: 0 <= i < loads ==> results[i] == Resolution(response))
        && cache == (if loads > 0 then AfterLoad(old(cache), key, response, now) else old(cache))
        && storage == (if loads > 0 && Delivered(response) && storageAvailable
                       then Records(Persisted(cache))
                       else old(storage))
    {
      var ws := activeFetches[key].waiters;
      activeFetches := activeFetches - {key};
      results := ResumeWaiters(ws, key, response, now);
    }

    /** The waiters of a settled fetch, resumed in the order they joined it. */
    method ResumeWaiters(ws: seq<Waiter>, key: string, response: Option<Json>, now: int) returns (results: seq<Option<Json>>)
      requires Distinct(cache)
      modifies this
      ensures Distinct(cache)
      ensures activeFetches == old(activeFetches) && requests == old(requests)
      ensures var loads := LoadCount(ws);
        |results| == loads
        && (forall i :: 0 <= i < loads ==> results[i] == Resolution(response))
        && cache == (if loads > 0 then AfterLoad(old(cache), key, response, now) else old(cache))
        && storage == (if loads > 0 && Delivered(response) && storageAvailable
                       then Records(Persisted(cache))
                       else old(storage))
    {
      ghost var after := AfterLoad(cache, key, response, now);
      AfterLoadIdempotent(cache, key, response, now);
      results := [];
      var i := 0;
      while i < |ws|
        invariant 0 <= i <= |ws|
        invariant Distinct(cache)
        invariant activeFetches == old(activeFetches) && requests == old(requests)
        invariant |results| == LoadCount(ws[..i])
        invariant forall j :: 0 <= j < |results| ==> results[j] == Resolution(response)
        invariant cache == if |results| > 0 then after else old(cache)
        invariant storage == if |results| > 0 && Delivered(response) && storageAvailable
                             then Records(Persisted(cache)) else old(storage)
      {
        LoadCountPrefix(ws, i);
        if ws[i].Load? {
          var r := ResumeLoad(key, response, now);
          results := results + [r];
        }
        i := i + 1;
      }
      assert ws[..|ws|] == ws;
    }

    /** The rest of a `loadFeatures` call that missed the cache, once its
        fetch has settled: a falsy answer is returned as `null`; a truthy one
        is cached until one minute from now, the cache is saved, and the
        payload is returned (the fresh entry is not stale, so no refresh
        follows). */
    method ResumeLoad(key: string, response: Option<Json>, now: int) returns (r: Option<Json>)
      requires Distinct(cache)
      modifies this
      ensures Distinct(cache)
      ensures r == Resolution(response)
      ensures cache == AfterLoad(old(cache), key, response, now)
      ensures storage == if Delivered(response) && storageAvailable then Records(Persisted(cache)) else old(storage)
      ensures activeFetches == old(activeFetches) && requests == old(requests)
    {
      if !Delivered(response) {
        return None;
      }
      var entry := Entry(response.value, now + CacheTTL);
      DistinctPut(cache, key, entry);
      cache := Put(cache, key, entry);
      SavePersistentCache();
      return response;
    }

    /** `loadPersistentCache()`: when local storage is there and its item parses
        into pairs, build a Map from them and walk it, setting the fresh
        records and removing the others until a value that is not an object
        throws. */
    method LoadPersistentCache(now: int)
      requires Distinct(cache)
      modifies this
      ensures Distinct(cache)
      ensures cache == if storageAvailable && storage.Records? then Admitted(old(cache), FromPairs(storage.records), now) else old(cache)
      ensures activeFetches == old(activeFetches) && requests == old(requests) && storage == old(storage)
    {
      if storageAvailable && storage.Records? {
        var cacheObj := FromPairs(storage.records);
        var i := 0;
        while i < |cacheObj|
          invariant 0 <= i <= |cacheObj|
          invariant Distinct(cache)
          invariant Admitted(cache, cacheObj[i..], now) == Admitted(old(cache), cacheObj, now)
          invariant activeFetches == old(activeFetches) && requests == old(requests) && storage == old(storage)
        {
          var k := cacheObj[i].0;
          var value := cacheObj[i].1;
          assert cacheObj[i..][0] == cacheObj[i] && cacheObj[i..][1..] == cacheObj[i + 1..];
          if value.NonObject? {
            break;
          }
          if Fresh(value, now) {
            DistinctPut(cache, k, Entry(value.data, value.staleAt.value));
            cache := Put(cache, k, Entry(value.data, value.staleAt.value));
          } else {
            DistinctRemove(cache, k);
            cache := Remove(cache, k);
          }
          i := i + 1;
        }
      }
    }

    /** `savePersistentCache()`: write every cache entry, in order, under the
        cache's item, when local storage is there. */
    method SavePersistentCache()
      modifies this
      ensures storage == if storageAvailable then Records(Persisted(cache)) else old(storage)
      ensures cache == old(cache) && activeFetches == old(activeFetches) && requests == old(requests)
    {
      if storageAvailable {
        storage := Records(Persisted(cache));
      }
    }
  }
}
