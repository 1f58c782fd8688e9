/**
 * The offline cache router of service-worker.js: the install handler that
 * fills the current cache with the application shell, the activate handler
 * that drops every other cache, and the fetch handler that sorts each request
 * into one of three policies.
 *
 * Cache storage (the origin's `caches` object) is a class whose fields the
 * handlers update.  The network is an oracle: for each request it either
 * yields a response (of any status) or fails.  The promises the handlers
 * chain are run to completion in program order, so the fire-and-forget
 * `cache.put` of the fetch handler is an immediate write.
 */
module ServiceWorker {
  import opened Wrappers

  /** The current cache generation. */
  const CacheName: string := "contabilizador-v1"

  /** The application shell, in the order the install handler lists it. */
  const Assets: seq<string> := [".", "/index.html", "/manifest.webmanifest"]

  /** The request key a failed navigation falls back to. */
  const ShellPage: string := "/index.html"

  /** A response, treated as an opaque value apart from its status. */
  datatype Response = Response(status: nat, body: string)

  /** What `Cache.addAll` demands of every response it stores: an ok status
      (200-299) that is not 206, a partial response. */
  predicate IsOk(r: Response) {
    200 <= r.status <= 299 && r.status != 206
  }

  /** How `fetch` settles: with a response, whatever its status, or with a
      network error. */
  datatype FetchResult = Fetched(response: Response) | NetworkError

  /** The parts of a `Request` the router reads: its mode, its destination,
      its URL (the key for cache lookups and writes) and the URL's pathname. */
  datatype Request = Request(mode: string, destination: string, url: string, pathname: string)

  /** One named cache: request key to stored response. */
  type Store = map<string, Response>

  /** What the fetch handler resolves to: `respondWith` a value, which may be
      `undefined` (None), or a rejected promise. */
  datatype Reply = Respond(response: Option<Response>) | Rejected

  // -------------------------------------------------------------------------
  // Classification
  // -------------------------------------------------------------------------

  /** The three branches of the fetch handler. */
  datatype Policy = ShellCacheFirst | ImageCacheFirst | NetworkFirst

  /** The branch a request takes; the shell test runs before the image test. */
  function Classify(req: Request): (p: Policy)
    ensures req.mode == "navigate" ==> p == ShellCacheFirst
    ensures p == ShellCacheFirst <==> req.mode == "navigate" || req.pathname in Assets
    ensures p == ImageCacheFirst <==>
              req.mode != "navigate" && req.pathname !in Assets && req.destination == "image"
    ensures p == NetworkFirst <==>
              req.mode != "navigate" && req.pathname !in Assets && req.destination != "image"
  {
    if req.mode == "navigate" || req.pathname in Assets then ShellCacheFirst
    else if req.destination == "image" then ImageCacheFirst
    else NetworkFirst
  }

  /** A navigation takes the shell branch whatever its destination, so a
      navigation to an image is never handled by the image branch. */
  lemma NavigationIsShell(req: Request)
    requires req.mode == "navigate"
    ensures Classify(req) == ShellCacheFirst
    ensures Classify(req.(destination := "image")) == ShellCacheFirst
  {
  }

  /** A pathname always starts with `/`, so the `"."` entry never selects the
      shell branch: only the two absolute asset paths do. */
  lemma ShellByPathname(req: Request)
    requires req.mode != "navigate"
    requires |req.pathname| > 0 && req.pathname[0] == '/'
    ensures Classify(req) == ShellCacheFirst <==>
              req.pathname == "/index.html" || req.pathname == "/manifest.webmanifest"
    ensures Classify(req) == ImageCacheFirst <==>
              req.destination == "image" && req.pathname != "/index.html" && req.pathname != "/manifest.webmanifest"
  {
    assert req.pathname != "." by {
      assert req.pathname[0] != "."[0];
    }
  }

  // -------------------------------------------------------------------------
  // Cache storage
  // -------------------------------------------------------------------------

  /** No name occurs twice. */
  predicate Distinct<T(==)>(s: seq<T>) {
    forall i, j :: 0 <= i < j < |s| ==> s[i] != s[j]
  }

  /** `s` with `x` taken out, the others in their order. */
  function Without<T(==,!new)>(s: seq<T>, x: T): (r: seq<T>)
    ensures forall y :: y in r <==> y in s && y != x
  {
    if s == [] then []
    else if s[0] == x then Without(s[1..], x)
    else [s[0]] + Without(s[1..], x)
  }

  /** Taking a name out keeps the others distinct. */
  lemma {:induction false} WithoutKeepsDistinct<T(!new)>(s: seq<T>, x: T)
    requires Distinct(s)
    ensures Distinct(Without(s, x))
  {
    if s != [] {
      var tail := s[1..];
      assert Distinct(tail) by {
        forall i, j | 0 <= i < j < |tail| ensures tail[i] != tail[j] {
          assert tail[i] == s[i + 1] && tail[j] == s[j + 1];
        }
      }
      WithoutKeepsDistinct(tail, x);
      if s[0] != x {
        var t := Without(tail, x);
        var r := Without(s, x);
        assert r == [s[0]] + t;
        assert s[0] !in tail by {
          forall j | 0 <= j < |tail| ensures tail[j] != s[0] {
            assert tail[j] == s[j + 1];
          }
        }
        forall i, j | 0 <= i < j < |r| ensures r[i] != r[j] {
          assert r[j] == t[j - 1];
          if i > 0 {
            assert r[i] == t[i - 1];
          } else {
            assert t[j - 1] in t;
          }
        }
      }
    }
  }

  lemma {:induction false} WithoutOfConcat<T(!new)>(a: seq<T>, b: seq<T>, x: T)
    ensures Without(a + b, x) == Without(a, x) + Without(b, x)
  {
    if a != [] {
      assert (a + b)[1..] == a[1..] + b;
      WithoutOfConcat(a[1..], b, x);
    } else {
      assert a + b == b;
    }
  }

  lemma {:induction false} WithoutAbsent<T(!new)>(s: seq<T>, x: T)
    requires x !in s
    ensures Without(s, x) == s
  {
    if s != [] {
      assert s[1..] + [] == s[1..];
      WithoutAbsent(s[1..], x);
      assert s == [s[0]] + s[1..];
    }
  }

  /** The store `caches.open(name)` yields: the existing one, or a new empty one. */
  function Opened(stores: map<string, Store>, name: string): Store {
    if name in stores then stores[name] else map[]
  }

  /** `caches.match(key)` from position `from` of the creation order: the
      response of the first store in `names[from..]` that holds `key`. */
  function FirstMatch(names: seq<string>, stores: map<string, Store>, key: string, from: nat): (r: Option<Response>)
    requires forall n :: n in names ==> n in stores
    decreases |names| - from
    ensures r.None? <==> forall i :: from <= i < |names| ==> key !in stores[names[i]]
    ensures r.Some? ==>
              exists i :: from <= i < |names| && key in stores[names[i]] && r.value == stores[names[i]][key]
                          && forall j :: from <= j < i ==> key !in stores[names[j]]
  {
    if |names| <= from then None
    else if key in stores[names[from]] then Some(stores[names[from]][key])
    else FirstMatch(names, stores, key, from + 1)
  }

  /** The fetching half of `cache.addAll(keys)`: the response for every key,
      in order, when every fetch gave an ok response; absent as soon as one
      fetch fails or answers with a status outside 200-299. */
  method FetchAll(keys: seq<string>, network: string -> FetchResult) returns (r: Option<seq<Response>>)
    ensures r.None? ==> exists k :: k in keys && !(network(k).Fetched? && IsOk(network(k).response))
    ensures r.Some? ==> |r.value| == |keys| && forall j :: 0 <= j < |keys| ==>
              network(keys[j]).Fetched? && IsOk(network(keys[j]).response) && r.value[j] == network(keys[j]).response
  {
    var responses: seq<Response> := [];
    for i := 0 to |keys|
      invariant |responses| == i
      invariant forall j :: 0 <= j < i ==>
                  network(keys[j]).Fetched? && IsOk(network(keys[j]).response)
                  && responses[j] == network(keys[j]).response
    {
      var fetched := network(keys[i]);
      if fetched.NetworkError? || !IsOk(fetched.response) {
        return None;
      }
      responses := responses + [fetched.response];
    }
    return Some(responses);
  }

  /** The store after `cache.addAll(keys)` succeeded on `store`: each key
      holds the response the network gave for it, and every other entry is
      as it was. */
  function StoredAll(store: Store, keys: seq<string>, network: string -> FetchResult): (r: Store)
    requires forall j :: 0 <= j < |keys| ==> network(keys[j]).Fetched?
    ensures forall k :: k in keys ==> k in r && r[k] == network(k).response
    ensures forall k :: k !in keys ==> (k in r <==> k in store) && (k in r ==> r[k] == store[k])
  {
    if keys == [] then store
    else
      var last := keys[|keys| - 1];
      var prefix := keys[..|keys| - 1];
      assert keys == prefix + [last];
      StoredAll(store, prefix, network)[last := network(last).response]
  }

  /** The origin's cache storage (`caches`). */
  class CacheStorage {
    /** The store names in creation order: what `caches.keys()` lists, and
        the order in which `caches.match` searches. */
    var names: seq<string>
    var stores: map<string, Store>

    ghost predicate Valid()
      reads this
    {
      && Distinct(names)
      && (forall n :: n in names <==> n in stores)
    }

    constructor ()
      ensures Valid() && names == [] && stores == map[]
    {
      names := [];
      stores := map[];
    }

    /** `caches.match(key)`: absent exactly when no store holds `key`, and
        otherwise the response of the first store, in creation order, that
        holds `key`. */
    function Match(key: string): (r: Option<Response>)
      reads this
      requires Valid()
      ensures r.None? <==> forall n :: n in stores ==> key !in stores[n]
      ensures r.Some? ==> exists n :: n in stores && key in stores[n] && stores[n][key] == r.value
      ensures r.Some? ==>
                exists i :: 0 <= i < |names| && key in stores[names[i]] && r.value == stores[names[i]][key]
                            && forall j :: 0 <= j < i ==> key !in stores[names[j]]
    {
      FirstMatch(names, stores, key, 0)
    }

    /** `caches.open(name)`: creates an empty store, last in creation order,
        when none has that name; otherwise changes nothing. */
    method Open(name: string)
      requires Valid()
      modifies this
      ensures Valid()
      ensures names == if name in old(stores) then old(names) else old(names) + [name]
      ensures stores == old(stores)[name := Opened(old(stores), name)]
    {
      if name !in stores {
        names := names + [name];
        stores := stores[name := map[]];
      }
    }

    /** `caches.open(name).then(cache => cache.put(key, response))`. */
    method Put(name: string, key: string, response: Response)
      requires Valid()
      modifies this
      ensures Valid()
      ensures names == if name in old(stores) then old(names) else old(names) + [name]
      ensures stores == old(stores)[name := Opened(old(stores), name)[key := response]]
    {
      Open(name);
      stores := stores[name := stores[name][key := response]];
    }

    /** `caches.delete(name)`: true when a store of that name existed. */
    method Delete(name: string) returns (found: bool)
      requires Valid()
      modifies this
      ensures Valid()
      ensures found == (name in old(stores))
      ensures names == Without(old(names), name)
      ensures stores == old(stores) - {name}
    {
      found := name in stores;
      WithoutKeepsDistinct(names, name);
      names := Without(names, name);
      stores := stores - {name};
    }

    /** `cache.addAll(keys)` on the open store `name`: fetches every key and
        stores all the responses only if every fetch gave an ok response;
        otherwise it rejects and the store is left as it was. */
    method AddAll(name: string, keys: seq<string>, network: string -> FetchResult) returns (ok: bool)
      requires Valid() && name in stores
      modifies this
      ensures Valid() && names == old(names)
      ensures ok <==> forall k :: k in keys ==> network(k).Fetched? && IsOk(network(k).response)
      ensures ok ==> stores == old(stores)[name := StoredAll(old(stores)[name], keys, network)]
      ensures !ok ==> stores == old(stores)
    {
      var fetchedAll := FetchAll(keys, network);
      if fetchedAll.None? {
        return false;
      }
      var responses := fetchedAll.value;
      var store := stores[name];
      for i := 0 to |keys|
        invariant store == StoredAll(stores[name], keys[..i], network)
      {
        var prefix := keys[..i + 1];
        assert prefix[..i] == keys[..i] && prefix[i] == keys[i];
        store := store[keys[i] := responses[i]];
      }
      assert keys[..|keys|] == keys;
      stores := stores[name := store];
      return true;
    }
  }

  // -------------------------------------------------------------------------
  // The three event handlers
  // -------------------------------------------------------------------------

  /** The install handler: open the current store and add the shell to it.
      The store exists afterwards even when `addAll` rejects, and every other
      store is left alone. */
  method Install(cs: CacheStorage, network: string -> FetchResult) returns (installed: bool)
    requires cs.Valid()
    modifies cs
    ensures cs.Valid()
    ensures installed <==> forall a :: a in Assets ==> network(a).Fetched? && IsOk(network(a).response)
    ensures cs.names == if CacheName in old(cs.stores) then old(cs.names) else old(cs.names) + [CacheName]
    ensures installed ==>
              cs.stores == old(cs.stores)[CacheName := StoredAll(Opened(old(cs.stores), CacheName), Assets, network)]
    ensures !installed ==> cs.stores == old(cs.stores)[CacheName := Opened(old(cs.stores), CacheName)]
  {
    cs.Open(CacheName);
    installed := cs.AddAll(CacheName, Assets, network);
  }

  /** In a list of distinct names, the entry at `i` is listed neither before
      nor after `i`. */
  lemma ListedOnce<T>(keys: seq<T>, i: nat)
    requires Distinct(keys) && i < |keys|
    ensures keys[i] !in keys[..i] && keys[i] !in keys[i + 1..]
  {
    var later := keys[i + 1..];
    forall j | 0 <= j < |later| ensures later[j] != keys[i] {
      assert later[j] == keys[i + 1 + j];
    }
  }

  /** Taking out a name listed exactly once leaves the rest in order. */
  lemma WithoutOnce<T(!new)>(a: seq<T>, x: T, b: seq<T>)
    requires x !in a && x !in b
    ensures Without(a + [x] + b, x) == a + b
  {
    var ax := a + [x];
    WithoutOfConcat(ax, b, x);
    WithoutOfConcat(a, [x], x);
    assert Without([x], x) == [] by {
      assert [x][1..] == [];
    }
    WithoutAbsent(a, x);
    WithoutAbsent(b, x);
    assert a + [] == a;
  }

  /** The names left after `i` steps of the activate sweep over the distinct
      list `keys`, which keeps only `x`: `x` if it was among the first `i`
      names, then the names not yet visited. */
  function Swept<T(==)>(keys: seq<T>, i: nat, x: T): seq<T>
    requires i <= |keys|
  {
    (if x in keys[..i] then [x] else []) + keys[i..]
  }

  /** One step of the sweep: deleting `keys[i]`, unless it is `x`, turns the
      names left after `i` steps into those left after `i + 1`. */
  lemma SweepStep<T(!new)>(keys: seq<T>, i: nat, x: T)
    requires Distinct(keys) && i < |keys|
    ensures keys[i] != x ==> Without(Swept(keys, i, x), keys[i]) == Swept(keys, i + 1, x)
    ensures keys[i] == x ==> Swept(keys, i, x) == Swept(keys, i + 1, x)
  {
    ListedOnce(keys, i);
    assert keys[..i + 1] == keys[..i] + [keys[i]];
    assert keys[i..] == [keys[i]] + keys[i + 1..];
    var kept: seq<T> := if x in keys[..i] then [x] else [];
    if keys[i] != x {
      assert x in keys[..i + 1] <==> x in keys[..i];
      assert Swept(keys, i, x) == kept + [keys[i]] + keys[i + 1..];
      WithoutOnce(kept, keys[i], keys[i + 1..]);
    }
  }

  /** The activate handler: delete every store listed by `caches.keys()`
      whose name is not the current generation.  Only the current store can
      survive, and its contents do not change. */
  method Activate(cs: CacheStorage)
    requires cs.Valid()
    modifies cs
    ensures cs.Valid()
    ensures cs.stores == if CacheName in old(cs.stores) then map[CacheName := old(cs.stores)[CacheName]] else map[]
    ensures cs.names == if CacheName in old(cs.stores) then [CacheName] else []
  {
    var keys := cs.names;
    ghost var before := cs.stores;
    for i := 0 to |keys|
      invariant cs.Valid()
      invariant cs.names == Swept(keys, i, CacheName)
      invariant forall n :: n in cs.stores ==> n in before && cs.stores[n] == before[n]
    {
      SweepStep(keys, i, CacheName);
      if keys[i] != CacheName {
        var _ := cs.Delete(keys[i]);
      }
    }
    assert keys[..|keys|] == keys && keys[|keys|..] == [];
    assert CacheName in keys <==> CacheName in before;
    ghost var kept: seq<string> := if CacheName in before then [CacheName] else [];
    assert cs.names == kept;
    assert forall n :: n in cs.stores <==> n in kept;
  }

  /** The fetch handler, given what the network would answer for `req`.
      `fetched` tells whether the network was asked at all. */
  method HandleFetch(cs: CacheStorage, req: Request, network: FetchResult) returns (reply: Reply, fetched: bool)
    requires cs.Valid()
    modifies cs
    ensures cs.Valid()
    ensures fetched <==> Classify(req) == NetworkFirst || old(cs.Match(req.url)).None?
    // Cache-first branches, hit: the cached response, no fetch, no write.
    ensures Classify(req) != NetworkFirst && old(cs.Match(req.url)).Some? ==>
              reply == Respond(old(cs.Match(req.url))) && unchanged(cs)
    // Cache-first branches, miss, response: returned and stored in the current store.
    ensures Classify(req) != NetworkFirst && old(cs.Match(req.url)).None? && network.Fetched? ==>
              && reply == Respond(Some(network.response))
              && cs.names == (if CacheName in old(cs.stores) then old(cs.names) else old(cs.names) + [CacheName])
              && cs.stores == old(cs.stores)[CacheName := Opened(old(cs.stores), CacheName)[req.url := network.response]]
    // Shell branch, miss, network error: whatever the shell page matches.
    ensures Classify(req) == ShellCacheFirst && old(cs.Match(req.url)).None? && network.NetworkError? ==>
              reply == Respond(cs.Match(ShellPage)) && unchanged(cs)
    // Image branch, miss, network error: the promise rejects.
    ensures Classify(req) == ImageCacheFirst && old(cs.Match(req.url)).None? && network.NetworkError? ==>
              reply == Rejected && unchanged(cs)
    // Everything else: network first, cache as fallback, never a write.
    ensures Classify(req) == NetworkFirst ==>
              && unchanged(cs)
              && reply == (if network.Fetched? then Respond(Some(network.response)) else Respond(cs.Match(req.url)))
  {
    var policy := Classify(req);
    if policy == NetworkFirst {
      fetched := true;
      if network.Fetched? {
        reply := Respond(Some(network.response));
      } else {
        reply := Respond(cs.Match(req.url));
      }
      return;
    }
    var cached := cs.Match(req.url);
    if cached.Some? {
      return Respond(cached), false;
    }
    fetched := true;
    if network.Fetched? {
      cs.Put(CacheName, req.url, network.response);
      reply := Respond(Some(network.response));
    } else if policy == ShellCacheFirst {
      reply := Respond(cs.Match(ShellPage));
    } else {
      reply := Rejected;
    }
  }

  // -------------------------------------------------------------------------
  // Whole-lifecycle properties
  // -------------------------------------------------------------------------

  /** After a successful install and activate, from any earlier cache state,
      a navigation made while the network is down is always answered with a
      cached response and never with an error: the asset itself when it asks
      for one, whatever the current store already held for it, and otherwise
      the shell page. */
  method OfflineNavigation(cs: CacheStorage, network: string -> FetchResult, req: Request) returns (reply: Reply)
    requires cs.Valid()
    requires forall a :: a in Assets ==> network(a).Fetched? && IsOk(network(a).response)
    requires req.mode == "navigate"
    modifies cs
    ensures reply.Respond? && reply.response.Some?
    ensures req.url in Assets ==> reply == Respond(Some(network(req.url).response))
    ensures req.url !in Assets && req.url !in Opened(old(cs.stores), CacheName) ==>
              reply == Respond(Some(network(ShellPage).response))
  {
    var installed := Install(cs, network);
    Activate(cs);
    assert CacheName in cs.stores && ShellPage in cs.stores[CacheName];
    var fetched;
    reply, fetched := HandleFetch(cs, req, NetworkError);
  }

  /** A cache-first request that no store holds, once answered by the
      network, is answered from the cache afterwards: the network is not asked
      again and a newer response it would give is never seen (there is no
      background refresh). */
  method CacheFirstKeepsFirstAnswer(cs: CacheStorage, req: Request, first: Response, later: FetchResult)
    returns (reply: Reply, fetched: bool)
    requires cs.Valid() && cs.Match(req.url).None?
    requires Classify(req) != NetworkFirst
    modifies cs
    ensures reply == Respond(Some(first)) && !fetched
  {
    var r, f := HandleFetch(cs, req, Fetched(first));
    assert CacheName in cs.stores && req.url in cs.stores[CacheName] && cs.stores[CacheName][req.url] == first;
    assert forall n :: n in cs.stores && req.url in cs.stores[n] ==> n == CacheName;
    assert cs.Match(req.url).Some?;
    reply, fetched := HandleFetch(cs, req, later);
  }

  /** The catch-all branch never writes: a request no store holds, once
      fetched, still has no cache fallback when the network later fails, so
      the reply is `undefined`. */
  method NetworkFirstNeverCaches(cs: CacheStorage, req: Request, first: Response) returns (reply: Reply)
    requires cs.Valid() && cs.Match(req.url).None?
    requires Classify(req) == NetworkFirst
    modifies cs
    ensures reply == Respond(None)
  {
    var r, f := HandleFetch(cs, req, Fetched(first));
    assert r == Respond(Some(first));
    reply, f := HandleFetch(cs, req, NetworkError);
  }
}
