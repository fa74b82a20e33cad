/**
  The service worker's cache policy (TPAM-project/sw.js): the install handler
  fills one named cache generation with the app shell, the activate handler
  deletes every other generation, and the fetch handler answers navigations
  network first (falling back to the precached offline page) and every other
  request cache first (falling back to the network).

  The origin's CacheStorage is a `Storage` value: the cache names in creation
  order, which is what `caches.keys()` lists and the order in which
  `caches.match` searches, and one table of responses by URL per cache.
  Requests and URLs are plain strings; the network is a parameter.
 */
module ServiceWorker {
  import opened Web

  type CacheName = string

  /** The current cache generation. */
  const CACHE_NAME: CacheName := "hike-tracker-cache-v3"

  /** The page served to a navigation that the network cannot answer. */
  const OFFLINE_PAGE: Url := "views/offline.html"

  /** The app shell stored at install time. */
  const PRECACHE: seq<Url> := [
    "index.html",
    "styles.css",
    "app.js",
    "manifest.json",
    "views/native.html",
    OFFLINE_PAGE,
    "https://unpkg.com/leaflet@1.9.4/dist/leaflet.css",
    "https://unpkg.com/leaflet@1.9.4/dist/leaflet.js"
  ]

  predicate Distinct<T(==)>(s: seq<T>) {
    forall i, j :: 0 <= i < j < |s| ==> s[i] != s[j]
  }

  /** CacheStorage: cache names in creation order, and each cache's responses by URL. */
  datatype Storage = Storage(names: seq<CacheName>, tables: map<CacheName, map<Url, Response>>)

  /** Each cache is listed once, and exactly the listed caches have a table. */
  ghost predicate Valid(s: Storage) {
    Distinct(s.names) && forall n :: n in s.tables <==> n in s.names
  }

  /** The `i`-th cache in creation order holds an entry for `url`. */
  predicate Holds(s: Storage, i: int, url: Url) {
    0 <= i < |s.names| && s.names[i] in s.tables && url in s.tables[s.names[i]]
  }

  /** `caches.match(url)` restricted to the caches from position `i` on: the entry of the
      first of them, in creation order, that holds `url`. */
  function MatchFrom(s: Storage, i: nat, url: Url): (r: Option<Response>)
    ensures r.None? <==> forall k :: i <= k ==> !Holds(s, k, url)
    ensures r.Some? ==>
      exists k :: i <= k && Holds(s, k, url) && r.value == s.tables[s.names[k]][url] &&
        forall j :: i <= j < k ==> !Holds(s, j, url)
    decreases |s.names| - i
  {
    if i >= |s.names| then None
    else if Holds(s, i, url) then Some(s.tables[s.names[i]][url])
    else MatchFrom(s, i + 1, url)
  }

  /** `caches.match(url)` over every cache of the origin: nothing iff no listed cache holds
      `url`, and otherwise the entry of the first listed cache that does. */
  function Match(s: Storage, url: Url): (r: Option<Response>)
    ensures r.None? <==> forall k :: 0 <= k < |s.names| ==> !Holds(s, k, url)
    ensures r.Some? ==>
      exists k :: Holds(s, k, url) && r.value == s.tables[s.names[k]][url] &&
        forall j :: 0 <= j < k ==> !Holds(s, j, url)
  {
    MatchFrom(s, 0, url)
  }

  /** `cache.addAll(urls)` on a cache holding `entries`: the new table when every URL
      fetches to a response with an ok status, and nothing (the cache is left as it was)
      otherwise. */
  function AddAll(entries: map<Url, Response>, urls: seq<Url>, net: Url -> Fetched): (r: Option<map<Url, Response>>)
    ensures r.Some? <==> forall u :: u in urls ==> net(u).Ok()
    ensures r.Some? ==> r.value.Keys == entries.Keys + (set u | u in urls)
    ensures r.Some? ==> forall u :: u in urls ==> r.value[u] == net(u).response
    ensures r.Some? ==> forall u :: u in entries && u !in urls ==> r.value[u] == entries[u]
    decreases |urls|
  {
    if urls == [] then Some(entries)
    else if !net(urls[0]).Ok() then None
    else
      assert forall u :: u in urls <==> u == urls[0] || u in urls[1..];
      AddAll(entries[urls[0] := net(urls[0]).response], urls[1..], net)
  }

  /** `caches.open(name)`: a cache that does not exist yet is created empty, after the existing ones. */
  function Opened(s: Storage, name: CacheName): (r: Storage)
    requires Valid(s)
    ensures Valid(r) && name in r.tables
    ensures r.tables.Keys == s.tables.Keys + {name}
    ensures forall n :: n in s.tables ==> r.tables[n] == s.tables[n]
    ensures name !in s.tables ==> r.tables[name] == map[]
    ensures name in s.tables ==> r == s
    ensures name !in s.tables ==> r.names == s.names + [name]
  {
    if name in s.tables then s
    else Storage(s.names + [name], s.tables[name := map[]])
  }

  /** The install handler: open CACHE_NAME, then `addAll(PRECACHE)`. The flag says whether
      installation succeeded. */
  function Installed(s: Storage, net: Url -> Fetched): (r: (Storage, bool))
    requires Valid(s)
    ensures Valid(r.0) && CACHE_NAME in r.0.tables
    ensures r.0.tables.Keys == s.tables.Keys + {CACHE_NAME}
    ensures r.1 <==> forall u :: u in PRECACHE ==> net(u).Ok()
    ensures r.1 ==> forall u :: u in PRECACHE ==>
      u in r.0.tables[CACHE_NAME] && r.0.tables[CACHE_NAME][u] == net(u).response
    ensures r.1 ==> forall u :: CACHE_NAME in s.tables && u in s.tables[CACHE_NAME] && u !in PRECACHE ==>
      u in r.0.tables[CACHE_NAME] && r.0.tables[CACHE_NAME][u] == s.tables[CACHE_NAME][u]
    ensures r.1 ==> r.0.names == Opened(s, CACHE_NAME).names
    ensures r.1 ==>
      r.0.tables[CACHE_NAME].Keys == Opened(s, CACHE_NAME).tables[CACHE_NAME].Keys + (set u | u in PRECACHE)
    ensures !r.1 ==> r.0 == Opened(s, CACHE_NAME)
    ensures forall n :: n in s.tables && n != CACHE_NAME ==> r.0.tables[n] == s.tables[n]
  {
    var o := Opened(s, CACHE_NAME);
    match AddAll(o.tables[CACHE_NAME], PRECACHE, net)
    case None => (o, false)
    case Some(t) => (Storage(o.names, o.tables[CACHE_NAME := t]), true)
  }

  /** The activate handler: every cache generation other than CACHE_NAME is deleted. */
  function Activated(s: Storage): (r: Storage)
    requires Valid(s)
    ensures Valid(r)
    ensures r.tables.Keys == s.tables.Keys * {CACHE_NAME}
    ensures CACHE_NAME in s.tables ==> r.tables[CACHE_NAME] == s.tables[CACHE_NAME]
  {
    if CACHE_NAME in s.tables then Storage([CACHE_NAME], map[CACHE_NAME := s.tables[CACHE_NAME]])
    else Storage([], map[])
  }

  /** The names among `ks` that activation deletes. */
  function Stale(ks: seq<CacheName>): set<CacheName> {
    set k | k in ks && k != CACHE_NAME
  }

  lemma StaleSnoc(ks: seq<CacheName>, k: CacheName)
    ensures Stale(ks + [k]) == Stale(ks) + (if k != CACHE_NAME then {k} else {})
  {
  }

  /** A valid storage that kept exactly the non-stale caches of `s`, unchanged, is what
      activation makes of `s`. */
  lemma ActivatedWhenStaleDeleted(s: Storage, t: Storage)
    requires Valid(s) && Valid(t)
    requires t.tables.Keys == s.tables.Keys - Stale(s.names)
    requires forall n :: n in t.tables ==> t.tables[n] == s.tables[n]
    ensures t == Activated(s)
  {
    assert t.tables.Keys == s.tables.Keys * {CACHE_NAME};
    AtMostCurrent(t);
    assert t.tables == Activated(s).tables;
  }

  /** The first two caches of a valid storage are two different existing caches. */
  lemma FirstTwoDiffer(s: Storage)
    requires Valid(s) && |s.names| >= 2
    ensures s.names[0] != s.names[1] && s.names[0] in s.tables && s.names[1] in s.tables
  {
  }

  /** A storage whose only possible cache is CACHE_NAME lists exactly that cache, or nothing. */
  lemma AtMostCurrent(s: Storage)
    requires Valid(s) && s.tables.Keys <= {CACHE_NAME}
    ensures s.names == if CACHE_NAME in s.tables then [CACHE_NAME] else []
  {
    if |s.names| >= 2 {
      FirstTwoDiffer(s);
      assert false;
    } else if |s.names| == 1 {
      assert s.names[0] in s.names;
    }
  }

  /** Activating twice deletes nothing more. */
  lemma ActivateIdempotent(s: Storage)
    requires Valid(s)
    ensures Activated(Activated(s)) == Activated(s)
  {
  }

  /** `req.mode`: only navigations are told apart from every other kind of request. */
  datatype Mode = Navigate | Subresource

  datatype Request = Request(url: Url, mode: Mode)

  /** What the fetch handler passes to `respondWith`: a response, or none (the page then
      sees a network error); and whether it called `fetch(req)`. */
  datatype Reply = Reply(response: Option<Response>, fetched: bool)

  /** The fetch handler's rule, given the storage and what `fetch(req)` would settle to. */
  function Respond(s: Storage, req: Request, net: Fetched): (r: Reply)
    ensures req.mode == Navigate ==> r.fetched
    ensures req.mode == Navigate && net.Resolved? ==> r.response == Some(net.response)
    ensures req.mode == Navigate && net.Rejected? ==> r.response == Match(s, OFFLINE_PAGE)
    ensures req.mode == Subresource ==> (r.fetched <==> Match(s, req.url).None?)
    ensures req.mode == Subresource && !r.fetched ==> r.response == Match(s, req.url)
    ensures req.mode == Subresource && r.fetched ==>
      r.response == if net.Resolved? then Some(net.response) else None
  {
    match req.mode
    case Navigate =>
      if net.Resolved? then Reply(Some(net.response), true)
      else Reply(Match(s, OFFLINE_PAGE), true)
    case Subresource =>
      var cached := Match(s, req.url);
      if cached.Some? then Reply(cached, false)
      else Reply(if net.Resolved? then Some(net.response) else None, true)
  }

  lemma OfflinePageIsPrecached()
    ensures OFFLINE_PAGE in PRECACHE
  {
  }

  /** A failed navigation falls back to the same cached page whatever URL it asked for. */
  lemma NavigationFallbackIgnoresUrl(s: Storage, u1: Url, u2: Url)
    ensures Respond(s, Request(u1, Navigate), Rejected) == Respond(s, Request(u2, Navigate), Rejected)
  {
  }

  /** After a successful install (and before activation, when older generations may still
      be searched first) a failed navigation still finds a cached page. */
  lemma FallbackFoundAfterInstall(s: Storage, net: Url -> Fetched, url: Url)
    requires Valid(s) && Installed(s, net).1
    ensures Respond(Installed(s, net).0, Request(url, Navigate), Rejected).response.Some?
  {
    var t := Installed(s, net).0;
    assert OFFLINE_PAGE in PRECACHE;
    assert CACHE_NAME in t.names;
    var k :| 0 <= k < |t.names| && t.names[k] == CACHE_NAME;
    assert Holds(t, k, OFFLINE_PAGE);
  }

  /** After a successful install and activation, a failed navigation is answered with the
      offline page exactly as the network delivered it at install time. */
  lemma OfflineFallbackAfterInstall(s: Storage, net: Url -> Fetched, url: Url)
    requires Valid(s) && Installed(s, net).1
    ensures Respond(Activated(Installed(s, net).0), Request(url, Navigate), Rejected).response ==
            Some(net(OFFLINE_PAGE).response)
  {
  }

  /** After a successful install and activation, every app-shell asset is served from the
      cache, as fetched at install time, without touching the network. */
  lemma ShellServedFromCache(s: Storage, net: Url -> Fetched, u: Url, now: Fetched)
    requires Valid(s) && Installed(s, net).1 && u in PRECACHE
    ensures Respond(Activated(Installed(s, net).0), Request(u, Subresource), now) ==
            Reply(Some(net(u).response), false)
  {
  }

  /** Dropping position `j + 1` of `s` is dropping position `j` of its tail, behind its head. */
  /** `r` is what removing `x` from `s` must give: the other names, distinct when `s` is,
      and in their old order. */
  ghost predicate RemovedFrom(s: seq<CacheName>, x: CacheName, r: seq<CacheName>) {
    && (forall y :: y in r <==> y in s && y != x)
    && (Distinct(s) ==> Distinct(r))
    && (x !in s ==> r == s)
    && (Distinct(s) && x in s ==> exists k :: 0 <= k < |s| && s[k] == x && r == s[..k] + s[k + 1..])
  }

  /** Removing `x` from a list that starts with `x` is removing it from the tail. */
  lemma RemovedAtHead(s: seq<CacheName>, x: CacheName, rest: seq<CacheName>)
    requires s != [] && s[0] == x && RemovedFrom(s[1..], x, rest)
    ensures RemovedFrom(s, x, rest)
  {
    if Distinct(s) {
      assert x !in s[1..];
      assert s[..0] + s[1..] == s[1..];
    }
  }

  /** Dropping position `j` of the tail of `s`, behind its head, drops position `j + 1`. */
  lemma DropBehindHead(s: seq<CacheName>, j: int, rest: seq<CacheName>)
    requires 0 <= j < |s| - 1 && rest == s[1..][..j] + s[1..][j + 1..]
    ensures [s[0]] + rest == s[..j + 1] + s[j + 2..]
  {
    assert s[..j + 1] == [s[0]] + s[1..][..j];
    assert s[j + 2..] == s[1..][j + 1..];
  }

  /** Removing `x` from a list that starts with another name keeps that name in front. */
  lemma RemovedBehindHead(s: seq<CacheName>, x: CacheName, rest: seq<CacheName>)
    requires s != [] && s[0] != x && RemovedFrom(s[1..], x, rest)
    ensures RemovedFrom(s, x, [s[0]] + rest)
  {
    if Distinct(s) && x in s {
      assert Distinct(s[1..]) && x in s[1..];
      var j :| 0 <= j < |s| - 1 && s[1..][j] == x && rest == s[1..][..j] + s[1..][j + 1..];
      DropBehindHead(s, j, rest);
    }
    if Distinct(s) {
      assert s[0] !in rest;
    }
  }

  /** Removes every occurrence of `x` from `s`, keeping the order of the rest. */
  function Remove(s: seq<CacheName>, x: CacheName): (r: seq<CacheName>)
    ensures forall y :: y in r <==> y in s && y != x
    ensures Distinct(s) ==> Distinct(r)
    ensures x !in s ==> r == s
    ensures Distinct(s) && x in s ==> exists k :: 0 <= k < |s| && s[k] == x && r == s[..k] + s[k + 1..]
  {
    if s == [] then []
    else if s[0] == x then
      var rest := Remove(s[1..], x);
      RemovedAtHead(s, x, rest);
      rest
    else
      var rest := Remove(s[1..], x);
      RemovedBehindHead(s, x, rest);
      [s[0]] + rest
  }

  /** The origin's CacheStorage, which the install and activate handlers change in place. */
  class CacheStorage {
    var names: seq<CacheName>
    var tables: map<CacheName, map<Url, Response>>

    function State(): Storage
      reads this
    {
      Storage(names, tables)
    }

    constructor ()
      ensures State() == Storage([], map[])
    {
      names := [];
      tables := map[];
    }

    /** `caches.open(name)`. */
    method Open(name: CacheName)
      requires Valid(State())
      modifies this
      ensures State() == Opened(old(State()), name)
    {
      if name !in tables {
        names := names + [name];
        tables := tables[name := map[]];
      }
    }

    /** `caches.delete(name)`: the flag says whether such a cache existed. */
    method Delete(name: CacheName) returns (found: bool)
      requires Valid(State())
      modifies this
      ensures Valid(State())
      ensures found <==> name in old(tables)
      ensures names == Remove(old(names), name) && tables == old(tables) - {name}
      ensures tables.Keys == old(tables).Keys - {name}
    {
      found := name in tables;
      names := Remove(names, name);
      tables := tables - {name};
    }

    /** The install handler; `net` is what the network gives for each URL. */
    method Install(net: Url -> Fetched) returns (ok: bool)
      requires Valid(State())
      modifies this
      ensures (State(), ok) == Installed(old(State()), net)
    {
      Open(CACHE_NAME);
      var added := AddAll(tables[CACHE_NAME], PRECACHE, net);
      if added.Some? {
        tables := tables[CACHE_NAME := added.value];
      }
      ok := added.Some?;
    }

    /** The activate handler: walks the names `caches.keys()` lists and deletes each one
        that is not CACHE_NAME. */
    method Activate()
      requires Valid(State())
      modifies this
      ensures State() == Activated(old(State()))
    {
      var keys := names;
      var i := 0;
      while i < |keys|
        invariant 0 <= i <= |keys|
        invariant Valid(State())
        invariant tables.Keys == old(tables).Keys - Stale(keys[..i])
        invariant forall n :: n in tables ==> tables[n] == old(tables)[n]
      {
        StaleSnoc(keys[..i], keys[i]);
        assert keys[..i + 1] == keys[..i] + [keys[i]];
        if keys[i] != CACHE_NAME {
          var _ := Delete(keys[i]);
        }
        i := i + 1;
      }
      assert keys[..i] == keys;
      ActivatedWhenStaleDeleted(old(State()), State());
    }

    /** The fetch handler. It has no modifies clause: answering a request never writes to
        any cache. */
    method HandleFetch(req: Request, net: Fetched) returns (reply: Reply)
      ensures reply == Respond(State(), req, net)
    {
      reply := Respond(State(), req, net);
    }
  }
}
