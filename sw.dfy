/**
 * The service worker (sw.js): the three URL predicates, the order in which
 * the fetch handler tries them, what each caching strategy answers and
 * stores, the cache names kept on activation, and the key filter of the
 * background sync. URLs arrive already split into hostname and pathname;
 * Cache Storage and the network appear only as the inputs they provide.
 */
module ServiceWorker {
  import opened Common

  const CACHE_NAME: string := "ceres-buracos-v1"
  const BASE_PATH: string := "/Ceres-tapa-buracos-v2/"
  const API_CACHE: string := CACHE_NAME + "-api"
  const TILES_CACHE: string := CACHE_NAME + "-tiles"
  const OFFLINE_CACHE: string := CACHE_NAME + "-offline"
  const OFFLINE_REPORT: string := "/offline-report/"

  const STATIC_EXTENSIONS: seq<string> :=
    [".css", ".js", ".png", ".jpg", ".jpeg", ".gif", ".svg", ".ico", ".woff", ".woff2", ".ttf"]
  const STATIC_DOMAINS: seq<string> :=
    ["cdn.jsdelivr.net", "cdnjs.cloudflare.com", "unpkg.com", "fonts.googleapis.com"]

  /** A request once its URL is parsed, with its HTTP method and the `destination` the browser gives it. */
  datatype Request = Request(requestMethod: string, hostname: string, pathname: string, destination: string)

  /** `isStaticResource`: a static extension, a CDN host, an HTML page, a directory, or anything under the app's base path. */
  predicate IsStaticResource(r: Request) {
    (exists ext | ext in STATIC_EXTENSIONS :: EndsWith(r.pathname, ext)) ||
    (exists domain | domain in STATIC_DOMAINS :: Contains(r.hostname, domain)) ||
    EndsWith(r.pathname, ".html") ||
    EndsWith(r.pathname, "/") ||
    Contains(r.pathname, BASE_PATH)
  }

  /** `isApiRequest`: the Supabase host, or an `/api/` path. */
  predicate IsApiRequest(r: Request) {
    Contains(r.hostname, "supabase.co") || Contains(r.pathname, "/api/")
  }

  /** `isMapTileRequest`, with its three disjuncts as written. */
  predicate IsMapTileRequest(r: Request) {
    Contains(r.hostname, "openstreetmap.org") ||
    Contains(r.hostname, "tile.openstreetmap.org") ||
    Contains(r.pathname, "/tiles/")
  }

  /** The middle disjunct of `isMapTileRequest` adds nothing: a host containing `tile.openstreetmap.org` contains `openstreetmap.org`. */
  lemma TileHostSubsumed(r: Request)
    ensures IsMapTileRequest(r) <==> Contains(r.hostname, "openstreetmap.org") || Contains(r.pathname, "/tiles/")
  {
    if Contains(r.hostname, "tile.openstreetmap.org") {
      assert OccursAt("tile.openstreetmap.org", "openstreetmap.org", 5);
      ContainsTransitive(r.hostname, "tile.openstreetmap.org", "openstreetmap.org");
    }
  }

  /** The four strategies of the fetch handler. */
  datatype Strategy = CacheFirst | ApiNetworkFirst | TileNetworkFirst | NetworkOnly

  /** The fetch handler's `if`/`else if` chain: static first, then API, then tiles, then the plain network. */
  function Dispatch(r: Request): (s: Strategy)
    ensures s == CacheFirst <==> IsStaticResource(r)
    ensures s == ApiNetworkFirst <==> !IsStaticResource(r) && IsApiRequest(r)
    ensures s == TileNetworkFirst <==> !IsStaticResource(r) && !IsApiRequest(r) && IsMapTileRequest(r)
    ensures s == NetworkOnly <==> !IsStaticResource(r) && !IsApiRequest(r) && !IsMapTileRequest(r)
  {
    if IsStaticResource(r) then CacheFirst
    else if IsApiRequest(r) then ApiNetworkFirst
    else if IsMapTileRequest(r) then TileNetworkFirst
    else NetworkOnly
  }

  /** Any path ending in `/` is served cache-first, whatever the host: Supabase and `/api/` included. */
  lemma DirectoryPathIsCacheFirst(r: Request)
    requires EndsWith(r.pathname, "/")
    ensures Dispatch(r) == CacheFirst
  {
  }

  /** A Supabase URL whose path ends in `/` is an API request that the static rule takes first. */
  lemma SupabaseDirectoryIsCacheFirst()
    ensures var r := Request("GET", "gvcwwymijloemiktshxh.supabase.co", "/rest/v1/", "");
      IsApiRequest(r) && Dispatch(r) == CacheFirst
  {
    var r := Request("GET", "gvcwwymijloemiktshxh.supabase.co", "/rest/v1/", "");
    assert OccursAt(r.hostname, "supabase.co", 21);
    assert EndsWith(r.pathname, "/");
  }

  /** Map tiles are `.png` images, so the static rule serves them cache-first before the tile rule is reached. */
  lemma PngTileIsCacheFirst(r: Request)
    requires Contains(r.hostname, "tile.openstreetmap.org") && EndsWith(r.pathname, ".png")
    ensures IsMapTileRequest(r) && Dispatch(r) == CacheFirst
  {
    assert STATIC_EXTENSIONS[2] == ".png";
  }

  /** A network response as the worker inspects it. */
  datatype Response = Response(status: int, responseType: string)

  /** What `fetch` settles to: a response, or a rejection. */
  datatype FetchResult = Fetched(response: Response) | NetworkError

  /** The static strategy writes a network response to the cache only when it is a 200 of type `basic`. */
  predicate Cacheable(resp: Response) {
    resp.status == 200 && resp.responseType == "basic"
  }

  /** Where the answer given to the page comes from. */
  datatype Answer =
    | CachedCopy(cacheName: Option<string>)  // a cache lookup: every cache (None) or the named one
    | NetworkAnswer(response: Response)
    | OfflinePage                            // the cached `index.html`
    | NoAnswer                               // the request fails for the page

  /** One request's handling: the answer, and the cache the network response is stored in, if any. */
  datatype Handling = Handling(answer: Answer, storedIn: Option<string>)

  /**
   * `cache.put` accepts only GET requests. For any other method the write
   * is rejected, the rejection is dropped, and nothing is stored.
   */
  predicate Storable(r: Request) {
    r.requestMethod == "GET"
  }

  /**
   * The fetch handler for one request. `inCache` says whether the initial
   * cache lookup of the static strategy finds the request; `net` is what
   * the network gives when it is asked.
   */
  function Handle(r: Request, inCache: bool, net: FetchResult): (h: Handling)
    ensures IsStaticResource(r) && inCache ==> h == Handling(CachedCopy(None), None)
    ensures h.storedIn == Some(CACHE_NAME) <==>
      IsStaticResource(r) && !inCache && net.Fetched? && Cacheable(net.response) && Storable(r)
    ensures h.storedIn == Some(API_CACHE) <==> Dispatch(r) == ApiNetworkFirst && net.Fetched? && Storable(r)
    ensures h.storedIn == Some(TILES_CACHE) <==> Dispatch(r) == TileNetworkFirst && net.Fetched? && Storable(r)
    ensures h.storedIn.Some? ==> net.Fetched? && h.answer == NetworkAnswer(net.response)
    ensures h.storedIn.Some? ==>
      h.storedIn.value == CACHE_NAME || h.storedIn.value == API_CACHE || h.storedIn.value == TILES_CACHE
    ensures Dispatch(r) == NetworkOnly ==> h.storedIn.None?
    ensures net.Fetched? && !(IsStaticResource(r) && inCache) ==> h.answer == NetworkAnswer(net.response)
    ensures Dispatch(r) == ApiNetworkFirst && net.NetworkError? ==> h == Handling(CachedCopy(Some(API_CACHE)), None)
    ensures Dispatch(r) == TileNetworkFirst && net.NetworkError? ==> h == Handling(CachedCopy(Some(TILES_CACHE)), None)
    ensures h.answer == OfflinePage <==>
      IsStaticResource(r) && !inCache && net.NetworkError? && r.destination == "document"
    ensures h.answer == NoAnswer <==>
      net.NetworkError? &&
      (Dispatch(r) == NetworkOnly || (IsStaticResource(r) && !inCache && r.destination != "document"))
  {
    match Dispatch(r)
    case CacheFirst =>
      if inCache then Handling(CachedCopy(None), None)
      else if net.Fetched? then
        Handling(NetworkAnswer(net.response),
          if Cacheable(net.response) && Storable(r) then Some(CACHE_NAME) else None)
      else if r.destination == "document" then Handling(OfflinePage, None)
      else Handling(NoAnswer, None)
    case ApiNetworkFirst =>
      if net.Fetched? then Handling(NetworkAnswer(net.response), if Storable(r) then Some(API_CACHE) else None)
      else Handling(CachedCopy(Some(API_CACHE)), None)
    case TileNetworkFirst =>
      if net.Fetched? then Handling(NetworkAnswer(net.response), if Storable(r) then Some(TILES_CACHE) else None)
      else Handling(CachedCopy(Some(TILES_CACHE)), None)
    case NetworkOnly =>
      if net.Fetched? then Handling(NetworkAnswer(net.response), None)
      else Handling(NoAnswer, None)
  }

  /** The `activate` handler's choice: every cache whose name is not the current one is deleted. */
  function CachesToDelete(names: seq<string>): (d: seq<string>)
    ensures forall n :: n in d <==> n in names && n != CACHE_NAME
  {
    Filter(names, n => n != CACHE_NAME)
  }

  /**
   * After activation only the current cache survives, so the API and tile
   * caches that the fetch handler itself fills, and the offline cache that
   * the background sync reads, are deleted at every activation.
   */
  lemma ActivationKeepsOnlyCurrent(names: seq<string>)
    ensures forall n :: n in names && n !in CachesToDelete(names) ==> n == CACHE_NAME
    ensures API_CACHE in names ==> API_CACHE in CachesToDelete(names)
    ensures TILES_CACHE in names ==> TILES_CACHE in CachesToDelete(names)
    ensures OFFLINE_CACHE in names ==> OFFLINE_CACHE in CachesToDelete(names)
  {
    assert API_CACHE[|CACHE_NAME|] == '-';
    assert TILES_CACHE[|CACHE_NAME|] == '-';
    assert OFFLINE_CACHE[|CACHE_NAME|] == '-';
  }

  /** Whatever a network-first strategy stores goes to a cache that the next activation deletes. */
  lemma NetworkFirstStoresArePruned(r: Request, inCache: bool, net: FetchResult, names: seq<string>)
    requires !IsStaticResource(r)
    requires Handle(r, inCache, net).storedIn.Some?
    requires Handle(r, inCache, net).storedIn.value in names
    ensures Handle(r, inCache, net).storedIn.value in CachesToDelete(names)
  {
    ActivationKeepsOnlyCurrent(names);
  }

  /** The keys `syncReports` treats as offline reports. */
  predicate IsOfflineReport(url: string) {
    Contains(url, OFFLINE_REPORT)
  }

  /** How the POST of one offline report settles: an ok response, a response that is not ok, or a rejection. */
  datatype PostResult = PostOk | PostNotOk | PostFailed

  /**
   * The keys of the offline cache that a sync deletes: those holding an
   * offline report whose POST came back ok. Every other key stays.
   */
  function SyncDeletes(keys: seq<string>, post: string -> PostResult): (d: seq<string>)
    ensures forall k :: k in d <==> k in keys && IsOfflineReport(k) && post(k) == PostOk
    ensures |d| <= |keys|
  {
    Filter(keys, k => IsOfflineReport(k) && post(k) == PostOk)
  }

  /** The outcome of `syncReports` as written. */
  datatype SyncResult = SyncRejected(failedKey: nat) | SyncDone(deleted: seq<string>)

  /** The position of the first offline-report key, if any. */
  function FirstOfflineReport(keys: seq<string>): (r: Option<nat>)
    ensures r.None? <==> forall i :: 0 <= i < |keys| ==> !IsOfflineReport(keys[i])
    ensures r.Some? ==>
      r.value < |keys| && IsOfflineReport(keys[r.value]) &&
      forall i :: 0 <= i < r.value ==> !IsOfflineReport(keys[i])
    decreases |keys|
  {
    if keys == [] then None
    else if IsOfflineReport(keys[0]) then Some(0)
    else
      match FirstOfflineReport(keys[1..])
      case None => None
      case Some(i) => Some(i + 1)
  }

  /**
   * `syncReports` as written: the callback mapped over the keys reads
   * `cache`, the parameter of the previous `then` callback, which is not in
   * scope there. The callback for the first offline-report key therefore
   * throws a ReferenceError before its report is read or sent, the sync
   * rejects, and no key is ever deleted.
   */
  function SyncAsWritten(keys: seq<string>): (r: SyncResult)
    ensures r.SyncDone? <==> forall i :: 0 <= i < |keys| ==> !IsOfflineReport(keys[i])
    ensures r.SyncDone? ==> r.deleted == []
    ensures r.SyncRejected? ==>
      r.failedKey < |keys| && IsOfflineReport(keys[r.failedKey]) &&
      forall i :: 0 <= i < r.failedKey ==> !IsOfflineReport(keys[i])
  {
    match FirstOfflineReport(keys)
    case None => SyncDone([])
    case Some(i) => SyncRejected(i)
  }

  /**
   * The outcome of the corrected sync: the keys it deletes, and whether the
   * `Promise.all` over the keys rejects. The posts run side by side, so a
   * rejected POST does not stop the deletes of the others.
   */
  datatype SyncOutcome = SyncOutcome(deleted: seq<string>, rejected: bool)

  /**
   * `syncReports` with the offline cache in scope: the keys of
   * `SyncDeletes` go, and the sync rejects exactly when the POST of some
   * offline report rejects (as it does while offline).
   */
  function SyncReports(keys: seq<string>, post: string -> PostResult): (r: SyncOutcome)
    ensures forall k :: k in r.deleted <==> k in keys && IsOfflineReport(k) && post(k) == PostOk
    ensures r.rejected <==> exists k :: k in keys && IsOfflineReport(k) && post(k) == PostFailed
  {
    var failed := Filter(keys, k => IsOfflineReport(k) && post(k) == PostFailed);
    assert failed != [] ==> failed[0] in keys && IsOfflineReport(failed[0]) && post(failed[0]) == PostFailed;
    SyncOutcome(SyncDeletes(keys, post), failed != [])
  }

  /** Whenever the intended sync would delete a key, the sync as written rejects without deleting anything. */
  lemma SyncAsWrittenNeverDeletes(keys: seq<string>, post: string -> PostResult)
    ensures SyncAsWritten(keys).SyncDone? ==> SyncAsWritten(keys).deleted == []
    ensures SyncReports(keys, post).deleted != [] ==> SyncAsWritten(keys).SyncRejected?
  {
    var d := SyncReports(keys, post).deleted;
    if d != [] {
      assert d[0] in keys && IsOfflineReport(d[0]);
    }
  }

  /** A server that answers every POST with ok. */
  function AlwaysOk(url: string): PostResult {
    PostOk
  }

  /** The key under which one offline report is stored. */
  const EXAMPLE_KEY: string := "https://example.org/offline-report/1"

  lemma ExampleKeyIsOfflineReport()
    ensures IsOfflineReport(EXAMPLE_KEY)
  {
    assert OccursAt(EXAMPLE_KEY, OFFLINE_REPORT, 19);
  }

  /** One stored offline report whose POST succeeds: the intended sync deletes it, the sync as written rejects. */
  lemma OfflineReportNeverSynced()
    ensures SyncAsWritten([EXAMPLE_KEY]) == SyncRejected(0)
    ensures SyncReports([EXAMPLE_KEY], AlwaysOk) == SyncOutcome([EXAMPLE_KEY], false)
  {
    var keys := [EXAMPLE_KEY];
    ExampleKeyIsOfflineReport();
    assert IsOfflineReport(keys[0]);
    var r := SyncReports(keys, AlwaysOk);
    var d := SyncDeletes(keys, AlwaysOk);
    assert r.deleted == d;
    assert keys[0] in d && |d| <= 1;
    assert d == keys;
  }
}
