# Ceres tapa-buracos: a verified model of its core logic

Ceres tapa-buracos is a pothole-reporting web application with three parts:

- **Citizen client (script.js).** Citizens put reports on a map. Before a new report is sent, the client checks it against the reports already loaded, and it lets users remove only the reports they own.
- **Manager console (gestor.js).** The municipality triages reports through a status workflow: Pendente, Em Manutenção, Resolvido. The console also builds a greedy nearest-neighbour maintenance route that starts at the municipal garage.
- **Service worker (sw.js).** It picks a caching strategy for every request, prunes old caches on activation, and pushes offline reports in a background sync.

This project models the decision logic of those three scripts in Dafny and proves what the code promises about it.

- `common.dfy` (`Common`): `Option`, an order-keeping `Filter` (JavaScript's `Array.prototype.filter`), and `endsWith`/`includes` on strings.
- `reports.dfy` (`Reports`): the report row, its statuses, a query result (error, or rows that may be `null`), and status filters and counts.
- `route.dfy` (`Route`): the route builder, over any point type and any distance function.
  - `CalculateOptimizedRoute` keeps the `route` and `unvisited` arrays of the source. Its inner scan is `FindNearest`.
  - Both are proved equal to the specification functions `FirstNearest`, `Greedy` and `OptimizedRoute`.
  - Lemmas about those functions prove:
    - the route has the input's length;
    - it starts at the first waypoint;
    - it is a permutation of the input;
    - each step goes to a nearest still-unvisited point, with ties going to the earliest.
  - The route metrics are here too: total length, stop count and minute estimate.
- `gestor.dfy` (`Gestor`): the manager console.
  - Statistics and status classes.
  - The status transitions its buttons offer.
  - The "time ago" buckets.
  - The stop selection with the garage as depot.
  - A `Console` class for its module-level state (`reports`, `currentFilter`, `optimizedRoute`).
- `script.dfy` (`Citizen`): the citizen client.
  - The first-match duplicate scan.
  - The guard that stops a report at a duplicate.
  - Both copies of the ownership rule, proved to agree.
  - The sidebar counters.
  - A `Client` class for its state (`buracosReportados`, the map markers).
- `sw.dfy` (`ServiceWorker`): the service worker.
  - The three URL predicates and the dispatch order.
  - What each strategy answers and which cache it writes.
  - The caches deleted on activation.
  - The key filter of the background sync.

The Haversine distance is a parameter `dist` of every member that needs it. Nothing is assumed of it except, where a lemma says so, that it is non-negative. The duplicate threshold (`DISTANCIA_MINIMA_DUPLICATA`, config.js) is a parameter too, and so are the results of database queries, of `fetch` and of cache lookups.

## Model

| member | source | states |
|---|---|---|
| Reports.WithStatus | gestor.js:207-209 | the result keeps only reports in the given status, and every such report is kept |
| Reports.WithStatusInListOrder | gestor.js:207-209 | the selection keeps the list order: selecting from two parts of the list is selecting from each in turn, and a single report is kept exactly when it has the status |
| Reports.CountStatus | gestor.js:115-118 | the count is the number of positions holding a report in that status; so it is at most the list length, and zero exactly when no report has that status |
| Route.FirstNearest | gestor.js:512-519 | the chosen index is in range; its distance from the current point is minimal; every earlier point is strictly farther (strict `<`, so the earliest tie wins) |
| Route.FirstNearestUnique | gestor.js:512-519 | an index with those two properties is the chosen one |
| Route.RemoveAt | gestor.js:524 | `splice(i, 1)` removes exactly one occurrence of `u[i]`; the points before it stay in place, and the points after it each move one position down, in order |
| Route.FindNearest | gestor.js:510-519 | the inner `for` loop finds nothing exactly when `unvisited` is empty; otherwise its result is `FirstNearest` |
| Route.CalculateOptimizedRoute | gestor.js:502-528 | the array-based loop returns exactly `OptimizedRoute(dist, waypoints)` |
| Route.GreedyStep | gestor.js:523-524 | one iteration of the `while` loop (push the nearest, splice it out) keeps the loop invariant |
| Route.GreedyPermutes | gestor.js:508-525 | the greedy tail has the same length and the same multiset of points as `unvisited` |
| Route.RoutePermutes | gestor.js:503-528 | the route is a permutation of the waypoints of the same length, it starts at `waypoints[0]`, and an input of length 0 or 1 comes back unchanged |
| Route.RouteTailPermutes | gestor.js:504-528 | for a non-empty input, the route starts at `waypoints[0]`, and what follows it is a permutation of the rest |
| Route.GreedyChoosesNearest | gestor.js:509-524 | every step of the greedy tail moves to a point still unvisited at that step, one at minimal distance |
| Route.GreedyChoice | gestor.js:509-524 | for every k, `route[k+1]` is still unvisited after `route[0..k]` and is nearest to `route[k]` among those |
| Route.PathLengthNonNegative | gestor.js:626-629 | with a non-negative distance, the total route length is non-negative |
| Route.PathLengthCons | gestor.js:626-629 | the summed length of `[p] + route` is the first leg plus the length of `route` |
| Route.Round | gestor.js:635 | `Math.round`: the result is within one half of the argument, with halves rounding up |
| Route.EstimatePerFiveHundredMetres | gestor.js:635 | each 500 m of route adds 60 minutes to the estimate, as the formula is written |
| Route.EstimateMonotone | gestor.js:635 | for non-negative lengths, the estimate is non-negative and grows with the length |
| Route.ComputeRouteInfo | gestor.js:623-636 | nothing comes out for an empty route; otherwise stops = length - 1, the loop's sum is the sum of consecutive legs, and the minutes are the estimate of that sum |
| Gestor.ComputeStatistics | gestor.js:114-118 | the total is the list length, and each of the three counters is the number of reports in its status (so at most the total) |
| Gestor.StatisticsPartition | gestor.js:114-118 | the three counts plus the reports in any other status add up to the total, so the counts add up to the total exactly when every status is known |
| Gestor.StatusClass | gestor.js:276-283 | 'manutencao' exactly for Em Manutenção, 'resolvido' exactly for Resolvido, and 'pendente' for everything else |
| Gestor.ActionButtons | gestor.js:286-320 | the last button is always delete; the others move to a known status that is neither the current one nor Pendente; there are status buttons exactly for the three known statuses |
| Gestor.OffersExactly | gestor.js:289-317 | the offered transitions are exactly: Pendente to Em Manutenção or Resolvido, Em Manutenção to Resolvido, and Resolvido to Em Manutenção |
| Gestor.DeleteAlwaysOffered | gestor.js:286-320 | delete is offered in every status |
| Gestor.TimeAgoOf | gestor.js:428-436 | the bucket is selected by the 60 / 3600 / 86400 / 2592000 second bounds, and its count is the floor quotient, within each bucket's range |
| Gestor.ElapsedSeconds | gestor.js:429 | `Math.floor(ms / 1000)`: the whole seconds are bracketed by the milliseconds |
| Gestor.RouteStops | gestor.js:478 | the stops are exactly the reports in status Pendente or Em Manutenção |
| Gestor.RouteStopsInListOrder | gestor.js:478 | the stops keep the report list's order: selecting from two parts of the list is selecting from each in turn, and a single report is kept exactly when it is open |
| Gestor.Waypoints | gestor.js:478-495 | no waypoints when there is no open report; otherwise the garage, then the stops in list order |
| Gestor.GeneratedRoute | gestor.js:476-495 | the generated route has one point per waypoint, starts at the garage, and visits every open report as often as it is listed and nothing else |
| Gestor.Console.constructor | gestor.js:2-7 | the console starts with no reports, filter 'all' and no route |
| Gestor.Console.LoadReports | gestor.js:85-100 | on a query error the snapshot is unchanged; otherwise it becomes `data || []` |
| Gestor.Console.FilterReports | gestor.js:353-354 | the current filter becomes the one chosen |
| Gestor.Console.Visible | gestor.js:205-209 | under 'all' the table is the report list itself; otherwise exactly the reports in the filtered status are shown |
| Gestor.Console.GenerateOptimizedRoute | gestor.js:476-499 | a route is built exactly when there is an open report, and it is the optimised route over the garage and the stops; otherwise the previous route stays |
| Gestor.Console.UpdateRouteInfo | gestor.js:623-636 | the metrics of the current route, as `ComputeRouteInfo` states them |
| Citizen.DuplicateIndex | script.js:183-194 | none exactly when every report is farther than the threshold; otherwise the first report within the threshold (inclusive), with every earlier one farther |
| Citizen.FindDuplicate | script.js:183-194 | the loop with early return gives the report at `DuplicateIndex`, or null when there is none |
| Citizen.NewReport | script.js:107-112 | the new row has no id, sits at the position, is Pendente, and belongs to the current user |
| Citizen.RemoveArgument | script.js:440 | the button passes the row's id when that id is present and non-zero, and the row's index otherwise |
| Citizen.FindById | script.js:472 | `find` by strict id equality: none exactly when no report has the id; otherwise the first that has it |
| Citizen.RemovalCheck | script.js:470-483 | not found exactly when no report has the id; for the first report with the id, removal is permitted exactly when the user owns it or it is unowned, and then it targets that report; a refusal names that report's owner, who is neither empty nor the user |
| Citizen.RemoveButtonAgrees | script.js:425-443 | for the first row with a given id, the Remover button is rendered exactly when pressing it passes `removerBuraco`'s ownership check on that same report |
| Citizen.UnsavedRowNotRemovable | script.js:439-443 | the button of a row without an id never removes that row: at most it removes another report whose id equals the row's index |
| Citizen.Sidebar | script.js:404-405 | the total is the list length, and the pending count is the number of Pendente reports (zero exactly when there is none) |
| Citizen.Positions | script.js:287-300 | one marker per report, at the report's position, in list order |
| Citizen.Client.constructor | script.js:3-10 | no reports and no markers at start, with the user's id fixed for the session |
| Citizen.Client.ClearMarkers | script.js:325-330 | after `limparMarcadores`, the marker list is empty |
| Citizen.Client.AddMarker | script.js:287-300 | exactly one marker is added, at the report's position |
| Citizen.Client.LoadPotholes | script.js:254-280 | markers are cleared first; on an error the list is unchanged and no markers remain; otherwise the rows replace the list, with one marker each |
| Citizen.Client.ReportPothole | script.js:107-175 | at a duplicate, nothing is sent and nothing changes; otherwise the new row is sent, and the first returned row gets a marker; the loaded list is never refreshed here |
| ServiceWorker.TileHostSubsumed | sw.js:175-180 | the `tile.openstreetmap.org` disjunct is implied by the `openstreetmap.org` one |
| ServiceWorker.Dispatch | sw.js:61-153 | exactly one strategy per request, taken in the order static, API, tiles, network |
| ServiceWorker.DirectoryPathIsCacheFirst | sw.js:164 | a path ending in '/' is served cache-first whatever its host |
| ServiceWorker.SupabaseDirectoryIsCacheFirst | sw.js:65-107 | a supabase.co URL whose path ends in '/' is an API request, and the static rule still takes it |
| ServiceWorker.PngTileIsCacheFirst | sw.js:156-166 | an OpenStreetMap tile ending in '.png' is a tile request that the static rule serves cache-first |
| ServiceWorker.Handle | sw.js:61-153 | see the bullets below this table |
| ServiceWorker.CachesToDelete | sw.js:44-51 | activation deletes exactly the caches whose name is not `ceres-buracos-v1` |
| ServiceWorker.ActivationKeepsOnlyCurrent | sw.js:44-51 | only `CACHE_NAME` survives activation; the `-api`, `-tiles` and `-offline` caches are deleted |
| ServiceWorker.NetworkFirstStoresArePruned | sw.js:108-147 | whatever the API or tile strategy stores, the next activation deletes |
| ServiceWorker.SyncDeletes | sw.js:200-220 | the deleted keys are exactly the offline-report keys whose POST answered ok; a POST that is not ok or that rejects leaves its key |
| ServiceWorker.SyncAsWritten | sw.js:192-227 | with no offline-report key, the sync completes and deletes nothing; otherwise it rejects at the first offline-report key, every earlier key being of another kind |
| ServiceWorker.SyncReports | sw.js:192-227 | the corrected sync deletes exactly the offline-report keys whose POST answered ok, and it rejects exactly when the POST of some offline report rejects |
| ServiceWorker.SyncAsWrittenNeverDeletes | sw.js:192-227 | the sync as written deletes nothing; whenever the corrected sync would delete a key, it rejects |
| ServiceWorker.OfflineReportNeverSynced | sw.js:199-201 | with one stored offline report and an ok POST, the corrected sync deletes it, while the sync as written rejects at it |

`ServiceWorker.Handle` states the following:

- A static request found in the cache is answered from the cache, and nothing is stored.
- The static cache is written exactly when all of these hold:
  - the request is static;
  - it was not cached;
  - the network answered;
  - the response is a 200 of type basic;
  - the request is a GET.
- The `-api` or `-tiles` cache is written exactly when its strategy was chosen, the network answered, and the request is a GET.
  - `cache.put` refuses other methods, and that refusal is dropped, so the app's own inserts, updates and deletes against Supabase are never stored.
- A cache is written only with the network response, and that response is also what the page receives.
- When the network fails, the API and tile strategies answer from their own cache.
- The offline page is served exactly when a static document request misses the cache and the network fails.
- The request fails without any cache lookup exactly when the network fails and either:
  - the request goes to the plain network;
  - or it is a static request that is not a document and missed the cache.
- The response is stored in no cache other than these three, and a plain-network request stores nothing.

## Left out

- The Haversine distance (gestor.js:532-542, script.js:197-207) is the parameter `dist`. Floating-point arithmetic, and the lack of clamping before `sqrt`, are therefore not modelled.
- JavaScript numbers are modelled as `real` and `int`. NaN and Infinity are left out. With real-valued distances the first comparison against `Infinity` always succeeds, so the `nearest === null` branch never runs, and the NaN non-termination does not arise.
- Supabase reads, inserts, updates and deletes are network I/O. A query becomes its result (`Query`). `updateStatus` and `deleteReport` only reload the list, so they are not modelled separately.
- The DOM, Bootstrap and Leaflet work is left out: rendering of tables, popups, toasts, map markers and route lines. Markers are modelled as a list of positions.
- Also left out: `setTimeout`/`setInterval` refreshes, the `isReporting` and refresh-button guards, geolocation with its `MODO_TESTE` fallback, login against hard-coded credentials with `sessionStorage`, config.js and `gerarIdUsuario`.
- Number and date formatting is left out: `toFixed`, the unit suffixes of `getTimeAgo`, the Google Maps URL. So are `openRouteInGoogleMaps`, `shareRoute` and `printRoute`.
- In sw.js, the following are left out:
  - `new URL` parsing (the hostname and pathname are given as strings);
  - the Cache Storage and promise plumbing;
  - the `install` handler with its pre-cache list;
  - the push and notification handlers;
  - the handling of a `null` response in the static strategy (`fetch` never resolves to one, so `Cacheable` tests only status and type);
  - whether a fallback cache lookup (`CachedCopy`, `OfflinePage`) finds its entry: a lookup that misses resolves to `undefined`, and the request then fails for the page as well; the model records only which lookup is made;
  - failures of `cache.match` or `response.json()` while a sync reads a stored report (only the POST's outcome is modelled).
- Citizen.Client.ReportPothole: does not model what happens after an insert that fails or throws, beyond adding no marker; the alerts and the sidebar refresh are UI.
- A worked route example over concrete points is not included. Unfolding the greedy definition over literal sequences exceeds the solver's budget, so the general greedy-choice lemmas stand in for it.

## Findings

| source | as written | input that shows it | evidently intended | confidence | as-written member | corrected member |
|---|---|---|---|---|---|---|
| sw.js:201 | the key callback calls `cache.match(key)` and `cache.delete(key)`, but `cache` is the parameter of the previous `then` callback and is not in scope there; the first offline-report key throws a ReferenceError, the sync rejects, and no stored report is ever sent or deleted | one key `https://example.org/offline-report/1` whose POST would succeed | each offline report is sent, and deleted from the offline cache once the POST is ok | high (scoping rule; not executed) | ServiceWorker.SyncAsWritten | ServiceWorker.SyncReports |
