/**
 * The manager console (gestor.js): statistics, status classes and the
 * status transitions its buttons offer, the "time ago" label, the selection
 * of route stops, and the console's own state (report snapshot, current
 * filter, last optimised route).
 */
module Gestor {
  import opened Common
  import opened Reports
  import opened Route

  /** The four counters `updateStatistics` shows. */
  datatype Statistics = Statistics(total: nat, pending: nat, maintenance: nat, resolved: nat)

  /** `updateStatistics`: the list length and one status filter count per status. */
  function ComputeStatistics(reports: seq<Report>): (s: Statistics)
    ensures s.total == |reports|
    ensures s.pending == |set i | 0 <= i < |reports| && reports[i].status == PENDENTE|
    ensures s.maintenance == |set i | 0 <= i < |reports| && reports[i].status == EM_MANUTENCAO|
    ensures s.resolved == |set i | 0 <= i < |reports| && reports[i].status == RESOLVIDO|
    ensures s.pending <= s.total && s.maintenance <= s.total && s.resolved <= s.total
  {
    Statistics(|reports|, CountStatus(reports, PENDENTE),
      CountStatus(reports, EM_MANUTENCAO), CountStatus(reports, RESOLVIDO))
  }

  /** The number of reports in a status other than the three known ones. */
  function CountUnknown(reports: seq<Report>): (n: nat)
    ensures n == |set i | 0 <= i < |reports| && !IsKnownStatus(reports[i].status)|
  {
    CountUnknownIsFilterLength(reports);
    |Filter(reports, (b: Report) => !IsKnownStatus(b.status))|
  }

  lemma CountUnknownIsFilterLength(reports: seq<Report>)
    ensures |Filter(reports, (b: Report) => !IsKnownStatus(b.status))| ==
      |set i | 0 <= i < |reports| && !IsKnownStatus(reports[i].status)|
  {
    var p := (b: Report) => !IsKnownStatus(b.status);
    FilterCount(reports, p);
    assert PassingPositions(reports, p) == set i | 0 <= i < |reports| && !IsKnownStatus(reports[i].status);
  }

  /**
   * The three counters and the reports in any other status add up to the
   * total; so the counters cover every report exactly when every status is
   * one of the three.
   */
  lemma StatisticsPartition(reports: seq<Report>)
    ensures var s := ComputeStatistics(reports);
      s.pending + s.maintenance + s.resolved + CountUnknown(reports) == s.total
    ensures var s := ComputeStatistics(reports);
      s.pending + s.maintenance + s.resolved == s.total <==>
      forall i :: 0 <= i < |reports| ==> IsKnownStatus(reports[i].status)
  {
    FilterPartition(reports);
  }

  /** The statement of `StatisticsPartition` over the filtered lists themselves, by induction on the list. */
  lemma {:induction false} FilterPartition(reports: seq<Report>)
    ensures |WithStatus(reports, PENDENTE)| + |WithStatus(reports, EM_MANUTENCAO)| +
      |WithStatus(reports, RESOLVIDO)| + |Filter(reports, (b: Report) => !IsKnownStatus(b.status))| == |reports|
    ensures Filter(reports, (b: Report) => !IsKnownStatus(b.status)) == [] <==>
      forall i :: 0 <= i < |reports| ==> IsKnownStatus(reports[i].status)
    decreases |reports|
  {
    if reports != [] {
      FilterPartition(reports[1..]);
      var u := Filter(reports, (b: Report) => !IsKnownStatus(b.status));
      if u != [] {
        assert u[0] in reports && !IsKnownStatus(u[0].status);
      }
      forall i | 0 <= i < |reports| && !IsKnownStatus(reports[i].status) ensures u != [] {
        assert reports[i] in u;
      }
    }
  }

  /** `getStatusClass`: the CSS class suffix for a status; anything unknown looks pending. */
  function StatusClass(status: string): (c: string)
    ensures c == "manutencao" <==> status == EM_MANUTENCAO
    ensures c == "resolvido" <==> status == RESOLVIDO
    ensures c == "pendente" <==> status != EM_MANUTENCAO && status != RESOLVIDO
  {
    if status == PENDENTE then "pendente"
    else if status == EM_MANUTENCAO then "manutencao"
    else if status == RESOLVIDO then "resolvido"
    else "pendente"
  }

  /** A button `getActionButtons` renders: a status change, or delete. */
  datatype Action = SetStatus(to: string) | Delete

  /** `getActionButtons`: the buttons of one table row, in rendering order. */
  function ActionButtons(status: string): (r: seq<Action>)
    ensures |r| > 0 && r[|r| - 1] == Delete
    ensures forall i :: 0 <= i < |r| - 1 ==>
      r[i].SetStatus? && IsKnownStatus(r[i].to) && r[i].to != status && r[i].to != PENDENTE
    ensures |r| > 1 <==> IsKnownStatus(status)
  {
    if status == PENDENTE then [SetStatus(EM_MANUTENCAO), SetStatus(RESOLVIDO), Delete]
    else if status == EM_MANUTENCAO then [SetStatus(RESOLVIDO), Delete]
    else if status == RESOLVIDO then [SetStatus(EM_MANUTENCAO), Delete]
    else [Delete]
  }

  /** The status changes the buttons allow, as a relation between statuses. */
  predicate Offers(from: string, to: string) {
    SetStatus(to) in ActionButtons(from)
  }

  /**
   * The transition table: Pendente moves to Em Manutenção or Resolvido,
   * Em Manutenção to Resolvido, Resolvido back to Em Manutenção; nothing
   * else, and no report is ever sent back to Pendente.
   */
  lemma OffersExactly(from: string, to: string)
    ensures Offers(from, to) <==>
      (from == PENDENTE && (to == EM_MANUTENCAO || to == RESOLVIDO)) ||
      (from == EM_MANUTENCAO && to == RESOLVIDO) ||
      (from == RESOLVIDO && to == EM_MANUTENCAO)
  {
  }

  /** Deletion is offered in every status, including unknown ones. */
  lemma DeleteAlwaysOffered(status: string)
    ensures Delete in ActionButtons(status)
  {
    var r := ActionButtons(status);
    assert r[|r| - 1] == Delete;
  }

  /** The label `getTimeAgo` builds, before the number is turned into text. */
  datatype TimeAgo = FewSeconds | Minutes(n: int) | Hours(n: int) | Days(n: int) | Months(n: int)

  /**
   * `getTimeAgo` on the elapsed whole seconds: the first bucket whose bound
   * the value is under, with the count rounded down; a negative elapsed time
   * (a clock ahead of the server) reads as "a few seconds".
   */
  function TimeAgoOf(seconds: int): (t: TimeAgo)
    ensures t.FewSeconds? <==> seconds < 60
    ensures t.Minutes? <==> 60 <= seconds < 3600
    ensures t.Hours? <==> 3600 <= seconds < 86400
    ensures t.Days? <==> 86400 <= seconds < 2592000
    ensures t.Months? <==> 2592000 <= seconds
    ensures t.Minutes? ==> 1 <= t.n < 60 && t.n * 60 <= seconds < (t.n + 1) * 60
    ensures t.Hours? ==> 1 <= t.n < 24 && t.n * 3600 <= seconds < (t.n + 1) * 3600
    ensures t.Days? ==> 1 <= t.n < 30 && t.n * 86400 <= seconds < (t.n + 1) * 86400
    ensures t.Months? ==> 1 <= t.n && t.n * 2592000 <= seconds < (t.n + 1) * 2592000
  {
    if seconds < 60 then FewSeconds
    else if seconds < 3600 then Minutes(seconds / 60)
    else if seconds < 86400 then Hours(seconds / 3600)
    else if seconds < 2592000 then Days(seconds / 86400)
    else Months(seconds / 2592000)
  }

  /**
   * `Math.floor((now - date) / 1000)`: whole seconds from milliseconds,
   * rounded toward minus infinity (Dafny's division by a positive divisor
   * rounds the same way).
   */
  function ElapsedSeconds(elapsedMs: int): (s: int)
    ensures s * 1000 <= elapsedMs < (s + 1) * 1000
  {
    elapsedMs / 1000
  }

  /** The fixed start of every route: the municipal garage. */
  const GARAGE: Coord := Coord(-15.310332144673131, -49.617540026618634)

  /** A route point: the garage, or an open report. */
  datatype Waypoint = Garage | Stop(report: Report)
  {
    function Pos(): Coord {
      match this
      case Garage => GARAGE
      case Stop(r) => r.Pos()
    }
  }

  /** `calculateDistance` between two route points, from the distance on coordinates. */
  function WaypointDist(dist: (Coord, Coord) -> real): (Waypoint, Waypoint) -> real {
    (a: Waypoint, b: Waypoint) => dist(a.Pos(), b.Pos())
  }

  /** The reports a route visits: those Pendente or Em Manutenção, in list order. */
  function RouteStops(reports: seq<Report>): (r: seq<Report>)
    ensures forall i :: 0 <= i < |r| ==> r[i] in reports && (r[i].status == PENDENTE || r[i].status == EM_MANUTENCAO)
    ensures forall i :: 0 <= i < |reports| && (reports[i].status == PENDENTE || reports[i].status == EM_MANUTENCAO) ==> reports[i] in r
  {
    Filter(reports, (b: Report) => b.status == PENDENTE || b.status == EM_MANUTENCAO)
  }

  /**
   * The stops keep the order of the report list: selecting from a list
   * split in two is selecting from each part in turn, and a single report
   * is kept exactly when it is open.
   */
  lemma RouteStopsInListOrder(a: seq<Report>, b: seq<Report>, x: Report)
    ensures RouteStops(a + b) == RouteStops(a) + RouteStops(b)
    ensures RouteStops([x]) == if x.status == PENDENTE || x.status == EM_MANUTENCAO then [x] else []
  {
    FilterAppend(a, b, (r: Report) => r.status == PENDENTE || r.status == EM_MANUTENCAO);
    FilterSingleton(x, (r: Report) => r.status == PENDENTE || r.status == EM_MANUTENCAO);
  }

  /**
   * The waypoints `generateOptimizedRoute` hands to the route builder: none
   * when there is no open report, else the garage followed by the stops.
   */
  function Waypoints(reports: seq<Report>): (w: Option<seq<Waypoint>>)
    ensures w.None? <==> RouteStops(reports) == []
    ensures w.Some? ==>
      |w.value| == |RouteStops(reports)| + 1 && w.value[0] == Garage &&
      forall i :: 0 < i < |w.value| ==> w.value[i] == Stop(RouteStops(reports)[i - 1])
  {
    var stops := RouteStops(reports);
    if stops == [] then None
    else Some([Garage] + seq(|stops|, (i: int) requires 0 <= i < |stops| => Stop(stops[i])))
  }

  /**
   * A generated route starts at the garage, visits the garage nowhere else,
   * and visits every open report exactly as often as it is listed.
   */
  lemma GeneratedRoute(dist: (Coord, Coord) -> real, reports: seq<Report>)
    requires Waypoints(reports).Some?
    ensures var w := Waypoints(reports).value;
      var r := OptimizedRoute(WaypointDist(dist), w);
      |r| == |w| && r[0] == Garage && multiset(r[1..]) == multiset(w[1..]) &&
      forall i :: 0 < i < |r| ==> r[i].Stop? && r[i].report in RouteStops(reports)
  {
    var w := Waypoints(reports).value;
    var r := OptimizedRoute(WaypointDist(dist), w);
    RouteTailPermutes(WaypointDist(dist), w);
    forall i | 0 < i < |r| ensures r[i].Stop? && r[i].report in RouteStops(reports) {
      StopsOnly(reports, r[1..], i - 1);
    }
  }

  /** A point of a sequence with the same elements as the waypoints after the garage is an open report. */
  lemma StopsOnly(reports: seq<Report>, tail: seq<Waypoint>, k: nat)
    requires Waypoints(reports).Some? && k < |tail|
    requires multiset(tail) == multiset(Waypoints(reports).value[1..])
    ensures tail[k].Stop? && tail[k].report in RouteStops(reports)
  {
    var w := Waypoints(reports).value;
    assert tail[k] in multiset(w[1..]);
    var j :| 0 <= j < |w[1..]| && w[1..][j] == tail[k];
    assert w[j + 1] == tail[k];
  }

  /**
   * The console's module-level state: the report snapshot, the table and
   * map filter, and the last optimised route.
   */
  class Console {
    var reports: seq<Report>
    var currentFilter: string
    var optimizedRoute: seq<Waypoint>

    constructor ()
      ensures reports == [] && currentFilter == "all" && optimizedRoute == []
    {
      reports := [];
      currentFilter := "all";
      optimizedRoute := [];
    }

    /**
     * `loadReports`: on an error the snapshot stays as it was; otherwise the
     * rows read (`data || []`) replace it.
     */
    method LoadReports(q: Query)
      modifies this`reports
      ensures reports == if q.QueryOk? then Rows(q) else old(reports)
    {
      if q.QueryError? {
        return;
      }
      reports := Rows(q);
    }

    /** `filterReports`: selects what the table and the map show. */
    method FilterReports(filter: string)
      modifies this`currentFilter
      ensures currentFilter == filter
    {
      currentFilter := filter;
    }

    /**
     * What `renderReports` and `updateMapMarkers` show: under 'all' every
     * report, otherwise exactly those whose status is the filter.
     */
    function Visible(): (r: seq<Report>)
      reads this
      ensures currentFilter == "all" ==> r == reports
      ensures |r| <= |reports|
      ensures forall i :: 0 <= i < |r| ==>
        r[i] in reports && (currentFilter == "all" || r[i].status == currentFilter)
      ensures forall i :: 0 <= i < |reports| && (currentFilter == "all" || reports[i].status == currentFilter) ==>
        reports[i] in r
    {
      if currentFilter == "all" then reports else WithStatus(reports, currentFilter)
    }

    /**
     * `generateOptimizedRoute`: with no open report nothing is built and the
     * previous route stays; otherwise the route over the garage and the open
     * reports replaces it.
     */
    method GenerateOptimizedRoute(dist: (Coord, Coord) -> real) returns (generated: bool)
      modifies this`optimizedRoute
      ensures generated <==> RouteStops(reports) != []
      ensures generated ==> optimizedRoute == OptimizedRoute(WaypointDist(dist), Waypoints(reports).value)
      ensures !generated ==> optimizedRoute == old(optimizedRoute)
    {
      var waypoints := Waypoints(reports);
      if waypoints.None? {
        return false;
      }
      optimizedRoute := CalculateOptimizedRoute(WaypointDist(dist), waypoints.value);
      return true;
    }

    /** `updateRouteInfo` on the current route. */
    method UpdateRouteInfo(dist: (Coord, Coord) -> real) returns (info: Option<RouteInfo>)
      ensures info.None? <==> optimizedRoute == []
      ensures info.Some? ==>
        info.value.stops == |optimizedRoute| - 1 &&
        info.value.totalDistance == PathLength(WaypointDist(dist), optimizedRoute) &&
        info.value.estimatedMinutes == Estimate(PathLength(WaypointDist(dist), optimizedRoute))
    {
      info := ComputeRouteInfo(WaypointDist(dist), optimizedRoute);
    }
  }
}
