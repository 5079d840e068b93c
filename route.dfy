/**
 * Route planning in the manager console (gestor.js): the nearest-neighbour
 * route builder and the route metrics. The great-circle distance the source
 * computes with the Haversine formula is a parameter `dist`; nothing here
 * depends on how it is computed.
 */
module Route {
  import opened Common

  /**
   * The index the inner `for` loop of `calculateOptimizedRoute` settles on:
   * the position in `u` of a point nearest to `c`, the earliest one when
   * several are equally near (the comparison is a strict `<`).
   */
  function FirstNearest<T>(dist: (T, T) -> real, c: T, u: seq<T>): (i: nat)
    requires |u| > 0
    ensures i < |u|
    ensures forall j :: 0 <= j < |u| ==> dist(c, u[i]) <= dist(c, u[j])
    ensures forall j :: 0 <= j < i ==> dist(c, u[i]) < dist(c, u[j])
    decreases |u|
  {
    if |u| == 1 then 0
    else
      var j := FirstNearest(dist, c, u[..|u| - 1]);
      if dist(c, u[|u| - 1]) < dist(c, u[j]) then |u| - 1 else j
  }

  /** The two properties of FirstNearest single out one index. */
  lemma FirstNearestUnique<T>(dist: (T, T) -> real, c: T, u: seq<T>, k: nat)
    requires k < |u|
    requires forall j :: 0 <= j < |u| ==> dist(c, u[k]) <= dist(c, u[j])
    requires forall j :: 0 <= j < k ==> dist(c, u[k]) < dist(c, u[j])
    ensures FirstNearest(dist, c, u) == k
  {
  }

  /** `u` with the element at `i` taken out (`splice(i, 1)`), order otherwise kept. */
  function RemoveAt<T>(u: seq<T>, i: nat): (r: seq<T>)
    requires i < |u|
    ensures |r| == |u| - 1
    ensures multiset(r) + multiset{u[i]} == multiset(u)
    ensures forall j :: 0 <= j < i ==> r[j] == u[j]
    ensures forall j :: i <= j < |r| ==> r[j] == u[j + 1]
  {
    assert u == u[..i] + [u[i]] + u[i + 1..];
    u[..i] + u[i + 1..]
  }

  /**
   * The points the greedy loop appends, in order, when it stands at `c` and
   * `u` is still unvisited.
   */
  function Greedy<T>(dist: (T, T) -> real, c: T, u: seq<T>): seq<T>
    decreases |u|
  {
    if |u| == 0 then []
    else
      var i := FirstNearest(dist, c, u);
      [u[i]] + Greedy(dist, u[i], RemoveAt(u, i))
  }

  /**
   * The route `calculateOptimizedRoute` returns: the input itself when it has
   * at most one point, otherwise its first point followed by the greedy
   * sequence over the rest.
   */
  function OptimizedRoute<T>(dist: (T, T) -> real, waypoints: seq<T>): seq<T>
  {
    if |waypoints| <= 1 then waypoints
    else [waypoints[0]] + Greedy(dist, waypoints[0], waypoints[1..])
  }

  /**
   * The inner `for` loop of `calculateOptimizedRoute`: scans `unvisited`
   * and keeps the index of the strictly nearest point to `current` seen so
   * far. `nearest === null` stands for "minDistance is still Infinity"; with
   * real-valued distances the first comparison always succeeds, so a
   * non-empty `unvisited` always yields an index.
   */
  method FindNearest<T>(dist: (T, T) -> real, current: T, unvisited: seq<T>) returns (nearest: Option<nat>)
    ensures nearest.None? <==> |unvisited| == 0
    ensures nearest.Some? ==> nearest.value == FirstNearest(dist, current, unvisited)
  {
    nearest := None;
    var minDistance := 0.0;
    for i := 0 to |unvisited|
      invariant nearest.None? <==> i == 0
      invariant nearest.Some? ==>
        nearest.value == FirstNearest(dist, current, unvisited[..i]) &&
        minDistance == dist(current, unvisited[nearest.value])
    {
      var distance := dist(current, unvisited[i]);
      assert unvisited[..i + 1][..i] == unvisited[..i];
      if nearest.None? || distance < minDistance {
        minDistance := distance;
        nearest := Some(i);
      }
    }
    assert unvisited[..|unvisited|] == unvisited;
  }

  /**
   * `calculateOptimizedRoute`: copies the waypoints into `unvisited`, moves
   * the first one into `route`, then repeatedly appends the nearest unvisited
   * point to the last point of the route and splices it out of `unvisited`.
   */
  method CalculateOptimizedRoute<T>(dist: (T, T) -> real, waypoints: seq<T>) returns (route: seq<T>)
    ensures route == OptimizedRoute(dist, waypoints)
  {
    if |waypoints| <= 1 {
      return waypoints;
    }
    var unvisited := waypoints;
    route := [unvisited[0]];
    unvisited := unvisited[1..];
    while |unvisited| > 0
      invariant |route| > 0
      invariant route + Greedy(dist, route[|route| - 1], unvisited) == OptimizedRoute(dist, waypoints)
      decreases |unvisited|
    {
      var current := route[|route| - 1];
      var nearest := FindNearest(dist, current, unvisited);
      if nearest.Some? {
        GreedyStep(dist, route, unvisited, nearest.value);
        route := route + [unvisited[nearest.value]];
        unvisited := RemoveAt(unvisited, nearest.value);
      }
    }
  }

  /** One pass of the outer loop keeps the route on course for the greedy result. */
  lemma GreedyStep<T>(dist: (T, T) -> real, route: seq<T>, unvisited: seq<T>, k: nat)
    requires |route| > 0 && |unvisited| > 0
    requires k == FirstNearest(dist, route[|route| - 1], unvisited)
    ensures (route + [unvisited[k]]) + Greedy(dist, unvisited[k], RemoveAt(unvisited, k))
         == route + Greedy(dist, route[|route| - 1], unvisited)
  {
    var rest := Greedy(dist, unvisited[k], RemoveAt(unvisited, k));
    assert Greedy(dist, route[|route| - 1], unvisited) == [unvisited[k]] + rest;
    assert (route + [unvisited[k]]) + rest == route + ([unvisited[k]] + rest);
  }

  /** The greedy sequence visits every unvisited point exactly once. */
  lemma {:induction false} GreedyPermutes<T>(dist: (T, T) -> real, c: T, u: seq<T>)
    ensures |Greedy(dist, c, u)| == |u|
    ensures multiset(Greedy(dist, c, u)) == multiset(u)
    decreases |u|
  {
    if |u| > 0 {
      var i := FirstNearest(dist, c, u);
      GreedyPermutes(dist, u[i], RemoveAt(u, i));
    }
  }

  /**
   * The route has as many points as the input, is a permutation of it, and
   * starts at the input's first point (the garage); input of at most one
   * point comes back unchanged.
   */
  lemma RoutePermutes<T>(dist: (T, T) -> real, waypoints: seq<T>)
    ensures |OptimizedRoute(dist, waypoints)| == |waypoints|
    ensures multiset(OptimizedRoute(dist, waypoints)) == multiset(waypoints)
    ensures |waypoints| > 0 ==> OptimizedRoute(dist, waypoints)[0] == waypoints[0]
    ensures |waypoints| <= 1 ==> OptimizedRoute(dist, waypoints) == waypoints
  {
    if |waypoints| > 1 {
      GreedyPermutes(dist, waypoints[0], waypoints[1..]);
      assert waypoints == [waypoints[0]] + waypoints[1..];
    }
  }

  /**
   * At step `k` of route `r` over the points `w`: the point appended,
   * `r[k + 1]`, is one not yet on `r[..k + 1]`, and no such point is nearer
   * to `r[k]`.
   */
  ghost predicate ChoosesNearest<T>(dist: (T, T) -> real, w: seq<T>, r: seq<T>, k: nat)
    requires k + 1 < |r|
  {
    r[k + 1] in multiset(w) - multiset(r[..k + 1]) &&
    forall q | q in multiset(w) - multiset(r[..k + 1]) :: dist(r[k], r[k + 1]) <= dist(r[k], q)
  }

  /**
   * After the fixed first point, the route visits exactly the remaining
   * input points, each as often as it is listed.
   */
  lemma RouteTailPermutes<T>(dist: (T, T) -> real, waypoints: seq<T>)
    requires |waypoints| > 0
    ensures |OptimizedRoute(dist, waypoints)| == |waypoints|
    ensures OptimizedRoute(dist, waypoints)[0] == waypoints[0]
    ensures multiset(OptimizedRoute(dist, waypoints)[1..]) == multiset(waypoints[1..])
  {
    RoutePermutes(dist, waypoints);
    if |waypoints| > 1 {
      GreedyPermutes(dist, waypoints[0], waypoints[1..]);
      assert OptimizedRoute(dist, waypoints)[1..] == Greedy(dist, waypoints[0], waypoints[1..]);
    }
  }

  /** Greedy choice, stated over the greedy sequence with the starting point `c` in front. */
  lemma {:induction false} GreedyChoosesNearest<T>(dist: (T, T) -> real, c: T, u: seq<T>, k: nat)
    requires k < |u|
    ensures |Greedy(dist, c, u)| == |u|
    ensures ChoosesNearest(dist, [c] + u, [c] + Greedy(dist, c, u), k)
    decreases |u|
  {
    GreedyPermutes(dist, c, u);
    if k == 0 {
      FirstStep(dist, c, u);
    } else {
      var i := FirstNearest(dist, c, u);
      GreedyChoosesNearest(dist, u[i], RemoveAt(u, i), k - 1);
      ShiftStep(dist, c, u, k);
    }
  }

  /** The first step of the greedy sequence picks a nearest point. */
  lemma FirstStep<T>(dist: (T, T) -> real, c: T, u: seq<T>)
    requires |u| > 0
    ensures |Greedy(dist, c, u)| == |u|
    ensures ChoosesNearest(dist, [c] + u, [c] + Greedy(dist, c, u), 0)
  {
    GreedyPermutes(dist, c, u);
    var i := FirstNearest(dist, c, u);
    var g := Greedy(dist, c, u);
    assert g[0] == u[i];
    PickNearest(dist, c, u, i, [c] + g);
  }

  /** A route from `c` whose next point is a nearest point of `u` chooses nearest at step 0. */
  lemma PickNearest<T>(dist: (T, T) -> real, c: T, u: seq<T>, i: nat, r: seq<T>)
    requires i < |u| && |r| >= 2 && r[0] == c && r[1] == u[i]
    requires forall j :: 0 <= j < |u| ==> dist(c, u[i]) <= dist(c, u[j])
    ensures ChoosesNearest(dist, [c] + u, r, 0)
  {
    assert r[..1] == [c];
    DropStart(c, u, []);
    assert multiset(u) - multiset([]) == multiset(u);
    forall q | q in multiset(u) ensures dist(c, u[i]) <= dist(c, q) {
      var j :| 0 <= j < |u| && u[j] == q;
    }
  }

  /** Step `k` from `c` is step `k - 1` from the first point the greedy sequence picks. */
  lemma ShiftStep<T>(dist: (T, T) -> real, c: T, u: seq<T>, k: nat)
    requires 0 < k < |u|
    ensures |Greedy(dist, c, u)| == |u|
    ensures |Greedy(dist, u[FirstNearest(dist, c, u)], RemoveAt(u, FirstNearest(dist, c, u)))| == |u| - 1
    ensures var i := FirstNearest(dist, c, u);
      ChoosesNearest(dist, [u[i]] + RemoveAt(u, i), [u[i]] + Greedy(dist, u[i], RemoveAt(u, i)), k - 1) ==>
      ChoosesNearest(dist, [c] + u, [c] + Greedy(dist, c, u), k)
  {
    var i := FirstNearest(dist, c, u);
    GreedyPermutes(dist, c, u);
    GreedyPermutes(dist, u[i], RemoveAt(u, i));
    var r' := [u[i]] + Greedy(dist, u[i], RemoveAt(u, i));
    var r := [c] + Greedy(dist, c, u);
    assert r == [c] + r';
    assert r[k] == r'[k - 1] && r[k + 1] == r'[k];
    assert r[..k + 1] == [c] + r'[..k];
    DropStart(c, u, r'[..k]);
    assert multiset([c] + u) - multiset(r[..k + 1]) == multiset([u[i]] + RemoveAt(u, i)) - multiset(r'[..k]);
  }

  /** Taking the starting point off both sides leaves the unvisited points. */
  lemma DropStart<T>(c: T, u: seq<T>, visited: seq<T>)
    ensures multiset([c] + u) - multiset([c] + visited) == multiset(u) - multiset(visited)
  {
  }

  /**
   * Greedy choice on the route itself: each `route[k + 1]` is a point not
   * yet on `route[..k + 1]`, and among those points none is nearer to
   * `route[k]`.
   */
  lemma GreedyChoice<T>(dist: (T, T) -> real, waypoints: seq<T>, k: nat)
    requires k + 1 < |waypoints|
    ensures |OptimizedRoute(dist, waypoints)| == |waypoints|
    ensures ChoosesNearest(dist, waypoints, OptimizedRoute(dist, waypoints), k)
  {
    GreedyChoosesNearest(dist, waypoints[0], waypoints[1..], k);
    assert [waypoints[0]] + waypoints[1..] == waypoints;
  }

  /** Distances never negative, as the Haversine formula guarantees. */
  ghost predicate NonNegative<T(!new)>(dist: (T, T) -> real) {
    forall p, q :: dist(p, q) >= 0.0
  }

  /** The sum of the legs between consecutive points of `route`, 0 for at most one point. */
  function PathLength<T>(dist: (T, T) -> real, route: seq<T>): real
    decreases |route|
  {
    if |route| <= 1 then 0.0
    else PathLength(dist, route[..|route| - 1]) + dist(route[|route| - 2], route[|route| - 1])
  }

  /** With non-negative distances, so is the total. */
  lemma {:induction false} PathLengthNonNegative<T(!new)>(dist: (T, T) -> real, route: seq<T>)
    requires NonNegative(dist)
    ensures PathLength(dist, route) >= 0.0
    decreases |route|
  {
    if |route| > 1 {
      PathLengthNonNegative(dist, route[..|route| - 1]);
    }
  }

  /** The total read from the front: the first leg plus the length of the rest. */
  lemma {:induction false} PathLengthCons<T>(dist: (T, T) -> real, p: T, route: seq<T>)
    requires |route| > 0
    ensures PathLength(dist, [p] + route) == dist(p, route[0]) + PathLength(dist, route)
    decreases |route|
  {
    var n := |route|;
    if n > 1 {
      assert ([p] + route)[..n] == [p] + route[..n - 1];
      PathLengthCons(dist, p, route[..n - 1]);
    } else {
      assert [p] + route == [p, route[0]];
    }
  }

  /** JavaScript's `Math.round`: the nearest integer, halves rounded up. */
  function Round(x: real): (n: int)
    ensures n as real - 0.5 <= x < n as real + 0.5
  {
    (x + 0.5).Floor
  }

  /**
   * The minutes estimate as written in `updateRouteInfo`:
   * `Math.round(totalDistance / 500 * 60)`.
   */
  function Estimate(totalDistance: real): int {
    Round(totalDistance / 500.0 * 60.0)
  }

  /**
   * The estimate scales to 60 minutes per 500 m, sixty times the 500 m per
   * minute its comment names.
   */
  lemma EstimatePerFiveHundredMetres(n: int)
    ensures Estimate(500.0 * n as real) == 60 * n
  {
    assert 500.0 * n as real / 500.0 * 60.0 == (60 * n) as real;
  }

  /** The estimate never decreases as the distance grows, and is 0 for no distance. */
  lemma EstimateMonotone(a: real, b: real)
    requires 0.0 <= a <= b
    ensures 0 <= Estimate(a) <= Estimate(b)
  {
    assert a / 500.0 * 60.0 <= b / 500.0 * 60.0;
  }

  /** What `updateRouteInfo` shows: stops (the garage excluded), metres, minutes. */
  datatype RouteInfo = RouteInfo(stops: nat, totalDistance: real, estimatedMinutes: int)

  /**
   * `updateRouteInfo`: nothing for an empty route; otherwise accumulates the
   * legs in a loop and derives the stop count and the estimate.
   */
  method ComputeRouteInfo<T>(dist: (T, T) -> real, route: seq<T>) returns (info: Option<RouteInfo>)
    ensures info.None? <==> route == []
    ensures info.Some? ==>
      info.value.stops == |route| - 1 &&
      info.value.totalDistance == PathLength(dist, route) &&
      info.value.estimatedMinutes == Estimate(PathLength(dist, route))
  {
    if |route| == 0 {
      return None;
    }
    var totalDistance := 0.0;
    for i := 1 to |route|
      invariant totalDistance == PathLength(dist, route[..i])
    {
      assert route[..i + 1][..i] == route[..i];
      totalDistance := totalDistance + dist(route[i - 1], route[i]);
    }
    assert route[..|route|] == route;
    info := Some(RouteInfo(|route| - 1, totalDistance, Round(totalDistance / 500.0 * 60.0)));
  }
}
