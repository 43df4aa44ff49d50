/** Locations, distance matrices and the shape of a multi-vehicle solution.
    Index 0 is the depot; a route leaves it, visits stops, and comes back. */
module Routes {

  /** One entry of the distance matrix. `Inf` stands for every value the solver
      treats as "not finite" (positive or negative infinity, NaN): the solver
      only ever asks whether an entry is finite. */
  datatype Ext = Fin(v: real) | Inf

  type Matrix = seq<seq<Ext>>
  type Route = seq<nat>
  type Solution = seq<Route>

  /** The matrix is n by n. */
  predicate Square(d: Matrix, n: nat) {
    |d| == n && forall x :: 0 <= x < n ==> |d[x]| == n
  }

  /** Every entry is a non-negative finite distance or not finite. */
  predicate NonNegative(d: Matrix) {
    forall x, y :: 0 <= x < |d| && 0 <= y < |d[x]| && d[x][y].Fin? ==> d[x][y].v >= 0.0
  }

  /** A step to a candidate is allowed only over a finite, nonzero distance. */
  predicate Reachable(e: Ext) {
    e.Fin? && e.v != 0.0
  }

  /** Every location index of every route is a row of an n by n matrix. */
  predicate InBounds(sol: Solution, n: nat) {
    forall k, i :: 0 <= k < |sol| && 0 <= i < |sol[k]| ==> sol[k][i] < n
  }

  /** Every solution of every batch is in bounds. */
  predicate AllInBounds(batches: seq<seq<Solution>>, n: nat) {
    forall i, a :: 0 <= i < |batches| && 0 <= a < |batches[i]| ==> InBounds(batches[i][a], n)
  }

  /** The stops of a route strictly between its first and last entry. */
  function Interior(r: Route): seq<nat> {
    if |r| < 2 then [] else r[1..|r| - 1]
  }

  /** All intermediate stops of a solution, route after route. */
  function Stops(sol: Solution): seq<nat> {
    if |sol| == 0 then [] else Stops(sol[..|sol| - 1]) + Interior(sol[|sol| - 1])
  }

  predicate Distinct(s: seq<nat>) {
    forall i, j :: 0 <= i < j < |s| ==> s[i] != s[j]
  }

  /** A route starts and ends at the depot and its intermediate stops are pickup points. */
  predicate IsRoute(r: Route, n: nat) {
    |r| >= 2 && r[0] == 0 && r[|r| - 1] == 0 &&
    forall i :: 0 < i < |r| - 1 ==> 0 < r[i] < n
  }

  /** A route without stops leaves the depot and comes straight back. */
  lemma EmptyRoute(r: Route, n: nat)
    requires IsRoute(r, n) && |Interior(r)| == 0
    ensures r == [0, 0]
  {
  }

  /** Every step of the route except the closing return to the depot was
      taken over a finite, nonzero distance. */
  predicate StepsReachable(d: Matrix, r: Route) {
    forall i :: 0 <= i < |r| - 2 ==> EdgeReachable(d, r[i], r[i + 1])
  }

  /** The entry for the directed edge (a, b) exists and is reachable. */
  predicate EdgeReachable(d: Matrix, a: nat, b: nat) {
    a < |d| && b < |d[a]| && Reachable(d[a][b])
  }

  /** The per-vehicle limit on intermediate stops: a route stops growing once
      it holds more than n / nVehicles entries, counting the leading depot, so
      it has at most that many stops, and always room for one. */
  function StopCap(n: nat, nVehicles: nat): nat
    requires nVehicles > 0
  {
    if n / nVehicles < 1 then 1 else n / nVehicles
  }

  /** The structural promise of one ant's construction. */
  predicate Feasible(d: Matrix, n: nat, nVehicles: nat, sol: Solution)
    requires Square(d, n)
  {
    |sol| == nVehicles && InBounds(sol, n) &&
    (forall k :: 0 <= k < |sol| ==> IsRoute(sol[k], n)) &&
    (forall k :: 0 <= k < |sol| ==> |Interior(sol[k])| <= StopCap(n, nVehicles)) &&
    (forall k :: 0 <= k < |sol| ==> StepsReachable(d, sol[k])) &&
    Distinct(Stops(sol))
  }

  /** The candidates among locations 0 .. j - 1 for a step from `curr`: those
      still available and at a finite, nonzero distance, in ascending order. */
  function CandidatesBelow(d: Matrix, curr: nat, avail: set<nat>, j: nat): seq<nat>
    requires curr < |d| && j <= |d[curr]|
  {
    if j == 0 then []
    else CandidatesBelow(d, curr, avail, j - 1) + (if j - 1 in avail && Reachable(d[curr][j - 1]) then [j - 1] else [])
  }

  predicate Ascending(s: seq<nat>) {
    forall i, j :: 0 <= i < j < |s| ==> s[i] < s[j]
  }

  /** The candidates are exactly the available locations below j reachable
      from `curr`, each once, in ascending order. */
  lemma {:induction false} CandidatesBelowSpec(d: Matrix, curr: nat, avail: set<nat>, j: nat)
    requires curr < |d| && j <= |d[curr]|
    ensures forall c :: c in CandidatesBelow(d, curr, avail, j) <==> c < j && c in avail && Reachable(d[curr][c])
    ensures Ascending(CandidatesBelow(d, curr, avail, j))
  {
    if j > 0 {
      CandidatesBelowSpec(d, curr, avail, j - 1);
      var init := CandidatesBelow(d, curr, avail, j - 1);
      var s := CandidatesBelow(d, curr, avail, j);
      forall a, b | 0 <= a < b < |s|
        ensures s[a] < s[b]
      {
        if b == |init| {
          assert s[a] == init[a] && init[a] in init;
        }
      }
    }
  }

  lemma DistinctSnoc(s: seq<nat>, x: nat)
    requires Distinct(s) && x !in s
    ensures Distinct(s + [x])
  {
    forall i, j | 0 <= i < j < |s| + 1
      ensures (s + [x])[i] != (s + [x])[j]
    {
      if j == |s| {
        assert (s + [x])[i] == s[i];
      }
    }
  }

  /** Every stop of a solution lies in some route's interior, and conversely. */
  lemma {:induction false} InStops(sol: Solution, x: nat)
    ensures x in Stops(sol) <==> exists k :: 0 <= k < |sol| && x in Interior(sol[k])
  {
    if |sol| > 0 {
      var init := sol[..|sol| - 1];
      InStops(init, x);
      assert forall k :: 0 <= k < |init| ==> init[k] == sol[k];
      if x in Interior(sol[|sol| - 1]) {
        assert x in Stops(sol);
      }
    }
  }

  /** Each route contributes at most `cap` stops, so a solution holds at most
      |sol| * cap of them. */
  lemma {:induction false} StopsBound(sol: Solution, cap: nat)
    requires forall k :: 0 <= k < |sol| ==> |Interior(sol[k])| <= cap
    ensures |Stops(sol)| <= |sol| * cap
  {
    if |sol| > 0 {
      var init := sol[..|sol| - 1];
      assert forall k :: 0 <= k < |init| ==> init[k] == sol[k];
      StopsBound(init, cap);
      assert |Stops(sol)| == |Stops(init)| + |Interior(sol[|sol| - 1])|;
      MulSucc(|init|, cap);
    }
  }

  lemma MulSucc(a: nat, c: nat)
    ensures (a + 1) * c == a * c + c
  {
  }

  /** The set of elements of a sequence. */
  function Elems(s: seq<nat>): set<nat> {
    if |s| == 0 then {} else Elems(s[..|s| - 1]) + {s[|s| - 1]}
  }

  lemma {:induction false} ElemsBound(s: seq<nat>)
    ensures |Elems(s)| <= |s|
    ensures forall x :: x in Elems(s) <==> x in s
  {
    if |s| > 0 {
      var init := s[..|s| - 1];
      ElemsBound(init);
      assert s == init + [s[|s| - 1]];
      var e := s[|s| - 1];
      if e in Elems(init) {
        assert Elems(s) == Elems(init);
      }
    }
  }

  /** The pickup points 1 .. n - 1. */
  function Pickups(n: nat): set<nat> {
    if n <= 1 then {} else Pickups(n - 1) + {n - 1}
  }

  lemma {:induction false} PickupsCount(n: nat)
    ensures forall x :: x in Pickups(n) <==> 1 <= x < n
    ensures n >= 1 ==> |Pickups(n)| == n - 1
  {
    if n > 1 {
      PickupsCount(n - 1);
    }
  }

  /** A sequence of pickup points shorter than n - 1 misses one of them. */
  lemma ShortMissesPickup(s: seq<nat>, n: nat)
    requires n >= 1 && |s| < n - 1
    ensures exists x :: 1 <= x < n && x !in s
  {
    ElemsBound(s);
    PickupsCount(n);
    if forall x :: 1 <= x < n ==> x in s {
      assert Pickups(n) <= Elems(s);
      SubsetCard(Pickups(n), Elems(s));
      assert false;
    }
  }

  lemma {:induction false} SubsetCard(a: set<nat>, b: set<nat>)
    requires a <= b
    ensures |a| <= |b|
  {
    assert b == a + (b - a);
  }

  /** When the caps of all vehicles together leave fewer than n - 1 places,
      every feasible solution leaves some pickup point unrouted. */
  lemma CapForcesOmission(d: Matrix, n: nat, nVehicles: nat, sol: Solution)
    requires n >= 1 && nVehicles > 0 && Square(d, n)
    requires nVehicles * StopCap(n, nVehicles) < n - 1
    requires Feasible(d, n, nVehicles, sol)
    ensures exists x :: 1 <= x < n && x !in Stops(sol)
  {
    var cap := StopCap(n, nVehicles);
    assert |sol| == nVehicles;
    assert forall k :: 0 <= k < |sol| ==> |Interior(sol[k])| <= cap;
    StopsBound(sol, cap);
    ShortMissesPickup(Stops(sol), n);
  }

  /** Ten locations served by four vehicles: each may take two stops, so one of
      the nine pickup points is dropped from every solution. */
  lemma TenLocationsFourVehicles(d: Matrix, sol: Solution)
    requires Square(d, 10) && Feasible(d, 10, 4, sol)
    ensures exists x :: 1 <= x < 10 && x !in Stops(sol)
  {
    CapForcesOmission(d, 10, 4, sol);
  }

  /** The number of consecutive pairs of a route, which is how many steps it takes. */
  function PairCount(r: Route): nat {
    if |r| == 0 then 0 else |r| - 1
  }

  /** The number of times the first i steps of a route take the directed edge (x, y). */
  function StepCount(r: Route, i: nat, x: nat, y: nat): nat
    requires i <= PairCount(r)
  {
    if i == 0 then 0 else StepCount(r, i - 1, x, y) + (if r[i - 1] == x && r[i] == y then 1 else 0)
  }

  /** The number of times a route takes the directed edge (x, y). */
  function RouteEdgeCount(r: Route, x: nat, y: nat): nat {
    StepCount(r, PairCount(r), x, y)
  }

  /** The number of times the routes of a solution take the directed edge (x, y). */
  function EdgeCount(sol: Solution, x: nat, y: nat): nat {
    RoutesEdgeCount(sol, |sol|, x, y)
  }

  /** The number of times the first k routes of a solution take the directed edge (x, y). */
  function RoutesEdgeCount(sol: Solution, k: nat, x: nat, y: nat): nat
    requires k <= |sol|
  {
    if k == 0 then 0 else RoutesEdgeCount(sol, k - 1, x, y) + RouteEdgeCount(sol[k - 1], x, y)
  }

  /** The first i steps take (x, y) at least once exactly when one of them goes from x to y. */
  lemma {:induction false} StepCountPositive(r: Route, i: nat, x: nat, y: nat)
    requires i <= PairCount(r)
    ensures StepCount(r, i, x, y) > 0 <==> exists t :: 0 <= t < i && r[t] == x && r[t + 1] == y
  {
    if i > 0 {
      StepCountPositive(r, i - 1, x, y);
      if StepCount(r, i - 1, x, y) > 0 {
        var t :| 0 <= t < i - 1 && r[t] == x && r[t + 1] == y;
        assert 0 <= t < i && r[t] == x && r[t + 1] == y;
      }
    }
  }

  /** A route takes (x, y) at least once exactly when x is immediately followed by y in it. */
  lemma RouteEdgeCountPositive(r: Route, x: nat, y: nat)
    ensures RouteEdgeCount(r, x, y) > 0 <==> exists t :: 0 <= t < |r| - 1 && r[t] == x && r[t + 1] == y
  {
    StepCountPositive(r, PairCount(r), x, y);
  }

  /** The first k routes take (x, y) at least once exactly when one of them does. */
  lemma {:induction false} RoutesEdgeCountPositive(sol: Solution, k: nat, x: nat, y: nat)
    requires k <= |sol|
    ensures RoutesEdgeCount(sol, k, x, y) > 0 <==> exists t :: 0 <= t < k && RouteEdgeCount(sol[t], x, y) > 0
  {
    if k > 0 {
      RoutesEdgeCountPositive(sol, k - 1, x, y);
    }
  }

  /** A solution takes (x, y) at least once exactly when one of its routes does. */
  lemma EdgeCountPositive(sol: Solution, x: nat, y: nat)
    ensures EdgeCount(sol, x, y) > 0 <==> exists k :: 0 <= k < |sol| && RouteEdgeCount(sol[k], x, y) > 0
  {
    RoutesEdgeCountPositive(sol, |sol|, x, y);
  }

  /** A route under construction: it leaves the depot, its stops are distinct
      pickup points that no earlier vehicle took (`placed`), each reached over
      a finite nonzero distance, and `unvisited` holds exactly the pickup
      points neither taken earlier nor on this route. */
  ghost predicate OpenRoute(d: Matrix, n: nat, route: Route, placed: seq<nat>, unvisited: set<nat>) {
    |route| >= 1 && route[0] == 0 &&
    (forall i :: 0 < i < |route| ==> 0 < route[i] < n) &&
    (forall i :: 0 <= i < |route| - 1 ==> EdgeReachable(d, route[i], route[i + 1])) &&
    Distinct(placed + route[1..]) &&
    (forall x :: x in unvisited <==> 1 <= x < n && x !in placed + route[1..])
  }

  /** Taking an available, reachable stop keeps a route under construction well formed. */
  lemma OpenRouteStep(d: Matrix, n: nat, route: Route, placed: seq<nat>, unvisited: set<nat>, c: nat)
    requires OpenRoute(d, n, route, placed, unvisited)
    requires c in unvisited && EdgeReachable(d, route[|route| - 1], c)
    ensures OpenRoute(d, n, route + [c], placed, unvisited - {c})
  {
    var r := route + [c];
    assert r[1..] == route[1..] + [c];
    assert placed + r[1..] == (placed + route[1..]) + [c];
    DistinctSnoc(placed + route[1..], c);
    assert forall i :: 0 <= i < |route| ==> r[i] == route[i];
  }

  /** Closing a route under construction at the depot gives a route of the solution. */
  lemma OpenRouteClose(d: Matrix, n: nat, route: Route, placed: seq<nat>, unvisited: set<nat>)
    requires OpenRoute(d, n, route, placed, unvisited)
    ensures IsRoute(route + [0], n) && StepsReachable(d, route + [0])
    ensures n >= 1 ==> forall i :: 0 <= i < |route + [0]| ==> (route + [0])[i] < n
    ensures Interior(route + [0]) == route[1..]
    ensures Distinct(placed + Interior(route + [0]))
    ensures forall x :: x in unvisited <==> 1 <= x < n && x !in placed + Interior(route + [0])
  {
    var r := route + [0];
    assert forall i :: 0 <= i < |route| ==> r[i] == route[i];
  }

  /** The stops taken by vehicles 0 .. k of a solution. */
  function StopsThrough(sol: Solution, k: nat): seq<nat>
    requires k < |sol|
  {
    Stops(sol[..k + 1])
  }

  /** Adding a route leaves what the earlier vehicles took unchanged. */
  lemma StopsThroughSnoc(sol: Solution, r: Route)
    ensures forall k :: 0 <= k < |sol| ==> StopsThrough(sol + [r], k) == StopsThrough(sol, k)
    ensures StopsThrough(sol + [r], |sol|) == Stops(sol + [r]) == Stops(sol) + Interior(r)
  {
    forall k | 0 <= k < |sol|
      ensures StopsThrough(sol + [r], k) == StopsThrough(sol, k)
    {
      assert (sol + [r])[..k + 1] == sol[..k + 1];
    }
    assert (sol + [r])[..|sol| + 1] == sol + [r];
    assert (sol + [r])[..|sol|] == sol;
  }

  /** The vehicles built so far form the start of a feasible solution, and
      `unvisited` holds exactly the pickup points none of them took. */
  ghost predicate PartialSolution(d: Matrix, n: nat, nVehicles: nat, sol: Solution, unvisited: set<nat>)
    requires Square(d, n)
  {
    InBounds(sol, n) &&
    (forall k :: 0 <= k < |sol| ==> IsRoute(sol[k], n)) &&
    (forall k :: 0 <= k < |sol| ==> nVehicles > 0 && |Interior(sol[k])| <= StopCap(n, nVehicles)) &&
    (forall k :: 0 <= k < |sol| ==> StepsReachable(d, sol[k])) &&
    Distinct(Stops(sol)) &&
    (forall x :: x in unvisited <==> 1 <= x < n && x !in Stops(sol))
  }

  /** A partial solution with one route per vehicle is feasible. */
  lemma PartialFeasible(d: Matrix, n: nat, nVehicles: nat, sol: Solution, unvisited: set<nat>)
    requires Square(d, n) && PartialSolution(d, n, nVehicles, sol, unvisited) && |sol| == nVehicles
    ensures Feasible(d, n, nVehicles, sol)
  {
  }

  /** Adding a closed route built from the unvisited pickup points extends a partial solution. */
  lemma PartialSolutionSnoc(d: Matrix, n: nat, nVehicles: nat, sol: Solution, unvisited: set<nat>, r: Route, left: set<nat>)
    requires Square(d, n) && nVehicles > 0
    requires PartialSolution(d, n, nVehicles, sol, unvisited)
    requires IsRoute(r, n) && StepsReachable(d, r) && forall i :: 0 <= i < |r| ==> r[i] < n
    requires |Interior(r)| <= StopCap(n, nVehicles)
    requires Distinct(Stops(sol) + Interior(r))
    requires forall x :: x in left <==> 1 <= x < n && x !in Stops(sol) + Interior(r)
    ensures PartialSolution(d, n, nVehicles, sol + [r], left)
  {
    StopsThroughSnoc(sol, r);
    InBoundsSnoc(sol, r, n);
    var s := sol + [r];
    forall k | 0 <= k < |s|
      ensures IsRoute(s[k], n) && |Interior(s[k])| <= StopCap(n, nVehicles) && StepsReachable(d, s[k])
    {
      if k < |sol| {
        assert s[k] == sol[k];
      } else {
        assert s[k] == r;
      }
    }
  }

  /** The pickup points outside `s`, as a set difference. */
  lemma LeftAfter(n: nat, s: seq<nat>, left: set<nat>)
    requires forall x :: x in left <==> 1 <= x < n && x !in s
    ensures left == Pickups(n) - Elems(s)
  {
    ElemsBound(s);
    PickupsCount(n);
  }

  lemma InBoundsSnoc(sol: Solution, r: Route, n: nat)
    requires InBounds(sol, n) && forall i :: 0 <= i < |r| ==> r[i] < n
    ensures InBounds(sol + [r], n)
  {
    var s := sol + [r];
    forall k, i | 0 <= k < |s| && 0 <= i < |s[k]|
      ensures s[k][i] < n
    {
      if k < |sol| {
        assert s[k] == sol[k];
      }
    }
  }
}
