/** The multi-vehicle ant colony solver: its pheromone table, the construction
    of one ant's routes, the pheromone update and the colony loop. */
module AcoMulti {
  import opened Routes
  import opened Cost
  import opened Trail
  import opened Best

  /** The random source behind the roulette-wheel choice: given how many draws
      were made before, the candidates and their normalised weights, a raw
      draw. The candidate picked is the draw reduced modulo the number of
      candidates, so every oracle picks a candidate and every candidate can be
      picked. */
  type Oracle = (nat, seq<nat>, seq<real>) -> nat

  /** The weight of a candidate from its pheromone level and its distance:
      pheromone ** alpha * (1 / distance) ** beta, alpha and beta fixed. */
  type Weight = (real, real) -> real

  function Sum(s: seq<real>): real {
    if |s| == 0 then 0.0 else Sum(s[..|s| - 1]) + s[|s| - 1]
  }

  /** Weights scaled to sum to 1. */
  function Normalised(ws: seq<real>): (ps: seq<real>)
    requires Sum(ws) != 0.0
    ensures |ps| == |ws|
  {
    seq(|ws|, i requires 0 <= i < |ws| => ws[i] / Sum(ws))
  }

  class AntColonyMulti {
    const distances: Matrix
    const n: nat
    const nAnts: nat
    const nIterations: nat
    const weight: Weight
    const decay: real
    const nVehicles: nat
    /** The trail strength of every directed edge, updated in place. */
    const pheromone: array2<real>
    /** The abstract value of the pheromone table. */
    ghost var Trails: Table

    ghost predicate Valid()
      reads this, pheromone
    {
      Sized(Trails) &&
      pheromone.Length0 == n && pheromone.Length1 == n &&
      forall x, y :: 0 <= x < n && 0 <= y < n ==> pheromone[x, y] == Trails[x][y]
    }

    /** A table that fits the solver: n by n, over a non-empty square matrix. */
    ghost predicate Sized(t: Table) {
      n >= 1 && Square(distances, n) && IsTable(t, n)
    }

    constructor (distanceMatrix: Matrix, nAnts: nat, nIterations: nat, weight: Weight, decay: real, nVehicles: nat)
      requires |distanceMatrix| >= 1 && Square(distanceMatrix, |distanceMatrix|)
      ensures Valid() && fresh(pheromone)
      ensures distances == distanceMatrix && n == |distanceMatrix|
      ensures this.nAnts == nAnts && this.nIterations == nIterations && this.weight == weight
      ensures this.decay == decay && this.nVehicles == nVehicles
      ensures Trails == Uniform(n)
    {
      var size := |distanceMatrix|;
      distances := distanceMatrix;
      n := size;
      this.nAnts := nAnts;
      this.nIterations := nIterations;
      this.weight := weight;
      this.decay := decay;
      this.nVehicles := nVehicles;
      pheromone := new real[size, size]((x, y) => 1.0 / size as real);
      Trails := Uniform(size);
    }

    /** The weights of the candidates `cs` for a step from `curr`, under the table `t`. */
    ghost function WeightsOf(t: Table, curr: nat, cs: seq<nat>): seq<real>
      requires Sized(t) && curr < n
      requires forall c :: c in cs ==> EdgeReachable(distances, curr, c)
    {
      if |cs| == 0 then []
      else
        var c := cs[|cs| - 1];
        assert c in cs && forall e :: e in cs[..|cs| - 1] ==> e in cs;
        assert EdgeReachable(distances, curr, c) && |distances[curr]| == n;
        WeightsOf(t, curr, cs[..|cs| - 1]) + [weight(t[curr][c], distances[curr][c].v)]
    }

    /** One more candidate adds its own weight at the end. */
    lemma WeightsSnoc(t: Table, curr: nat, cs: seq<nat>, c: nat)
      requires Sized(t) && curr < n
      requires forall e :: e in cs + [c] ==> EdgeReachable(distances, curr, e)
      ensures forall e :: e in cs ==> EdgeReachable(distances, curr, e)
      ensures c < n && distances[curr][c].Fin?
      ensures WeightsOf(t, curr, cs + [c]) == WeightsOf(t, curr, cs) + [weight(t[curr][c], distances[curr][c].v)]
    {
      assert c in cs + [c] && (cs + [c])[..|cs|] == cs;
    }

    /** Under the table `t`, no available location qualifies as the next stop
        from `curr`: none is at a finite, nonzero distance, or the weights of
        those that are sum to 0. */
    ghost predicate Stuck(t: Table, curr: nat, avail: set<nat>)
      requires Sized(t) && curr < n
    {
      var cs := CandidatesBelow(distances, curr, avail, n);
      (forall c :: c in cs ==> EdgeReachable(distances, curr, c)) &&
      (cs == [] || Sum(WeightsOf(t, curr, cs)) == 0.0)
    }

    /** The candidates for the step from `curr` and their weights. */
    method Candidates(curr: nat, unvisited: set<nat>) returns (validChoices: seq<nat>, validProbs: seq<real>)
      requires Valid() && curr < n
      ensures validChoices == CandidatesBelow(distances, curr, unvisited, n)
      ensures forall c :: c in validChoices ==> c in unvisited && EdgeReachable(distances, curr, c)
      ensures validProbs == WeightsOf(Trails, curr, validChoices)
    {
      validChoices := [];
      validProbs := [];
      // the candidates in ascending order, as a set of small integers is iterated
      for j := 0 to n
        invariant validChoices == CandidatesBelow(distances, curr, unvisited, j)
        invariant forall c :: c in validChoices ==> c < j && c in unvisited && EdgeReachable(distances, curr, c)
        invariant validProbs == WeightsOf(Trails, curr, validChoices)
      {
        ghost var below := CandidatesBelow(distances, curr, unvisited, j + 1);
        if j in unvisited {
          var d := distances[curr][j];
          if d.Fin? && d.v != 0.0 {
            assert below == validChoices + [j];
            WeightsSnoc(Trails, curr, validChoices, j);
            validChoices := validChoices + [j];
            validProbs := validProbs + [weight(pheromone[curr, j], d.v)];
          }
        }
      }
    }

    /** The roulette-wheel step from `curr`: no stop when `curr` is stuck,
        otherwise the candidate the oracle's draw at position `tick` selects. */
    method NextStop(draw: Oracle, tick: nat, curr: nat, unvisited: set<nat>) returns (found: bool, nextCity: nat)
      requires Valid() && curr < n
      ensures !found <==> Stuck(Trails, curr, unvisited)
      ensures found ==> nextCity in unvisited && EdgeReachable(distances, curr, nextCity)
      ensures found ==>
        var cs := CandidatesBelow(distances, curr, unvisited, n);
        (forall c :: c in cs ==> EdgeReachable(distances, curr, c)) && cs != [] &&
        nextCity == cs[draw(tick, cs, Normalised(WeightsOf(Trails, curr, cs))) % |cs|]
    {
      var validChoices, validProbs := Candidates(curr, unvisited);
      if |validChoices| == 0 {
        return false, 0;
      }
      var total := Sum(validProbs);
      if total == 0.0 {
        return false, 0;
      }
      var normProbs := Normalised(validProbs);
      nextCity := validChoices[draw(tick, validChoices, normProbs) % |validChoices|];
      found := true;
    }

    /** One vehicle's route: from the depot, repeatedly draw the next stop
        among the candidates, until none qualifies or the route reaches its
        cap, then return to the depot. `placed` are the stops earlier vehicles
        of the same ant took; `unvisited` comes back without the new stops. */
    method BuildRoute(draw: Oracle, tick: nat, unvisited0: set<nat>, ghost placed: seq<nat>)
      returns (route: Route, unvisited: set<nat>, next: nat)
      requires Valid() && nVehicles > 0
      requires Distinct(placed)
      requires forall x :: x in unvisited0 <==> 1 <= x < n && x !in placed
      ensures Built(route, placed, unvisited)
      ensures next == tick + |Interior(route)|
      ensures Ends(Trails, route, unvisited)
    {
      unvisited := unvisited0;
      next := tick;
      route := [0];
      BuildingStart(Trails, placed, unvisited);
      // `done` stands for the breaks out of the endless loop of `construct_routes`
      var done := false;
      while !done
        invariant Building(Trails, route, placed, unvisited, done)
        invariant next == tick + |route| - 1
        decreases |unvisited| + (if done then 0 else 1)
      {
        var curr := route[|route| - 1];
        var found, nextCity := NextStop(draw, next, curr, unvisited);
        if !found {
          BuildingStuck(Trails, route, placed, unvisited);
          done := true;
        } else {
          next := next + 1;
          BuildingStep(Trails, route, placed, unvisited, nextCity);
          route := route + [nextCity];
          unvisited := unvisited - {nextCity};
          done := |route| > n / nVehicles;
        }
      }
      ClosedRoute(Trails, route, placed, unvisited);
      route := route + [0];
    }

    /** A route of one vehicle, closed at the depot, after the vehicles that
        took `placed`: its stops lie within the matrix, each step is
        reachable, it holds at most its cap of stops, none of them was placed
        before or repeats, and `unvisited` is what is left of the pickup points. */
    ghost predicate Built(route: Route, placed: seq<nat>, unvisited: set<nat>)
      requires nVehicles > 0
    {
      IsRoute(route, n) && StepsReachable(distances, route) &&
      (forall i :: 0 <= i < |route| ==> route[i] < n) &&
      |Interior(route)| <= StopCap(n, nVehicles) &&
      Distinct(placed + Interior(route)) &&
      (forall x :: x in unvisited <==> 1 <= x < n && x !in placed + Interior(route))
    }

    /** A route under construction: well formed, within one stop of its cap,
        below the cap while the loop goes on, and, once the loop stops, either
        ending where it was stuck or past the cap. */
    ghost predicate Building(t: Table, route: Route, placed: seq<nat>, unvisited: set<nat>, done: bool)
      requires Sized(t) && nVehicles > 0
    {
      OpenRoute(distances, n, route, placed, unvisited) &&
      (|route| <= 2 || |route| <= n / nVehicles + 1) &&
      (!done ==> |route| == 1 || |route| <= n / nVehicles) &&
      (done ==> Stuck(t, route[|route| - 1], unvisited) || (|route| >= 2 && |route| > n / nVehicles))
    }

    /** The route under construction starts at the depot. */
    lemma BuildingStart(t: Table, placed: seq<nat>, unvisited: set<nat>)
      requires Sized(t) && nVehicles > 0
      requires Distinct(placed)
      requires forall x :: x in unvisited <==> 1 <= x < n && x !in placed
      ensures Building(t, [0], placed, unvisited, false)
    {
      assert placed + [0][1..] == placed;
    }

    /** A route whose last stop is stuck ends the loop. */
    lemma BuildingStuck(t: Table, route: Route, placed: seq<nat>, unvisited: set<nat>)
      requires Sized(t) && nVehicles > 0
      requires Building(t, route, placed, unvisited, false)
      requires Stuck(t, route[|route| - 1], unvisited)
      ensures Building(t, route, placed, unvisited, true)
    {
    }

    /** Taking an available, reachable stop keeps a route under construction,
        and the loop stops exactly when the route passes its cap. */
    lemma BuildingStep(t: Table, route: Route, placed: seq<nat>, unvisited: set<nat>, c: nat)
      requires Sized(t) && nVehicles > 0
      requires Building(t, route, placed, unvisited, false)
      requires c in unvisited && EdgeReachable(distances, route[|route| - 1], c)
      ensures |unvisited - {c}| < |unvisited|
      ensures Building(t, route + [c], placed, unvisited - {c}, |route + [c]| > n / nVehicles)
    {
      OpenRouteStep(distances, n, route, placed, unvisited, c);
    }

    /** Returning to the depot turns a route under construction into a route
        of the solution; it falls short of the cap only when its last stop was stuck. */
    lemma ClosedRoute(t: Table, route: Route, placed: seq<nat>, unvisited: set<nat>)
      requires Sized(t) && nVehicles > 0
      requires Building(t, route, placed, unvisited, true)
      ensures Built(route + [0], placed, unvisited)
      ensures |Interior(route + [0])| == |route| - 1
      ensures Ends(t, route + [0], unvisited)
    {
      OpenRouteClose(distances, n, route, placed, unvisited);
      var r := route + [0];
      assert r[|route| - 1] == route[|route| - 1];
      if |Interior(r)| < StopCap(n, nVehicles) {
        assert Stuck(t, route[|route| - 1], unvisited);
      }
    }

    /** A closed route holds its cap of stops or, under the table `t`, its
        last stop was stuck among `left`. */
    ghost predicate Ends(t: Table, route: Route, left: set<nat>)
      requires Sized(t) && nVehicles > 0
    {
      |route| >= 2 && route[|route| - 2] < n && |Interior(route)| < StopCap(n, nVehicles) ==>
        Stuck(t, route[|route| - 2], left)
    }

    /** Every route of `sol` either holds its cap of stops or ends where no
        stop was left to take: under the table `t`, its last stop was stuck
        among the pickup points that neither it nor an earlier route took. */
    ghost predicate Settled(t: Table, sol: Solution)
      requires Sized(t) && nVehicles > 0
    {
      |sol| == 0 || (Settled(t, sol[..|sol| - 1]) && Ends(t, sol[|sol| - 1], Pickups(n) - Elems(Stops(sol))))
    }

    /** A route that holds its cap or ends stuck among what is left extends a settled solution. */
    lemma SettledSnoc(t: Table, sol: Solution, r: Route, left: set<nat>)
      requires Sized(t) && nVehicles > 0 && Settled(t, sol)
      requires forall x :: x in left <==> 1 <= x < n && x !in Stops(sol + [r])
      requires Ends(t, r, left)
      ensures Settled(t, sol + [r])
    {
      var s := sol + [r];
      assert s[..|s| - 1] == sol && s[|s| - 1] == r;
      LeftAfter(n, Stops(s), left);
    }

    /** Appending the route of the next vehicle keeps the loop's invariants. */
    lemma VehicleDone(t: Table, sol: Solution, avail: set<nat>, r: Route, left: set<nat>)
      requires Sized(t) && nVehicles > 0
      requires PartialSolution(distances, n, nVehicles, sol, avail) && Settled(t, sol)
      requires Built(r, Stops(sol), left) && Ends(t, r, left)
      ensures PartialSolution(distances, n, nVehicles, sol + [r], left) && Settled(t, sol + [r])
      ensures Stops(sol + [r]) == Stops(sol) + Interior(r)
    {
      PartialSolutionSnoc(distances, n, nVehicles, sol, avail, r, left);
      StopsThroughSnoc(sol, r);
      SettledSnoc(t, sol, r, left);
    }

    /** Every prefix of a settled solution is settled. */
    lemma {:induction false} SettledPrefix(t: Table, sol: Solution, k: nat)
      requires Sized(t) && nVehicles > 0 && Settled(t, sol) && k <= |sol|
      ensures Settled(t, sol[..k])
    {
      if k < |sol| {
        var init := sol[..|sol| - 1];
        SettledPrefix(t, init, k);
        assert init[..k] == sol[..k];
      } else {
        assert sol[..k] == sol;
      }
    }

    /** The clause of `Settled` for one route on its own. */
    lemma SettledAt(t: Table, sol: Solution, k: nat)
      requires Sized(t) && nVehicles > 0 && Settled(t, sol) && k < |sol|
      ensures Ends(t, sol[k], Pickups(n) - Elems(StopsThrough(sol, k)))
    {
      SettledPrefix(t, sol, k + 1);
      var p := sol[..k + 1];
      assert p[k] == sol[k];
    }

    /** One ant builds one route per vehicle, in turn, from the stops no
        earlier vehicle took. Draws are taken from `draw` starting at position
        `tick`; `next` is the position after the last draw. */
    method ConstructRoutes(draw: Oracle, tick: nat) returns (routes: Solution, next: nat)
      requires Valid()
      ensures Feasible(distances, n, nVehicles, routes)
      ensures next == tick + |Stops(routes)|
      ensures nVehicles > 0 ==> Settled(Trails, routes)
      ensures forall k :: 0 <= k < |routes| ==> Ends(Trails, routes[k], Pickups(n) - Elems(StopsThrough(routes, k)))
    {
      PickupsCount(n);
      var unvisited := Pickups(n);
      routes := [];
      next := tick;
      for k := 0 to nVehicles
        invariant |routes| == k
        invariant PartialSolution(distances, n, nVehicles, routes, unvisited)
        invariant next == tick + |Stops(routes)|
        invariant nVehicles > 0 ==> Settled(Trails, routes)
      {
        ghost var avail := unvisited;
        var route;
        route, unvisited, next := BuildRoute(draw, next, unvisited, Stops(routes));
        VehicleDone(Trails, routes, avail, route, unvisited);
        routes := routes + [route];
      }
      PartialFeasible(distances, n, nVehicles, routes, unvisited);
      forall k | 0 <= k < |routes|
        ensures Ends(Trails, routes[k], Pickups(n) - Elems(StopsThrough(routes, k)))
      {
        SettledAt(Trails, routes, k);
      }
    }

    /** The total distance of one ant's routes: the sum over every step of
        every route, a non-finite step counting as the penalty. */
    method TotalDistance(routes: Solution) returns (total: real)
      requires Square(distances, n) && InBounds(routes, n)
      ensures total == TotalCost(distances, n, routes)
    {
      total := 0.0;
      for k := 0 to |routes|
        invariant total == TotalCost(distances, n, routes[..k])
      {
        var route := routes[k];
        assert routes[..k + 1][..k] == routes[..k] && routes[..k + 1][k] == route;
        for i := 0 to PairCount(route)
          invariant total == TotalCost(distances, n, routes[..k]) + StepsCost(distances, n, route, i)
        {
          var d := distances[route[i]][route[i + 1]];
          if d.Fin? {
            total := total + d.v;
          } else {
            total := total + Penalty;
          }
        }
      }
      assert routes[..|routes|] == routes;
    }

    /** The total distance of every solution of a batch, in order. */
    method Evaluate(allRoutes: seq<Solution>) returns (dists: seq<real>)
      requires Square(distances, n)
      requires forall a :: 0 <= a < |allRoutes| ==> InBounds(allRoutes[a], n)
      ensures dists == Totals(distances, n, allRoutes)
    {
      dists := [];
      for a := 0 to |allRoutes|
        invariant dists == Totals(distances, n, allRoutes[..a])
      {
        var total := TotalDistance(allRoutes[a]);
        assert allRoutes[..a + 1][..a] == allRoutes[..a];
        dists := dists + [total];
      }
      assert allRoutes[..|allRoutes|] == allRoutes;
    }

    /** One route deposits `share` on each of its steps. */
    method DepositRoute(route: Route, share: real)
      requires pheromone.Length0 == n && pheromone.Length1 == n
      requires forall i :: 0 <= i < |route| ==> route[i] < n
      modifies pheromone
      ensures forall x, y :: 0 <= x < n && 0 <= y < n ==>
        pheromone[x, y] == old(pheromone[x, y]) + Times(RouteEdgeCount(route, x, y), share)
    {
      for i := 0 to PairCount(route)
        invariant forall x, y :: 0 <= x < n && 0 <= y < n ==>
          pheromone[x, y] == old(pheromone[x, y]) + Times(StepCount(route, i, x, y), share)
      {
        pheromone[route[i], route[i + 1]] := pheromone[route[i], route[i + 1]] + share;
      }
    }

    /** Every route of one solution deposits `share` on each of its steps. */
    method DepositSolution(routes: Solution, share: real)
      requires pheromone.Length0 == n && pheromone.Length1 == n
      requires InBounds(routes, n)
      modifies pheromone
      ensures forall x, y :: 0 <= x < n && 0 <= y < n ==>
        pheromone[x, y] == old(pheromone[x, y]) + Times(EdgeCount(routes, x, y), share)
    {
      for r := 0 to |routes|
        invariant forall x, y :: 0 <= x < n && 0 <= y < n ==>
          pheromone[x, y] == old(pheromone[x, y]) + Times(RoutesEdgeCount(routes, r, x, y), share)
      {
        RoutesDeposit(routes, r, share);
        DepositRoute(routes[r], share);
      }
    }

    /** Every solution deposits, on each step of each of its routes, the
        inverse of its total distance; a solution whose distance is 0 or not
        finite deposits nothing. Solutions and distances are paired position
        by position. */
    method SpreadPheromone(routesList: seq<Solution>, dists: seq<Ext>)
      requires Valid()
      requires forall a :: 0 <= a < |routesList| ==> InBounds(routesList[a], n)
      modifies this, pheromone
      ensures Valid()
      ensures Trails == Reinforce(old(Trails), routesList, dists)
    {
      ghost var start := Trails;
      for m := 0 to Paired(routesList, dists)
        invariant forall x, y :: 0 <= x < n && 0 <= y < n ==>
          pheromone[x, y] == start[x][y] + DepositUpTo(routesList, dists, m, x, y)
      {
        var routes, dist := routesList[m], dists[m];
        if dist.Inf? || dist.v == 0.0 {
          forall x, y {
            DegenerateDepositsNothing(routesList, dists, m + 1, x, y);
          }
          continue;
        }
        DepositSolution(routes, 1.0 / dist.v);
      }
      Trails := Reinforce(start, routesList, dists);
    }

    /** Every entry is multiplied by the decay. */
    method Evaporate()
      requires Valid()
      modifies this, pheromone
      ensures Valid()
      ensures Trails == Evaporated(old(Trails), decay)
    {
      ghost var start := Trails;
      for x := 0 to n
        invariant forall u, v :: 0 <= u < n && 0 <= v < n ==>
          pheromone[u, v] == if u < x then start[u][v] * decay else start[u][v]
      {
        for y := 0 to n
          invariant forall u, v :: 0 <= u < n && 0 <= v < n ==>
            pheromone[u, v] == if u < x || (u == x && v < y) then start[u][v] * decay else start[u][v]
        {
          pheromone[x, y] := pheromone[x, y] * decay;
        }
      }
      Trails := Evaporated(start, decay);
    }

    /** Every ant of one iteration constructs its routes in turn, all under
        the same table. */
    method ConstructAll(draw: Oracle, tick: nat) returns (allRoutes: seq<Solution>, next: nat)
      requires Valid()
      ensures Batch(allRoutes)
      ensures SettledBatch(Trails, allRoutes)
    {
      allRoutes := [];
      next := tick;
      for a := 0 to nAnts
        invariant |allRoutes| == a
        invariant forall b :: 0 <= b < a ==> Feasible(distances, n, nVehicles, allRoutes[b])
        invariant SettledBatch(Trails, allRoutes)
      {
        var routes;
        routes, next := ConstructRoutes(draw, next);
        SettledBatchSnoc(Trails, allRoutes, routes);
        allRoutes := allRoutes + [routes];
      }
    }

    /** One iteration's solutions: one feasible solution per ant. */
    ghost predicate Batch(allRoutes: seq<Solution>)
      requires Square(distances, n)
    {
      |allRoutes| == nAnts && forall a :: 0 <= a < nAnts ==> Feasible(distances, n, nVehicles, allRoutes[a])
    }

    /** Every solution of a batch is settled under the table `t`. */
    ghost predicate SettledBatch(t: Table, allRoutes: seq<Solution>)
      requires Sized(t)
    {
      nVehicles > 0 ==> forall a :: 0 <= a < |allRoutes| ==> Settled(t, allRoutes[a])
    }

    /** One more settled solution extends a settled batch. */
    lemma SettledBatchSnoc(t: Table, allRoutes: seq<Solution>, routes: Solution)
      requires Sized(t) && SettledBatch(t, allRoutes)
      requires nVehicles > 0 ==> Settled(t, routes)
      ensures SettledBatch(t, allRoutes + [routes])
    {
      var all := allRoutes + [routes];
      assert forall a :: 0 <= a < |allRoutes| ==> all[a] == allRoutes[a];
      assert all[|allRoutes|] == routes;
    }

    /** Every batch was built under the table the iterations before it left,
        starting from `t`. */
    ghost predicate Constructed(t: Table, batches: seq<seq<Solution>>)
      requires Sized(t) && AllInBounds(batches, n)
      decreases |batches|
    {
      if |batches| == 0 then true
      else
        var init, last := batches[..|batches| - 1], batches[|batches| - 1];
        assert batches == init + [last];
        ColonySnoc(t, distances, n, init, last, decay);
        ColonyIsTable(t, distances, n, init, decay);
        Constructed(t, init) && SettledBatch(Colony(t, distances, n, init, decay), last)
    }

    /** A batch built under the table of the run so far extends the run. */
    lemma ConstructedSnoc(t: Table, batches: seq<seq<Solution>>, batch: seq<Solution>)
      requires Sized(t) && AllInBounds(batches + [batch], n)
      requires AllInBounds(batches, n) && Constructed(t, batches)
      requires Sized(Colony(t, distances, n, batches, decay))
      requires SettledBatch(Colony(t, distances, n, batches, decay), batch)
      ensures Constructed(t, batches + [batch])
    {
      var all := batches + [batch];
      assert all[..|all| - 1] == batches && all[|all| - 1] == batch;
    }

    /** Batch `i` of a run was built under the table after the batches before it. */
    lemma {:induction false} ConstructedAt(t: Table, batches: seq<seq<Solution>>, i: nat)
      requires Sized(t) && AllInBounds(batches, n) && Constructed(t, batches)
      requires i < |batches|
      ensures AllInBounds(batches[..i], n) && Sized(Colony(t, distances, n, batches[..i], decay))
      ensures SettledBatch(Colony(t, distances, n, batches[..i], decay), batches[i])
    {
      var init := batches[..|batches| - 1];
      assert batches == init + [batches[|batches| - 1]];
      ColonySnoc(t, distances, n, init, batches[|batches| - 1], decay);
      if i < |init| {
        ConstructedAt(t, init, i);
        assert init[..i] == batches[..i] && init[i] == batches[i];
      } else {
        assert batches[..i] == init;
        ColonyIsTable(t, distances, n, init, decay);
      }
    }

    /** Every iteration's solutions form a batch. */
    ghost predicate Batches(batches: seq<seq<Solution>>)
      requires Square(distances, n)
    {
      forall i :: 0 <= i < |batches| ==> Batch(batches[i])
    }

    lemma BatchesSnoc(batches: seq<seq<Solution>>, batch: seq<Solution>)
      requires Square(distances, n) && Batches(batches) && Batch(batch)
      ensures Batches(batches + [batch])
    {
      var all := batches + [batch];
      assert forall i :: 0 <= i < |batches| ==> all[i] == batches[i];
    }

    /** The colony loop's bookkeeping after the iterations that produced
        `batches`: the best distance, the best solution and the history are
        the record kept over their total distances. */
    ghost predicate Recorded(batches: seq<seq<Solution>>, bestRoutes: Option<Solution>, bestDistance: Ext, history: seq<Ext>)
      requires Square(distances, n)
    {
      AllInBounds(batches, n) &&
      var table := CostTable(distances, n, batches);
      Rows(table) &&
      bestDistance == Track(table).dist &&
      bestRoutes == Chosen(batches, Track(table).at) &&
      history == History(table)
    }

    /** No solution before ant `a` of iteration `i`, taking iterations in
        order and the ants of one iteration in order, is as short as it. */
    ghost predicate FirstReached(batches: seq<seq<Solution>>, i: nat, a: nat)
      requires Square(distances, n) && AllInBounds(batches, n)
      requires i < |batches| && a < |batches[i]|
    {
      var c := TotalCost(distances, n, batches[i][a]);
      (forall j, b :: 0 <= j < i && 0 <= b < |batches[j]| ==> c < TotalCost(distances, n, batches[j][b])) &&
      (forall b :: 0 <= b < a ==> c < TotalCost(distances, n, batches[i][b]))
    }

    /** The history the bookkeeping holds after the iterations that produced
        `batches`: one entry per iteration, never increasing, each at most
        every total distance seen up to its iteration, and the last one the
        best distance. */
    lemma RecordedHistory(batches: seq<seq<Solution>>, bestRoutes: Option<Solution>, bestDistance: Ext, history: seq<Ext>)
      requires Square(distances, n) && Recorded(batches, bestRoutes, bestDistance, history)
      ensures |history| == |batches|
      ensures forall i, j :: 0 <= i < j < |history| ==> AtMost(history[j], history[i])
      ensures forall i, j, a :: 0 <= j <= i < |history| && 0 <= a < |batches[j]| ==>
        AtMost(history[i], Fin(TotalCost(distances, n, batches[j][a])))
      ensures |batches| > 0 ==> history[|batches| - 1] == bestDistance
    {
      var table := CostTable(distances, n, batches);
      HistoryNonIncreasing(table);
      HistoryMinimal(table);
      forall i, j, a | 0 <= j <= i < |history| && 0 <= a < |batches[j]|
        ensures AtMost(history[i], Fin(TotalCost(distances, n, batches[j][a])))
      {
        CostEntry(distances, n, batches, j, a);
      }
    }

    /** The best distance the bookkeeping holds after the iterations that
        produced `batches`: infinite, with no best solution, before the first
        iteration, and never above a total distance seen. */
    lemma RecordedMinimal(batches: seq<seq<Solution>>, bestRoutes: Option<Solution>, bestDistance: Ext, history: seq<Ext>)
      requires Square(distances, n) && Recorded(batches, bestRoutes, bestDistance, history)
      ensures |batches| == 0 ==> bestRoutes == None && bestDistance == Inf
      ensures forall i, a :: 0 <= i < |batches| && 0 <= a < |batches[i]| ==>
        AtMost(bestDistance, Fin(TotalCost(distances, n, batches[i][a])))
    {
      var table := CostTable(distances, n, batches);
      TrackMinimal(table);
      forall i, a | 0 <= i < |batches| && 0 <= a < |batches[i]|
        ensures AtMost(bestDistance, Fin(TotalCost(distances, n, batches[i][a])))
      {
        CostEntry(distances, n, batches, i, a);
      }
    }

    /** The best solution the bookkeeping holds after at least one iteration:
        the first solution that reached the best distance, which is its total
        distance. */
    lemma RecordedFirst(batches: seq<seq<Solution>>, bestRoutes: Option<Solution>, bestDistance: Ext, history: seq<Ext>)
      requires Square(distances, n) && Recorded(batches, bestRoutes, bestDistance, history)
      requires |batches| > 0
      ensures exists i, a ::
                0 <= i < |batches| && 0 <= a < |batches[i]| &&
                bestRoutes == Some(batches[i][a]) && bestDistance == Fin(TotalCost(distances, n, batches[i][a])) &&
                FirstReached(batches, i, a)
    {
      var table := CostTable(distances, n, batches);
      var at := Track(table).at.value;
      var i, a := at.0, at.1;
      CostEntry(distances, n, batches, i, a);
      assert bestRoutes == Some(batches[i][a]) && bestDistance == Fin(TotalCost(distances, n, batches[i][a]));
      assert FirstReached(batches, i, a) by {
        TrackFirst(table);
        forall j, b | 0 <= j < i && 0 <= b < |batches[j]|
          ensures bestDistance.v < TotalCost(distances, n, batches[j][b])
        {
          CostEntry(distances, n, batches, j, b);
        }
        forall b | 0 <= b < a
          ensures bestDistance.v < TotalCost(distances, n, batches[i][b])
        {
          CostEntry(distances, n, batches, i, b);
        }
      }
    }

    /** What one more iteration does to the colony loop's bookkeeping. */
    lemma RecordedSnoc(batches: seq<seq<Solution>>, bestRoutes: Option<Solution>, bestDistance: Ext, history: seq<Ext>,
                       allRoutes: seq<Solution>, dists: seq<real>, minDist: real)
      requires Square(distances, n) && |allRoutes| > 0
      requires Recorded(batches, bestRoutes, bestDistance, history)
      requires forall a :: 0 <= a < |allRoutes| ==> InBounds(allRoutes[a], n)
      requires dists == Totals(distances, n, allRoutes) && minDist == MinOf(dists)
      ensures var improved := Below(minDist, bestDistance);
        var newDistance := if improved then Fin(minDist) else bestDistance;
        var newRoutes := if improved then Some(allRoutes[FirstIndexOf(dists, minDist)]) else bestRoutes;
        Recorded(batches + [allRoutes], newRoutes, newDistance, history + [newDistance])
    {
      CostTableSnoc(distances, n, batches, allRoutes);
      var table := CostTable(distances, n, batches);
      TrackSnoc(table, dists);
      ChosenSnoc(batches, allRoutes, Track(table).at, FirstIndexOf(dists, minDist));
    }

    /** One iteration of the colony loop: each ant constructs its routes,
        the shortest solution replaces the best one when it is strictly
        shorter, every solution reinforces the trails, and the trails
        evaporate. */
    method Iteration(draw: Oracle, tick: nat, ghost batches: seq<seq<Solution>>, bestRoutes: Option<Solution>, bestDistance: Ext, ghost history: seq<Ext>)
      returns (allRoutes: seq<Solution>, newRoutes: Option<Solution>, newDistance: Ext, next: nat)
      requires Valid() && nAnts > 0
      requires Recorded(batches, bestRoutes, bestDistance, history)
      modifies this, pheromone
      ensures Valid() && Batch(allRoutes)
      ensures SettledBatch(old(Trails), allRoutes)
      ensures Trails == Step(old(Trails), distances, n, allRoutes, decay)
      ensures Recorded(batches + [allRoutes], newRoutes, newDistance, history + [newDistance])
    {
      allRoutes, next := ConstructAll(draw, tick);
      ghost var start := Trails;
      var dists := Evaluate(allRoutes);
      var minDist := Minimum(dists);
      RecordedSnoc(batches, bestRoutes, bestDistance, history, allRoutes, dists, minDist);
      newRoutes, newDistance := bestRoutes, bestDistance;
      if Below(minDist, bestDistance) {
        newDistance := Fin(minDist);
        var at := FirstIndex(dists, minDist);
        newRoutes := Some(allRoutes[at]);
      }
      SpreadPheromone(allRoutes, AsDists(dists));
      Evaporate();
      assert start == old(Trails);
    }

    /** The colony loop: every iteration lets each ant construct its routes,
        keeps the shortest solution when it strictly improves on the best so
        far, reinforces the trails with all solutions, lets them evaporate and
        records the best distance. `batches` are the solutions of each
        iteration. */
    method Run(draw: Oracle, tick: nat)
      returns (bestRoutes: Option<Solution>, bestDistance: Ext, history: seq<Ext>, ghost batches: seq<seq<Solution>>)
      requires Valid()
      requires nIterations > 0 ==> nAnts > 0
      modifies this, pheromone
      ensures Valid()
      ensures |batches| == nIterations && Batches(batches)
      ensures Recorded(batches, bestRoutes, bestDistance, history)
      ensures Trails == Colony(old(Trails), distances, n, batches, decay)
      ensures Constructed(old(Trails), batches)
    {
      bestRoutes := None;
      bestDistance := Inf;
      history := [];
      batches := [];
      var next := tick;
      for iteration := 0 to nIterations
        invariant Valid()
        invariant |batches| == iteration && Batches(batches)
        invariant Recorded(batches, bestRoutes, bestDistance, history)
        invariant Trails == Colony(old(Trails), distances, n, batches, decay)
        invariant Constructed(old(Trails), batches)
      {
        var allRoutes;
        allRoutes, bestRoutes, bestDistance, next := Iteration(draw, next, batches, bestRoutes, bestDistance, history);
        history := history + [bestDistance];
        ColonySnoc(old(Trails), distances, n, batches, allRoutes, decay);
        ConstructedSnoc(old(Trails), batches, allRoutes);
        BatchesSnoc(batches, allRoutes);
        batches := batches + [allRoutes];
      }
    }
  }
}
