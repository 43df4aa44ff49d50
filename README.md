# Multi-vehicle ant colony solver, modelled in Dafny

This project models `AntColonyMulti`, the multi-vehicle ant colony
optimisation solver of `aco_multi.py`. The solver routes `n_vehicles` trucks
from a depot (location 0) through pickup points 1 .. n-1 of an n by n
distance matrix. Its parts are:

- `construct_routes`: one ant builds one route per vehicle. A route leaves the
  depot and draws its next stop among the unvisited locations at a finite,
  nonzero distance, weighted by pheromone and inverse distance. It stops when
  no candidate qualifies, when the weights sum to zero, or when it holds more
  than `n // n_vehicles` entries, and then it returns to the depot.
- `total_distance`: the sum over every step of every route. A non-finite
  step counts as the penalty 999999.
- `spread_pheromone`: every solution adds `1 / distance` to each edge it
  takes, once per traversal. Solutions with distance 0 or a non-finite
  distance add nothing.
- `run`: the colony loop. Each iteration constructs one solution per ant and
  keeps the shortest one when it is strictly shorter than the best so far.
  It then reinforces the pheromone table, multiplies it by `decay`, and
  records the best distance in a history.

The model is organised as follows:

- `routes.dfy` (module `Routes`): distances as `Ext`, which is finite or
  `Inf`, the shape of a solution, the candidate list, and the edge counts.
- `cost.dfy` (module `Cost`): the total distance as a specification
  function.
- `trail.dfy` (module `Trail`): the pheromone table as a value. It covers
  reinforcement, evaporation, one iteration (`Step`) and a whole run
  (`Colony`).
- `best.dfy` (module `Best`): `min`, `index`, and the best-so-far record with
  its history.
- `aco_multi.dfy` (module `AcoMulti`): the class. Its pheromone table is an
  `array2<real>` updated in place, tied to the ghost value `Trails` by
  `Valid()`. The construction, the distance sums, the pheromone update and
  the colony loop are imperative methods, each proved against the
  specification functions.

Randomness is a parameter. An `Oracle` receives the number of draws made so
far, the candidates and their normalised weights, and returns a raw draw. The
pick is the candidate at that draw modulo the number of candidates, so every
oracle picks a candidate and every candidate can be picked. The weight
`pheromone ** alpha * (1 / d) ** beta` is an abstract function `weight` of
the pheromone level and the distance.

A design consequence is proved as `Routes.CapForcesOmission`. When the
vehicles' caps together leave fewer places than there are pickup points,
every solution misses one. For example, ten locations served by four vehicles
always leave one of the nine pickup points unrouted.

## Model

| member | source | states |
|---|---|---|
| AcoMulti.AntColonyMulti.constructor | aco_multi.py:5-14 | stores the matrix and the parameters, sizes the pheromone table n by n, and sets every entry to 1/n (`Trails == Uniform(n)`) |
| Trail.UniformPositive | aco_multi.py:7 | the starting table is n by n and every entry is positive |
| Routes.CandidatesBelowSpec | aco_multi.py:50-62 | a location is a candidate exactly when it is unvisited and lies at a finite, nonzero distance; candidates come once each, in ascending order |
| AcoMulti.AntColonyMulti.Candidates | aco_multi.py:50-62 | the scan returns the candidate list and, position by position, the weight of each candidate; every candidate is unvisited and reachable |
| AcoMulti.AntColonyMulti.NextStop | aco_multi.py:49-72 | no next stop exactly when no candidate qualifies or the weights sum to 0; otherwise the stop is the candidate the oracle's draw selects from the normalised weights, and it is unvisited and reachable |
| AcoMulti.AntColonyMulti.BuildingStep | aco_multi.py:73-78 | taking a drawn stop keeps the route well formed, shrinks `unvisited` by that stop, and ends the loop exactly when the route passes the cap |
| AcoMulti.AntColonyMulti.ClosedRoute | aco_multi.py:64-80 | returning to the depot yields a route within the cap that falls short of the cap only when its last stop was stuck |
| AcoMulti.AntColonyMulti.BuildRoute | aco_multi.py:47-80 | the route starts and ends at 0; its stops are distinct pickup points not placed before, each reached over a finite, nonzero distance; it holds at most max(1, n // n_vehicles) stops; `unvisited` comes back without them; it ends at the cap or stuck; one draw is used per stop |
| AcoMulti.AntColonyMulti.VehicleDone | aco_multi.py:80-81 | appending a finished route keeps the stops of all vehicles distinct, keeps `unvisited` equal to the pickup points no vehicle took, and keeps every route ended at its cap or stuck |
| AcoMulti.AntColonyMulti.SettledAt | aco_multi.py:64-78 | every route of a solution holds its cap, or its last stop was stuck among the pickup points that neither it nor an earlier vehicle took |
| AcoMulti.AntColonyMulti.ConstructRoutes | aco_multi.py:42-83 | exactly `n_vehicles` routes; each starts and ends at 0, has only pickup points as stops, and steps over finite nonzero distances; no stop repeats across the solution; each route holds at most the cap, or ends where it was stuck under the current pheromone table among the pickup points no vehicle took |
| Routes.EmptyRoute | aco_multi.py:47-80 | a route without stops is exactly `[0, 0]` |
| Routes.CapForcesOmission | aco_multi.py:77-78 | when n_vehicles × cap < n - 1, every feasible solution leaves some pickup point unrouted |
| Routes.TenLocationsFourVehicles | aco_multi.py:77-78 | with 10 locations and 4 vehicles, every feasible solution misses one of the 9 pickup points |
| AcoMulti.AntColonyMulti.TotalDistance | aco_multi.py:85-94 | the accumulated sum equals the sum of every step's entry over every route, with 999999 for a non-finite entry |
| Cost.TotalCostNonNegative | aco_multi.py:85-94 | the total distance is never negative when no finite entry is negative |
| Cost.EmptyRouteCost | aco_multi.py:85-94 | a route without stops costs the depot's diagonal entry, or the penalty when that entry is not finite |
| AcoMulti.AntColonyMulti.Evaluate | aco_multi.py:27 | one total distance per ant, in ant order, each that ant's total cost |
| Cost.Totals | aco_multi.py:27 | the list of totals has one entry per solution, and entry a is the total cost of solution a |
| Best.MinOf | aco_multi.py:28 | the minimum is an element of the list and at most every element |
| Best.Minimum | aco_multi.py:28 | the scan returns the minimum of a non-empty list |
| Best.FirstIndexOf | aco_multi.py:32 | the position holds the value and no earlier position does |
| Best.FirstIndex | aco_multi.py:32 | the scan returns the first position of a value the list holds |
| AcoMulti.AntColonyMulti.DepositRoute | aco_multi.py:101-102 | each entry grows by `share` once per traversal of its edge by the route; the others keep their value |
| AcoMulti.AntColonyMulti.DepositSolution | aco_multi.py:100-102 | each entry grows by `share` once per traversal of its edge by any route of the solution |
| Trail.TimesIsProduct | aco_multi.py:102 | adding `share` once per traversal adds the traversal count times `share` |
| Routes.EdgeCountPositive | aco_multi.py:100-102 | a solution traverses an edge at least once exactly when one of its routes does |
| Routes.RouteEdgeCountPositive | aco_multi.py:101-102 | a route traverses an edge at least once exactly when that edge joins two consecutive entries of it |
| AcoMulti.AntColonyMulti.SpreadPheromone | aco_multi.py:96-102 | the new table is the old one plus, for each edge, the sum over the paired solutions of traversals × 1/dist, skipping solutions whose distance is 0 or not finite; the table keeps its shape |
| Trail.ReinforceOnlyTraversed | aco_multi.py:96-102 | an entry whose edge no solution traverses is unchanged by reinforcement |
| Trail.DegenerateDepositsNothing | aco_multi.py:98-99 | a solution whose distance is 0 or not finite adds nothing to the deposits of the solutions before it, whatever the other distances are |
| Trail.DepositNonNegative | aco_multi.py:96-102 | deposits are never negative when no distance is negative |
| AcoMulti.AntColonyMulti.Evaporate | aco_multi.py:35 | every entry is multiplied by `decay` |
| Trail.StepBounds | aco_multi.py:34-35 | one iteration keeps an n by n table. With a non-negative matrix it keeps every entry positive for any decay above 0, and lowers no entry when the decay is 1 |
| Trail.ColonyBounds | aco_multi.py:21-36 | the same bounds hold for the table after any number of iterations |
| Trail.ColonySnoc | aco_multi.py:21-36 | one more iteration applies one more reinforce-then-evaporate step to the table |
| Trail.ColonyIsTable | aco_multi.py:21-36 | any number of iterations keeps an n by n table |
| AcoMulti.AntColonyMulti.ConstructAll | aco_multi.py:22-25 | one feasible solution per ant, each settled (every route at its cap or stuck) under the same table, which no ant changes |
| Best.Track | aco_multi.py:17-32 | there is a best solution exactly when at least one iteration ran; it points at an evaluated solution, and the best distance is that solution's total |
| Best.TrackSnoc | aco_multi.py:30-36 | an iteration replaces the record exactly when its minimum is strictly below the best distance, taking the first ant that reaches the minimum; the history gains the new best distance |
| Best.TrackMinimal | aco_multi.py:28-31 | the best distance is at most every total distance seen |
| Best.TrackFirst | aco_multi.py:28-32 | every earlier iteration, and every earlier ant of the recorded iteration, had a strictly larger total, so ties keep the earlier best |
| Best.HistoryNonIncreasing | aco_multi.py:36 | history entries never increase, and the last one is the best distance |
| Best.HistoryMinimal | aco_multi.py:36 | each history entry is at most every total distance seen up to and including its iteration |
| Best.HistoryEntry | aco_multi.py:36 | entry i of the history is the best distance after iteration i |
| AcoMulti.AntColonyMulti.RecordedSnoc | aco_multi.py:28-36 | the loop's update of best distance, best solution and history keeps them equal to the record over all iterations so far |
| AcoMulti.AntColonyMulti.Iteration | aco_multi.py:22-36 | one feasible solution per ant, each settled under the table as it was before the update; the table becomes (old + reinforcement) × decay; best distance, best solution and history are the record over the iterations including this one |
| AcoMulti.AntColonyMulti.Run | aco_multi.py:16-40 | `n_iterations` batches of one feasible solution per ant, each batch settled under the table the iterations before it left; best distance, best solution and history are the record over all of them; the final table is the starting one after every iteration's reinforce-then-evaporate step |
| AcoMulti.AntColonyMulti.ConstructedAt | aco_multi.py:21-36 | batch i of a run was built under the starting table after the reinforce-then-evaporate steps of batches 0 .. i-1: every solution in it is settled under that table |
| AcoMulti.AntColonyMulti.SettledBatchSnoc | aco_multi.py:23-25 | appending a solution settled under a table to a batch settled under it keeps the batch settled |
| AcoMulti.AntColonyMulti.RecordedHistory | aco_multi.py:19-36 | the history has one entry per iteration, never increases, holds at each entry at most every total seen so far, and ends with the best distance |
| AcoMulti.AntColonyMulti.RecordedMinimal | aco_multi.py:17-31 | before any iteration there is no best solution and the best distance is infinite; the best distance is at most every total distance evaluated |
| AcoMulti.AntColonyMulti.RecordedFirst | aco_multi.py:28-32 | after at least one iteration, the best solution is an evaluated solution whose total is the best distance, and no solution before it, in iteration then ant order, is as short |

## Left out

- app.py (the web interface, maps, charts and exports) and utils.py (haversine distances, CSV loading, plots, fuel cost) are not part of this model.
- The probabilities of `random.choices`: the draw is an oracle parameter, and the pick is the candidate at the draw modulo the number of candidates. Every property holds for every oracle.
- The float powers `** alpha` and `** beta`: the weight is an abstract function of pheromone level and distance.
- The progress `print` of each iteration.
- Floating-point rounding and overflow: distances, totals and pheromone levels are exact reals. A total distance is therefore always finite, and the skip for a non-finite total in `spread_pheromone` is modelled but is reachable only when the method is called directly.
- NaN and the infinities are one value, `Inf`: the solver only asks whether an entry is finite.
- Iteration order of `list(unvisited)`: the candidates are scanned in ascending order, which is how a set of small integers iterates. Together with the oracle, any other order is another oracle.
- `routes[k] = route` into a preallocated list is modelled as appending route k in order, which gives the same list.
- The `break`s of the endless route loop are modelled by a `done` flag in the loop condition.
- AcoMulti.AntColonyMulti.constructor: requires a non-empty square matrix. With an empty matrix the solver fails later, when it evaluates the first route. Matrices with extra columns, which the solver would accept, are not modelled.
- AcoMulti.AntColonyMulti.Run: requires at least one ant when there is at least one iteration, because `min` of an empty list raises an error in `run`.
- Convergence of the heuristic towards an optimum is not claimed.
