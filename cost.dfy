/** The total distance of a solution, with a fixed penalty for an edge whose
    distance is not finite. */
module Cost {
  import opened Routes

  /** What a non-finite edge costs in a total distance. */
  const Penalty: real := 999999.0

  /** The contribution of one edge to a total distance. */
  function EdgeCost(e: Ext): real {
    match e
    case Fin(v) => v
    case Inf => Penalty
  }

  /** The sum of the edge costs over the first i steps of a route. */
  function StepsCost(d: Matrix, n: nat, r: Route, i: nat): real
    requires Square(d, n)
    requires forall t :: 0 <= t < |r| ==> r[t] < n
    requires i <= PairCount(r)
  {
    if i == 0 then 0.0 else StepsCost(d, n, r, i - 1) + EdgeCost(d[r[i - 1]][r[i]])
  }

  /** The sum of the edge costs over the consecutive pairs of a route. */
  function RouteCost(d: Matrix, n: nat, r: Route): real
    requires Square(d, n)
    requires forall t :: 0 <= t < |r| ==> r[t] < n
  {
    StepsCost(d, n, r, PairCount(r))
  }

  /** The sum of the route costs over all routes of a solution. */
  function TotalCost(d: Matrix, n: nat, sol: Solution): real
    requires Square(d, n) && InBounds(sol, n)
  {
    if |sol| == 0 then 0.0
    else TotalCost(d, n, sol[..|sol| - 1]) + RouteCost(d, n, sol[|sol| - 1])
  }

  /** The total distance of every solution of an ant batch, in order. */
  function Totals(d: Matrix, n: nat, batch: seq<Solution>): (costs: seq<real>)
    requires Square(d, n)
    requires forall a :: 0 <= a < |batch| ==> InBounds(batch[a], n)
    ensures |costs| == |batch|
    ensures forall a :: 0 <= a < |batch| ==> costs[a] == TotalCost(d, n, batch[a])
  {
    if |batch| == 0 then []
    else Totals(d, n, batch[..|batch| - 1]) + [TotalCost(d, n, batch[|batch| - 1])]
  }

  /** The total distances of every batch, batch by batch. */
  function CostTable(d: Matrix, n: nat, batches: seq<seq<Solution>>): (table: seq<seq<real>>)
    requires Square(d, n)
    requires AllInBounds(batches, n)
    ensures |table| == |batches|
    ensures forall i :: 0 <= i < |batches| ==> table[i] == Totals(d, n, batches[i])
  {
    if |batches| == 0 then []
    else CostTable(d, n, batches[..|batches| - 1]) + [Totals(d, n, batches[|batches| - 1])]
  }

  /** Each entry of the table is the total distance of its solution. */
  lemma CostEntry(d: Matrix, n: nat, batches: seq<seq<Solution>>, i: nat, a: nat)
    requires Square(d, n) && AllInBounds(batches, n)
    requires i < |batches| && a < |batches[i]|
    ensures |CostTable(d, n, batches)[i]| == |batches[i]|
    ensures CostTable(d, n, batches)[i][a] == TotalCost(d, n, batches[i][a])
  {
  }

  /** One more batch adds one more row of total distances. */
  lemma CostTableSnoc(d: Matrix, n: nat, batches: seq<seq<Solution>>, batch: seq<Solution>)
    requires Square(d, n) && AllInBounds(batches, n)
    requires forall a :: 0 <= a < |batch| ==> InBounds(batch[a], n)
    ensures AllInBounds(batches + [batch], n)
    ensures CostTable(d, n, batches + [batch]) == CostTable(d, n, batches) + [Totals(d, n, batch)]
  {
    var all := batches + [batch];
    assert forall i :: 0 <= i < |batches| ==> all[i] == batches[i];
    assert all[..|batches|] == batches;
  }

  /** Each edge costs at least nothing when the finite entries are non-negative. */
  lemma EdgeCostNonNegative(d: Matrix, n: nat, a: nat, b: nat)
    requires Square(d, n) && NonNegative(d) && a < n && b < n
    ensures EdgeCost(d[a][b]) >= 0.0
  {
  }

  lemma {:induction false} StepsCostNonNegative(d: Matrix, n: nat, r: Route, i: nat)
    requires Square(d, n) && NonNegative(d)
    requires forall t :: 0 <= t < |r| ==> r[t] < n
    requires i <= PairCount(r)
    ensures StepsCost(d, n, r, i) >= 0.0
  {
    if i > 0 {
      StepsCostNonNegative(d, n, r, i - 1);
      EdgeCostNonNegative(d, n, r[i - 1], r[i]);
    }
  }

  /** A total distance is never negative when the finite entries are not. */
  lemma {:induction false} TotalCostNonNegative(d: Matrix, n: nat, sol: Solution)
    requires Square(d, n) && NonNegative(d) && InBounds(sol, n)
    ensures TotalCost(d, n, sol) >= 0.0
  {
    if |sol| > 0 {
      TotalCostNonNegative(d, n, sol[..|sol| - 1]);
      StepsCostNonNegative(d, n, sol[|sol| - 1], PairCount(sol[|sol| - 1]));
    }
  }

  /** Every route is closed at the depot, so a route without stops costs the
      diagonal entry of the depot: nothing when that entry is 0, the penalty
      when it is not finite. */
  lemma EmptyRouteCost(d: Matrix, n: nat)
    requires n >= 1 && Square(d, n)
    ensures RouteCost(d, n, [0, 0]) == EdgeCost(d[0][0])
  {
    assert StepsCost(d, n, [0, 0], 0) == 0.0;
  }
}
