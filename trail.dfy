/** The pheromone table as a value: how one iteration reinforces it with the
    ants' solutions and then lets it evaporate. */
module Trail {
  import opened Routes
  import opened Cost

  /** An n by n table of trail strengths, row x and column y for the directed edge (x, y). */
  type Table = seq<seq<real>>

  predicate IsTable(t: Table, n: nat) {
    |t| == n && forall x :: 0 <= x < n ==> |t[x]| == n
  }

  /** The starting table: every entry 1 / n. */
  function Uniform(n: nat): Table
    requires n > 0
  {
    seq(n, x => seq(n, y => 1.0 / n as real))
  }

  /** What one traversal of an edge deposits for a solution of total distance
      `dist`: 1 / dist, and nothing when dist is 0 or not finite. */
  function Share(dist: Ext): real {
    if dist.Inf? || dist.v == 0.0 then 0.0 else 1.0 / dist.v
  }

  /** The sum of c deposits of `share`, added one traversal at a time. */
  function Times(c: nat, share: real): real {
    if c == 0 then 0.0 else Times(c - 1, share) + share
  }

  /** Adding c deposits one at a time is the product of c and the share. */
  lemma {:induction false} TimesIsProduct(c: nat, share: real)
    ensures Times(c, share) == c as real * share
  {
    if c > 0 {
      TimesIsProduct(c - 1, share);
    }
  }

  lemma {:induction false} TimesAdd(a: nat, b: nat, share: real)
    ensures Times(a + b, share) == Times(a, share) + Times(b, share)
  {
    if b > 0 {
      TimesAdd(a, b - 1, share);
    }
  }

  /** The reinforcement the first m solutions add to the edge (x, y). */
  function DepositUpTo(sols: seq<Solution>, dists: seq<Ext>, m: nat, x: nat, y: nat): real
    requires m <= |sols| && m <= |dists|
  {
    if m == 0 then 0.0
    else DepositUpTo(sols, dists, m - 1, x, y) + Times(EdgeCount(sols[m - 1], x, y), Share(dists[m - 1]))
  }

  /** Solutions are paired with distances position by position, as far as the
      shorter of the two lists goes. */
  function Paired(sols: seq<Solution>, dists: seq<Ext>): nat {
    if |sols| < |dists| then |sols| else |dists|
  }

  /** The reinforcement all solutions add to the edge (x, y). */
  function Deposit(sols: seq<Solution>, dists: seq<Ext>, x: nat, y: nat): real {
    DepositUpTo(sols, dists, Paired(sols, dists), x, y)
  }

  /** The table after every solution has deposited on the edges it takes. */
  function Reinforce(t: Table, sols: seq<Solution>, dists: seq<Ext>): Table {
    seq(|t|, x requires 0 <= x < |t| => seq(|t[x]|, y requires 0 <= y < |t[x]| => t[x][y] + Deposit(sols, dists, x, y)))
  }

  /** The table after every entry is multiplied by `decay`. */
  function Evaporated(t: Table, decay: real): Table {
    seq(|t|, x requires 0 <= x < |t| => seq(|t[x]|, y requires 0 <= y < |t[x]| => t[x][y] * decay))
  }

  /** The solutions' total distances, as the pheromone update receives them. */
  function AsDists(costs: seq<real>): (dists: seq<Ext>)
    ensures |dists| == |costs| && forall a :: 0 <= a < |costs| ==> dists[a] == Fin(costs[a])
  {
    seq(|costs|, a requires 0 <= a < |costs| => Fin(costs[a]))
  }

  /** One iteration's update: reinforce with the iteration's batch of
      solutions, weighted by their total distances, then evaporate. */
  function Step(t: Table, d: Matrix, n: nat, batch: seq<Solution>, decay: real): Table
    requires Square(d, n)
    requires forall a :: 0 <= a < |batch| ==> InBounds(batch[a], n)
  {
    Evaporated(Reinforce(t, batch, AsDists(Totals(d, n, batch))), decay)
  }

  /** The table after a run has gone through its batches in order. */
  function Colony(t: Table, d: Matrix, n: nat, batches: seq<seq<Solution>>, decay: real): Table
    requires Square(d, n)
    requires AllInBounds(batches, n)
  {
    if |batches| == 0 then t
    else Step(Colony(t, d, n, batches[..|batches| - 1], decay), d, n, batches[|batches| - 1], decay)
  }

  /** A run keeps the shape of the table. */
  lemma {:induction false} ColonyIsTable(t: Table, d: Matrix, n: nat, batches: seq<seq<Solution>>, decay: real)
    requires IsTable(t, n) && Square(d, n) && AllInBounds(batches, n)
    ensures IsTable(Colony(t, d, n, batches, decay), n)
  {
    if |batches| > 0 {
      ColonyIsTable(t, d, n, batches[..|batches| - 1], decay);
    }
  }

  /** One more batch applies one more iteration's update. */
  lemma ColonySnoc(t: Table, d: Matrix, n: nat, batches: seq<seq<Solution>>, batch: seq<Solution>, decay: real)
    requires Square(d, n) && AllInBounds(batches + [batch], n)
    ensures AllInBounds(batches, n) && forall a :: 0 <= a < |batch| ==> InBounds(batch[a], n)
    ensures Colony(t, d, n, batches + [batch], decay) == Step(Colony(t, d, n, batches, decay), d, n, batch, decay)
  {
    var all := batches + [batch];
    assert forall i :: 0 <= i < |batches| ==> all[i] == batches[i];
    assert all[|batches|] == batch;
    assert all[..|batches|] == batches;
  }

  /** The deposits of one more route add that route's deposits. */
  lemma RoutesDeposit(sol: Solution, k: nat, share: real)
    requires k < |sol|
    ensures forall x, y ::
              Times(RoutesEdgeCount(sol, k + 1, x, y), share) ==
              Times(RoutesEdgeCount(sol, k, x, y), share) + Times(RouteEdgeCount(sol[k], x, y), share)
  {
    forall x, y {
      TimesAdd(RoutesEdgeCount(sol, k, x, y), RouteEdgeCount(sol[k], x, y), share);
    }
  }

  /** A solution that does not take (x, y) deposits nothing there. */
  lemma {:induction false} DepositUntouched(sols: seq<Solution>, dists: seq<Ext>, m: nat, x: nat, y: nat)
    requires m <= |sols| && m <= |dists|
    requires forall k :: 0 <= k < m ==> EdgeCount(sols[k], x, y) == 0
    ensures DepositUpTo(sols, dists, m, x, y) == 0.0
  {
    if m > 0 {
      DepositUntouched(sols, dists, m - 1, x, y);
    }
  }

  /** Deposits are never negative when no distance is negative. */
  lemma {:induction false} DepositNonNegative(sols: seq<Solution>, dists: seq<Ext>, m: nat, x: nat, y: nat)
    requires m <= |sols| && m <= |dists|
    requires forall k :: 0 <= k < |dists| && dists[k].Fin? ==> dists[k].v >= 0.0
    ensures DepositUpTo(sols, dists, m, x, y) >= 0.0
  {
    if m > 0 {
      DepositNonNegative(sols, dists, m - 1, x, y);
      var c, s := EdgeCount(sols[m - 1], x, y), Share(dists[m - 1]);
      TimesIsProduct(c, s);
      assert s >= 0.0 && c as real * s >= 0.0;
    }
  }

  /** Reinforcement changes only the entries of edges some solution takes. */
  lemma ReinforceOnlyTraversed(t: Table, sols: seq<Solution>, dists: seq<Ext>, x: nat, y: nat)
    requires x < |t| && y < |t[x]|
    requires forall k :: 0 <= k < |sols| ==> EdgeCount(sols[k], x, y) == 0
    ensures |Reinforce(t, sols, dists)| == |t| && |Reinforce(t, sols, dists)[x]| == |t[x]|
    ensures Reinforce(t, sols, dists)[x][y] == t[x][y]
  {
    DepositUntouched(sols, dists, Paired(sols, dists), x, y);
  }

  /** A solution whose total distance is zero or not finite adds nothing to
      the deposits of the solutions before it. */
  lemma DegenerateDepositsNothing(sols: seq<Solution>, dists: seq<Ext>, m: nat, x: nat, y: nat)
    requires 0 < m <= |sols| && m <= |dists|
    requires dists[m - 1].Inf? || dists[m - 1].v == 0.0
    ensures DepositUpTo(sols, dists, m, x, y) == DepositUpTo(sols, dists, m - 1, x, y)
  {
    TimesIsProduct(EdgeCount(sols[m - 1], x, y), Share(dists[m - 1]));
  }


  /** Every entry of a table is positive. */
  predicate Positive(t: Table) {
    forall x, y :: 0 <= x < |t| && 0 <= y < |t[x]| ==> t[x][y] > 0.0
  }

  /** The starting table is positive. */
  lemma UniformPositive(n: nat)
    requires n > 0
    ensures IsTable(Uniform(n), n) && Positive(Uniform(n))
  {
  }

  /** With a non-negative matrix, one iteration keeps every entry positive for
      any decay above 0, and never lowers an entry when the decay is 1. */
  lemma StepBounds(t: Table, d: Matrix, n: nat, batch: seq<Solution>, decay: real)
    requires IsTable(t, n) && Square(d, n) && NonNegative(d)
    requires forall a :: 0 <= a < |batch| ==> InBounds(batch[a], n)
    ensures IsTable(Step(t, d, n, batch, decay), n)
    ensures Positive(t) && decay > 0.0 ==> Positive(Step(t, d, n, batch, decay))
    ensures decay == 1.0 ==> forall x, y :: 0 <= x < n && 0 <= y < n ==> Step(t, d, n, batch, decay)[x][y] >= t[x][y]
  {
    var costs := Totals(d, n, batch);
    var dists := AsDists(costs);
    forall k | 0 <= k < |dists| && dists[k].Fin?
      ensures dists[k].v >= 0.0
    {
      TotalCostNonNegative(d, n, batch[k]);
    }
    var r := Reinforce(t, batch, dists);
    forall x, y | 0 <= x < n && 0 <= y < n
      ensures r[x][y] >= t[x][y]
    {
      DepositNonNegative(batch, dists, Paired(batch, dists), x, y);
    }
  }

  /** With a non-negative matrix and a decay above 0, the table stays positive
      through a whole run; with a decay of 1 no entry ever decreases. */
  lemma {:induction false} ColonyBounds(t: Table, d: Matrix, n: nat, batches: seq<seq<Solution>>, decay: real)
    requires IsTable(t, n) && Square(d, n) && NonNegative(d)
    requires AllInBounds(batches, n)
    ensures IsTable(Colony(t, d, n, batches, decay), n)
    ensures Positive(t) && decay > 0.0 ==> Positive(Colony(t, d, n, batches, decay))
    ensures decay == 1.0 ==> forall x, y :: 0 <= x < n && 0 <= y < n ==> Colony(t, d, n, batches, decay)[x][y] >= t[x][y]
  {
    if |batches| > 0 {
      var init := batches[..|batches| - 1];
      ColonyBounds(t, d, n, init, decay);
      var before := Colony(t, d, n, init, decay);
      StepBounds(before, d, n, batches[|batches| - 1], decay);
    }
  }
}
