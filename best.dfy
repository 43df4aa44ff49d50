/** How the colony loop keeps its best solution: the minimum of an
    iteration's total distances, its first position, and the record that is
    replaced only by a strictly smaller minimum. */
module Best {
  import opened Routes

  datatype Option<T> = None | Some(value: T)

  /** a is no greater than b, where Inf lies above every finite value. */
  predicate AtMost(a: Ext, b: Ext) {
    b.Inf? || (a.Fin? && a.v <= b.v)
  }

  /** The finite value m lies strictly below b. */
  predicate Below(m: real, b: Ext) {
    b.Inf? || m < b.v
  }

  /** The smallest value, found scanning left to right and keeping the
      current one unless a strictly smaller value comes. */
  function MinOf(s: seq<real>): (m: real)
    requires |s| > 0
    ensures m in s
    ensures forall i :: 0 <= i < |s| ==> m <= s[i]
  {
    if |s| == 1 then s[0]
    else
      var m := MinOf(s[..|s| - 1]);
      if s[|s| - 1] < m then s[|s| - 1] else m
  }

  /** The first position holding v. */
  function FirstIndexOf(s: seq<real>, v: real): (i: nat)
    requires v in s
    ensures i < |s| && s[i] == v
    ensures forall j :: 0 <= j < i ==> s[j] != v
  {
    if s[0] == v then 0 else 1 + FirstIndexOf(s[1..], v)
  }

  /** The smallest value of a non-empty list, as `min` finds it. */
  method Minimum(s: seq<real>) returns (m: real)
    requires |s| > 0
    ensures m == MinOf(s)
  {
    m := s[0];
    for i := 1 to |s|
      invariant m == MinOf(s[..i])
    {
      assert s[..i + 1][..i] == s[..i];
      if s[i] < m {
        m := s[i];
      }
    }
    assert s[..|s|] == s;
  }

  /** The first position of a value the list holds, as `index` finds it. */
  method FirstIndex(s: seq<real>, v: real) returns (i: nat)
    requires v in s
    ensures i == FirstIndexOf(s, v)
  {
    i := 0;
    while s[i] != v
      invariant i < |s| && v in s[i..]
      invariant FirstIndexOf(s, v) == i + FirstIndexOf(s[i..], v)
      decreases |s| - i
    {
      assert s[i..][1..] == s[i + 1..];
      i := i + 1;
    }
  }

  /** The best record after some iterations: its distance, and the iteration
      and the ant that achieved it, if any. */
  datatype Record = Record(dist: Ext, at: Option<(nat, nat)>)

  /** Every iteration evaluated at least one solution. */
  predicate Rows(table: seq<seq<real>>) {
    forall i :: 0 <= i < |table| ==> |table[i]| > 0
  }

  /** The record after the iterations whose total distances are the rows of
      `table`: it starts at Inf with no solution, and an iteration replaces it
      by its minimum and the first ant reaching it when that minimum is
      strictly smaller. */
  function Track(table: seq<seq<real>>): (b: Record)
    requires Rows(table)
    ensures b.at.Some? <==> |table| > 0
    ensures b.at.Some? ==> b.at.value.0 < |table| && b.at.value.1 < |table[b.at.value.0]|
    ensures b.at.Some? ==> b.dist == Fin(table[b.at.value.0][b.at.value.1])
  {
    if |table| == 0 then Record(Inf, None)
    else
      var prev := Track(table[..|table| - 1]);
      var costs := table[|table| - 1];
      var m := MinOf(costs);
      if Below(m, prev.dist) then Record(Fin(m), Some((|table| - 1, FirstIndexOf(costs, m)))) else prev
  }

  /** The record's distance after each iteration, in order. */
  function History(table: seq<seq<real>>): (h: seq<Ext>)
    requires Rows(table)
    ensures |h| == |table|
  {
    if |table| == 0 then [] else History(table[..|table| - 1]) + [Track(table).dist]
  }

  /** One more iteration either keeps the record or replaces it by its own
      minimum and first position, and extends the history by the new record. */
  lemma TrackSnoc(table: seq<seq<real>>, row: seq<real>)
    requires Rows(table) && |row| > 0
    ensures Rows(table + [row])
    ensures var m := MinOf(row);
      Track(table + [row]) ==
        if Below(m, Track(table).dist) then Record(Fin(m), Some((|table|, FirstIndexOf(row, m)))) else Track(table)
    ensures History(table + [row]) == History(table) + [Track(table + [row]).dist]
  {
    assert (table + [row])[..|table|] == table;
  }

  /** A record taken before the last batch points at the same solution once
      the batch is added, and a record pointing into the last batch names that
      batch's solution. */
  lemma ChosenSnoc(batches: seq<seq<Solution>>, batch: seq<Solution>, at: Option<(nat, nat)>, j: nat)
    requires at.Some? ==> at.value.0 < |batches| && at.value.1 < |batches[at.value.0]|
    requires j < |batch|
    ensures Chosen(batches + [batch], at) == Chosen(batches, at)
    ensures Chosen(batches + [batch], Some((|batches|, j))) == Some(batch[j])
  {
  }

  /** The record is no greater than any total distance seen. */
  lemma {:induction false} TrackMinimal(table: seq<seq<real>>)
    requires Rows(table)
    ensures forall i, a :: 0 <= i < |table| && 0 <= a < |table[i]| ==> AtMost(Track(table).dist, Fin(table[i][a]))
  {
    if |table| > 0 {
      var init := table[..|table| - 1];
      TrackMinimal(init);
      assert forall i :: 0 <= i < |init| ==> init[i] == table[i];
    }
  }

  /** The record is the first minimum: every iteration before the recorded one
      saw only strictly larger distances, and so did every ant of the recorded
      iteration before the recorded ant. */
  lemma {:induction false} TrackFirst(table: seq<seq<real>>)
    requires Rows(table)
    ensures var b := Track(table);
      b.at.Some? ==>
        (forall i, a :: 0 <= i < b.at.value.0 && 0 <= a < |table[i]| ==> b.dist.v < table[i][a]) &&
        (forall a :: 0 <= a < b.at.value.1 ==> b.dist.v < table[b.at.value.0][a])
  {
    if |table| > 0 {
      var init := table[..|table| - 1];
      TrackFirst(init);
      TrackMinimal(init);
      assert forall i :: 0 <= i < |init| ==> init[i] == table[i];
      var costs := table[|table| - 1];
      var m := MinOf(costs);
      if !Below(m, Track(init).dist) {
        assert Track(table) == Track(init);
      } else {
        forall a | 0 <= a < FirstIndexOf(costs, m)
          ensures m < costs[a]
        {
          assert costs[a] != m && m <= costs[a];
        }
      }
    }
  }

  /** The record never grows: each entry of the history is at most the one
      before it, and the last entry is the final record. */
  lemma {:induction false} HistoryNonIncreasing(table: seq<seq<real>>)
    requires Rows(table)
    ensures forall i, j :: 0 <= i < j < |table| ==> AtMost(History(table)[j], History(table)[i])
    ensures |table| > 0 ==> History(table)[|table| - 1] == Track(table).dist
  {
    if |table| > 0 {
      var init := table[..|table| - 1];
      HistoryNonIncreasing(init);
      assert Rows(init);
      var h := History(table);
      if |init| > 0 {
        assert h[|init| - 1] == Track(init).dist;
        forall i | 0 <= i < |init|
          ensures AtMost(h[|init|], h[i])
        {
          assert h[i] == History(init)[i];
        }
      }
    }
  }

  /** Each entry of the history is at most every total distance seen up to
      and including that iteration. */
  lemma {:induction false} HistoryMinimal(table: seq<seq<real>>)
    requires Rows(table)
    ensures forall i, j, a :: 0 <= j <= i < |table| && 0 <= a < |table[j]| ==> AtMost(History(table)[i], Fin(table[j][a]))
  {
    if |table| > 0 {
      var init := table[..|table| - 1];
      HistoryMinimal(init);
      TrackMinimal(table);
      var h := History(table);
      forall i, j, a | 0 <= j <= i < |table| && 0 <= a < |table[j]|
        ensures AtMost(h[i], Fin(table[j][a]))
      {
        if i < |init| {
          assert h[i] == History(init)[i] && table[j] == init[j];
        }
      }
    }
  }

  /** Each entry of the history is the record after that many iterations. */
  lemma {:induction false} HistoryEntry(table: seq<seq<real>>, i: nat)
    requires Rows(table) && i < |table|
    ensures Rows(table[..i + 1]) && History(table)[i] == Track(table[..i + 1]).dist
  {
    var init := table[..|table| - 1];
    if i < |init| {
      HistoryEntry(init, i);
      assert init[..i + 1] == table[..i + 1];
    } else {
      assert table[..i + 1] == table;
    }
  }

  /** A record that points at a solution names the solution it points at. */
  function Chosen(batches: seq<seq<Solution>>, at: Option<(nat, nat)>): Option<Solution> {
    match at
    case None => None
    case Some(p) => if p.0 < |batches| && p.1 < |batches[p.0]| then Some(batches[p.0][p.1]) else None
  }
}
