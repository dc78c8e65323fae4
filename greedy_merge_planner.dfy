/**
 * `GreedyMergePlanner`: the segments with the highest deleted ratio first, at most `maxToPick` of
 * them. The stream sort is stable, so segments with equal ratios keep their list order.
 *
 * The order is built by inserting the indices `0, 1, ..., n-1` one by one into a list kept in
 * that order; `Plan` maps the first `maxToPick` indices back to segments.
 */
module GreedyMergePlanner {
  import opened Wrappers
  import opened IndexSegment

  /** The deleted ratio of every segment, in list order. */
  function Ratios(segments: seq<Segment>): (r: seq<real>)
    ensures |r| == |segments| && forall k :: 0 <= k < |r| ==> r[k] == DeletedRatio(segments[k])
  {
    seq(|segments|, k requires 0 <= k < |segments| => DeletedRatio(segments[k]))
  }

  /** Index `a` comes before index `b`: a higher ratio, or the same ratio and an earlier place. */
  predicate Precedes(r: seq<real>, a: nat, b: nat)
    requires a < |r| && b < |r|
  {
    r[a] > r[b] || (r[a] == r[b] && a < b)
  }

  /** Indices below `|r|`, each before the next one. */
  predicate Ordered(r: seq<real>, o: seq<nat>) {
    (forall k :: 0 <= k < |o| ==> o[k] < |r|)
    && (forall k :: 1 <= k < |o| ==> Precedes(r, o[k - 1], o[k]))
  }

  /** Places `j`, above every index already in `o`, after every index whose ratio is at least `r[j]`. */
  function InsertBy(r: seq<real>, o: seq<nat>, j: nat): (s: seq<nat>)
    requires j < |r| && forall k :: 0 <= k < |o| ==> o[k] < j
    ensures |s| == |o| + 1 && forall k :: 0 <= k < |s| ==> s[k] <= j
    ensures s[0] == j || (o != [] && s[0] == o[0])
  {
    if o == [] then [j]
    else if r[o[0]] >= r[j] then [o[0]] + InsertBy(r, o[1..], j)
    else [j] + o
  }

  /** The indices `0 .. n-1` in the comparator's order, as the stable sort leaves them. */
  function SortedOrder(r: seq<real>, n: nat): (o: seq<nat>)
    requires n <= |r|
    ensures |o| == n && forall k :: 0 <= k < n ==> o[k] < n
  {
    if n == 0 then [] else InsertBy(r, SortedOrder(r, n - 1), n - 1)
  }

  /** `plan(segments, maxToPick)`; `Stream.limit` rejects a negative size. */
  function Plan(segments: seq<Segment>, maxToPick: int): Result<seq<Segment>> {
    if maxToPick < 0 then Err(IllegalArgument)
    else
      var o := SortedOrder(Ratios(segments), |segments|);
      var m := if maxToPick < |segments| then maxToPick else |segments|;
      Ok(MapIdx(segments, o[..m]))
  }

  /** The segments at the given indices. */
  function MapIdx<T>(xs: seq<T>, idx: seq<nat>): (s: seq<T>)
    requires forall k :: 0 <= k < |idx| ==> idx[k] < |xs|
    ensures |s| == |idx| && forall k :: 0 <= k < |idx| ==> s[k] == xs[idx[k]]
  {
    if idx == [] then [] else [xs[idx[0]]] + MapIdx(xs, idx[1..])
  }

  lemma {:induction false} InsertByKeeps(r: seq<real>, o: seq<nat>, j: nat, x: nat)
    requires j < |r| && forall k :: 0 <= k < |o| ==> o[k] < j
    requires x in o || x == j
    ensures x in InsertBy(r, o, j)
  {
    if o != [] && r[o[0]] >= r[j] && x != o[0] {
      assert x in o[1..] || x == j by {
        if x != j {
          var t :| 0 <= t < |o| && o[t] == x;
          assert o[1..][t - 1] == x;
        }
      }
      InsertByKeeps(r, o[1..], j, x);
    }
  }

  lemma {:induction false} InsertByOrdered(r: seq<real>, o: seq<nat>, j: nat)
    requires j < |r| && Ordered(r, o)
    requires forall k :: 0 <= k < |o| ==> o[k] < j
    ensures Ordered(r, InsertBy(r, o, j))
  {
    if o != [] && r[o[0]] >= r[j] {
      var rest := o[1..];
      InsertByOrdered(r, rest, j);
      var s := InsertBy(r, o, j);
      assert s == [o[0]] + InsertBy(r, rest, j);
      assert Precedes(r, s[0], s[1]);
    }
  }

  /** The sorted order is ordered by the comparator. */
  lemma {:induction false} SortedOrderOrdered(r: seq<real>, n: nat)
    requires n <= |r|
    ensures Ordered(r, SortedOrder(r, n))
  {
    if n > 0 {
      SortedOrderOrdered(r, n - 1);
      InsertByOrdered(r, SortedOrder(r, n - 1), n - 1);
    }
  }

  /** Every index below `n` is in the sorted order. */
  lemma {:induction false} SortedOrderHas(r: seq<real>, n: nat, j: nat)
    requires j < n <= |r|
    ensures j in SortedOrder(r, n)
  {
    if j < n - 1 {
      SortedOrderHas(r, n - 1, j);
    }
    InsertByKeeps(r, SortedOrder(r, n - 1), n - 1, j);
  }

  /** In an ordered list every index precedes every later one, not only the next. */
  lemma {:induction false} OrderedPairs(r: seq<real>, o: seq<nat>, k: nat, l: nat)
    requires Ordered(r, o) && k < l < |o|
    ensures Precedes(r, o[k], o[l])
    decreases l - k
  {
    if k + 1 < l {
      OrderedPairs(r, o, k + 1, l);
      assert Precedes(r, o[k], o[k + 1]);
    }
  }

  /**
   * A non-negative `maxToPick`: the first `min(maxToPick, n)` indices of the order, highest ratio
   * first and ties in list order (so no index twice), and no segment left out has a higher ratio
   * than one picked.
   */
  lemma PlanPicksHighestRatios(segments: seq<Segment>, maxToPick: int)
    requires maxToPick >= 0
    ensures var r := Ratios(segments);
      var o := SortedOrder(r, |segments|);
      var m := if maxToPick < |segments| then maxToPick else |segments|;
      && Plan(segments, maxToPick) == Ok(MapIdx(segments, o[..m]))
      && |Plan(segments, maxToPick).value| == m
      && (forall i, l :: 0 <= i < l < m ==> Precedes(r, o[i], o[l]))
      && (forall i, j :: 0 <= i < m && 0 <= j < |segments| && j !in o[..m] ==> r[j] <= r[o[i]])
  {
    var m := if maxToPick < |segments| then maxToPick else |segments|;
    TopOrder(Ratios(segments), m);
  }

  /** The first `m` indices of the order precede one another and beat every index left out. */
  lemma TopOrder(r: seq<real>, m: nat)
    requires m <= |r|
    ensures var o := SortedOrder(r, |r|);
      && (forall i, l :: 0 <= i < l < m ==> Precedes(r, o[i], o[l]))
      && (forall i, j :: 0 <= i < m && 0 <= j < |r| && j !in o[..m] ==> r[j] <= r[o[i]])
  {
    var o := SortedOrder(r, |r|);
    SortedOrderOrdered(r, |r|);
    forall i, l | 0 <= i < l < m ensures Precedes(r, o[i], o[l]) {
      OrderedPairs(r, o, i, l);
    }
    forall i, j | 0 <= i < m && 0 <= j < |r| && j !in o[..m] ensures r[j] <= r[o[i]] {
      SortedOrderHas(r, |r|, j);
      var t :| 0 <= t < |o| && o[t] == j;
      OrderedPairs(r, o, i, t);
    }
  }

  /** The order lists every index below `n` exactly once. */
  lemma OrderIsPermutation(r: seq<real>)
    ensures var o := SortedOrder(r, |r|);
      && |o| == |r|
      && (forall k :: 0 <= k < |o| ==> o[k] < |r|)
      && (forall k, l :: 0 <= k < l < |o| ==> o[k] != o[l])
      && (forall j :: 0 <= j < |r| ==> j in o)
  {
    var o := SortedOrder(r, |r|);
    SortedOrderOrdered(r, |r|);
    forall k, l | 0 <= k < l < |o| ensures o[k] != o[l] {
      OrderedPairs(r, o, k, l);
    }
    forall j | 0 <= j < |r| ensures j in o {
      SortedOrderHas(r, |r|, j);
    }
  }

  /** A negative size is rejected, a size of 0 picks nothing, a size of at least `n` picks every segment. */
  lemma PlanEdges(segments: seq<Segment>, maxToPick: int)
    ensures maxToPick < 0 ==> Plan(segments, maxToPick) == Err(IllegalArgument)
    ensures maxToPick == 0 ==> Plan(segments, maxToPick) == Ok([])
    ensures maxToPick >= |segments| ==> Plan(segments, maxToPick).Ok? && |Plan(segments, maxToPick).value| == |segments|
  {
  }
}
