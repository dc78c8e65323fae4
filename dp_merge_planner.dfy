/**
 * `DPMergePlanner`: picks the segments to merge under a byte budget with a 0/1 knapsack.
 *
 * Every segment becomes a candidate whose cost is its size estimate (at least 1) and whose benefit
 * grows with its deleted ratio. The table `dp[i][w]` holds the best total benefit of the first `i`
 * candidates within cost `w`; `take[i][w]` records that candidate `i` strictly improved on leaving
 * it out. Backtracking from `(n, budget)` lists the chosen segments, last candidate first.
 *
 * The table's additions are Java `int` additions and wrap; the optimality lemmas hold while the
 * benefits of all candidates sum to at most `Integer.MAX_VALUE`.
 */
module DPMergePlanner {
  import opened JavaInts
  import opened Wrappers
  import opened IndexSegment

  /** `DPMergePlanner.Candidate`: a segment with its cost and benefit. */
  datatype Candidate = Candidate(seg: Segment, cost: int32, benefit: int32)

  // ---------------------------------------------------------------- candidates

  /** Java's `(int)` cast of a double: toward zero, saturating at the ends of the `int` range. */
  function ToInt(x: real): (r: int32)
    ensures 0.0 <= x < INT_MAX as real ==> r as real <= x < r as real + 1.0
    ensures x >= INT_MAX as real ==> r == INT_MAX
  {
    if x >= INT_MAX as real then INT_MAX
    else if x <= INT_MIN as real then INT_MIN
    else if x >= 0.0 then x.Floor
    else -((-x).Floor)
  }

  /** `Math.max(1, s.sizeBytesEstimate())`. */
  ghost function Cost(s: Segment): (c: int32)
    ensures c >= 1
    ensures SizeEstimate(s) >= 1 ==> c == SizeEstimate(s)
  {
    if SizeEstimate(s) >= 1 then SizeEstimate(s) else 1
  }

  /** `(int)(cost * (1 + deletedRatio * 10))`, in exact arithmetic. */
  function Benefit(cost: int32, ratio: real): int32 {
    ToInt(cost as real * (1.0 + ratio * 10.0))
  }

  /** A segment with no deletions is worth its cost; deletions only add to it. */
  lemma BenefitCoversCost(cost: int32, ratio: real)
    requires cost >= 1 && ratio >= 0.0
    ensures Benefit(cost, ratio) >= cost
    ensures ratio == 0.0 ==> Benefit(cost, ratio) == cost
  {
    var x := cost as real * (1.0 + ratio * 10.0);
    assert x >= cost as real;
  }

  /** The candidates of the segments, in list order. */
  ghost function Candidates(segments: seq<Segment>): (items: seq<Candidate>)
    ensures |items| == |segments|
  {
    seq(|segments|, k requires 0 <= k < |segments| =>
      Candidate(segments[k], Cost(segments[k]), Benefit(Cost(segments[k]), DeletedRatio(segments[k]))))
  }

  /** The first loop of `plan`: one candidate per segment. */
  method MakeCandidates(segments: seq<Segment>) returns (items: seq<Candidate>)
    ensures items == Candidates(segments)
  {
    items := [];
    for k := 0 to |segments|
      invariant items == Candidates(segments)[..k]
    {
      var s := segments[k];
      var size := SizeBytesEstimate(s);
      var cost: int32 := if 1 >= size then 1 else size;
      var benefit := Benefit(cost, DeletedRatio(s));
      items := items + [Candidate(s, cost, benefit)];
    }
  }

  /** Every candidate costs at least 1; one whose `maxDocId` is not negative is worth at least its cost. */
  lemma CandidatesFit(segments: seq<Segment>)
    ensures forall k :: 0 <= k < |segments| ==> Candidates(segments)[k].cost >= 1
    ensures CountsFromZero(segments) ==> Fit(Candidates(segments))
  {
    if !CountsFromZero(segments) {
      return;
    }
    var items := Candidates(segments);
    forall k | 0 <= k < |items| ensures 1 <= items[k].cost <= items[k].benefit {
      BenefitCoversCost(items[k].cost, DeletedRatio(segments[k]));
    }
  }

  /** Every segment's `maxDocId` is at least 0, as it is for segments `addDoc` and merging build. */
  predicate CountsFromZero(segments: seq<Segment>) {
    forall k :: 0 <= k < |segments| ==> segments[k].maxDocId >= 0
  }

  /** Costs are positive and benefits are at least the costs, as `plan` builds them. */
  predicate Fit(items: seq<Candidate>) {
    forall k :: 0 <= k < |items| ==> 1 <= items[k].cost <= items[k].benefit
  }

  // ---------------------------------------------------------------- the table

  /** `dp[i][w]` as the code fills it: an item replaces the value above only when it is strictly better. */
  function Best(items: seq<Candidate>, i: nat, w: int): int32
    requires i <= |items| && 0 <= w
    decreases i, 1
  {
    if i == 0 then 0
    else if Takes(items, i, w) then Wrap32(Best(items, i - 1, w - items[i - 1].cost) + items[i - 1].benefit)
    else Best(items, i - 1, w)
  }

  /** `take[i][w]`: candidate `i` fits in `w` and taking it beats `dp[i-1][w]` strictly. */
  predicate Takes(items: seq<Candidate>, i: nat, w: int)
    requires 1 <= i <= |items| && 0 <= w
    decreases i, 0
  {
    var it := items[i - 1];
    it.cost <= w && Wrap32(Best(items, i - 1, w - it.cost) + it.benefit) > Best(items, i - 1, w)
  }

  /** Whether `dp[i][w]` holds its spec value for every `i < rows` and `take` for every `1 <= i < rows`. */
  ghost predicate Filled(items: seq<Candidate>, dp: array2<int32>, take: array2<bool>, rows: nat)
    requires rows <= |items| + 1 == dp.Length0 == take.Length0 && dp.Length1 == take.Length1
    reads dp, take
  {
    && (forall i, w :: 0 <= i < rows && 0 <= w < dp.Length1 ==> dp[i, w] == Best(items, i, w))
    && (forall i, w :: 1 <= i < rows && 0 <= w < take.Length1 ==> take[i, w] == Takes(items, i, w))
  }

  /** The nested loops of `plan`: row `i` from row `i - 1`, for `i` from 1 to `n`. */
  method FillTable(items: seq<Candidate>, dp: array2<int32>, take: array2<bool>)
    requires |items| + 1 == dp.Length0 == take.Length0 && dp.Length1 == take.Length1
    requires forall k :: 0 <= k < |items| ==> items[k].cost >= 1
    requires forall w :: 0 <= w < dp.Length1 ==> dp[0, w] == 0
    requires forall i, w :: 0 <= i < take.Length0 && 0 <= w < take.Length1 ==> !take[i, w]
    modifies dp, take
    ensures Filled(items, dp, take, |items| + 1)
  {
    for i := 1 to |items| + 1
      invariant Filled(items, dp, take, i)
      invariant forall j, w :: i <= j < take.Length0 && 0 <= w < take.Length1 ==> !take[j, w]
    {
      FillRow(items, dp, take, i);
    }
  }

  /** The inner loop: `dp[i][w]` and `take[i][w]` for every `w` from 0 to `budget`. */
  method FillRow(items: seq<Candidate>, dp: array2<int32>, take: array2<bool>, i: nat)
    requires 1 <= i <= |items| && |items| + 1 == dp.Length0 == take.Length0 && dp.Length1 == take.Length1
    requires items[i - 1].cost >= 1
    requires Filled(items, dp, take, i)
    requires forall j, w :: i <= j < take.Length0 && 0 <= w < take.Length1 ==> !take[j, w]
    modifies dp, take
    ensures Filled(items, dp, take, i + 1)
    ensures forall j, w :: i < j < take.Length0 && 0 <= w < take.Length1 ==> !take[j, w]
  {
    var it := items[i - 1];
    for w := 0 to dp.Length1
      invariant forall v :: 0 <= v < w ==> dp[i, v] == Best(items, i, v) && take[i, v] == Takes(items, i, v)
      invariant forall v :: w <= v < take.Length1 ==> !take[i, v]
      invariant forall j, v :: 0 <= j < dp.Length0 && j != i && 0 <= v < dp.Length1 ==>
        dp[j, v] == old(dp[j, v]) && take[j, v] == old(take[j, v])
    {
      dp[i, w] := dp[i - 1, w];
      if it.cost as int <= w {
        var v := Wrap32(dp[i - 1, w - it.cost] as int + it.benefit);
        if v > dp[i, w] {
          dp[i, w] := v;
          take[i, w] := true;
        }
      }
    }
  }

  // ---------------------------------------------------------------- backtracking

  /** The candidates backtracking picks from `(i, w)`, as indices, last candidate first. */
  function Picks(items: seq<Candidate>, i: nat, w: int): (r: seq<nat>)
    requires i <= |items| && 0 <= w
    ensures Selection(r, i)
  {
    if i == 0 then []
    else if Takes(items, i, w) then [i - 1] + Picks(items, i - 1, w - items[i - 1].cost)
    else Picks(items, i - 1, w)
  }

  /** A choice among the first `n` candidates: distinct indices below `n`, highest first. */
  predicate Selection(sel: seq<nat>, n: nat) {
    (forall k :: 0 <= k < |sel| ==> sel[k] < n)
    && (forall k, l :: 0 <= k < l < |sel| ==> sel[k] > sel[l])
  }

  /** The segments of the chosen candidates, in the order of `sel`. */
  function SegsOf(items: seq<Candidate>, sel: seq<nat>): (r: seq<Segment>)
    requires forall k :: 0 <= k < |sel| ==> sel[k] < |items|
    ensures |r| == |sel| && forall k :: 0 <= k < |sel| ==> r[k] == items[sel[k]].seg
  {
    seq(|sel|, k requires 0 <= k < |sel| => items[sel[k]].seg)
  }

  /** Backtracking has reached `(i, w)` from `(n, budget)` having picked `picked` on the way. */
  ghost predicate Walked(items: seq<Candidate>, budget: int, i: nat, w: int, picked: seq<nat>) {
    && i <= |items| && 0 <= w <= budget
    && (forall k :: 0 <= k < |picked| ==> picked[k] < |items|)
    && picked + Picks(items, i, w) == Picks(items, |items|, budget)
  }

  lemma WalkStep(items: seq<Candidate>, budget: int, i: nat, w: int, picked: seq<nat>)
    requires Walked(items, budget, i, w, picked) && 1 <= i && items[i - 1].cost >= 1
    ensures Takes(items, i, w) ==> Walked(items, budget, i - 1, w - items[i - 1].cost, picked + [i - 1])
    ensures !Takes(items, i, w) ==> Walked(items, budget, i - 1, w, picked)
  {
    if Takes(items, i, w) {
      assert picked + Picks(items, i, w) == (picked + [i - 1]) + Picks(items, i - 1, w - items[i - 1].cost);
    }
  }

  lemma SegsOfSnoc(items: seq<Candidate>, picked: seq<nat>, x: nat)
    requires (forall k :: 0 <= k < |picked| ==> picked[k] < |items|) && x < |items|
    ensures SegsOf(items, picked + [x]) == SegsOf(items, picked) + [items[x].seg]
  {
  }

  /** The second loop of `plan`: walk `take` back from `(n, budget)`, collecting the taken segments. */
  method Backtrack(items: seq<Candidate>, take: array2<bool>, budget: int32) returns (r: Result<seq<Segment>>)
    requires budget >= -1 && take.Length0 == |items| + 1 && take.Length1 == budget as int + 1
    requires forall k :: 0 <= k < |items| ==> items[k].cost >= 1
    requires forall i, w :: 1 <= i <= |items| && 0 <= w < take.Length1 ==> take[i, w] == Takes(items, i, w)
    ensures budget < 0 ==> r == (if |items| == 0 then Ok([]) else Err(IndexOutOfBounds))
    ensures budget >= 0 ==> r == Ok(SegsOf(items, Picks(items, |items|, budget)))
  {
    var w: int := budget;
    var chosen: seq<Segment> := [];
    ghost var picked: seq<nat> := [];
    var i: nat := |items|;
    while i >= 1
      invariant budget < 0 ==> i == |items| && w == budget && chosen == []
      invariant budget >= 0 ==> Walked(items, budget as int, i, w, picked) && chosen == SegsOf(items, picked)
    {
      if !(0 <= w < take.Length1) {
        return Err(IndexOutOfBounds);
      }
      WalkStep(items, budget as int, i, w, picked);
      if take[i, w] {
        SegsOfSnoc(items, picked, i - 1);
        chosen := chosen + [items[i - 1].seg];
        picked := picked + [i - 1];
        w := w - items[i - 1].cost;
      }
      i := i - 1;
    }
    if budget >= 0 {
      assert Picks(items, 0, w) == [];
      assert picked == Picks(items, |items|, budget);
    }
    r := Ok(chosen);
  }

  // ---------------------------------------------------------------- plan

  /** What `plan(segments, budget)` returns or throws. */
  ghost function PlanSpec(segments: seq<Segment>, budget: int32): Result<seq<Segment>> {
    var items := Candidates(segments);
    if Wrap32(|segments| + 1) < 0 || Wrap32(budget + 1) < 0 then Err(NegativeArraySize)
    else if budget < 0 then (if segments == [] then Ok([]) else Err(IndexOutOfBounds))
    else Ok(SegsOf(items, Picks(items, |segments|, budget)))
  }

  /** `plan(segments, budget)`: candidates, the table, then backtracking. */
  method Plan(segments: seq<Segment>, budget: int32) returns (r: Result<seq<Segment>>)
    requires |segments| <= INT_MAX
    ensures r == PlanSpec(segments, budget)
  {
    var items := MakeCandidates(segments);
    CandidatesFit(segments);
    var n := |items|;
    if Wrap32(n + 1) < 0 || Wrap32(budget as int + 1) < 0 {
      return Err(NegativeArraySize);
    }
    var dp := new int32[n + 1, budget as int + 1]((i, w) => 0);
    var take := new bool[n + 1, budget as int + 1]((i, w) => false);
    FillTable(items, dp, take);
    r := Backtrack(items, take, budget);
  }

  // ---------------------------------------------------------------- what the plan promises

  /** The total cost of a choice. */
  function CostSum(items: seq<Candidate>, sel: seq<nat>): int
    requires forall k :: 0 <= k < |sel| ==> sel[k] < |items|
  {
    if sel == [] then 0 else items[sel[0]].cost + CostSum(items, sel[1..])
  }

  /** The total benefit of a choice. */
  function BenefitSum(items: seq<Candidate>, sel: seq<nat>): int
    requires forall k :: 0 <= k < |sel| ==> sel[k] < |items|
  {
    if sel == [] then 0 else items[sel[0]].benefit + BenefitSum(items, sel[1..])
  }

  /** The benefits of the first `i` candidates added up. */
  function AllBenefit(items: seq<Candidate>, i: nat): int
    requires i <= |items|
  {
    if i == 0 then 0 else AllBenefit(items, i - 1) + items[i - 1].benefit
  }

  /** No sum of benefits the table can form leaves the `int` range. */
  predicate NoOverflow(items: seq<Candidate>) {
    AllBenefit(items, |items|) <= INT_MAX
  }

  /** Backtracking from `(i, w)` picks candidates whose costs add up to at most `w`. */
  lemma {:induction false} PicksWithinBudget(items: seq<Candidate>, i: nat, w: int)
    requires i <= |items| && 0 <= w
    ensures CostSum(items, Picks(items, i, w)) <= w
  {
    if i > 0 {
      if Takes(items, i, w) {
        PicksWithinBudget(items, i - 1, w - items[i - 1].cost);
      } else {
        PicksWithinBudget(items, i - 1, w);
      }
    }
  }

  lemma {:induction false} AllBenefitGrows(items: seq<Candidate>, i: nat)
    requires Fit(items) && i <= |items|
    ensures 0 <= AllBenefit(items, i) <= AllBenefit(items, |items|)
    decreases |items| - i
  {
    if i < |items| {
      AllBenefitGrows(items, i + 1);
    }
    if i > 0 {
      AllBenefitNonNegative(items, i);
    }
  }

  lemma {:induction false} AllBenefitNonNegative(items: seq<Candidate>, i: nat)
    requires Fit(items) && i <= |items|
    ensures AllBenefit(items, i) >= 0
  {
    if i > 0 {
      AllBenefitNonNegative(items, i - 1);
    }
  }

  /** Without overflow `dp[i][w]` lies between 0 and the benefits of the first `i` candidates. */
  lemma {:induction false} BestBounded(items: seq<Candidate>, i: nat, w: int)
    requires Fit(items) && NoOverflow(items) && i <= |items| && 0 <= w
    ensures 0 <= Best(items, i, w) <= AllBenefit(items, i)
  {
    if i > 0 {
      AllBenefitGrows(items, i);
      BestBounded(items, i - 1, w);
      if items[i - 1].cost <= w {
        BestBounded(items, i - 1, w - items[i - 1].cost);
      }
    }
  }

  /** Without overflow the table is the textbook recurrence: the better of leaving and taking item `i`. */
  lemma BestStep(items: seq<Candidate>, i: nat, w: int)
    requires Fit(items) && NoOverflow(items) && 1 <= i <= |items| && 0 <= w
    ensures var it := items[i - 1];
      && (Takes(items, i, w) <==> it.cost <= w && Best(items, i - 1, w - it.cost) + it.benefit > Best(items, i - 1, w))
      && Best(items, i, w) == (if Takes(items, i, w) then Best(items, i - 1, w - it.cost) + it.benefit else Best(items, i - 1, w))
  {
    var it := items[i - 1];
    AllBenefitGrows(items, i);
    if it.cost <= w {
      BestBounded(items, i - 1, w - it.cost);
    }
  }

  /** Without overflow the picked candidates are worth exactly `dp[i][w]`. */
  lemma {:induction false} PicksAchieveBest(items: seq<Candidate>, i: nat, w: int)
    requires Fit(items) && NoOverflow(items) && i <= |items| && 0 <= w
    ensures BenefitSum(items, Picks(items, i, w)) == Best(items, i, w)
  {
    if i > 0 {
      BestStep(items, i, w);
      if Takes(items, i, w) {
        PicksAchieveBest(items, i - 1, w - items[i - 1].cost);
      } else {
        PicksAchieveBest(items, i - 1, w);
      }
    }
  }

  /** A choice of positive costs costs at least nothing. */
  lemma {:induction false} CostSumNonNegative(items: seq<Candidate>, sel: seq<nat>)
    requires Fit(items) && forall k :: 0 <= k < |sel| ==> sel[k] < |items|
    ensures CostSum(items, sel) >= 0
  {
    if sel != [] {
      CostSumNonNegative(items, sel[1..]);
    }
  }

  /** Without overflow no choice within cost `w` among the first `i` candidates beats `dp[i][w]`. */
  lemma {:induction false} BestIsOptimal(items: seq<Candidate>, i: nat, w: int, sel: seq<nat>)
    requires Fit(items) && NoOverflow(items) && i <= |items| && 0 <= w
    requires Selection(sel, i) && CostSum(items, sel) <= w
    ensures BenefitSum(items, sel) <= Best(items, i, w)
  {
    if i > 0 {
      BestStep(items, i, w);
      var it := items[i - 1];
      if sel != [] && sel[0] == i - 1 {
        var rest := sel[1..];
        assert Selection(rest, i - 1);
        CostSumNonNegative(items, rest);
        BestIsOptimal(items, i - 1, w - it.cost, rest);
      } else {
        assert Selection(sel, i - 1) by {
          forall k | 0 <= k < |sel| ensures sel[k] < i - 1 {
            assert sel[0] < i - 1;
            assert k == 0 || sel[k] < sel[0];
          }
        }
        BestIsOptimal(items, i - 1, w, sel);
      }
    }
  }

  /**
   * The plan for a budget the arrays can hold: distinct segments, last candidate first, within
   * budget, and, while the benefits cannot overflow, worth at least as much as any other choice
   * within budget.
   */
  lemma PlanOptimal(segments: seq<Segment>, budget: int32, other: seq<nat>)
    requires 0 <= budget < INT_MAX && |segments| < INT_MAX
    requires CountsFromZero(segments) && NoOverflow(Candidates(segments))
    requires Selection(other, |segments|) && CostSum(Candidates(segments), other) <= budget
    ensures var items := Candidates(segments);
      var sel := Picks(items, |segments|, budget);
      && PlanSpec(segments, budget) == Ok(SegsOf(items, sel))
      && Selection(sel, |segments|)
      && CostSum(items, sel) <= budget
      && BenefitSum(items, sel) == Best(items, |segments|, budget)
      && BenefitSum(items, other) <= BenefitSum(items, sel)
  {
    var items := Candidates(segments);
    CandidatesFit(segments);
    PicksWithinBudget(items, |segments|, budget);
    PicksAchieveBest(items, |segments|, budget);
    BestIsOptimal(items, |segments|, budget, other);
  }

  /** No segments: nothing is chosen, unless `budget + 1` is negative and the arrays cannot be made. */
  lemma PlanEdges(segments: seq<Segment>, budget: int32)
    requires |segments| < INT_MAX
    ensures budget < -1 || budget == INT_MAX ==> PlanSpec(segments, budget) == Err(NegativeArraySize)
    ensures segments == [] && -1 <= budget < INT_MAX ==> PlanSpec(segments, budget) == Ok([])
    ensures segments != [] && budget == -1 ==> PlanSpec(segments, budget) == Err(IndexOutOfBounds)
  {
    assert Wrap32(|segments| + 1) == |segments| + 1;
    if budget == INT_MAX {
      assert Wrap32(budget + 1) == INT_MIN;
    } else {
      assert Wrap32(budget + 1) == budget + 1;
    }
  }

  /** Two equal candidates and room for one: the first is taken, the second only ties and is left out. */
  lemma TieKeepsFirst(s0: Segment, s1: Segment)
    ensures Picks([Candidate(s0, 1, 5), Candidate(s1, 1, 5)], 2, 1) == [0]
  {
    var items := [Candidate(s0, 1, 5), Candidate(s1, 1, 5)];
    assert !Takes(items, 1, 0);
    assert Best(items, 1, 0) == 0;
    assert Takes(items, 1, 1);
    assert Best(items, 1, 1) == 5;
    assert !Takes(items, 2, 1);
    assert Picks(items, 1, 1) == [0] + Picks(items, 0, 0) == [0];
  }

  /**
   * When the benefits overflow, the wrapped sum loses to the item alone: two candidates worth
   * `Integer.MAX_VALUE` each, room for both, and only the first is picked.
   */
  lemma WrapCanMissOptimum(s0: Segment, s1: Segment)
    ensures var items := [Candidate(s0, 1, INT_MAX), Candidate(s1, 1, INT_MAX)];
      && Picks(items, 2, 2) == [0]
      && CostSum(items, [1, 0]) <= 2
      && BenefitSum(items, [1, 0]) > BenefitSum(items, [0])
  {
    var items := [Candidate(s0, 1, INT_MAX), Candidate(s1, 1, INT_MAX)];
    assert Best(items, 1, 1) == INT_MAX;
    assert Best(items, 1, 2) == INT_MAX;
    assert Wrap32(INT_MAX + INT_MAX) == -2;
    assert !Takes(items, 2, 2);
    assert Takes(items, 1, 2);
    assert Picks(items, 1, 2) == [0] + Picks(items, 0, 1) == [0];
    assert [1, 0][1..] == [0] && [0][1..] == [];
    assert CostSum(items, [0]) == 1;
    assert CostSum(items, [1, 0]) == 2;
  }
}
