/** getPlaySelectionValues: turns the children's weights into the values a
    move is chosen by. In order it collects the children (zero for a
    suppressed pass), reduces the root's children to the weight they deserve in
    retrospect, boosts the child with the best lower confidence bound, falls
    back to the raw policy when there are no children, and normalises. */
module PlaySelection {
  import opened Location
  import opened Wrappers
  import opened NNPos
  import opened NNOutputMerge
  import opened SearchTree
  import opened Lcb

  // ---- Collecting the children ----

  /** The move of each child, in slot order. */
  function ChildLocs(node: Node): (r: seq<Loc>)
    ensures |r| == NumChildren(node)
    ensures forall i :: 0 <= i < |r| ==> r[i] == Child(node, i).prevMoveLoc
  {
    seq(NumChildren(node), i requires 0 <= i < NumChildren(node) => Child(node, i).prevMoveLoc)
  }

  predicate SuppressedPass(node: Node, suppressPass: bool, i: int)
    requires 0 <= i < NumChildren(node)
  {
    suppressPass && Child(node, i).prevMoveLoc == PASS_LOC
  }

  /** The starting value of each child: its weight, or 0 for a suppressed pass. */
  function BaseValues(node: Node, suppressPass: bool): (r: seq<real>)
    ensures |r| == NumChildren(node)
    ensures forall i :: 0 <= i < |r| ==>
      r[i] == if SuppressedPass(node, suppressPass, i) then 0.0 else Child(node, i).stats.weightSum
  {
    seq(NumChildren(node), i requires 0 <= i < NumChildren(node) =>
      if SuppressedPass(node, suppressPass, i) then 0.0 else Child(node, i).stats.weightSum)
  }

  /** The visit count of each child, or 0 for a suppressed pass. */
  function BaseVisits(node: Node, suppressPass: bool): (r: seq<real>)
    ensures |r| == NumChildren(node)
    ensures forall i :: 0 <= i < |r| ==>
      r[i] == if SuppressedPass(node, suppressPass, i) then 0.0 else Child(node, i).stats.visits as real
  {
    seq(NumChildren(node), i requires 0 <= i < NumChildren(node) =>
      if SuppressedPass(node, suppressPass, i) then 0.0 else Child(node, i).stats.visits as real)
  }

  /** The sum of the weights of the first m children. */
  function TotalChildWeight(node: Node, m: nat): real
    requires m <= NumChildren(node)
  {
    if m == 0 then 0.0 else TotalChildWeight(node, m - 1) + Child(node, m - 1).stats.weightSum
  }

  /** The largest weight among the first m children, or 0. */
  function MaxChildWeight(node: Node, m: nat): (r: real)
    requires m <= NumChildren(node)
    ensures r >= 0.0 && forall j :: 0 <= j < m ==> Child(node, j).stats.weightSum <= r
  {
    if m == 0 then 0.0
    else
      var prev := MaxChildWeight(node, m - 1);
      var w := Child(node, m - 1).stats.weightSum;
      if w > prev then w else prev
  }

  /** The first loop: one entry per filled slot, stopping at the first empty one. */
  method CollectChildren(node: Node, suppressPass: bool)
    returns (locs: seq<Loc>, values: seq<real>, visitCounts: seq<real>, totalChildWeight: real, maxChildWeight: real)
    ensures locs == ChildLocs(node) && values == BaseValues(node, suppressPass)
    ensures visitCounts == BaseVisits(node, suppressPass)
    ensures totalChildWeight == TotalChildWeight(node, NumChildren(node))
    ensures maxChildWeight == MaxChildWeight(node, NumChildren(node))
  {
    locs, values, visitCounts := [], [], [];
    totalChildWeight, maxChildWeight := 0.0, 0.0;
    var children := node.children;
    var i := 0;
    while i < |children|
      invariant 0 <= i <= NumChildren(node)
      invariant locs == ChildLocs(node)[..i] && values == BaseValues(node, suppressPass)[..i]
      invariant visitCounts == BaseVisits(node, suppressPass)[..i]
      invariant totalChildWeight == TotalChildWeight(node, i) && maxChildWeight == MaxChildWeight(node, i)
    {
      if children[i].Unallocated? {
        break;
      }
      var child := children[i].node;
      assert child == Child(node, i);
      var moveLoc := child.prevMoveLoc;
      var childWeight := child.stats.weightSum;
      locs := locs + [moveLoc];
      totalChildWeight := totalChildWeight + childWeight;
      if childWeight > maxChildWeight {
        maxChildWeight := childWeight;
      }
      if suppressPass && moveLoc == PASS_LOC {
        values := values + [0.0];
        visitCounts := visitCounts + [0.0];
      } else {
        values := values + [childWeight];
        visitCounts := visitCounts + [child.stats.visits as real];
      }
      assert ChildLocs(node)[..i + 1] == ChildLocs(node)[..i] + [moveLoc];
      assert BaseValues(node, suppressPass)[..i + 1] == BaseValues(node, suppressPass)[..i] + [BaseValues(node, suppressPass)[i]];
      assert BaseVisits(node, suppressPass)[..i + 1] == BaseVisits(node, suppressPass)[..i] + [BaseVisits(node, suppressPass)[i]];
      i := i + 1;
    }
    assert i == NumChildren(node);
    assert locs == ChildLocs(node) && values == BaseValues(node, suppressPass) && visitCounts == BaseVisits(node, suppressPass);
  }

  // ---- The most weighted child ----

  const MOST_WEIGHTED_INIT: real := -1000000000000000000000000000000.0

  /** The first index of the largest of the first m values, strictly above
      MOST_WEIGHTED_INIT; (0, MOST_WEIGHTED_INIT) when there is none. */
  function MostWeighted(values: seq<real>, m: nat): (r: (int, real))
    requires m <= |values|
    ensures r.1 >= MOST_WEIGHTED_INIT
    ensures forall j :: 0 <= j < m ==> values[j] <= r.1
    ensures (r.0 == 0 && r.1 == MOST_WEIGHTED_INIT) ||
      (0 <= r.0 < m && values[r.0] == r.1 && forall j :: 0 <= j < r.0 ==> values[j] < r.1)
  {
    if m == 0 then (0, MOST_WEIGHTED_INIT)
    else
      var prev := MostWeighted(values, m - 1);
      if values[m - 1] > prev.1 then (m - 1, values[m - 1]) else prev
  }

  method FindMostWeighted(values: seq<real>) returns (mostWeightedIdx: int, mostWeightedChildWeight: real)
    ensures (mostWeightedIdx, mostWeightedChildWeight) == MostWeighted(values, |values|)
  {
    mostWeightedIdx, mostWeightedChildWeight := 0, MOST_WEIGHTED_INIT;
    var i := 0;
    while i < |values|
      invariant 0 <= i <= |values|
      invariant (mostWeightedIdx, mostWeightedChildWeight) == MostWeighted(values, i)
    {
      var value := values[i];
      if value > mostWeightedChildWeight {
        mostWeightedChildWeight := value;
        mostWeightedIdx := i;
      }
      i := i + 1;
    }
  }

  /** With children whose values are above MOST_WEIGHTED_INIT, the most
      weighted index is that of a child. */
  lemma {:induction false} MostWeightedIsChild(values: seq<real>)
    requires |values| > 0 && values[0] > MOST_WEIGHTED_INIT
    ensures 0 <= MostWeighted(values, |values|).0 < |values|
    ensures values[MostWeighted(values, |values|).0] == MostWeighted(values, |values|).1
  {
    var r := MostWeighted(values, |values|);
    assert values[0] <= r.1;
  }

  // ---- Reducing the root's children ----

  /** C's ceil, as an integer. */
  function Ceil(x: real): (r: int)
    ensures x <= r as real < x + 1.0
  {
    -((-x).Floor)
  }

  /** A root child's value after the reduction: 0 for a suppressed pass, the
      most weighted child's unchanged, every other one its reduced weight
      rounded up. */
  function ReducedValue(ev: Evaluator, node: Node, values: seq<real>, mostWeightedIdx: int,
                        totalChildWeight: real, suppressPass: bool, i: int): real
    requires |values| == NumChildren(node) && 0 <= mostWeightedIdx < |values| && 0 <= i < |values|
  {
    if SuppressedPass(node, suppressPass, i) then 0.0
    else if i != mostWeightedIdx then
      Ceil(ev.reducedPlaySelectionWeight(node, Child(node, i), Child(node, mostWeightedIdx), totalChildWeight)) as real
    else values[i]
  }

  function RootReduced(ev: Evaluator, node: Node, values: seq<real>, mostWeightedIdx: int,
                       totalChildWeight: real, suppressPass: bool): (r: seq<real>)
    requires |values| == NumChildren(node) && 0 <= mostWeightedIdx < |values|
    ensures |r| == |values|
    ensures forall i :: 0 <= i < |r| ==> r[i] == ReducedValue(ev, node, values, mostWeightedIdx, totalChildWeight, suppressPass, i)
  {
    seq(|values|, i requires 0 <= i < |values| =>
      ReducedValue(ev, node, values, mostWeightedIdx, totalChildWeight, suppressPass, i))
  }

  method ReduceRootWeights(ev: Evaluator, node: Node, values: seq<real>, mostWeightedIdx: int,
                           totalChildWeight: real, suppressPass: bool) returns (r: seq<real>)
    requires |values| == NumChildren(node) && 0 <= mostWeightedIdx < |values|
    ensures r == RootReduced(ev, node, values, mostWeightedIdx, totalChildWeight, suppressPass)
  {
    r := values;
    var bestChild := Child(node, mostWeightedIdx);
    var i := 0;
    while i < |values|
      invariant 0 <= i <= |values| && |r| == |values|
      invariant forall j :: 0 <= j < i ==> r[j] == ReducedValue(ev, node, values, mostWeightedIdx, totalChildWeight, suppressPass, j)
      invariant forall j :: i <= j < |values| ==> r[j] == values[j]
    {
      var child := Child(node, i);
      if suppressPass && child.prevMoveLoc == PASS_LOC {
        r := r[i := 0.0];
        i := i + 1;
        continue;
      }
      if i != mostWeightedIdx {
        var reduced := ev.reducedPlaySelectionWeight(node, child, bestChild, totalChildWeight);
        r := r[i := Ceil(reduced) as real];
      }
      i := i + 1;
    }
  }

  /** The reduction keeps the most weighted child's value (unless it is a
      suppressed pass), keeps every suppressed pass at 0, and gives every other
      child a whole number. */
  lemma {:induction false} RootReductionKeeps(ev: Evaluator, node: Node, values: seq<real>, mostWeightedIdx: int,
                                              totalChildWeight: real, suppressPass: bool)
    requires |values| == NumChildren(node) && 0 <= mostWeightedIdx < |values|
    ensures var r := RootReduced(ev, node, values, mostWeightedIdx, totalChildWeight, suppressPass);
      (!SuppressedPass(node, suppressPass, mostWeightedIdx) ==> r[mostWeightedIdx] == values[mostWeightedIdx]) &&
      (forall i :: 0 <= i < |r| && SuppressedPass(node, suppressPass, i) ==> r[i] == 0.0) &&
      (forall i :: 0 <= i < |r| && i != mostWeightedIdx ==> r[i] == (r[i].Floor as real))
  {
    var r := RootReduced(ev, node, values, mostWeightedIdx, totalChildWeight, suppressPass);
    forall i | 0 <= i < |r| && i != mostWeightedIdx ensures r[i] == (r[i].Floor as real) {
      if !SuppressedPass(node, suppressPass, i) {
        var c := Ceil(ev.reducedPlaySelectionWeight(node, Child(node, i), Child(node, mostWeightedIdx), totalChildWeight));
        assert r[i] == c as real;
        assert (c as real).Floor == c;
      }
    }
  }

  // ---- Normalisation ----

  const SELECTION_EPSILON: real := 0.00000000000000000000000000000000000000000000000001

  /** The largest of the first m values, or 0. */
  function MaxValue(values: seq<real>, m: nat): (r: real)
    requires m <= |values|
    ensures r >= 0.0 && forall j :: 0 <= j < m ==> values[j] <= r
    ensures r == 0.0 || exists j :: 0 <= j < m && values[j] == r
  {
    if m == 0 then 0.0
    else
      var prev := MaxValue(values, m - 1);
      if values[m - 1] > prev then values[m - 1] else prev
  }

  function Min(a: real, b: real): (r: real)
    ensures r <= a && r <= b && (r == a || r == b)
  {
    if a <= b then a else b
  }

  function AmountToSubtract(params: SearchParams, maxValue: real): real {
    Min(params.chosenMoveSubtract, maxValue / 64.0)
  }

  function AmountToPrune(params: SearchParams, maxValue: real): real {
    Min(params.chosenMovePrune, maxValue / 64.0)
  }

  /** A value pruned to 0 below the prune amount, else less the subtract amount, at least 0. */
  function PrunedValue(v: real, amountToSubtract: real, amountToPrune: real): real {
    if v < amountToPrune then 0.0
    else if v - amountToSubtract <= 0.0 then 0.0
    else v - amountToSubtract
  }

  function PrunedValues(values: seq<real>, amountToSubtract: real, amountToPrune: real): (r: seq<real>)
    ensures |r| == |values|
    ensures forall i :: 0 <= i < |r| ==> r[i] == PrunedValue(values[i], amountToSubtract, amountToPrune)
  {
    seq(|values|, i requires 0 <= i < |values| => PrunedValue(values[i], amountToSubtract, amountToPrune))
  }

  function Scaled(values: seq<real>, factor: real): (r: seq<real>)
    ensures |r| == |values|
    ensures forall i :: 0 <= i < |r| ==> r[i] == values[i] * factor
  {
    seq(|values|, i requires 0 <= i < |values| => values[i] * factor)
  }

  /** The final block: nothing when the largest value is at most
      SELECTION_EPSILON; otherwise subtract and prune, then scale up so that
      the largest value reaches scaleMaxToAtLeast. */
  function Normalized(params: SearchParams, values: seq<real>, scaleMaxToAtLeast: real): (r: Option<seq<real>>)
    ensures r.Some? ==> |r.value| == |values|
  {
    var maxValue := MaxValue(values, |values|);
    if maxValue <= SELECTION_EPSILON then None
    else
      var amountToSubtract := AmountToSubtract(params, maxValue);
      var amountToPrune := AmountToPrune(params, maxValue);
      var newMaxValue := maxValue - amountToSubtract;
      var pruned := PrunedValues(values, amountToSubtract, amountToPrune);
      if newMaxValue < scaleMaxToAtLeast then Some(Scaled(pruned, scaleMaxToAtLeast / newMaxValue)) else Some(pruned)
  }

  method FindMaxValue(values: seq<real>) returns (maxValue: real)
    ensures maxValue == MaxValue(values, |values|)
  {
    maxValue := 0.0;
    var i := 0;
    while i < |values|
      invariant 0 <= i <= |values| && maxValue == MaxValue(values, i)
    {
      if values[i] > maxValue {
        maxValue := values[i];
      }
      i := i + 1;
    }
  }

  method PruneValues(values: seq<real>, amountToSubtract: real, amountToPrune: real) returns (r: seq<real>)
    ensures r == PrunedValues(values, amountToSubtract, amountToPrune)
  {
    r := values;
    var i := 0;
    while i < |r|
      invariant 0 <= i <= |r| && |r| == |values|
      invariant forall j :: 0 <= j < i ==> r[j] == PrunedValue(values[j], amountToSubtract, amountToPrune)
      invariant forall j :: i <= j < |r| ==> r[j] == values[j]
    {
      if r[i] < amountToPrune {
        r := r[i := 0.0];
      } else {
        r := r[i := r[i] - amountToSubtract];
        if r[i] <= 0.0 {
          r := r[i := 0.0];
        }
      }
      i := i + 1;
    }
  }

  method ScaleValues(values: seq<real>, factor: real) returns (r: seq<real>)
    ensures r == Scaled(values, factor)
  {
    r := values;
    var i := 0;
    while i < |r|
      invariant 0 <= i <= |r| && |r| == |values|
      invariant forall j :: 0 <= j < i ==> r[j] == values[j] * factor
      invariant forall j :: i <= j < |r| ==> r[j] == values[j]
    {
      r := r[i := r[i] * factor];
      i := i + 1;
    }
  }

  /** The final block; on failure the values are left as they were. */
  method Normalize(params: SearchParams, values: seq<real>, scaleMaxToAtLeast: real) returns (ok: bool, r: seq<real>)
    ensures ok <==> Normalized(params, values, scaleMaxToAtLeast).Some?
    ensures ok ==> r == Normalized(params, values, scaleMaxToAtLeast).value
    ensures !ok ==> r == values
  {
    var maxValue := FindMaxValue(values);
    if maxValue <= SELECTION_EPSILON {
      return false, values;
    }
    var amountToSubtract := Min(params.chosenMoveSubtract, maxValue / 64.0);
    var amountToPrune := Min(params.chosenMovePrune, maxValue / 64.0);
    assert amountToSubtract == AmountToSubtract(params, maxValue) && amountToPrune == AmountToPrune(params, maxValue);
    var newMaxValue := maxValue - amountToSubtract;
    r := PruneValues(values, amountToSubtract, amountToPrune);
    if newMaxValue < scaleMaxToAtLeast {
      r := ScaleValues(r, scaleMaxToAtLeast / newMaxValue);
      assert Normalized(params, values, scaleMaxToAtLeast) == Some(r);
    } else {
      assert Normalized(params, values, scaleMaxToAtLeast) == Some(r);
    }
    return true, r;
  }

  /** The value the largest entry ends at: the reduced maximum, or the floor if that is higher. */
  function NormalizedTop(params: SearchParams, values: seq<real>, scaleMaxToAtLeast: real): real {
    var maxValue := MaxValue(values, |values|);
    var newMaxValue := maxValue - AmountToSubtract(params, maxValue);
    if newMaxValue < scaleMaxToAtLeast then scaleMaxToAtLeast else newMaxValue
  }

  /** Pruning keeps every entry between 0 and the reduced maximum, reaches that
      maximum at the largest entry, and zeroes every entry below the prune amount. */
  lemma {:induction false} PrunedRange(values: seq<real>, maxValue: real, amountToSubtract: real, amountToPrune: real, j: int)
    requires 0 <= j < |values| && values[j] == maxValue
    requires forall i :: 0 <= i < |values| ==> values[i] <= maxValue
    requires amountToPrune <= maxValue && amountToSubtract < maxValue
    ensures var p := PrunedValues(values, amountToSubtract, amountToPrune);
      p[j] == maxValue - amountToSubtract &&
      (forall i :: 0 <= i < |p| ==> 0.0 <= p[i] <= maxValue - amountToSubtract) &&
      (forall i :: 0 <= i < |p| && values[i] < amountToPrune ==> p[i] == 0.0)
  {
    var p := PrunedValues(values, amountToSubtract, amountToPrune);
    forall i | 0 <= i < |p| ensures 0.0 <= p[i] <= maxValue - amountToSubtract {
      assert p[i] == PrunedValue(values[i], amountToSubtract, amountToPrune);
    }
  }

  /** Scaling by top / m maps entries between 0 and m to entries between 0 and top, and m itself to top. */
  lemma {:induction false} ScaledRange(p: seq<real>, m: real, top: real, j: int)
    requires m > 0.0 && top > 0.0 && 0 <= j < |p| && p[j] == m
    requires forall i :: 0 <= i < |p| ==> 0.0 <= p[i] <= m
    ensures var s := Scaled(p, top / m);
      s[j] == top && forall i :: 0 <= i < |s| ==> 0.0 <= s[i] <= top
  {
    var f := top / m;
    assert f > 0.0 && m * f == top;
    forall i | 0 <= i < |p| ensures 0.0 <= p[i] * f <= top {
      MulMonoReal(p[i], m, f);
    }
  }

  lemma MulMonoReal(a: real, b: real, f: real)
    requires 0.0 <= a <= b && f >= 0.0
    ensures 0.0 <= a * f <= b * f
  {
  }

  /** Normalisation fails exactly when no value exceeds SELECTION_EPSILON; the
      subtract and prune amounts are each at most a 64th of the maximum. */
  lemma {:induction false} NormalizedFailsIff(params: SearchParams, values: seq<real>, scaleMaxToAtLeast: real)
    ensures var maxValue := MaxValue(values, |values|);
      Normalized(params, values, scaleMaxToAtLeast).None? <==> maxValue <= SELECTION_EPSILON
    ensures var maxValue := MaxValue(values, |values|);
      AmountToSubtract(params, maxValue) <= maxValue / 64.0 && AmountToPrune(params, maxValue) <= maxValue / 64.0
  {
  }

  /** After a successful normalisation every entry is at least 0, an entry
      below the prune amount is exactly 0, and the largest entry is
      NormalizedTop, which is at least scaleMaxToAtLeast. */
  lemma {:induction false} NormalizedProperties(params: SearchParams, values: seq<real>, scaleMaxToAtLeast: real)
    requires Normalized(params, values, scaleMaxToAtLeast).Some?
    ensures var n := Normalized(params, values, scaleMaxToAtLeast).value;
      var top := NormalizedTop(params, values, scaleMaxToAtLeast);
      |n| == |values| && top >= scaleMaxToAtLeast &&
      (forall i :: 0 <= i < |n| ==> 0.0 <= n[i] <= top) &&
      (exists i :: 0 <= i < |n| && n[i] == top) &&
      (forall i :: 0 <= i < |n| && values[i] < AmountToPrune(params, MaxValue(values, |values|)) ==> n[i] == 0.0)
  {
    var maxValue := MaxValue(values, |values|);
    var sub := AmountToSubtract(params, maxValue);
    var prune := AmountToPrune(params, maxValue);
    var newMax := maxValue - sub;
    var p := PrunedValues(values, sub, prune);
    var j :| 0 <= j < |values| && values[j] == maxValue;
    PrunedRange(values, maxValue, sub, prune, j);
    var n := Normalized(params, values, scaleMaxToAtLeast).value;
    if newMax < scaleMaxToAtLeast {
      ScaledRange(p, newMax, scaleMaxToAtLeast, j);
      assert n == Scaled(p, scaleMaxToAtLeast / newMax);
      forall i | 0 <= i < |n| && values[i] < prune ensures n[i] == 0.0 {
        assert p[i] == 0.0;
      }
    }
    assert n[j] == NormalizedTop(params, values, scaleMaxToAtLeast);
  }

  // ---- The lower confidence bound ----

  /** Whether the bounds are computed at all. */
  predicate ComputesLcb(params: SearchParams, numChildren: int, alwaysComputeLcb: bool, neverUseLcb: bool) {
    !neverUseLcb && (alwaysComputeLcb || (params.useLcbForSelection && numChildren > 0))
  }

  function Lcbs(params: SearchParams, ev: Evaluator, node: Node): (r: seq<real>)
    ensures |r| == NumChildren(node)
    ensures forall i :: 0 <= i < |r| ==> r[i] == SelfUtilityLcbAndRadius(params, ev, node, Child(node, i)).0
  {
    seq(NumChildren(node), i requires 0 <= i < NumChildren(node) => SelfUtilityLcbAndRadius(params, ev, node, Child(node, i)).0)
  }

  function Radii(params: SearchParams, ev: Evaluator, node: Node): (r: seq<real>)
    ensures |r| == NumChildren(node)
    ensures forall i :: 0 <= i < |r| ==> r[i] == SelfUtilityLcbAndRadius(params, ev, node, Child(node, i)).1
  {
    seq(NumChildren(node), i requires 0 <= i < NumChildren(node) => SelfUtilityLcbAndRadius(params, ev, node, Child(node, i)).1)
  }

  /** A child may hold the best bound only with at least MIN_VISITS_FOR_LCB of
      value and at least the given share of the most weighted child's. */
  predicate Eligible(params: SearchParams, values: seq<real>, mostWeightedChildWeight: real, i: int)
    requires 0 <= i < |values|
  {
    values[i] >= MIN_VISITS_FOR_LCB as real && values[i] >= params.minVisitPropForLCB * mostWeightedChildWeight
  }

  const BEST_LCB_INIT: real := -10000000000.0

  /** The first eligible child among the first m with the largest bound, if
      that bound exceeds BEST_LCB_INIT; (-1, BEST_LCB_INIT) otherwise. */
  function BestLcb(params: SearchParams, values: seq<real>, lcbs: seq<real>, mostWeightedChildWeight: real, m: nat): (r: (int, real))
    requires |lcbs| == |values| && m <= |values|
    ensures -1 <= r.0 < m
  {
    if m == 0 then (-1, BEST_LCB_INIT)
    else
      var prev := BestLcb(params, values, lcbs, mostWeightedChildWeight, m - 1);
      if Eligible(params, values, mostWeightedChildWeight, m - 1) && lcbs[m - 1] > prev.1 then (m - 1, lcbs[m - 1]) else prev
  }

  /** The best bound is at least every eligible child's, and is either the
      initial value at index -1 or the bound of the first eligible child
      holding it. */
  lemma {:induction false} BestLcbIsBest(params: SearchParams, values: seq<real>, lcbs: seq<real>, mostWeightedChildWeight: real, m: nat)
    requires |lcbs| == |values| && m <= |values|
    ensures var r := BestLcb(params, values, lcbs, mostWeightedChildWeight, m);
      (forall j :: 0 <= j < m && Eligible(params, values, mostWeightedChildWeight, j) ==> lcbs[j] <= r.1) &&
      ((r.0 == -1 && r.1 == BEST_LCB_INIT) ||
       (0 <= r.0 && Eligible(params, values, mostWeightedChildWeight, r.0) && lcbs[r.0] == r.1 && r.1 > BEST_LCB_INIT &&
        forall j :: 0 <= j < r.0 && Eligible(params, values, mostWeightedChildWeight, j) ==> lcbs[j] < r.1))
  {
    if m > 0 {
      BestLcbIsBest(params, values, lcbs, mostWeightedChildWeight, m - 1);
    }
  }

  /** Whether the best bound's child is boosted; the older rule never boosts the first child. */
  predicate ApplyLcb(params: SearchParams, numChildren: int, bestLcbIndex: int) {
    params.useLcbForSelection && numChildren > 0 && (if params.useNonBuggyLcb then bestLcbIndex >= 0 else bestLcbIndex > 0)
  }

  /** Child i bounds the boost: it is not the best, its bound is not above the
      best one, and the radius factor is defined. A zero denominator with a
      radius that is not negative means a zero radius and a zero excess, whose
      factor 0/0 is no number, and a comparison with it never succeeds. */
  predicate Contributes(lcbs: seq<real>, radii: seq<real>, bestLcbIndex: int, bestLcb: real, i: int)
    requires |radii| == |lcbs| && 0 <= i < |lcbs|
  {
    i != bestLcbIndex && bestLcb - lcbs[i] >= 0.0 && radii[i] + 0.2 * (bestLcb - lcbs[i]) != 0.0
  }

  /** The weight child i's value would be worth with a radius that many times wider. */
  function LBound(values: seq<real>, lcbs: seq<real>, radii: seq<real>, bestLcb: real, i: int): real
    requires |lcbs| == |values| && |radii| == |values| && 0 <= i < |values|
    requires radii[i] + 0.2 * (bestLcb - lcbs[i]) != 0.0
  {
    var f := RadiusFactor(radii[i], bestLcb - lcbs[i]);
    f * f * values[i]
  }

  /** The boosted weight: the best child's value raised to the largest bound of
      the first m contributing children. */
  function AdjustedWeight(values: seq<real>, lcbs: seq<real>, radii: seq<real>, bestLcbIndex: int, bestLcb: real, m: nat): real
    requires |lcbs| == |values| && |radii| == |values| && 0 <= bestLcbIndex < |values| && m <= |values|
  {
    if m == 0 then values[bestLcbIndex]
    else
      var prev := AdjustedWeight(values, lcbs, radii, bestLcbIndex, bestLcb, m - 1);
      if !Contributes(lcbs, radii, bestLcbIndex, bestLcb, m - 1) then prev
      else
        var lbound := LBound(values, lcbs, radii, bestLcb, m - 1);
        if lbound > prev then lbound else prev
  }

  /** The boosted weight is at least the best child's value and every
      contributing bound, and is one of them. */
  lemma {:induction false} AdjustedWeightBounds(values: seq<real>, lcbs: seq<real>, radii: seq<real>, bestLcbIndex: int, bestLcb: real, m: nat)
    requires |lcbs| == |values| && |radii| == |values| && 0 <= bestLcbIndex < |values| && m <= |values|
    ensures var r := AdjustedWeight(values, lcbs, radii, bestLcbIndex, bestLcb, m);
      r >= values[bestLcbIndex] &&
      (forall j :: 0 <= j < m && Contributes(lcbs, radii, bestLcbIndex, bestLcb, j) ==> LBound(values, lcbs, radii, bestLcb, j) <= r) &&
      (r == values[bestLcbIndex] ||
       exists j :: 0 <= j < m && Contributes(lcbs, radii, bestLcbIndex, bestLcb, j) && r == LBound(values, lcbs, radii, bestLcb, j))
  {
    if m > 0 {
      AdjustedWeightBounds(values, lcbs, radii, bestLcbIndex, bestLcb, m - 1);
    }
  }

  /** The values after the bound stage: the best bound's child boosted when the rule applies. */
  function LcbAdjusted(params: SearchParams, values: seq<real>, lcbs: seq<real>, radii: seq<real>, mostWeightedChildWeight: real): (r: seq<real>)
    requires |lcbs| == |values| && |radii| == |values|
    ensures |r| == |values|
  {
    var best := BestLcb(params, values, lcbs, mostWeightedChildWeight, |values|);
    if ApplyLcb(params, |values|, best.0) then values[best.0 := AdjustedWeight(values, lcbs, radii, best.0, best.1, |values|)]
    else values
  }

  /** Only the best bound's child changes and only upwards; it is eligible and
      its bound is the largest among eligible children; its new value covers
      every contributing child's bound; and the older rule leaves the first
      child alone. */
  lemma {:induction false} LcbAdjustedProperties(params: SearchParams, values: seq<real>, lcbs: seq<real>, radii: seq<real>, mostWeightedChildWeight: real)
    requires |lcbs| == |values| && |radii| == |values|
    ensures var r := LcbAdjusted(params, values, lcbs, radii, mostWeightedChildWeight);
      var best := BestLcb(params, values, lcbs, mostWeightedChildWeight, |values|);
      (forall i :: 0 <= i < |r| ==> r[i] >= values[i]) &&
      (forall i :: 0 <= i < |r| && r[i] != values[i] ==> i == best.0 && ApplyLcb(params, |values|, best.0)) &&
      (ApplyLcb(params, |values|, best.0) ==>
        0 <= best.0 < |values| && Eligible(params, values, mostWeightedChildWeight, best.0) &&
        (forall j :: 0 <= j < |values| && Eligible(params, values, mostWeightedChildWeight, j) ==> lcbs[j] <= lcbs[best.0]) &&
        (forall j :: 0 <= j < |values| && Contributes(lcbs, radii, best.0, best.1, j) ==> LBound(values, lcbs, radii, best.1, j) <= r[best.0])) &&
      (!params.useNonBuggyLcb && |values| > 0 ==> r[0] == values[0])
  {
    var best := BestLcb(params, values, lcbs, mostWeightedChildWeight, |values|);
    BestLcbIsBest(params, values, lcbs, mostWeightedChildWeight, |values|);
    if ApplyLcb(params, |values|, best.0) {
      AdjustedWeightBounds(values, lcbs, radii, best.0, best.1, |values|);
      var a := AdjustedWeight(values, lcbs, radii, best.0, best.1, |values|);
      assert LcbAdjusted(params, values, lcbs, radii, mostWeightedChildWeight) == values[best.0 := a];
    }
  }

  /** The bound loop: every child's bound and radius, and the best eligible bound. */
  method ComputeBounds(params: SearchParams, ev: Evaluator, node: Node, values: seq<real>, mostWeightedChildWeight: real)
    returns (lcbs: seq<real>, radii: seq<real>, bestLcbIndex: int, bestLcb: real)
    requires |values| == NumChildren(node)
    ensures lcbs == Lcbs(params, ev, node) && radii == Radii(params, ev, node)
    ensures (bestLcbIndex, bestLcb) == BestLcb(params, values, Lcbs(params, ev, node), mostWeightedChildWeight, |values|)
  {
    lcbs, radii := [], [];
    bestLcb, bestLcbIndex := BEST_LCB_INIT, -1;
    var i := 0;
    while i < |values|
      invariant 0 <= i <= |values|
      invariant lcbs == Lcbs(params, ev, node)[..i] && radii == Radii(params, ev, node)[..i]
      invariant (bestLcbIndex, bestLcb) == BestLcb(params, values, Lcbs(params, ev, node), mostWeightedChildWeight, i)
    {
      var child := Child(node, i);
      var lcbAndRadius := SelfUtilityLcbAndRadius(params, ev, node, child);
      BoundsPrefixStep(params, ev, node, i);
      lcbs := lcbs + [lcbAndRadius.0];
      radii := radii + [lcbAndRadius.1];
      bestLcbIndex, bestLcb := ConsiderForBestLcb(params, values, lcbs, mostWeightedChildWeight, i, bestLcbIndex, bestLcb);
      i := i + 1;
    }
    assert lcbs == Lcbs(params, ev, node) && radii == Radii(params, ev, node);
  }

  /** The bounds and radii of the first i + 1 children extend those of the first i. */
  lemma BoundsPrefixStep(params: SearchParams, ev: Evaluator, node: Node, i: nat)
    requires i < NumChildren(node)
    ensures var lr := SelfUtilityLcbAndRadius(params, ev, node, Child(node, i));
      Lcbs(params, ev, node)[..i + 1] == Lcbs(params, ev, node)[..i] + [lr.0] &&
      Radii(params, ev, node)[..i + 1] == Radii(params, ev, node)[..i] + [lr.1]
  {
    var lr := SelfUtilityLcbAndRadius(params, ev, node, Child(node, i));
    assert Lcbs(params, ev, node)[..i + 1] == Lcbs(params, ev, node)[..i] + [lr.0];
    assert Radii(params, ev, node)[..i + 1] == Radii(params, ev, node)[..i] + [lr.1];
  }

  /** One pass of the bound loop's test: an eligible child whose bound beats
      the best so far becomes the best. */
  method ConsiderForBestLcb(params: SearchParams, values: seq<real>, lcbs: seq<real>, mostWeightedChildWeight: real,
                            i: nat, bestLcbIndex: int, bestLcb: real) returns (bestLcbIndex': int, bestLcb': real)
    requires i < |lcbs| <= |values|
    ensures (bestLcbIndex', bestLcb') ==
      if Eligible(params, values, mostWeightedChildWeight, i) && lcbs[i] > bestLcb then (i, lcbs[i]) else (bestLcbIndex, bestLcb)
  {
    bestLcbIndex', bestLcb' := bestLcbIndex, bestLcb;
    var weight := values[i];
    if weight >= MIN_VISITS_FOR_LCB as real && weight >= params.minVisitPropForLCB * mostWeightedChildWeight {
      if lcbs[i] > bestLcb {
        bestLcb' := lcbs[i];
        bestLcbIndex' := i;
      }
    }
  }

  /** The boost loop. */
  method ComputeAdjustedWeight(values: seq<real>, lcbs: seq<real>, radii: seq<real>, bestLcbIndex: int, bestLcb: real)
    returns (adjustedWeight: real)
    requires |lcbs| == |values| && |radii| == |values| && 0 <= bestLcbIndex < |values|
    ensures adjustedWeight == AdjustedWeight(values, lcbs, radii, bestLcbIndex, bestLcb, |values|)
  {
    adjustedWeight := values[bestLcbIndex];
    var i := 0;
    while i < |values|
      invariant 0 <= i <= |values|
      invariant adjustedWeight == AdjustedWeight(values, lcbs, radii, bestLcbIndex, bestLcb, i)
    {
      if i != bestLcbIndex {
        var excessValue := bestLcb - lcbs[i];
        if excessValue < 0.0 {
          i := i + 1;
          continue;
        }
        var radius := radii[i];
        if radius + 0.2 * excessValue != 0.0 {
          var lbound := LBound(values, lcbs, radii, bestLcb, i);
          if lbound > adjustedWeight {
            adjustedWeight := lbound;
          }
        }
      }
      i := i + 1;
    }
  }

  /** The whole bound stage. */
  method LcbStage(params: SearchParams, ev: Evaluator, node: Node, values: seq<real>, mostWeightedChildWeight: real)
    returns (lcbs: seq<real>, radii: seq<real>, r: seq<real>)
    requires |values| == NumChildren(node)
    ensures lcbs == Lcbs(params, ev, node) && radii == Radii(params, ev, node)
    ensures r == LcbAdjusted(params, values, lcbs, radii, mostWeightedChildWeight)
  {
    var bestLcbIndex, bestLcb;
    lcbs, radii, bestLcbIndex, bestLcb := ComputeBounds(params, ev, node, values, mostWeightedChildWeight);
    r := values;
    if params.useLcbForSelection && |values| > 0 && (if params.useNonBuggyLcb then bestLcbIndex >= 0 else bestLcbIndex > 0) {
      var adjustedWeight := ComputeAdjustedWeight(values, lcbs, radii, bestLcbIndex, bestLcb);
      r := r[bestLcbIndex := adjustedWeight];
    }
  }

  // ---- Falling back on the policy ----

  /** What the fallback reads of the root: the board and net sizes, the player
      to move, legality, the allowed-root-move filter and the per-location
      avoid-until depths of each player. */
  datatype RootContext = RootContext(
    xSize: nat,
    ySize: nat,
    nnXLen: int,
    nnYLen: int,
    rootPla: Player,
    isLegal: Loc -> bool,
    isAllowedRootMove: Loc -> bool,
    avoidMoveUntilByLocBlack: seq<int>,
    avoidMoveUntilByLocWhite: seq<int>)

  function AvoidMoveUntilByLoc(ctx: RootContext): seq<int> {
    if ctx.rootPla == Black then ctx.avoidMoveUntilByLocBlack else ctx.avoidMoveUntilByLocWhite
  }

  /** The net is at least one cell wide and a non-empty avoid list covers every location. */
  predicate ValidRootContext(ctx: RootContext) {
    ctx.nnXLen > 0 && ctx.nnYLen > 0 &&
    (|AvoidMoveUntilByLoc(ctx)| == 0 || |AvoidMoveUntilByLoc(ctx)| >= ArrSize(ctx.xSize, ctx.ySize))
  }

  /** The noised policy when there is one, the plain one otherwise. */
  function PolicyMaybeNoised(o: NNOutput): seq<real> {
    if o.noisedPolicyProbs.Some? then o.noisedPolicyProbs.value else o.policyProbs
  }

  predicate FallbackReady(ctx: RootContext, policy: seq<real>) {
    ValidRootContext(ctx) && |policy| >= GetPolicySize(ctx.nnXLen, ctx.nnYLen)
  }

  function PolicyLoc(ctx: RootContext, pos: int): Loc
    requires ctx.nnXLen > 0
  {
    PosToLoc(pos, ctx.xSize, ctx.ySize, ctx.nnXLen, ctx.nnYLen)
  }

  /** Every location a policy slot names indexes a per-location array. */
  lemma {:induction false} PolicyLocInArray(ctx: RootContext, pos: int)
    requires ctx.nnXLen > 0
    ensures 0 <= PolicyLoc(ctx, pos) < ArrSize(ctx.xSize, ctx.ySize)
  {
    var loc := PolicyLoc(ctx, pos);
    if loc != PASS_LOC && loc != NULL_LOC {
      LocDecode(loc, ctx.xSize);
      OnBoardLocBound(GetX(loc, ctx.xSize), GetY(loc, ctx.xSize), ctx.xSize, ctx.ySize);
    }
  }

  /** The filter on a policy slot: legal, a probability that is not negative,
      allowed at the root when obeying that filter, and not avoided. */
  predicate KeepPolicyMove(ctx: RootContext, policy: seq<real>, obey: bool, pos: int)
    requires FallbackReady(ctx, policy) && 0 <= pos < GetPolicySize(ctx.nnXLen, ctx.nnYLen)
  {
    var loc := PolicyLoc(ctx, pos);
    var avoid := AvoidMoveUntilByLoc(ctx);
    ctx.isLegal(loc) && policy[pos] >= 0.0 && (obey ==> ctx.isAllowedRootMove(loc)) &&
    (|avoid| > 0 ==> (PolicyLocInArray(ctx, pos); avoid[loc] <= 0))
  }

  /** The kept slots among the first m, in increasing order. */
  function CandidatePositions(ctx: RootContext, policy: seq<real>, obey: bool, m: nat): (r: seq<int>)
    requires FallbackReady(ctx, policy) && m <= GetPolicySize(ctx.nnXLen, ctx.nnYLen)
    ensures forall k :: 0 <= k < |r| ==> 0 <= r[k] < m && KeepPolicyMove(ctx, policy, obey, r[k])
    ensures forall pos :: 0 <= pos < m && KeepPolicyMove(ctx, policy, obey, pos) ==> pos in r
    ensures forall k, l :: 0 <= k < l < |r| ==> r[k] < r[l]
  {
    if m == 0 then []
    else
      var prev := CandidatePositions(ctx, policy, obey, m - 1);
      if KeepPolicyMove(ctx, policy, obey, m - 1) then prev + [m - 1] else prev
  }

  /** The slots the fallback offers: those that pass the allowed-root-move
      filter, or, when none does, those that pass the rest. */
  function DirectPolicyPositions(ctx: RootContext, policy: seq<real>): seq<int>
    requires FallbackReady(ctx, policy)
  {
    var size := GetPolicySize(ctx.nnXLen, ctx.nnYLen);
    var obeying := CandidatePositions(ctx, policy, true, size);
    if |obeying| > 0 then obeying else CandidatePositions(ctx, policy, false, size)
  }

  function PolicyLocs(ctx: RootContext, positions: seq<int>): (r: seq<Loc>)
    requires ctx.nnXLen > 0
    ensures |r| == |positions| && forall k :: 0 <= k < |r| ==> r[k] == PolicyLoc(ctx, positions[k])
  {
    seq(|positions|, k requires 0 <= k < |positions| => PolicyLoc(ctx, positions[k]))
  }

  function PolicyValues(policy: seq<real>, positions: seq<int>): (r: seq<real>)
    requires forall k :: 0 <= k < |positions| ==> 0 <= positions[k] < |policy|
    ensures |r| == |positions| && forall k :: 0 <= k < |r| ==> r[k] == policy[positions[k]]
  {
    seq(|positions|, k requires 0 <= k < |positions| => policy[positions[k]])
  }

  /** Every offered slot is legal, has a probability that is not negative and
      is not avoided; if any slot is also allowed at the root the offer is
      exactly the allowed ones, otherwise exactly the legal ones. */
  lemma {:induction false} DirectPolicySoundAndComplete(ctx: RootContext, policy: seq<real>)
    requires FallbackReady(ctx, policy)
    ensures var size := GetPolicySize(ctx.nnXLen, ctx.nnYLen);
      var r := DirectPolicyPositions(ctx, policy);
      var anyAllowed := exists pos :: 0 <= pos < size && KeepPolicyMove(ctx, policy, true, pos);
      (forall k :: 0 <= k < |r| ==> 0 <= r[k] < size && KeepPolicyMove(ctx, policy, false, r[k])) &&
      (anyAllowed ==> forall pos :: 0 <= pos < size ==> (pos in r <==> KeepPolicyMove(ctx, policy, true, pos))) &&
      (!anyAllowed ==> forall pos :: 0 <= pos < size ==> (pos in r <==> KeepPolicyMove(ctx, policy, false, pos)))
  {
    var size := GetPolicySize(ctx.nnXLen, ctx.nnYLen);
    var obeying := CandidatePositions(ctx, policy, true, size);
    if |obeying| > 0 {
      assert KeepPolicyMove(ctx, policy, true, obeying[0]);
    }
  }

  /** One pass over the policy slots, with or without the allowed-root-move filter. */
  method ScanPolicy(ctx: RootContext, policy: seq<real>, obeyAllowedRootMove: bool) returns (locs: seq<Loc>, values: seq<real>)
    requires FallbackReady(ctx, policy)
    ensures locs == PolicyLocs(ctx, CandidatePositions(ctx, policy, obeyAllowedRootMove, GetPolicySize(ctx.nnXLen, ctx.nnYLen)))
    ensures values == PolicyValues(policy, CandidatePositions(ctx, policy, obeyAllowedRootMove, GetPolicySize(ctx.nnXLen, ctx.nnYLen)))
  {
    var policySize := GetPolicySize(ctx.nnXLen, ctx.nnYLen);
    locs, values := [], [];
    var movePos := 0;
    while movePos < policySize
      invariant 0 <= movePos <= policySize
      invariant locs == PolicyLocs(ctx, CandidatePositions(ctx, policy, obeyAllowedRootMove, movePos))
      invariant values == PolicyValues(policy, CandidatePositions(ctx, policy, obeyAllowedRootMove, movePos))
    {
      if KeepPolicyMove(ctx, policy, obeyAllowedRootMove, movePos) {
        KeptStep(ctx, policy, obeyAllowedRootMove, movePos);
      }
      locs, values := ScanSlot(ctx, policy, obeyAllowedRootMove, movePos, locs, values);
      movePos := movePos + 1;
    }
  }

  /** One pass of the scan: slot movePos is skipped when illegal, negative,
      not allowed at the root under that filter, or avoided, and appended
      otherwise. */
  method ScanSlot(ctx: RootContext, policy: seq<real>, obeyAllowedRootMove: bool, movePos: nat,
                  locs: seq<Loc>, values: seq<real>) returns (locs': seq<Loc>, values': seq<real>)
    requires FallbackReady(ctx, policy) && movePos < GetPolicySize(ctx.nnXLen, ctx.nnYLen)
    ensures KeepPolicyMove(ctx, policy, obeyAllowedRootMove, movePos) ==>
      locs' == locs + [PolicyLoc(ctx, movePos)] && values' == values + [policy[movePos]]
    ensures !KeepPolicyMove(ctx, policy, obeyAllowedRootMove, movePos) ==> locs' == locs && values' == values
  {
    locs', values' := locs, values;
    var moveLoc := PosToLoc(movePos, ctx.xSize, ctx.ySize, ctx.nnXLen, ctx.nnYLen);
    var policyProb := policy[movePos];
    if !ctx.isLegal(moveLoc) || policyProb < 0.0 || (obeyAllowedRootMove && !ctx.isAllowedRootMove(moveLoc)) {
      return;
    }
    var avoidMoveUntilByLoc := AvoidMoveUntilByLoc(ctx);
    if |avoidMoveUntilByLoc| > 0 {
      PolicyLocInArray(ctx, movePos);
      var untilDepth := avoidMoveUntilByLoc[moveLoc];
      if untilDepth > 0 {
        return;
      }
    }
    locs' := locs + [moveLoc];
    values' := values + [policyProb];
  }

  /** Keeping slot pos appends its location and probability. */
  lemma KeptStep(ctx: RootContext, policy: seq<real>, obey: bool, pos: nat)
    requires FallbackReady(ctx, policy) && pos < GetPolicySize(ctx.nnXLen, ctx.nnYLen)
    requires KeepPolicyMove(ctx, policy, obey, pos)
    ensures var kept := CandidatePositions(ctx, policy, obey, pos);
      PolicyLocs(ctx, CandidatePositions(ctx, policy, obey, pos + 1)) == PolicyLocs(ctx, kept) + [PolicyLoc(ctx, pos)] &&
      PolicyValues(policy, CandidatePositions(ctx, policy, obey, pos + 1)) == PolicyValues(policy, kept) + [policy[pos]]
  {
    var kept := CandidatePositions(ctx, policy, obey, pos);
    assert CandidatePositions(ctx, policy, obey, pos + 1) == kept + [pos];
  }

  /** The fallback loop, retried once without the allowed-root-move filter. */
  method DirectPolicyMoves(ctx: RootContext, policy: seq<real>) returns (locs: seq<Loc>, values: seq<real>)
    requires FallbackReady(ctx, policy)
    ensures locs == PolicyLocs(ctx, DirectPolicyPositions(ctx, policy))
    ensures values == PolicyValues(policy, DirectPolicyPositions(ctx, policy))
  {
    ghost var size := GetPolicySize(ctx.nnXLen, ctx.nnYLen);
    var obeyAllowedRootMove := true;
    while true
      invariant !obeyAllowedRootMove ==> |CandidatePositions(ctx, policy, true, size)| == 0
      decreases if obeyAllowedRootMove then 1 else 0
    {
      locs, values := ScanPolicy(ctx, policy, obeyAllowedRootMove);
      if |locs| == 0 && obeyAllowedRootMove {
        obeyAllowedRootMove := false;
        continue;
      }
      break;
    }
  }

  // ---- The whole computation ----

  /** The outcome: whether there is anything to select from, the moves, their
      values, the children's visit counts, and each child's bound and radius
      when those are computed. */
  datatype Selection = Selection(
    ok: bool,
    locs: seq<Loc>,
    values: seq<real>,
    visitCounts: seq<real>,
    lcbs: seq<real>,
    radii: seq<real>)

  /** What the source asserts: the root has an evaluation once it has
      children, and a root that falls back on the policy has a well-formed
      context and a full policy. */
  predicate SelectionReady(ctx: RootContext, node: Node, isRoot: bool, allowDirectPolicyMoves: bool) {
    (isRoot && NumChildren(node) > 0 ==> node.nnOutput.Some?) &&
    (isRoot && allowDirectPolicyMoves && NumChildren(node) == 0 && node.nnOutput.Some? ==>
      FallbackReady(ctx, PolicyMaybeNoised(node.nnOutput.value)))
  }

  /** The largest starting value, which the eligibility for the best bound is measured against. */
  function MostWeightedChildWeight(ev: Evaluator, node: Node): real {
    var base := BaseValues(node, ev.shouldSuppressPass(node));
    MostWeighted(base, |base|).1
  }

  /** The children's values after the root reduction. */
  function ReducedChildValues(ev: Evaluator, node: Node, isRoot: bool): (r: seq<real>)
    ensures |r| == NumChildren(node)
  {
    var n := NumChildren(node);
    var suppressPass := ev.shouldSuppressPass(node);
    var base := BaseValues(node, suppressPass);
    var most := MostWeighted(base, n);
    if isRoot && n > 0 then RootReduced(ev, node, base, most.0, TotalChildWeight(node, n), suppressPass) else base
  }

  /** The children's values after the root reduction and the bound stage,
      with the bounds and radii (empty when they are not computed). */
  function ChildSelectionValues(params: SearchParams, ev: Evaluator, node: Node, isRoot: bool,
                                alwaysComputeLcb: bool, neverUseLcb: bool): (r: (seq<real>, seq<real>, seq<real>))
    ensures |r.0| == NumChildren(node)
  {
    var n := NumChildren(node);
    var reduced := ReducedChildValues(ev, node, isRoot);
    if ComputesLcb(params, n, alwaysComputeLcb, neverUseLcb) then
      var lcbs := Lcbs(params, ev, node);
      var radii := Radii(params, ev, node);
      (LcbAdjusted(params, reduced, lcbs, radii, MostWeightedChildWeight(ev, node)), lcbs, radii)
    else (reduced, [], [])
  }

  /** The moves and values that reach normalisation: the children's, or, at a
      root without children, the policy fallback's; nothing for a node without
      children that cannot fall back. */
  function Candidates(ctx: RootContext, node: Node, isRoot: bool, allowDirectPolicyMoves: bool, childValues: seq<real>)
    : (r: Option<(seq<Loc>, seq<real>)>)
    requires SelectionReady(ctx, node, isRoot, allowDirectPolicyMoves) && |childValues| == NumChildren(node)
    ensures r.Some? ==> |r.value.0| == |r.value.1|
    ensures r.None? <==> NumChildren(node) == 0 && (node.nnOutput.None? || !isRoot || !allowDirectPolicyMoves)
  {
    if NumChildren(node) > 0 then Some((ChildLocs(node), childValues))
    else if node.nnOutput.None? || !isRoot || !allowDirectPolicyMoves then None
    else
      var policy := PolicyMaybeNoised(node.nnOutput.value);
      var positions := DirectPolicyPositions(ctx, policy);
      Some((PolicyLocs(ctx, positions), PolicyValues(policy, positions)))
  }

  /** getPlaySelectionValues as a function of the node and the inputs; a
      node that is not the root and has no children offers nothing. */
  function PlaySelectionValues(params: SearchParams, ev: Evaluator, ctx: RootContext, node: Node, isRoot: bool,
                               scaleMaxToAtLeast: real, allowDirectPolicyMoves: bool,
                               alwaysComputeLcb: bool, neverUseLcb: bool): (r: Selection)
    requires SelectionReady(ctx, node, isRoot, allowDirectPolicyMoves)
    ensures !isRoot && NumChildren(node) == 0 ==> !r.ok && r.locs == []
  {
    var cv := ChildSelectionValues(params, ev, node, isRoot, alwaysComputeLcb, neverUseLcb);
    var visitCounts := BaseVisits(node, ev.shouldSuppressPass(node));
    var c := Candidates(ctx, node, isRoot, allowDirectPolicyMoves, cv.0);
    if c.None? then Selection(false, [], cv.0, visitCounts, cv.1, cv.2)
    else
      var normalized := Normalized(params, c.value.1, scaleMaxToAtLeast);
      if normalized.None? then Selection(false, c.value.0, c.value.1, visitCounts, cv.1, cv.2)
      else Selection(true, c.value.0, normalized.value, visitCounts, cv.1, cv.2)
  }

  /** The stages over the children: collecting, the root reduction and the bounds. */
  method ChildStage(params: SearchParams, ev: Evaluator, node: Node, isRoot: bool, alwaysComputeLcb: bool, neverUseLcb: bool)
    returns (locs: seq<Loc>, values: seq<real>, visitCounts: seq<real>, lcbs: seq<real>, radii: seq<real>)
    ensures locs == ChildLocs(node) && visitCounts == BaseVisits(node, ev.shouldSuppressPass(node))
    ensures (values, lcbs, radii) == ChildSelectionValues(params, ev, node, isRoot, alwaysComputeLcb, neverUseLcb)
  {
    var suppressPass := ev.shouldSuppressPass(node);
    var totalChildWeight, maxChildWeight;
    locs, values, visitCounts, totalChildWeight, maxChildWeight := CollectChildren(node, suppressPass);
    var numChildren := |values|;
    var mostWeightedIdx, mostWeightedChildWeight := FindMostWeighted(values);
    if isRoot && numChildren > 0 {
      values := ReduceRootWeights(ev, node, values, mostWeightedIdx, totalChildWeight, suppressPass);
    }
    lcbs, radii := [], [];
    if !neverUseLcb && (alwaysComputeLcb || (params.useLcbForSelection && numChildren > 0)) {
      lcbs, radii, values := LcbStage(params, ev, node, values, mostWeightedChildWeight);
    }
  }

  method GetPlaySelectionValues(params: SearchParams, ev: Evaluator, ctx: RootContext, node: Node, isRoot: bool,
                                scaleMaxToAtLeast: real, allowDirectPolicyMoves: bool,
                                alwaysComputeLcb: bool, neverUseLcb: bool) returns (r: Selection)
    requires SelectionReady(ctx, node, isRoot, allowDirectPolicyMoves)
    ensures r == PlaySelectionValues(params, ev, ctx, node, isRoot, scaleMaxToAtLeast, allowDirectPolicyMoves, alwaysComputeLcb, neverUseLcb)
  {
    var locs, values, visitCounts, lcbs, radii := ChildStage(params, ev, node, isRoot, alwaysComputeLcb, neverUseLcb);
    var numChildren := |values|;
    if numChildren == 0 {
      if node.nnOutput.None? || !isRoot || !allowDirectPolicyMoves {
        return Selection(false, locs, values, visitCounts, lcbs, radii);
      }
      locs, values := DirectPolicyMoves(ctx, PolicyMaybeNoised(node.nnOutput.value));
      numChildren := |values|;
    }
    assert Candidates(ctx, node, isRoot, allowDirectPolicyMoves, ChildSelectionValues(params, ev, node, isRoot, alwaysComputeLcb, neverUseLcb).0)
      == Some((locs, values));
    if numChildren == 0 {
      assert MaxValue(values, |values|) == 0.0;
      return Selection(false, locs, values, visitCounts, lcbs, radii);
    }
    var ok, normalized := Normalize(params, values, scaleMaxToAtLeast);
    return Selection(ok, locs, normalized, visitCounts, lcbs, radii);
  }

  /** There is one value per move; with children the moves are the children
      in slot order; there is one visit count per child. */
  lemma {:induction false} SelectionShape(params: SearchParams, ev: Evaluator, ctx: RootContext, node: Node, isRoot: bool,
                                          scaleMaxToAtLeast: real, allowDirectPolicyMoves: bool,
                                          alwaysComputeLcb: bool, neverUseLcb: bool)
    requires SelectionReady(ctx, node, isRoot, allowDirectPolicyMoves)
    ensures var r := PlaySelectionValues(params, ev, ctx, node, isRoot, scaleMaxToAtLeast, allowDirectPolicyMoves, alwaysComputeLcb, neverUseLcb);
      var n := NumChildren(node);
      |r.locs| == |r.values| && |r.visitCounts| == n &&
      (n > 0 ==> r.locs == ChildLocs(node))
  {
    var cv := ChildSelectionValues(params, ev, node, isRoot, alwaysComputeLcb, neverUseLcb);
    var c := Candidates(ctx, node, isRoot, allowDirectPolicyMoves, cv.0);
    var r := PlaySelectionValues(params, ev, ctx, node, isRoot, scaleMaxToAtLeast, allowDirectPolicyMoves, alwaysComputeLcb, neverUseLcb);
    assert r.visitCounts == BaseVisits(node, ev.shouldSuppressPass(node));
    if c.Some? {
      assert r.locs == c.value.0;
      assert |r.values| == |c.value.1|;
    }
  }

  /** The bounds and radii are every child's when computed, and empty otherwise. */
  lemma {:induction false} SelectionBounds(params: SearchParams, ev: Evaluator, ctx: RootContext, node: Node, isRoot: bool,
                                           scaleMaxToAtLeast: real, allowDirectPolicyMoves: bool,
                                           alwaysComputeLcb: bool, neverUseLcb: bool)
    requires SelectionReady(ctx, node, isRoot, allowDirectPolicyMoves)
    ensures var r := PlaySelectionValues(params, ev, ctx, node, isRoot, scaleMaxToAtLeast, allowDirectPolicyMoves, alwaysComputeLcb, neverUseLcb);
      var n := NumChildren(node);
      (ComputesLcb(params, n, alwaysComputeLcb, neverUseLcb) ==> r.lcbs == Lcbs(params, ev, node) && r.radii == Radii(params, ev, node)) &&
      (!ComputesLcb(params, n, alwaysComputeLcb, neverUseLcb) ==> r.lcbs == [] && r.radii == [])
  {
    var cv := ChildSelectionValues(params, ev, node, isRoot, alwaysComputeLcb, neverUseLcb);
    var r := PlaySelectionValues(params, ev, ctx, node, isRoot, scaleMaxToAtLeast, allowDirectPolicyMoves, alwaysComputeLcb, neverUseLcb);
    assert r.lcbs == cv.1 && r.radii == cv.2;
  }

  /** Without children the selection fails unless this is the root, direct
      policy moves are allowed and there is an evaluation. When it succeeds
      every value is at least 0 and some value reaches scaleMaxToAtLeast. */
  lemma {:induction false} SelectionOkProperties(params: SearchParams, ev: Evaluator, ctx: RootContext, node: Node, isRoot: bool,
                                                 scaleMaxToAtLeast: real, allowDirectPolicyMoves: bool,
                                                 alwaysComputeLcb: bool, neverUseLcb: bool)
    requires SelectionReady(ctx, node, isRoot, allowDirectPolicyMoves)
    ensures var r := PlaySelectionValues(params, ev, ctx, node, isRoot, scaleMaxToAtLeast, allowDirectPolicyMoves, alwaysComputeLcb, neverUseLcb);
      (NumChildren(node) == 0 && (node.nnOutput.None? || !isRoot || !allowDirectPolicyMoves) ==> !r.ok) &&
      (r.ok ==> |r.values| > 0 && (forall i :: 0 <= i < |r.values| ==> r.values[i] >= 0.0) &&
                exists i :: 0 <= i < |r.values| && r.values[i] >= scaleMaxToAtLeast)
  {
    var cv := ChildSelectionValues(params, ev, node, isRoot, alwaysComputeLcb, neverUseLcb);
    var c := Candidates(ctx, node, isRoot, allowDirectPolicyMoves, cv.0);
    if c.Some? {
      var values := c.value.1;
      if Normalized(params, values, scaleMaxToAtLeast).Some? {
        NormalizedProperties(params, values, scaleMaxToAtLeast);
        var top := NormalizedTop(params, values, scaleMaxToAtLeast);
        var k :| 0 <= k < |values| && Normalized(params, values, scaleMaxToAtLeast).value[k] == top;
      }
    }
  }

  /** Before normalisation, a child that is a suppressed pass has value 0. */
  lemma {:induction false} SuppressedPassChildValue(params: SearchParams, ev: Evaluator, node: Node, isRoot: bool,
                                                    alwaysComputeLcb: bool, neverUseLcb: bool, i: int)
    requires 0 <= i < NumChildren(node) && SuppressedPass(node, ev.shouldSuppressPass(node), i)
    ensures ChildSelectionValues(params, ev, node, isRoot, alwaysComputeLcb, neverUseLcb).0[i] == 0.0
  {
    var n := NumChildren(node);
    var reduced := ReducedChildValues(ev, node, isRoot);
    assert reduced[i] == 0.0;
    if ComputesLcb(params, n, alwaysComputeLcb, neverUseLcb) {
      var lcbs := Lcbs(params, ev, node);
      var radii := Radii(params, ev, node);
      var most := MostWeightedChildWeight(ev, node);
      LcbAdjustedProperties(params, reduced, lcbs, radii, most);
      assert !Eligible(params, reduced, most, i);
    }
  }

  /** With passing suppressed and a subtract amount that is not negative, a
      pass child never gets a value above 0, so it is never chosen. */
  lemma {:induction false} SuppressedPassNeverSelected(params: SearchParams, ev: Evaluator, ctx: RootContext, node: Node, isRoot: bool,
                                                       scaleMaxToAtLeast: real, allowDirectPolicyMoves: bool,
                                                       alwaysComputeLcb: bool, neverUseLcb: bool)
    requires SelectionReady(ctx, node, isRoot, allowDirectPolicyMoves)
    requires NumChildren(node) > 0 && ev.shouldSuppressPass(node) && params.chosenMoveSubtract >= 0.0
    ensures var r := PlaySelectionValues(params, ev, ctx, node, isRoot, scaleMaxToAtLeast, allowDirectPolicyMoves, alwaysComputeLcb, neverUseLcb);
      forall i :: 0 <= i < NumChildren(node) && Child(node, i).prevMoveLoc == PASS_LOC ==> r.values[i] == 0.0
  {
    var r := PlaySelectionValues(params, ev, ctx, node, isRoot, scaleMaxToAtLeast, allowDirectPolicyMoves, alwaysComputeLcb, neverUseLcb);
    var values := ChildSelectionValues(params, ev, node, isRoot, alwaysComputeLcb, neverUseLcb).0;
    forall i | 0 <= i < NumChildren(node) && Child(node, i).prevMoveLoc == PASS_LOC
      ensures r.values[i] == 0.0
    {
      SuppressedPassChildValue(params, ev, node, isRoot, alwaysComputeLcb, neverUseLcb, i);
      var maxValue := MaxValue(values, |values|);
      if maxValue > SELECTION_EPSILON {
        var sub := AmountToSubtract(params, maxValue);
        var prune := AmountToPrune(params, maxValue);
        assert sub >= 0.0;
        assert PrunedValues(values, sub, prune)[i] == 0.0;
      }
    }
  }
}
