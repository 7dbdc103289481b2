/** getSelfUtilityLCBAndRadius: the lower confidence bound of a child's
    utility from the point of view of the player to move at the parent, and
    the radius of that bound. */
module Lcb {
  import opened Location
  import opened SearchTree

  const MIN_VISITS_FOR_LCB: int := 3

  /** C's round: to the nearest integer, halves away from zero. */
  function Round(x: real): (r: int)
    ensures x - 0.5 <= r as real <= x + 0.5
    ensures x >= 0.0 ==> r >= 0
  {
    if x >= 0.0 then (x + 0.5).Floor else -((-x + 0.5).Floor)
  }

  function Max(a: real, b: real): (r: real)
    ensures r >= a && r >= b && (r == a || r == b)
  {
    if a >= b then a else b
  }

  /** The radius used when the child has too little weight for a bound. */
  function DefaultRadius(params: SearchParams): real {
    2.0 * (params.winLossUtilityFactor + params.staticScoreUtilityFactor + params.dynamicScoreUtilityFactor)
  }

  /** The effective sample size of a child with positive weights. */
  function Ess(s: NodeStats): real
    requires s.weightSqSum > 0.0
  {
    s.weightSum * s.weightSum / s.weightSqSum
  }

  /** The child has enough effective samples for a real bound. */
  predicate HasLcb(s: NodeStats) {
    s.weightSum > 0.0 && s.weightSqSum > 0.0 && Round(Ess(s)) >= MIN_VISITS_FOR_LCB
  }

  /** The child's utility with the score bonus, signed for the parent's player to move. */
  function SelfUtility(ev: Evaluator, parent: Node, child: Node): real {
    var s := child.stats;
    var utilityWithBonus := s.utilityAvg + ev.scoreUtilityDiff(s.scoreMeanAvg, s.scoreMeanSqAvg, ev.endingWhiteScoreBonus(parent, child));
    if parent.nextPla == White then utilityWithBonus else -utilityWithBonus
  }

  /** The pair (lcb, radius): the default pair around 0 without enough
      effective samples, otherwise an interval whose upper end is the self
      utility. */
  function SelfUtilityLcbAndRadius(params: SearchParams, ev: Evaluator, parent: Node, child: Node): (r: (real, real))
    ensures !HasLcb(child.stats) ==> r == (-DefaultRadius(params), DefaultRadius(params))
    ensures HasLcb(child.stats) ==> r.0 + r.1 == SelfUtility(ev, parent, child)
  {
    var s := child.stats;
    var radius := DefaultRadius(params);
    if s.weightSum <= 0.0 || s.weightSqSum <= 0.0 then (-radius, radius)
    else
      var ess := Ess(s);
      var essInt := Round(ess);
      if essInt < MIN_VISITS_FOR_LCB then (-radius, radius)
      else
        var utilityVariance := Max(0.00000001, s.utilitySqAvg - s.utilityAvg * s.utilityAvg);
        var r := ev.lcbRadius(utilityVariance, ess, essInt);
        (SelfUtility(ev, parent, child) - r, r)
  }

  /** Without enough effective samples the bound is minus the default radius;
      with them it is the self utility less a radius that, for a valid
      evaluator, is not negative, so the bound never exceeds the utility. */
  lemma {:induction false} LcbCases(params: SearchParams, ev: Evaluator, parent: Node, child: Node)
    ensures var r := SelfUtilityLcbAndRadius(params, ev, parent, child);
      !HasLcb(child.stats) ==> r == (-DefaultRadius(params), DefaultRadius(params))
    ensures var r := SelfUtilityLcbAndRadius(params, ev, parent, child);
      HasLcb(child.stats) ==> r.0 + r.1 == SelfUtility(ev, parent, child)
    ensures var r := SelfUtilityLcbAndRadius(params, ev, parent, child);
      ValidEvaluator(ev) && HasLcb(child.stats) ==> r.1 >= 0.0 && r.0 <= SelfUtility(ev, parent, child)
  {
  }

  /** A child whose weight is under 2.5 times the root of its squared weight
      (so fewer than three effective samples) gets the default bound. */
  lemma {:induction false} FewSamplesGetDefault(params: SearchParams, ev: Evaluator, parent: Node, child: Node)
    requires child.stats.weightSum > 0.0 && child.stats.weightSqSum > 0.0
    requires Ess(child.stats) < 2.5
    ensures SelfUtilityLcbAndRadius(params, ev, parent, child) == (-DefaultRadius(params), DefaultRadius(params))
  {
    var e := Ess(child.stats);
    assert Round(e) as real <= e + 0.5 < 3.0;
  }

  /** For non-negative utility factors and a valid evaluator the radius is never negative. */
  lemma {:induction false} RadiusNonNegative(params: SearchParams, ev: Evaluator, parent: Node, child: Node)
    requires ValidEvaluator(ev)
    requires params.winLossUtilityFactor >= 0.0 && params.staticScoreUtilityFactor >= 0.0 && params.dynamicScoreUtilityFactor >= 0.0
    ensures SelfUtilityLcbAndRadius(params, ev, parent, child).1 >= 0.0
  {
    LcbCases(params, ev, parent, child);
  }

  /** How many times wider the radius would have to be before the bound fell
      to the other's; the denominator keeps it at most 5. */
  function RadiusFactor(radius: real, excessValue: real): real
    requires radius + 0.2 * excessValue != 0.0
  {
    (radius + excessValue) / (radius + 0.2 * excessValue)
  }

  /** The radius factor lies between 1 and 5 for a non-negative radius and excess. */
  lemma {:induction false} RadiusFactorBounds(radius: real, excessValue: real)
    requires radius >= 0.0 && excessValue >= 0.0 && radius + 0.2 * excessValue > 0.0
    ensures 1.0 <= RadiusFactor(radius, excessValue) <= 5.0
  {
    var d := radius + 0.2 * excessValue;
    var n := radius + excessValue;
    var f := n / d;
    assert f * d == n;
    assert (f - 1.0) * d == n - d && n - d >= 0.0;
    assert (5.0 - f) * d == 5.0 * d - n && 5.0 * d - n >= 0.0;
    PositiveFactor(f - 1.0, d);
    PositiveFactor(5.0 - f, d);
  }

  lemma PositiveFactor(a: real, d: real)
    requires d > 0.0 && a * d >= 0.0
    ensures a >= 0.0
  {
  }
}
