/** traverseTreeWithOwnershipAndSelfWeight: the tree ownership average. A
    desired weight is split between a node's own evaluation and its children
    (those weighing at least minWeight), in proportion to the children's
    summed weight against the node's own evaluation weight; each child gets a
    share proportional to its squared weight and passes it on in turn. Each
    node with an evaluation hands its ownership map to accumulate with the part
    of the desired weight its children did not take. */
module OwnershipTraversal {
  import opened Wrappers
  import opened SearchTree

  /** One call of accumulate: the node whose ownership map is passed, and the
      weight it is passed with. */
  datatype Visit = Visit(node: Node, selfWeight: real)

  /** Search weights are never negative anywhere in the tree. */
  ghost predicate NonNegativeWeights(node: Node)
    decreases node
  {
    forall i :: 0 <= i < NumChildren(node) ==>
      Child(node, i).stats.weightSum >= 0.0 && (ChildIsSmaller(node, i); NonNegativeWeights(Child(node, i)))
  }

  /** The first loop of the helper: the weights of the filled slots. */
  function ChildWeights(node: Node): (ws: seq<real>)
    ensures |ws| == NumChildren(node)
    ensures forall i :: 0 <= i < |ws| ==> ws[i] == Child(node, i).stats.weightSum
  {
    seq(NumChildren(node), i requires 0 <= i < NumChildren(node) => Child(node, i).stats.weightSum)
  }

  /** The sum of the squared weights of the first k children that weigh at least minWeight. */
  function RelativeSum(ws: seq<real>, minWeight: real, k: nat): (r: real)
    requires k <= |ws|
    ensures r >= 0.0
  {
    if k == 0 then 0.0
    else if ws[k - 1] < minWeight then RelativeSum(ws, minWeight, k - 1)
    else RelativeSum(ws, minWeight, k - 1) + ws[k - 1] * ws[k - 1]
  }

  /** The sum of the weights of the first k children that weigh at least minWeight. */
  function UsedSum(ws: seq<real>, minWeight: real, k: nat): (r: real)
    requires k <= |ws|
    ensures (forall i :: 0 <= i < k ==> ws[i] >= 0.0) ==> r >= 0.0
  {
    if k == 0 then 0.0
    else if ws[k - 1] < minWeight then UsedSum(ws, minWeight, k - 1)
    else UsedSum(ws, minWeight, k - 1) + ws[k - 1]
  }

  /** The part of the desired weight handed to the children. */
  function DesiredFromChildren(desired: real, used: real, thisNodeWeight: real): real
    requires used + thisNodeWeight != 0.0
  {
    desired * used / (used + thisNodeWeight)
  }

  /** A child's share of what the children get. When the squared weights sum
      to zero every child used weighs 0 and so does what the children get, so
      the share is 0 (see the as-written share below). */
  function Share(childWeight: real, relSum: real, fromChildren: real): real {
    if relSum == 0.0 then 0.0 else childWeight * childWeight / relSum * fromChildren
  }

  ghost predicate TraverseReady(ev: Evaluator, node: Node) {
    (forall o :: ev.computeWeightFromNNOutput(o) > 0.0) && NonNegativeWeights(node)
  }

  /** The traversal of a node that is not NULL: the weight it returns and the
      calls of accumulate it makes, in order. A node without an evaluation
      takes nothing; one with an evaluation returns the weight it was asked
      for, whatever that weight is, and is itself accumulated last. */
  function TraverseNode(ev: Evaluator, minWeight: real, desired: real, node: Node): (r: (real, seq<Visit>))
    requires TraverseReady(ev, node)
    ensures node.nnOutput.None? ==> r == (0.0, [])
    ensures node.nnOutput.Some? ==> r.0 == desired && |r.1| > 0 && r.1[|r.1| - 1].node == node
    decreases node, |node.children| + 2
  {
    if node.nnOutput.None? then (0.0, [])
    else
      var thisNodeWeight := ev.computeWeightFromNNOutput(node.nnOutput.value);
      var fromChildren := HelperPart(ev, minWeight, desired, thisNodeWeight, node);
      (desired, fromChildren.1 + [Visit(node, desired - fromChildren.0)])
  }

  /** The helper: the weight the children actually took and their calls. */
  function HelperPart(ev: Evaluator, minWeight: real, desired: real, thisNodeWeight: real, node: Node): (real, seq<Visit>)
    requires TraverseReady(ev, node) && thisNodeWeight > 0.0
    decreases node, |node.children| + 1
  {
    var ws := ChildWeights(node);
    var used := UsedSum(ws, minWeight, |ws|);
    ChildrenPart(ev, minWeight, node, ws, RelativeSum(ws, minWeight, |ws|),
                 DesiredFromChildren(desired, used, thisNodeWeight), |ws|)
  }

  /** The recursion loop over the first k children. */
  function ChildrenPart(ev: Evaluator, minWeight: real, node: Node, ws: seq<real>, relSum: real, fromChildren: real,
                        k: nat): (real, seq<Visit>)
    requires TraverseReady(ev, node) && ws == ChildWeights(node) && k <= |ws|
    decreases node, k
  {
    if k == 0 then (0.0, [])
    else
      var prev := ChildrenPart(ev, minWeight, node, ws, relSum, fromChildren, k - 1);
      if ws[k - 1] < minWeight then prev
      else
        ChildIsSmaller(node, k - 1);
        var t := TraverseNode(ev, minWeight, Share(ws[k - 1], relSum, fromChildren), Child(node, k - 1));
        (prev.0 + t.0, prev.1 + t.1)
  }

  /** The traversal from a node that may be NULL. */
  function Traverse(ev: Evaluator, minWeight: real, desired: real, node: Option<Node>): (real, seq<Visit>)
    requires node.Some? ==> TraverseReady(ev, node.value)
  {
    if node.None? then (0.0, []) else TraverseNode(ev, minWeight, desired, node.value)
  }

  /** The total weight passed to accumulate. */
  function SelfWeightSum(visits: seq<Visit>): real {
    if |visits| == 0 then 0.0 else SelfWeightSum(visits[..|visits| - 1]) + visits[|visits| - 1].selfWeight
  }

  lemma {:induction false} SelfWeightSumAppend(a: seq<Visit>, b: seq<Visit>)
    ensures SelfWeightSum(a + b) == SelfWeightSum(a) + SelfWeightSum(b)
    decreases |b|
  {
    var ab := a + b;
    if |b| == 0 {
      assert ab == a;
    } else {
      assert ab[..|ab| - 1] == a + b[..|b| - 1];
      assert ab[|ab| - 1] == b[|b| - 1];
      SelfWeightSumAppend(a, b[..|b| - 1]);
    }
  }

  /** A NULL node or one without an evaluation returns 0 and makes no call;
      any other node returns the desired weight. */
  lemma TraverseReturns(ev: Evaluator, minWeight: real, desired: real, node: Option<Node>)
    requires node.Some? ==> TraverseReady(ev, node.value)
    ensures var t := Traverse(ev, minWeight, desired, node);
      (node.None? || node.value.nnOutput.None? ==> t == (0.0, [])) &&
      (node.Some? && node.value.nnOutput.Some? ==> t.0 == desired && |t.1| > 0)
  {
  }

  /** The weights passed to accumulate over a subtree add up to what the
      traversal returns. */
  lemma {:induction false} NodeWeightConserved(ev: Evaluator, minWeight: real, desired: real, node: Node)
    requires TraverseReady(ev, node)
    ensures var t := TraverseNode(ev, minWeight, desired, node); SelfWeightSum(t.1) == t.0
    decreases node, |node.children| + 2
  {
    if node.nnOutput.Some? {
      var thisNodeWeight := ev.computeWeightFromNNOutput(node.nnOutput.value);
      var ws := ChildWeights(node);
      var used := UsedSum(ws, minWeight, |ws|);
      var relSum := RelativeSum(ws, minWeight, |ws|);
      var fromChildren := DesiredFromChildren(desired, used, thisNodeWeight);
      var h := ChildrenPart(ev, minWeight, node, ws, relSum, fromChildren, |ws|);
      assert HelperPart(ev, minWeight, desired, thisNodeWeight, node) == h;
      ChildrenWeightConserved(ev, minWeight, node, ws, relSum, fromChildren, |ws|);
      SelfWeightSumAppend(h.1, [Visit(node, desired - h.0)]);
      assert SelfWeightSum([Visit(node, desired - h.0)]) == desired - h.0;
    }
  }

  lemma {:induction false} ChildrenWeightConserved(ev: Evaluator, minWeight: real, node: Node, ws: seq<real>, relSum: real,
                                                   fromChildren: real, k: nat)
    requires TraverseReady(ev, node) && ws == ChildWeights(node) && k <= |ws|
    ensures var c := ChildrenPart(ev, minWeight, node, ws, relSum, fromChildren, k); SelfWeightSum(c.1) == c.0
    decreases node, k
  {
    if k > 0 {
      var prev := ChildrenPart(ev, minWeight, node, ws, relSum, fromChildren, k - 1);
      ChildrenWeightConserved(ev, minWeight, node, ws, relSum, fromChildren, k - 1);
      if ws[k - 1] >= minWeight {
        ChildIsSmaller(node, k - 1);
        var t := TraverseNode(ev, minWeight, Share(ws[k - 1], relSum, fromChildren), Child(node, k - 1));
        NodeWeightConserved(ev, minWeight, Share(ws[k - 1], relSum, fromChildren), Child(node, k - 1));
        SelfWeightSumAppend(prev.1, t.1);
      }
    }
  }

  /** From the root with desired weight 1, the weights passed to accumulate add
      up to 1 whenever the root has an evaluation. */
  lemma RootWeightIsOne(ev: Evaluator, minWeight: real, root: Node)
    requires TraverseReady(ev, root) && root.nnOutput.Some?
    ensures var t := TraverseNode(ev, minWeight, 1.0, root); t.0 == 1.0 && SelfWeightSum(t.1) == 1.0
  {
    NodeWeightConserved(ev, minWeight, 1.0, root);
  }

  /** The node is reached from another along children that each weigh at
      least minWeight, following the child indices of the path. */
  ghost predicate HeavyPath(from: Node, to: Node, path: seq<int>, minWeight: real)
    decreases |path|
  {
    if |path| == 0 then to == from
    else
      0 <= path[0] < NumChildren(from) && Child(from, path[0]).stats.weightSum >= minWeight &&
      HeavyPath(Child(from, path[0]), to, path[1..], minWeight)
  }

  ghost predicate ReachedBy(from: Node, to: Node, minWeight: real) {
    exists path :: HeavyPath(from, to, path, minWeight)
  }

  /** Every visited node has an evaluation and is reached from the start. */
  ghost predicate AllHeavy(start: Node, visits: seq<Visit>, minWeight: real) {
    forall j :: 0 <= j < |visits| ==> visits[j].node.nnOutput.Some? && ReachedBy(start, visits[j].node, minWeight)
  }

  /** Every node whose ownership is accumulated has an evaluation and is
      reached from the start along children of at least minWeight: lighter
      children and everything below them are never visited. */
  lemma {:induction false} VisitsAreHeavy(ev: Evaluator, minWeight: real, desired: real, node: Node)
    requires TraverseReady(ev, node)
    ensures AllHeavy(node, TraverseNode(ev, minWeight, desired, node).1, minWeight)
    decreases node, |node.children| + 2
  {
    if node.nnOutput.Some? {
      var thisNodeWeight := ev.computeWeightFromNNOutput(node.nnOutput.value);
      var ws := ChildWeights(node);
      var used := UsedSum(ws, minWeight, |ws|);
      var relSum := RelativeSum(ws, minWeight, |ws|);
      var fromChildren := DesiredFromChildren(desired, used, thisNodeWeight);
      var h := ChildrenPart(ev, minWeight, node, ws, relSum, fromChildren, |ws|);
      assert HelperPart(ev, minWeight, desired, thisNodeWeight, node) == h;
      ChildrenVisitsAreHeavy(ev, minWeight, node, ws, relSum, fromChildren, |ws|);
      var t := TraverseNode(ev, minWeight, desired, node);
      assert t.1 == h.1 + [Visit(node, desired - h.0)];
      assert HeavyPath(node, node, [], minWeight);
      forall j | 0 <= j < |t.1|
        ensures t.1[j].node.nnOutput.Some? && ReachedBy(node, t.1[j].node, minWeight)
      {
        if j < |h.1| {
          assert t.1[j] == h.1[j];
        } else {
          assert t.1[j].node == node;
        }
      }
    }
  }

  lemma {:induction false} ChildrenVisitsAreHeavy(ev: Evaluator, minWeight: real, node: Node, ws: seq<real>, relSum: real,
                                                  fromChildren: real, k: nat)
    requires TraverseReady(ev, node) && ws == ChildWeights(node) && k <= |ws|
    ensures AllHeavy(node, ChildrenPart(ev, minWeight, node, ws, relSum, fromChildren, k).1, minWeight)
    decreases node, k
  {
    if k > 0 {
      var prev := ChildrenPart(ev, minWeight, node, ws, relSum, fromChildren, k - 1);
      ChildrenVisitsAreHeavy(ev, minWeight, node, ws, relSum, fromChildren, k - 1);
      if ws[k - 1] >= minWeight {
        ChildIsSmaller(node, k - 1);
        var child := Child(node, k - 1);
        var share := Share(ws[k - 1], relSum, fromChildren);
        var t := TraverseNode(ev, minWeight, share, child);
        VisitsAreHeavy(ev, minWeight, share, child);
        var c := ChildrenPart(ev, minWeight, node, ws, relSum, fromChildren, k);
        assert c.1 == prev.1 + t.1;
        forall j | |prev.1| <= j < |c.1|
          ensures c.1[j].node.nnOutput.Some? && ReachedBy(node, c.1[j].node, minWeight)
        {
          var v := t.1[j - |prev.1|];
          assert c.1[j] == v;
          assert ReachedBy(child, v.node, minWeight);
          var path :| HeavyPath(child, v.node, path, minWeight);
          assert ([k - 1] + path)[1..] == path;
          assert HeavyPath(node, v.node, [k - 1] + path, minWeight);
        }
      }
    }
  }

  ghost predicate SelfWeightsNonNegative(visits: seq<Visit>) {
    forall j :: 0 <= j < |visits| ==> visits[j].selfWeight >= 0.0
  }

  /** What the squared weights of the first k children entitle them to. */
  function ShareBound(ws: seq<real>, minWeight: real, relSum: real, fromChildren: real, k: nat): real
    requires k <= |ws|
  {
    if relSum == 0.0 then 0.0 else RelativeSum(ws, minWeight, k) / relSum * fromChildren
  }

  /** The children get at most the desired weight, and nothing negative. */
  lemma {:induction false} FromChildrenBounds(desired: real, used: real, thisNodeWeight: real)
    requires desired >= 0.0 && used >= 0.0 && thisNodeWeight > 0.0
    ensures 0.0 <= DesiredFromChildren(desired, used, thisNodeWeight) <= desired
  {
    var d := used + thisNodeWeight;
    var f := used / d;
    assert f * d == used;
    if f > 1.0 {
      PositiveProduct(f - 1.0, d);
    }
    if f < 0.0 {
      PositiveProduct(-f, d);
    }
    assert DesiredFromChildren(desired, used, thisNodeWeight) == desired * f;
    assert desired * f <= desired * 1.0 by {
      NonNegativeProduct(desired, 1.0 - f);
    }
  }

  lemma PositiveProduct(a: real, b: real)
    requires a > 0.0 && b > 0.0
    ensures a * b > 0.0
  {
  }

  lemma NonNegativeProduct(a: real, b: real)
    requires a >= 0.0 && b >= 0.0
    ensures a * b >= 0.0
  {
  }

  /** Each used child adds its share to the bound; the others add nothing. */
  lemma {:induction false} ShareBoundStep(ws: seq<real>, minWeight: real, relSum: real, fromChildren: real, k: nat)
    requires 0 < k <= |ws| && relSum >= 0.0 && fromChildren >= 0.0
    ensures Share(ws[k - 1], relSum, fromChildren) >= 0.0
    ensures ShareBound(ws, minWeight, relSum, fromChildren, k) ==
      ShareBound(ws, minWeight, relSum, fromChildren, k - 1) +
      (if ws[k - 1] < minWeight then 0.0 else Share(ws[k - 1], relSum, fromChildren))
  {
    if relSum != 0.0 {
      var w := ws[k - 1];
      var prev := RelativeSum(ws, minWeight, k - 1);
      var q := w * w / relSum;
      NonNegativeProduct(w * w, 1.0 / relSum);
      assert q == w * w * (1.0 / relSum);
      NonNegativeProduct(q, fromChildren);
      assert (prev + w * w) / relSum == prev / relSum + q;
      assert (prev / relSum + q) * fromChildren == prev / relSum * fromChildren + q * fromChildren;
    }
  }

  /** With a non-negative desired weight every weight passed to accumulate is
      non-negative, and the subtree returns between 0 and the desired weight. */
  lemma {:induction false} NodeSelfWeightsNonNegative(ev: Evaluator, minWeight: real, desired: real, node: Node)
    requires TraverseReady(ev, node) && desired >= 0.0
    ensures var t := TraverseNode(ev, minWeight, desired, node);
      SelfWeightsNonNegative(t.1) && 0.0 <= t.0 <= desired
    decreases node, |node.children| + 2
  {
    if node.nnOutput.Some? {
      var thisNodeWeight := ev.computeWeightFromNNOutput(node.nnOutput.value);
      var ws := ChildWeights(node);
      var used := UsedSum(ws, minWeight, |ws|);
      var relSum := RelativeSum(ws, minWeight, |ws|);
      FromChildrenBounds(desired, used, thisNodeWeight);
      var fromChildren := DesiredFromChildren(desired, used, thisNodeWeight);
      var h := ChildrenPart(ev, minWeight, node, ws, relSum, fromChildren, |ws|);
      assert HelperPart(ev, minWeight, desired, thisNodeWeight, node) == h;
      ChildrenTakeAtMost(ev, minWeight, node, ws, relSum, fromChildren, |ws|);
      if relSum != 0.0 {
        assert relSum / relSum == 1.0;
        assert ShareBound(ws, minWeight, relSum, fromChildren, |ws|) == fromChildren;
      }
      var t := TraverseNode(ev, minWeight, desired, node);
      assert t.1 == h.1 + [Visit(node, desired - h.0)];
      forall j | 0 <= j < |t.1|
        ensures t.1[j].selfWeight >= 0.0
      {
        if j < |h.1| {
          assert t.1[j] == h.1[j];
        }
      }
    }
  }

  /** The children together take no more than their squared weights entitle
      them to, and every weight they pass to accumulate is non-negative. */
  lemma {:induction false} ChildrenTakeAtMost(ev: Evaluator, minWeight: real, node: Node, ws: seq<real>, relSum: real,
                                              fromChildren: real, k: nat)
    requires TraverseReady(ev, node) && ws == ChildWeights(node) && k <= |ws|
    requires relSum >= 0.0 && fromChildren >= 0.0
    ensures var c := ChildrenPart(ev, minWeight, node, ws, relSum, fromChildren, k);
      SelfWeightsNonNegative(c.1) && 0.0 <= c.0 <= ShareBound(ws, minWeight, relSum, fromChildren, k)
    decreases node, k
  {
    if k > 0 {
      var prev := ChildrenPart(ev, minWeight, node, ws, relSum, fromChildren, k - 1);
      ChildrenTakeAtMost(ev, minWeight, node, ws, relSum, fromChildren, k - 1);
      ShareBoundStep(ws, minWeight, relSum, fromChildren, k);
      if ws[k - 1] >= minWeight {
        ChildIsSmaller(node, k - 1);
        var child := Child(node, k - 1);
        var w := ws[k - 1];
        var share := Share(w, relSum, fromChildren);
        var t := TraverseNode(ev, minWeight, share, child);
        NodeSelfWeightsNonNegative(ev, minWeight, share, child);
        var c := ChildrenPart(ev, minWeight, node, ws, relSum, fromChildren, k);
        assert c == (prev.0 + t.0, prev.1 + t.1);
        forall j | 0 <= j < |c.1|
          ensures c.1[j].selfWeight >= 0.0
        {
          if j < |prev.1| {
            assert c.1[j] == prev.1[j];
          } else {
            assert c.1[j] == t.1[j - |prev.1|];
          }
        }
      }
    }
  }

  /** From a node that may be NULL, with a non-negative desired weight: every
      weight passed to accumulate is non-negative, and they add up to what is
      returned. */
  lemma OwnershipWeightsAreADistribution(ev: Evaluator, minWeight: real, desired: real, node: Option<Node>)
    requires node.Some? ==> TraverseReady(ev, node.value)
    requires desired >= 0.0
    ensures var t := Traverse(ev, minWeight, desired, node);
      SelfWeightsNonNegative(t.1) && SelfWeightSum(t.1) == t.0
  {
    if node.Some? {
      NodeSelfWeightsNonNegative(ev, minWeight, desired, node.value);
      NodeWeightConserved(ev, minWeight, desired, node.value);
    }
  }

  /** traverseTreeWithOwnershipAndSelfWeight: the accumulate callback is
      modelled by the log of its calls, extended in call order. */
  method TraverseTreeWithOwnershipAndSelfWeight(ev: Evaluator, minWeight: real, desired: real, node: Option<Node>,
                                                acc: seq<Visit>) returns (r: real, accOut: seq<Visit>)
    requires node.Some? ==> TraverseReady(ev, node.value)
    ensures var t := Traverse(ev, minWeight, desired, node); r == t.0 && accOut == acc + t.1
  {
    if node.None? {
      return 0.0, acc;
    }
    r, accOut := TraverseFromNode(ev, minWeight, desired, node.value, acc);
  }

  /** The traversal below the NULL check. */
  method TraverseFromNode(ev: Evaluator, minWeight: real, desired: real, node: Node, acc: seq<Visit>)
    returns (r: real, accOut: seq<Visit>)
    requires TraverseReady(ev, node)
    ensures var t := TraverseNode(ev, minWeight, desired, node); r == t.0 && accOut == acc + t.1
    decreases node, 2
  {
    var nnOutput := node.nnOutput;
    if nnOutput.None? {
      return 0.0, acc;
    }
    var thisNodeWeight := ev.computeWeightFromNNOutput(nnOutput.value);
    var actualWeightFromChildren, acc1 := TraverseHelper(ev, minWeight, desired, thisNodeWeight, node, acc);
    var selfWeight := desired - actualWeightFromChildren;
    accOut := acc1 + [Visit(node, selfWeight)];
    r := desired;
  }

  /** traverseTreeWithOwnershipAndSelfWeightHelper: read the weights of the
      filled slots into a buffer, sum the used ones and their squares, then
      recurse into each used child with its share. */
  method TraverseHelper(ev: Evaluator, minWeight: real, desired: real, thisNodeWeight: real, node: Node,
                        acc: seq<Visit>) returns (actual: real, accOut: seq<Visit>)
    requires TraverseReady(ev, node) && thisNodeWeight > 0.0
    ensures var h := HelperPart(ev, minWeight, desired, thisNodeWeight, node); actual == h.0 && accOut == acc + h.1
    decreases node, 1
  {
    var children := node.children;
    ghost var ws := ChildWeights(node);
    var childWeightBuf := new real[|children|];
    var numChildren := 0;
    while numChildren < |children|
      invariant numChildren <= NumChildren(node)
      invariant childWeightBuf[..numChildren] == ws[..numChildren]
    {
      if children[numChildren].Unallocated? {
        break;
      }
      childWeightBuf[numChildren] := children[numChildren].node.stats.weightSum;
      numChildren := numChildren + 1;
    }
    assert numChildren == |ws|;
    assert childWeightBuf[..numChildren] == ws;

    var relativeChildrenWeightSum, usedChildrenWeightSum := SumChildWeights(childWeightBuf, numChildren, minWeight);
    assert childWeightBuf[..numChildren] == ws;
    var desiredWeightFromChildren := DesiredFromChildren(desired, usedChildrenWeightSum, thisNodeWeight);
    actual, accOut := RecurseIntoChildren(ev, minWeight, node, childWeightBuf, numChildren, relativeChildrenWeightSum,
                                          desiredWeightFromChildren, acc);
  }

  /** The second loop of the helper: the used children's squared weights and weights, summed. */
  method SumChildWeights(childWeightBuf: array<real>, numChildren: int, minWeight: real)
    returns (relativeChildrenWeightSum: real, usedChildrenWeightSum: real)
    requires 0 <= numChildren <= childWeightBuf.Length
    ensures relativeChildrenWeightSum == RelativeSum(childWeightBuf[..numChildren], minWeight, numChildren)
    ensures usedChildrenWeightSum == UsedSum(childWeightBuf[..numChildren], minWeight, numChildren)
  {
    ghost var ws := childWeightBuf[..numChildren];
    relativeChildrenWeightSum := 0.0;
    usedChildrenWeightSum := 0.0;
    for i := 0 to numChildren
      invariant relativeChildrenWeightSum == RelativeSum(ws, minWeight, i)
      invariant usedChildrenWeightSum == UsedSum(ws, minWeight, i)
    {
      var childWeight := childWeightBuf[i];
      assert childWeight == ws[i];
      if childWeight < minWeight {
        continue;
      }
      relativeChildrenWeightSum := relativeChildrenWeightSum + childWeight * childWeight;
      usedChildrenWeightSum := usedChildrenWeightSum + childWeight;
    }
  }

  /** The third loop of the helper: each used child is traversed with its
      share, and what the children return is summed. */
  method RecurseIntoChildren(ev: Evaluator, minWeight: real, node: Node, childWeightBuf: array<real>, numChildren: int,
                             relativeChildrenWeightSum: real, desiredWeightFromChildren: real, acc: seq<Visit>)
    returns (actual: real, accOut: seq<Visit>)
    requires TraverseReady(ev, node) && numChildren == NumChildren(node) && numChildren <= childWeightBuf.Length
    requires childWeightBuf[..numChildren] == ChildWeights(node)
    ensures var c := ChildrenPart(ev, minWeight, node, ChildWeights(node), relativeChildrenWeightSum,
                                  desiredWeightFromChildren, NumChildren(node));
      actual == c.0 && accOut == acc + c.1
    decreases node, 0
  {
    ghost var ws := ChildWeights(node);
    var children := node.children;
    actual := 0.0;
    accOut := acc;
    for i := 0 to numChildren
      invariant var c := ChildrenPart(ev, minWeight, node, ws, relativeChildrenWeightSum, desiredWeightFromChildren, i);
        actual == c.0 && accOut == acc + c.1
    {
      var childWeight := childWeightBuf[i];
      assert childWeight == ws[i];
      if childWeight < minWeight {
        continue;
      }
      var child := children[i].node;
      assert child == Child(node, i);
      ChildIsSmaller(node, i);
      var desiredWeightFromChild := Share(childWeight, relativeChildrenWeightSum, desiredWeightFromChildren);
      var taken, acc2 := TraverseFromNode(ev, minWeight, desiredWeightFromChild, child, accOut);
      actual := actual + taken;
      accOut := acc2;
    }
  }

  /** A double as the source's arithmetic produces it, where a division by
      zero gives an infinity or NaN instead of failing. */
  datatype Double = Finite(v: real) | Infinite(positive: bool) | NaN

  function Divide(a: real, b: real): (r: Double)
    ensures b != 0.0 <==> r.Finite?
    ensures r.NaN? <==> a == 0.0 && b == 0.0
  {
    if b != 0.0 then Finite(a / b) else if a == 0.0 then NaN else Infinite(a > 0.0)
  }

  function MultiplyBy(x: Double, b: real): (r: Double)
    ensures x.NaN? ==> r.NaN?
    ensures x.Finite? ==> r == Finite(x.v * b)
  {
    if x.Finite? then Finite(x.v * b)
    else if x.NaN? || b == 0.0 then NaN
    else Infinite(x.positive == (b > 0.0))
  }

  /** desiredWeightFromChild as the helper computes it: the squared weight
      divided by relativeChildrenWeightSum, times desiredWeightFromChildren,
      with no guard for a zero sum. */
  function ShareAsWritten(childWeight: real, relSum: real, fromChildren: real): (r: Double)
    ensures relSum != 0.0 ==> r == Finite(Share(childWeight, relSum, fromChildren))
    ensures relSum == 0.0 && childWeight == 0.0 ==> r.NaN?
  {
    MultiplyBy(Divide(childWeight * childWeight, relSum), fromChildren)
  }

  /** IEEE addition: NaN absorbs everything, infinities of opposite sign give NaN. */
  function Add(x: Double, y: Double): (r: Double)
    ensures x.NaN? || y.NaN? ==> r.NaN?
    ensures x.Finite? && y.Finite? ==> r == Finite(x.v + y.v)
    ensures x.Finite? && y.Infinite? ==> r == y
  {
    if x.NaN? || y.NaN? then NaN
    else if x.Finite? && y.Finite? then Finite(x.v + y.v)
    else if x.Finite? then y
    else if y.Finite? then x
    else if x.positive == y.positive then x
    else NaN
  }

  function Negate(x: Double): (r: Double)
    ensures r.NaN? <==> x.NaN?
    ensures x.Finite? ==> r == Finite(-x.v)
  {
    match x
    case Finite(v) => Finite(-v)
    case Infinite(positive) => Infinite(!positive)
    case NaN => NaN
  }

  function Subtract(x: Double, y: Double): (r: Double)
    ensures x.NaN? || y.NaN? ==> r.NaN?
    ensures x.Finite? && y.Finite? ==> r == Finite(x.v - y.v)
  {
    Add(x, Negate(y))
  }

  /** With minWeight 0, a node whose only child weighs 0 uses that child,
      the squared weights sum to 0 and the share computed for the child is
      NaN. The child has an evaluation, so it returns the weight it was asked
      for, NaN; the helper adds that to 0.0 and returns NaN, and the node's
      self weight, the desired weight minus that, is NaN too. The share of the
      model is 0, and the weights passed to accumulate add up to the desired
      weight. */
  lemma ZeroWeightChildGetsNaN(ev: Evaluator, node: Node, child: Node)
    requires TraverseReady(ev, node) && node.nnOutput.Some? && child.nnOutput.Some?
    requires node.children == [Allocated(child)] && child.stats.weightSum == 0.0
    ensures var ws := ChildWeights(node);
      var thisNodeWeight := ev.computeWeightFromNNOutput(node.nnOutput.value);
      var relSum := RelativeSum(ws, 0.0, |ws|);
      var fromChildren := DesiredFromChildren(1.0, UsedSum(ws, 0.0, |ws|), thisNodeWeight);
      ws == [0.0] && relSum == 0.0 && fromChildren == 0.0 &&
      ShareAsWritten(ws[0], relSum, fromChildren).NaN? && Share(ws[0], relSum, fromChildren) == 0.0
    ensures var share := ShareAsWritten(0.0, 0.0, 0.0);
      var actualWeightFromChildren := Add(Finite(0.0), share);
      share.NaN? && actualWeightFromChildren.NaN? && Subtract(Finite(1.0), actualWeightFromChildren).NaN?
    ensures TraverseReady(ev, child) && forall d :: TraverseNode(ev, 0.0, d, child).0 == d
    ensures SelfWeightSum(TraverseNode(ev, 0.0, 1.0, node).1) == 1.0
  {
    assert NumChildren(node) == 1;
    var ws := ChildWeights(node);
    assert ws == [0.0];
    assert RelativeSum(ws, 0.0, 1) == RelativeSum(ws, 0.0, 0) + 0.0 * 0.0;
    assert UsedSum(ws, 0.0, 1) == UsedSum(ws, 0.0, 0) + 0.0;
    assert Child(node, 0) == child;
    RootWeightIsOne(ev, 0.0, node);
  }
}
