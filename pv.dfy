/** appendPVForMove: the principal variation below a node. At each depth the
    play selection values of the current node are computed (scaled to at least
    1, no direct policy moves), the child with the largest value is followed
    (at depth 0 the requested move instead, when it is among the moves), and
    its move and visit count are appended. */
module PrincipalVariation {
  import opened Location
  import opened Wrappers
  import opened SearchTree
  import opened PlaySelection

  /** The starting maximum of the selection scan. */
  const POLICY_ILLEGAL_SELECTION_VALUE: real := -100000000000000000000000000000000000000000000000000.0

  /** The first index of the largest of the first m values, when that is above
      POLICY_ILLEGAL_SELECTION_VALUE; (-1, POLICY_ILLEGAL_SELECTION_VALUE) otherwise. */
  function BestSelection(values: seq<real>, m: nat): (r: (int, real))
    requires m <= |values|
    ensures -1 <= r.0 < m
    ensures r.0 == -1 <==> forall j :: 0 <= j < m ==> values[j] <= POLICY_ILLEGAL_SELECTION_VALUE
    ensures r.0 == -1 ==> r.1 == POLICY_ILLEGAL_SELECTION_VALUE
    ensures r.0 >= 0 ==>
      values[r.0] == r.1 && (forall j :: 0 <= j < m ==> values[j] <= r.1) && (forall j :: 0 <= j < r.0 ==> values[j] < r.1)
  {
    if m == 0 then (-1, POLICY_ILLEGAL_SELECTION_VALUE)
    else
      var prev := BestSelection(values, m - 1);
      if values[m - 1] > prev.1 then (m - 1, values[m - 1]) else prev
  }

  /** The first index holding the move, or -1. */
  function FirstIndexOf(locs: seq<Loc>, move: Loc): (r: int)
    ensures -1 <= r < |locs|
    ensures r >= 0 ==> locs[r] == move && forall j :: 0 <= j < r ==> locs[j] != move
    ensures r == -1 ==> forall j :: 0 <= j < |locs| ==> locs[j] != move
  {
    if |locs| == 0 then -1
    else if locs[0] == move then 0
    else
      var k := FirstIndexOf(locs[1..], move);
      if k < 0 then -1 else k + 1
  }

  /** The index followed: at depth 0 the first occurrence of the requested
      move if there is one, else the best value. */
  function Pick(locs: seq<Loc>, values: seq<real>, atStart: bool, move: Loc): (r: int)
    requires |locs| == |values|
    ensures -1 <= r < |locs|
  {
    if atStart && FirstIndexOf(locs, move) >= 0 then FirstIndexOf(locs, move) else BestSelection(values, |values|).0
  }

  /** The scan over the selection values, leaving early on the requested move at depth 0. */
  method PickChild(locs: seq<Loc>, values: seq<real>, depth: int, move: Loc) returns (bestChildIdx: int, bestChildMoveLoc: Loc)
    requires |locs| == |values|
    ensures bestChildIdx == Pick(locs, values, depth == 0, move)
    ensures bestChildMoveLoc == if bestChildIdx >= 0 then locs[bestChildIdx] else NULL_LOC
  {
    var maxSelectionValue := POLICY_ILLEGAL_SELECTION_VALUE;
    bestChildIdx, bestChildMoveLoc := -1, NULL_LOC;
    var i := 0;
    while i < |values|
      invariant 0 <= i <= |values|
      invariant (bestChildIdx, maxSelectionValue) == BestSelection(values, i)
      invariant bestChildMoveLoc == if bestChildIdx >= 0 then locs[bestChildIdx] else NULL_LOC
      invariant depth == 0 ==> forall j :: 0 <= j < i ==> locs[j] != move
    {
      var moveLoc := locs[i];
      var selectionValue := values[i];
      if depth == 0 && moveLoc == move {
        maxSelectionValue := selectionValue;
        bestChildIdx := i;
        bestChildMoveLoc := moveLoc;
        assert FirstIndexOf(locs, move) == i;
        return;
      }
      if selectionValue > maxSelectionValue {
        maxSelectionValue := selectionValue;
        bestChildIdx := i;
        bestChildMoveLoc := moveLoc;
      }
      i := i + 1;
    }
  }

  /** Without direct policy moves a successful selection is over the children. */
  lemma SelectionOverChildren(params: SearchParams, ev: Evaluator, ctx: RootContext, node: Node, isRoot: bool)
    requires SelectionReady(ctx, node, isRoot, false)
    ensures var sel := PlaySelectionValues(params, ev, ctx, node, isRoot, 1.0, false, false, false);
      sel.ok ==> NumChildren(node) > 0 && sel.locs == ChildLocs(node) && |sel.values| == NumChildren(node)
  {
    SelectionShape(params, ev, ctx, node, isRoot, 1.0, false, false, false);
    SelectionOkProperties(params, ev, ctx, node, isRoot, 1.0, false, false, false);
  }

  /** One step of the walk: the child followed, or nothing when the selection
      fails, nothing is picked, the pick is NULL_LOC, or at the start the pick
      is not the requested move. */
  function PVStep(params: SearchParams, ev: Evaluator, ctx: RootContext, node: Node, isRoot: bool,
                  move: Loc, atStart: bool): (r: Option<Node>)
    requires SelectionReady(ctx, node, isRoot, false)
    ensures r.Some? ==> IsChildOf(node, r.value) && r.value.prevMoveLoc != NULL_LOC
    ensures r.Some? && atStart && move != NULL_LOC ==> r.value.prevMoveLoc == move
  {
    var sel := PlaySelectionValues(params, ev, ctx, node, isRoot, 1.0, false, false, false);
    if !sel.ok then None
    else
      SelectionOverChildren(params, ev, ctx, node, isRoot);
      var idx := Pick(sel.locs, sel.values, atStart, move);
      if idx < 0 || sel.locs[idx] == NULL_LOC then None
      else if atStart && move != NULL_LOC && sel.locs[idx] != move then None
      else Some(Child(node, idx))
  }

  predicate IsChildOf(node: Node, child: Node) {
    exists i :: 0 <= i < NumChildren(node) && Child(node, i) == child
  }

  /** The rule appendPVForMove follows: at the start node (the root when
      startIsRoot holds) and at every node below it, which is never the root. */
  function NextRule(params: SearchParams, ev: Evaluator, ctx: RootContext, startIsRoot: bool, move: Loc): (Node, bool) -> Option<Node> {
    (node: Node, atStart: bool) =>
      if SelectionReady(ctx, node, atStart && startIsRoot, false) then PVStep(params, ev, ctx, node, atStart && startIsRoot, move, atStart)
      else None
  }

  /** A rule that only ever steps to a child whose move is not NULL_LOC. */
  ghost predicate ChildRule(next: (Node, bool) -> Option<Node>) {
    forall node: Node, atStart: bool :: next(node, atStart).Some? ==>
      IsChildOf(node, next(node, atStart).value) && next(node, atStart).value.prevMoveLoc != NULL_LOC
  }

  lemma NextRuleFollowsChildren(params: SearchParams, ev: Evaluator, ctx: RootContext, startIsRoot: bool, move: Loc)
    ensures ChildRule(NextRule(params, ev, ctx, startIsRoot, move))
  {
    var next := NextRule(params, ev, ctx, startIsRoot, move);
    forall node: Node, atStart: bool
      ensures next(node, atStart).Some? ==>
        IsChildOf(node, next(node, atStart).value) && next(node, atStart).value.prevMoveLoc != NULL_LOC
    {
      if SelectionReady(ctx, node, atStart && startIsRoot, false) {
        var step := PVStep(params, ev, ctx, node, atStart && startIsRoot, move, atStart);
        assert next(node, atStart) == step;
      } else {
        assert next(node, atStart).None?;
      }
    }
  }

  /** The moves and visit counts appended from depth on, following the rule. */
  function Walk(next: (Node, bool) -> Option<Node>, node: Node, depth: nat, maxDepth: int): (seq<Loc>, seq<int>)
    decreases maxDepth - depth
  {
    if depth >= maxDepth then ([], [])
    else
      var step := next(node, depth == 0);
      if step.None? then ([], [])
      else
        var child := step.value;
        var rest := Walk(next, child, depth + 1, maxDepth);
        ([child.prevMoveLoc] + rest.0, [child.stats.visits] + rest.1)
  }

  /** The rule agrees with the step wherever the step is defined. */
  ghost predicate FollowsPVStep(next: (Node, bool) -> Option<Node>, params: SearchParams, ev: Evaluator, ctx: RootContext,
                                startIsRoot: bool, move: Loc) {
    forall node: Node, isRoot: bool, atStart: bool ::
      SelectionReady(ctx, node, isRoot, false) && isRoot == (atStart && startIsRoot) ==>
        next(node, atStart) == PVStep(params, ev, ctx, node, isRoot, move, atStart)
  }

  lemma NextRuleFollowsPVStep(params: SearchParams, ev: Evaluator, ctx: RootContext, startIsRoot: bool, move: Loc)
    ensures FollowsPVStep(NextRule(params, ev, ctx, startIsRoot, move), params, ev, ctx, startIsRoot, move)
  {
  }

  /** One level of the walk: nothing when the rule stops, else the child's move
      and visits before the walk from the child. */
  lemma WalkUnfold(next: (Node, bool) -> Option<Node>, node: Node, depth: nat, maxDepth: int)
    requires depth < maxDepth
    ensures next(node, depth == 0).None? ==> Walk(next, node, depth, maxDepth) == ([], [])
    ensures next(node, depth == 0).Some? ==>
      var child := next(node, depth == 0).value;
      Walk(next, node, depth, maxDepth) ==
        ([child.prevMoveLoc] + Walk(next, child, depth + 1, maxDepth).0,
         [child.stats.visits] + Walk(next, child, depth + 1, maxDepth).1)
  {
  }

  function PV(params: SearchParams, ev: Evaluator, ctx: RootContext, node: Node, isRoot: bool, move: Loc, maxDepth: int): (seq<Loc>, seq<int>) {
    Walk(NextRule(params, ev, ctx, isRoot, move), node, 0, maxDepth)
  }

  /** One pass of the depth loop: the child it moves to, or nothing when the
      loop stops there. */
  method StepPV(params: SearchParams, ev: Evaluator, ctx: RootContext, cur: Node, curIsRoot: bool, move: Loc, depth: int,
                ghost next: (Node, bool) -> Option<Node>, ghost startIsRoot: bool)
    returns (child: Option<Node>)
    requires 0 <= depth && SelectionReady(ctx, cur, curIsRoot, false) && curIsRoot == (depth == 0 && startIsRoot)
    requires FollowsPVStep(next, params, ev, ctx, startIsRoot, move)
    ensures child == next(cur, depth == 0)
  {
    var sel := GetPlaySelectionValues(params, ev, ctx, cur, curIsRoot, 1.0, false, false, false);
    // Naming the step lets the rule's agreement with it apply here.
    ghost var step := PVStep(params, ev, ctx, cur, curIsRoot, move, depth == 0);
    if !sel.ok {
      return None;
    }
    SelectionOverChildren(params, ev, ctx, cur, curIsRoot);
    var bestChildIdx, bestChildMoveLoc := PickChild(sel.locs, sel.values, depth, move);
    if bestChildIdx < 0 || bestChildMoveLoc == NULL_LOC {
      return None;
    }
    if depth == 0 && move != NULL_LOC && bestChildMoveLoc != move {
      return None;
    }
    return Some(cur.children[bestChildIdx].node);
  }

  /** The depth loop from a node, following a rule that agrees with the step. */
  method FollowPV(params: SearchParams, ev: Evaluator, ctx: RootContext, start: Node, isRoot: bool,
                  move: Loc, maxDepth: int, buf: seq<Loc>, visitsBuf: seq<int>, ghost next: (Node, bool) -> Option<Node>)
    returns (newBuf: seq<Loc>, newVisitsBuf: seq<int>)
    requires SelectionReady(ctx, start, isRoot, false) && FollowsPVStep(next, params, ev, ctx, isRoot, move)
    ensures newBuf == buf + Walk(next, start, 0, maxDepth).0 && newVisitsBuf == visitsBuf + Walk(next, start, 0, maxDepth).1
  {
    newBuf, newVisitsBuf := buf, visitsBuf;
    ghost var whole := Walk(next, start, 0, maxDepth);
    var cur := start;
    var curIsRoot := isRoot;
    var depth := 0;
    while depth < maxDepth
      invariant 0 <= depth && curIsRoot == (depth == 0 && isRoot) && SelectionReady(ctx, cur, curIsRoot, false)
      invariant newBuf + Walk(next, cur, depth, maxDepth).0 == buf + whole.0
      invariant newVisitsBuf + Walk(next, cur, depth, maxDepth).1 == visitsBuf + whole.1
      decreases maxDepth - depth
    {
      var step := StepPV(params, ev, ctx, cur, curIsRoot, move, depth, next, isRoot);
      WalkUnfold(next, cur, depth, maxDepth);
      if step.None? {
        return;
      }
      cur := step.value;
      curIsRoot := false;
      var visits := cur.stats.visits;
      newBuf := newBuf + [cur.prevMoveLoc];
      newVisitsBuf := newVisitsBuf + [visits];
      depth := depth + 1;
    }
  }

  /** appendPVForMove: a missing node appends nothing; otherwise the buffers
      grow by the principal variation. */
  method AppendPVForMove(params: SearchParams, ev: Evaluator, ctx: RootContext, node: Option<Node>, isRoot: bool,
                         move: Loc, maxDepth: int, buf: seq<Loc>, visitsBuf: seq<int>)
    returns (newBuf: seq<Loc>, newVisitsBuf: seq<int>)
    requires node.Some? ==> SelectionReady(ctx, node.value, isRoot, false)
    ensures node.None? ==> newBuf == buf && newVisitsBuf == visitsBuf
    ensures node.Some? ==>
      newBuf == buf + PV(params, ev, ctx, node.value, isRoot, move, maxDepth).0 &&
      newVisitsBuf == visitsBuf + PV(params, ev, ctx, node.value, isRoot, move, maxDepth).1
  {
    if node.None? {
      return buf, visitsBuf;
    }
    NextRuleFollowsPVStep(params, ev, ctx, isRoot, move);
    newBuf, newVisitsBuf := FollowPV(params, ev, ctx, node.value, isRoot, move, maxDepth, buf, visitsBuf,
                                     NextRule(params, ev, ctx, isRoot, move));
  }

  /** The two buffers grow in lockstep, by at most the remaining depth. */
  lemma {:induction false} WalkLengths(next: (Node, bool) -> Option<Node>, node: Node, depth: nat, maxDepth: int)
    ensures var w := Walk(next, node, depth, maxDepth);
      |w.0| == |w.1| && (depth >= maxDepth ==> |w.0| == 0) && (depth < maxDepth ==> |w.0| <= maxDepth - depth)
    decreases maxDepth - depth
  {
    if depth < maxDepth {
      var step := next(node, depth == 0);
      if step.Some? {
        WalkLengths(next, step.value, depth + 1, maxDepth);
      }
    }
  }

  /** A line of play down the tree: each move is that of a child of the previous
      node, paired with that child's visit count. */
  predicate IsLine(node: Node, locs: seq<Loc>, visits: seq<int>)
    decreases |locs|
  {
    |locs| == |visits| &&
    (|locs| > 0 ==>
      exists i :: 0 <= i < NumChildren(node) && Child(node, i).prevMoveLoc == locs[0] &&
        Child(node, i).stats.visits == visits[0] && IsLine(Child(node, i), locs[1..], visits[1..]))
  }

  /** Following a rule that steps to children gives a line of play through the
      tree that never holds NULL_LOC. */
  lemma {:induction false} WalkIsLine(next: (Node, bool) -> Option<Node>, node: Node, depth: nat, maxDepth: int)
    requires ChildRule(next)
    ensures var w := Walk(next, node, depth, maxDepth);
      IsLine(node, w.0, w.1) && forall k :: 0 <= k < |w.0| ==> w.0[k] != NULL_LOC
    decreases maxDepth - depth
  {
    var w := Walk(next, node, depth, maxDepth);
    WalkLengths(next, node, depth, maxDepth);
    if depth < maxDepth {
      var step := next(node, depth == 0);
      if step.Some? {
        var child := step.value;
        var rest := Walk(next, child, depth + 1, maxDepth);
        assert w == ([child.prevMoveLoc] + rest.0, [child.stats.visits] + rest.1);
        WalkIsLine(next, child, depth + 1, maxDepth);
        assert w.0[1..] == rest.0 && w.1[1..] == rest.1;
        var i :| 0 <= i < NumChildren(node) && Child(node, i) == child;
        assert IsLine(Child(node, i), w.0[1..], w.1[1..]);
        forall k | 0 <= k < |w.0| ensures w.0[k] != NULL_LOC {
          if k > 0 {
            assert w.0[k] == rest.0[k - 1];
          }
        }
      }
    }
  }

  /** The principal variation is a line of play of at most maxDepth moves
      without NULL_LOC, with one visit count per move. */
  lemma {:induction false} PVIsLine(params: SearchParams, ev: Evaluator, ctx: RootContext, node: Node, isRoot: bool,
                                    move: Loc, maxDepth: int)
    ensures var pv := PV(params, ev, ctx, node, isRoot, move, maxDepth);
      IsLine(node, pv.0, pv.1) && |pv.0| == |pv.1| && (maxDepth > 0 ==> |pv.0| <= maxDepth) && (maxDepth <= 0 ==> |pv.0| == 0) &&
      forall k :: 0 <= k < |pv.0| ==> pv.0[k] != NULL_LOC
  {
    NextRuleFollowsChildren(params, ev, ctx, isRoot, move);
    WalkLengths(NextRule(params, ev, ctx, isRoot, move), node, 0, maxDepth);
    WalkIsLine(NextRule(params, ev, ctx, isRoot, move), node, 0, maxDepth);
  }

  /** At the start, for a requested move other than NULL_LOC, the step is
      taken exactly when the selection succeeds and the move is that of a
      child, and then it goes to a child with that move. */
  lemma {:induction false} StartStepFollowsMove(params: SearchParams, ev: Evaluator, ctx: RootContext, node: Node,
                                                isRoot: bool, move: Loc)
    requires SelectionReady(ctx, node, isRoot, false) && move != NULL_LOC
    ensures var step := PVStep(params, ev, ctx, node, isRoot, move, true);
      var sel := PlaySelectionValues(params, ev, ctx, node, isRoot, 1.0, false, false, false);
      (step.Some? <==> sel.ok && exists i :: 0 <= i < NumChildren(node) && Child(node, i).prevMoveLoc == move) &&
      (step.Some? ==> step.value.prevMoveLoc == move)
  {
    var sel := PlaySelectionValues(params, ev, ctx, node, isRoot, 1.0, false, false, false);
    var step := PVStep(params, ev, ctx, node, isRoot, move, true);
    if sel.ok {
      SelectionOverChildren(params, ev, ctx, node, isRoot);
      var first := FirstIndexOf(sel.locs, move);
      if exists i :: 0 <= i < NumChildren(node) && Child(node, i).prevMoveLoc == move {
        var i :| 0 <= i < NumChildren(node) && Child(node, i).prevMoveLoc == move;
        assert sel.locs[i] == move;
        assert Pick(sel.locs, sel.values, true, move) == first;
        assert step == Some(Child(node, first));
      }
    }
  }

  /** For a requested move other than NULL_LOC, the variation is non-empty
      exactly when the selection succeeds and the move is that of a child, and
      then it starts with that move. */
  lemma {:induction false} PVStartsWithRequestedMove(params: SearchParams, ev: Evaluator, ctx: RootContext, node: Node,
                                                     isRoot: bool, move: Loc, maxDepth: int)
    requires SelectionReady(ctx, node, isRoot, false) && move != NULL_LOC && maxDepth > 0
    ensures var pv := PV(params, ev, ctx, node, isRoot, move, maxDepth);
      var sel := PlaySelectionValues(params, ev, ctx, node, isRoot, 1.0, false, false, false);
      (|pv.0| > 0 <==> sel.ok && exists i :: 0 <= i < NumChildren(node) && Child(node, i).prevMoveLoc == move) &&
      (|pv.0| > 0 ==> pv.0[0] == move)
  {
    var step := PVStep(params, ev, ctx, node, isRoot, move, true);
    assert NextRule(params, ev, ctx, isRoot, move)(node, true) == step;
    StartStepFollowsMove(params, ev, ctx, node, isRoot, move);
  }
}
