/** The search tree as the result functions read it: an immutable snapshot of
    nodes, each with its statistics, its net evaluation (if it has one) and its
    child slots. Slots are filled from the front, so the children of a node
    are the slots before the first empty one. */
module SearchTree {
  import opened Location
  import opened Wrappers
  import opened NNOutputMerge

  /** The statistics of a node, read once. */
  datatype NodeStats = NodeStats(
    visits: int,
    weightSum: real,
    weightSqSum: real,
    winLossValueAvg: real,
    noResultValueAvg: real,
    scoreMeanAvg: real,
    scoreMeanSqAvg: real,
    leadAvg: real,
    utilityAvg: real,
    utilitySqAvg: real)

  datatype Node = Node(
    prevMoveLoc: Loc,
    nextPla: Player,
    stats: NodeStats,
    nnOutput: Option<NNOutput>,
    children: seq<ChildSlot>)

  datatype ChildSlot = Unallocated | Allocated(node: Node)

  /** The number of filled slots before the first empty one. */
  function AllocatedCount(slots: seq<ChildSlot>): (n: nat)
    ensures n <= |slots|
    ensures forall i :: 0 <= i < n ==> slots[i].Allocated?
    ensures n < |slots| ==> slots[n].Unallocated?
  {
    if |slots| == 0 || slots[0].Unallocated? then 0 else 1 + AllocatedCount(slots[1..])
  }

  function NumChildren(node: Node): nat {
    AllocatedCount(node.children)
  }

  /** The i-th child of a node. */
  function Child(node: Node, i: int): Node
    requires 0 <= i < NumChildren(node)
  {
    node.children[i].node
  }

  lemma ChildIsSmaller(node: Node, i: int)
    requires 0 <= i < NumChildren(node)
    ensures Child(node, i) < node
  {
    assert node.children[i] in node.children;
  }

  /** The search parameters the result functions read. */
  datatype SearchParams = SearchParams(
    useLcbForSelection: bool,
    useNonBuggyLcb: bool,
    minVisitPropForLCB: real,
    chosenMoveSubtract: real,
    chosenMovePrune: real,
    winLossUtilityFactor: real,
    staticScoreUtilityFactor: real,
    dynamicScoreUtilityFactor: real,
    rootSymmetryPruning: bool)

  /** The helpers whose code lies outside the result functions, as functions
      the model is given:
      - reducedPlaySelectionWeight(node, child, bestChild, totalChildWeight):
        the retrospective weight of a root child; it folds in the first play
        urgency value and the explore value of the most weighted child;
      - endingWhiteScoreBonus(parent, child) and
        scoreUtilityDiff(scoreMean, scoreMeanSq, bonus): the score utility;
      - lcbRadius(utilityVariance, ess, essInt): the confidence radius
        sqrt(utilityVariance / ess) times the t-table factor for essInt;
      - computeWeightFromNNOutput: the weight of a node's own evaluation;
      - shouldSuppressPass(node): whether passing is held back at that node
        (dame filling under territory scoring). */
  datatype Evaluator = Evaluator(
    reducedPlaySelectionWeight: (Node, Node, Node, real) -> real,
    endingWhiteScoreBonus: (Node, Node) -> real,
    scoreUtilityDiff: (real, real, real) -> real,
    lcbRadius: (real, real, int) -> real,
    computeWeightFromNNOutput: NNOutput -> real,
    shouldSuppressPass: Node -> bool)

  /** What the result functions rely on of those helpers: radii are never
      negative and an evaluation always carries positive weight. */
  ghost predicate ValidEvaluator(ev: Evaluator) {
    (forall v, e, k :: ev.lcbRadius(v, e, k) >= 0.0) &&
    (forall o :: ev.computeWeightFromNNOutput(o) > 0.0)
  }

  /** getChildForMove: the first child reached by the move, scanning the filled
      slots in order; nothing for a missing node or when no child matches. */
  method GetChildForMove(node: Option<Node>, moveLoc: Loc) returns (r: Option<Node>)
    ensures node.None? ==> r.None?
    ensures r.Some? ==>
      node.Some? &&
      (exists i :: 0 <= i < NumChildren(node.value) && r.value == Child(node.value, i) &&
        r.value.prevMoveLoc == moveLoc &&
        forall j :: 0 <= j < i ==> Child(node.value, j).prevMoveLoc != moveLoc)
    ensures node.Some? && r.None? ==>
      forall i :: 0 <= i < NumChildren(node.value) ==> Child(node.value, i).prevMoveLoc != moveLoc
  {
    if node.None? {
      return None;
    }
    var children := node.value.children;
    var i := 0;
    while i < |children|
      invariant 0 <= i <= NumChildren(node.value)
      invariant forall j :: 0 <= j < i ==> Child(node.value, j).prevMoveLoc != moveLoc
    {
      if children[i].Unallocated? {
        break;
      }
      var child := children[i].node;
      if moveLoc == child.prevMoveLoc {
        assert Child(node.value, i) == child;
        return Some(child);
      }
      i := i + 1;
    }
    return None;
  }

  /** The values reported for a node: its averages, weight and visits. */
  datatype ReportedValues = ReportedValues(
    winLossValue: real,
    noResultValue: real,
    expectedScore: real,
    expectedScoreSq: real,
    lead: real,
    utility: real,
    weight: real,
    visits: int)

  /** getNodeValues: fails on a missing node or one without positive weight.
      The source asserts that the visits are not negative and that the root,
      once it has weight, has an evaluation. */
  function GetNodeValues(node: Option<Node>, isRoot: bool): (r: Option<ReportedValues>)
    requires node.Some? && node.value.stats.weightSum > 0.0 ==> node.value.stats.visits >= 0
    requires node.Some? && node.value.stats.weightSum > 0.0 && isRoot ==> node.value.nnOutput.Some?
    ensures r.Some? <==> node.Some? && node.value.stats.weightSum > 0.0
    ensures r.Some? ==> r.value.weight > 0.0 && r.value.visits >= 0
  {
    if node.None? then None
    else
      var s := node.value.stats;
      if s.weightSum <= 0.0 then None
      else Some(ReportedValues(s.winLossValueAvg, s.noResultValueAvg, s.scoreMeanAvg, s.scoreMeanSqAvg,
                               s.leadAvg, s.utilityAvg, s.weightSum, s.visits))
  }

  /** The reported values are the node's own averages. */
  lemma NodeValuesAreAverages(node: Node, isRoot: bool)
    requires node.stats.weightSum > 0.0 && node.stats.visits >= 0 && (isRoot ==> node.nnOutput.Some?)
    ensures var r := GetNodeValues(Some(node), isRoot);
      r.Some? && r.value.winLossValue == node.stats.winLossValueAvg &&
      r.value.noResultValue == node.stats.noResultValueAvg &&
      r.value.expectedScore == node.stats.scoreMeanAvg && r.value.expectedScoreSq == node.stats.scoreMeanSqAvg &&
      r.value.lead == node.stats.leadAvg && r.value.utility == node.stats.utilityAvg &&
      r.value.weight == node.stats.weightSum && r.value.visits == node.stats.visits
  {
  }
}
