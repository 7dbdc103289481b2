/** The NNOutput merge constructor: several evaluations of the same position
    (for instance under different symmetries) averaged into one. */
module NNOutputMerge {
  import opened Wrappers

  /** One evaluation of the neural net. The owner map has an entry per cell of
      the nnXLen x nnYLen grid; an illegal move has a negative policy entry. */
  datatype NNOutput = NNOutput(
    nnHash: int,
    whiteWinProb: real,
    whiteLossProb: real,
    whiteNoResultProb: real,
    whiteScoreMean: real,
    whiteScoreMeanSq: real,
    whiteLead: real,
    varTimeLeft: real,
    shorttermWinlossError: real,
    shorttermScoreError: real,
    nnXLen: int,
    nnYLen: int,
    whiteOwnerMap: Option<seq<real>>,
    noisedPolicyProbs: Option<seq<real>>,
    policyProbs: seq<real>,
    policyOptimismUsed: real)

  /** The nine scalar statistics, which the merge averages. */
  datatype Stat =
    | WinProb | LossProb | NoResultProb | ScoreMean | ScoreMeanSq | Lead
    | VarTimeLeft | ShorttermWinlossError | ShorttermScoreError

  function StatOf(o: NNOutput, k: Stat): real {
    match k
    case WinProb => o.whiteWinProb
    case LossProb => o.whiteLossProb
    case NoResultProb => o.whiteNoResultProb
    case ScoreMean => o.whiteScoreMean
    case ScoreMeanSq => o.whiteScoreMeanSq
    case Lead => o.whiteLead
    case VarTimeLeft => o.varTimeLeft
    case ShorttermWinlossError => o.shorttermWinlossError
    case ShorttermScoreError => o.shorttermScoreError
  }

  function OwnerArea(o: NNOutput): int {
    o.nnXLen * o.nnYLen
  }

  function PolicySize(others: seq<NNOutput>): nat
    requires |others| > 0
  {
    |others[0].policyProbs|
  }

  /** What the merge asserts or reads: at least one and fewer than a million
      inputs, one hash, policy vectors of one size, and owner maps covering the
      first input's grid. */
  predicate Mergeable(others: seq<NNOutput>) {
    0 < |others| < 1000000 &&
    others[0].nnXLen >= 0 && others[0].nnYLen >= 0 &&
    forall i :: 0 <= i < |others| ==>
      others[i].nnHash == others[0].nnHash &&
      |others[i].policyProbs| == |others[0].policyProbs| &&
      (others[i].whiteOwnerMap.Some? ==> |others[i].whiteOwnerMap.value| >= OwnerArea(others[0]))
  }

  // ---- Scalars ----

  function StatSum(others: seq<NNOutput>, k: Stat, n: nat): real
    requires n <= |others|
  {
    if n == 0 then 0.0 else StatSum(others, k, n - 1) + StatOf(others[n - 1], k)
  }

  function StatMean(others: seq<NNOutput>, k: Stat): real
    requires |others| > 0
  {
    StatSum(others, k, |others|) / (|others| as real)
  }

  // ---- Policy ----

  /** The running sum of entry pos over the first n inputs. */
  function PolicySum(others: seq<NNOutput>, pos: int, n: nat): real
    requires Mergeable(others) && 0 <= pos < PolicySize(others) && n <= |others|
  {
    if n == 0 then 0.0 else PolicySum(others, pos, n - 1) + others[n - 1].policyProbs[pos]
  }

  /** Input i's entry pos has the other sign than the running sum before it. */
  predicate SignFlip(others: seq<NNOutput>, i: nat, pos: int)
    requires Mergeable(others) && 0 <= pos < PolicySize(others) && i < |others|
  {
    (PolicySum(others, pos, i) < 0.0) != (others[i].policyProbs[pos] < 0.0)
  }

  /** Some sign flip among the first m entries of input i. */
  predicate RowMismatch(others: seq<NNOutput>, i: nat, m: nat)
    requires Mergeable(others) && m <= PolicySize(others) && i < |others|
  {
    m > 0 && (RowMismatch(others, i, m - 1) || SignFlip(others, i, m - 1))
  }

  /** The mismatch flag after the first n inputs: a sign flip in an input other than the first. */
  predicate Mismatch(others: seq<NNOutput>, n: nat)
    requires Mergeable(others) && n <= |others|
  {
    n > 1 && (Mismatch(others, n - 1) || RowMismatch(others, n - 1, PolicySize(others)))
  }

  function PolicyMeans(others: seq<NNOutput>, m: nat): (r: seq<real>)
    requires Mergeable(others) && m <= PolicySize(others)
    ensures |r| == m
    ensures forall p :: 0 <= p < m ==> r[p] == PolicySum(others, p, |others|) / (|others| as real)
  {
    if m == 0 then [] else PolicyMeans(others, m - 1) + [PolicySum(others, m - 1, |others|) / (|others| as real)]
  }

  /** The merged policy: the first input's on a mismatch, the entrywise mean otherwise. */
  function MergedPolicy(others: seq<NNOutput>): seq<real>
    requires Mergeable(others)
  {
    if Mismatch(others, |others|) then others[0].policyProbs else PolicyMeans(others, PolicySize(others))
  }

  // ---- Ownership ----

  /** The number of the first n inputs that carry an owner map. */
  function OwnerCount(others: seq<NNOutput>, n: nat): nat
    requires n <= |others|
  {
    if n == 0 then 0 else OwnerCount(others, n - 1) + (if others[n - 1].whiteOwnerMap.Some? then 1 else 0)
  }

  /** The sum of entry pos over those of the first n inputs that carry an owner map. */
  function OwnerSum(others: seq<NNOutput>, pos: int, n: nat): real
    requires Mergeable(others) && 0 <= pos < OwnerArea(others[0]) && n <= |others|
  {
    if n == 0 then 0.0
    else OwnerSum(others, pos, n - 1) + (if others[n - 1].whiteOwnerMap.Some? then others[n - 1].whiteOwnerMap.value[pos] else 0.0)
  }

  function OwnerMeans(others: seq<NNOutput>, m: nat): (r: seq<real>)
    requires Mergeable(others) && m <= OwnerArea(others[0]) && OwnerCount(others, |others|) > 0
    ensures |r| == m
    ensures forall p :: 0 <= p < m ==> r[p] == OwnerSum(others, p, |others|) / (OwnerCount(others, |others|) as real)
  {
    if m == 0 then []
    else OwnerMeans(others, m - 1) + [OwnerSum(others, m - 1, |others|) / (OwnerCount(others, |others|) as real)]
  }

  /** The merged owner map: absent when no input has one, else the mean over the inputs that have one. */
  function MergedOwnerMap(others: seq<NNOutput>): Option<seq<real>>
    requires Mergeable(others)
  {
    if OwnerCount(others, |others|) == 0 then None else Some(OwnerMeans(others, OwnerArea(others[0])))
  }

  // ---- Policy optimism ----

  predicate AllOptimismsMatch(others: seq<NNOutput>)
    requires |others| > 0
  {
    forall i :: 0 <= i < |others| ==> others[i].policyOptimismUsed == others[0].policyOptimismUsed
  }

  /** The sum of optimism / len over the first n inputs. */
  function OptimismShares(others: seq<NNOutput>, n: nat): real
    requires 0 < |others| && n <= |others|
  {
    if n == 0 then 0.0 else OptimismShares(others, n - 1) + others[n - 1].policyOptimismUsed / (|others| as real)
  }

  function MergedOptimism(others: seq<NNOutput>): real
    requires |others| > 0
  {
    if AllOptimismsMatch(others) then others[0].policyOptimismUsed else OptimismShares(others, |others|)
  }

  // ---- The merged output ----

  /** The merged output keeps the inputs' hash and grid and their policy
      size, and carries no noised policy. */
  function Merged(others: seq<NNOutput>): (r: NNOutput)
    requires Mergeable(others)
    ensures r.nnHash == others[0].nnHash && r.nnXLen == others[0].nnXLen && r.nnYLen == others[0].nnYLen
    ensures |r.policyProbs| == PolicySize(others) && r.noisedPolicyProbs.None?
  {
    NNOutput(
      others[0].nnHash,
      StatMean(others, WinProb), StatMean(others, LossProb), StatMean(others, NoResultProb),
      StatMean(others, ScoreMean), StatMean(others, ScoreMeanSq), StatMean(others, Lead),
      StatMean(others, VarTimeLeft), StatMean(others, ShorttermWinlossError), StatMean(others, ShorttermScoreError),
      others[0].nnXLen, others[0].nnYLen,
      MergedOwnerMap(others),
      None,
      MergedPolicy(others),
      MergedOptimism(others))
  }

  /** The averaging of the nine scalars, in one pass. */
  method AverageStats(others: seq<NNOutput>)
    returns (winProb: real, lossProb: real, noResultProb: real, scoreMean: real, scoreMeanSq: real,
             lead: real, varTimeLeft: real, winlossError: real, scoreError: real)
    requires 0 < |others|
    ensures winProb == StatMean(others, WinProb) && lossProb == StatMean(others, LossProb)
    ensures noResultProb == StatMean(others, NoResultProb) && scoreMean == StatMean(others, ScoreMean)
    ensures scoreMeanSq == StatMean(others, ScoreMeanSq) && lead == StatMean(others, Lead)
    ensures varTimeLeft == StatMean(others, VarTimeLeft)
    ensures winlossError == StatMean(others, ShorttermWinlossError) && scoreError == StatMean(others, ShorttermScoreError)
  {
    var len := |others|;
    winProb, lossProb, noResultProb, scoreMean, scoreMeanSq := 0.0, 0.0, 0.0, 0.0, 0.0;
    lead, varTimeLeft, winlossError, scoreError := 0.0, 0.0, 0.0, 0.0;
    var i := 0;
    while i < len
      invariant 0 <= i <= len
      invariant winProb == StatSum(others, WinProb, i) && lossProb == StatSum(others, LossProb, i)
      invariant noResultProb == StatSum(others, NoResultProb, i) && scoreMean == StatSum(others, ScoreMean, i)
      invariant scoreMeanSq == StatSum(others, ScoreMeanSq, i) && lead == StatSum(others, Lead, i)
      invariant varTimeLeft == StatSum(others, VarTimeLeft, i)
      invariant winlossError == StatSum(others, ShorttermWinlossError, i) && scoreError == StatSum(others, ShorttermScoreError, i)
    {
      var other := others[i];
      winProb := winProb + other.whiteWinProb;
      lossProb := lossProb + other.whiteLossProb;
      noResultProb := noResultProb + other.whiteNoResultProb;
      scoreMean := scoreMean + other.whiteScoreMean;
      scoreMeanSq := scoreMeanSq + other.whiteScoreMeanSq;
      lead := lead + other.whiteLead;
      varTimeLeft := varTimeLeft + other.varTimeLeft;
      winlossError := winlossError + other.shorttermWinlossError;
      scoreError := scoreError + other.shorttermScoreError;
      i := i + 1;
    }
    var floatLen := len as real;
    winProb, lossProb, noResultProb := winProb / floatLen, lossProb / floatLen, noResultProb / floatLen;
    scoreMean, scoreMeanSq, lead := scoreMean / floatLen, scoreMeanSq / floatLen, lead / floatLen;
    varTimeLeft, winlossError, scoreError := varTimeLeft / floatLen, winlossError / floatLen, scoreError / floatLen;
  }

  lemma {:induction false} OwnerSumOfNone(others: seq<NNOutput>, pos: int, n: nat)
    requires Mergeable(others) && 0 <= pos < OwnerArea(others[0]) && n <= |others|
    requires OwnerCount(others, n) == 0
    ensures OwnerSum(others, pos, n) == 0.0
  {
    if n > 0 {
      OwnerSumOfNone(others, pos, n - 1);
    }
  }

  /** The owner-map block: allocated at the first input that has a map, summed, then divided by the count. */
  method MergeOwnerMaps(others: seq<NNOutput>) returns (whiteOwnerMap: Option<seq<real>>)
    requires Mergeable(others)
    ensures whiteOwnerMap == MergedOwnerMap(others)
  {
    var len := |others|;
    var area := others[0].nnXLen * others[0].nnYLen;
    assert area >= 0;
    var count := 0.0;
    var buf: array<real> := new real[0];
    var haveMap := false;
    var i := 0;
    while i < len
      invariant 0 <= i <= len
      invariant fresh(buf)
      invariant haveMap <==> OwnerCount(others, i) > 0
      invariant count == OwnerCount(others, i) as real
      invariant haveMap ==> buf.Length == area && forall p :: 0 <= p < area ==> buf[p] == OwnerSum(others, p, i)
    {
      var other := others[i];
      if other.whiteOwnerMap.Some? {
        if !haveMap {
          buf := new real[area](_ => 0.0);
          haveMap := true;
          forall p | 0 <= p < area ensures OwnerSum(others, p, i) == 0.0 {
            OwnerSumOfNone(others, p, i);
          }
        }
        count := count + 1.0;
        var pos := 0;
        while pos < area
          invariant 0 <= pos <= area && buf.Length == area
          invariant forall p :: 0 <= p < pos ==> buf[p] == OwnerSum(others, p, i + 1)
          invariant forall p :: pos <= p < area ==> buf[p] == OwnerSum(others, p, i)
        {
          buf[pos] := buf[pos] + other.whiteOwnerMap.value[pos];
          pos := pos + 1;
        }
      }
      i := i + 1;
    }
    if haveMap {
      var pos := 0;
      while pos < area
        invariant 0 <= pos <= area && buf.Length == area
        invariant forall p :: 0 <= p < pos ==> buf[p] == OwnerSum(others, p, len) / count
        invariant forall p :: pos <= p < area ==> buf[p] == OwnerSum(others, p, len)
      {
        buf[pos] := buf[pos] / count;
        pos := pos + 1;
      }
      whiteOwnerMap := Some(buf[..]);
      assert buf[..] == OwnerMeans(others, area);
    } else {
      whiteOwnerMap := None;
    }
  }

  /** The policy block: sum every input while watching for sign flips, then keep the first input or divide. */
  method MergePolicies(others: seq<NNOutput>) returns (policyProbs: seq<real>)
    requires Mergeable(others)
    ensures policyProbs == MergedPolicy(others)
  {
    var len := |others|;
    var size := |others[0].policyProbs|;
    var buf := new real[size](_ => 0.0);
    var mismatch := false;
    var i := 0;
    while i < len
      invariant 0 <= i <= len
      invariant forall p :: 0 <= p < size ==> buf[p] == PolicySum(others, p, i)
      invariant mismatch == Mismatch(others, i)
    {
      var other := others[i];
      var pos := 0;
      while pos < size
        invariant 0 <= pos <= size
        invariant forall p :: 0 <= p < pos ==> buf[p] == PolicySum(others, p, i + 1)
        invariant forall p :: pos <= p < size ==> buf[p] == PolicySum(others, p, i)
        invariant mismatch == (Mismatch(others, i) || (i > 0 && RowMismatch(others, i, pos)))
      {
        if i > 0 && (buf[pos] < 0.0) != (other.policyProbs[pos] < 0.0) {
          mismatch := true;
        }
        buf[pos] := buf[pos] + other.policyProbs[pos];
        pos := pos + 1;
      }
      i := i + 1;
    }
    if mismatch {
      policyProbs := others[0].policyProbs;
    } else {
      var floatLen := len as real;
      var pos := 0;
      while pos < size
        invariant 0 <= pos <= size
        invariant forall p :: 0 <= p < pos ==> buf[p] == PolicySum(others, p, len) / floatLen
        invariant forall p :: pos <= p < size ==> buf[p] == PolicySum(others, p, len)
      {
        buf[pos] := buf[pos] / floatLen;
        pos := pos + 1;
      }
      policyProbs := buf[..];
      assert policyProbs == PolicyMeans(others, size);
    }
  }

  /** The optimism block: the common value when all inputs agree, else the sum of the shares. */
  method MergeOptimism(others: seq<NNOutput>) returns (policyOptimismUsed: real)
    requires 0 < |others|
    ensures policyOptimismUsed == MergedOptimism(others)
  {
    var len := |others|;
    var allOptimismsMatch := true;
    var i := 1;
    while i < len
      invariant 1 <= i <= len
      invariant forall j :: 0 <= j < i ==> others[j].policyOptimismUsed == others[0].policyOptimismUsed
    {
      if others[i].policyOptimismUsed != others[0].policyOptimismUsed {
        allOptimismsMatch := false;
        assert !AllOptimismsMatch(others);
        break;
      }
      i := i + 1;
    }
    if allOptimismsMatch {
      policyOptimismUsed := others[0].policyOptimismUsed;
    } else {
      policyOptimismUsed := 0.0;
      var k := 0;
      while k < len
        invariant 0 <= k <= len
        invariant policyOptimismUsed == OptimismShares(others, k)
      {
        policyOptimismUsed := policyOptimismUsed + others[k].policyOptimismUsed / (len as real);
        k := k + 1;
      }
    }
  }

  /** The merge constructor. */
  method MergeOutputs(others: seq<NNOutput>) returns (r: NNOutput)
    requires Mergeable(others)
    ensures r == Merged(others)
  {
    var winProb, lossProb, noResultProb, scoreMean, scoreMeanSq, lead, varTimeLeft, winlossError, scoreError :=
      AverageStats(others);
    var whiteOwnerMap := MergeOwnerMaps(others);
    var policyProbs := MergePolicies(others);
    var policyOptimismUsed := MergeOptimism(others);
    r := NNOutput(
      others[0].nnHash,
      winProb, lossProb, noResultProb, scoreMean, scoreMeanSq, lead, varTimeLeft, winlossError, scoreError,
      others[0].nnXLen, others[0].nnYLen,
      whiteOwnerMap, None, policyProbs, policyOptimismUsed);
  }

  // ---- Properties ----

  /** Input i and the first input disagree on whether move pos is illegal. */
  predicate Disagrees(others: seq<NNOutput>, i: int, pos: int)
    requires Mergeable(others) && 0 <= pos < PolicySize(others) && 0 <= i < |others|
  {
    (others[i].policyProbs[pos] < 0.0) != (others[0].policyProbs[pos] < 0.0)
  }

  /** When the first n inputs agree on the sign of entry pos, so does their sum. */
  lemma {:induction false} SumKeepsSign(others: seq<NNOutput>, pos: int, n: nat)
    requires Mergeable(others) && 0 <= pos < PolicySize(others) && 0 < n <= |others|
    requires forall j :: 0 <= j < n ==> !Disagrees(others, j, pos)
    ensures (PolicySum(others, pos, n) < 0.0) == (others[0].policyProbs[pos] < 0.0)
  {
    if n > 1 {
      SumKeepsSign(others, pos, n - 1);
      assert !Disagrees(others, n - 1, pos);
    }
  }

  lemma {:induction false} RowMismatchIff(others: seq<NNOutput>, i: nat, m: nat)
    requires Mergeable(others) && m <= PolicySize(others) && 0 < i < |others|
    requires forall j, pos :: 0 <= j < i && 0 <= pos < PolicySize(others) ==> !Disagrees(others, j, pos)
    ensures RowMismatch(others, i, m) <==> exists pos :: 0 <= pos < m && Disagrees(others, i, pos)
  {
    if m > 0 {
      RowMismatchIff(others, i, m - 1);
      SumKeepsSign(others, m - 1, i);
      assert SignFlip(others, i, m - 1) == Disagrees(others, i, m - 1);
    }
  }

  /** The mismatch flag after n inputs is set exactly when one of them disagrees with the first on some entry. */
  lemma {:induction false} MismatchIffPrefix(others: seq<NNOutput>, n: nat)
    requires Mergeable(others) && 0 < n <= |others|
    ensures Mismatch(others, n) <==>
      exists i, pos :: 0 <= i < n && 0 <= pos < PolicySize(others) && Disagrees(others, i, pos)
  {
    if n > 1 {
      MismatchIffPrefix(others, n - 1);
      if !Mismatch(others, n - 1) {
        RowMismatchIff(others, n - 1, PolicySize(others));
      }
    }
  }

  /** The mismatch rule of the source compares each entry with the running sum;
      it fires exactly when some input disagrees with the first on the
      legality of some move. */
  lemma MismatchIffDisagreement(others: seq<NNOutput>)
    requires Mergeable(others)
    ensures Mismatch(others, |others|) <==>
      exists i, pos :: 0 <= i < |others| && 0 <= pos < PolicySize(others) && Disagrees(others, i, pos)
  {
    MismatchIffPrefix(others, |others|);
  }

  /** If any input disagrees on legality the merged policy is the first input's;
      otherwise it is the entrywise mean. Either way it marks illegal exactly
      the moves the first input marks illegal. */
  lemma {:induction false} MergedPolicyLegality(others: seq<NNOutput>)
    requires Mergeable(others)
    ensures var r := MergedPolicy(others);
      |r| == PolicySize(others) &&
      ((exists i, pos :: 0 <= i < |others| && 0 <= pos < PolicySize(others) && Disagrees(others, i, pos)) ==>
        r == others[0].policyProbs) &&
      ((forall i, pos :: 0 <= i < |others| && 0 <= pos < PolicySize(others) ==> !Disagrees(others, i, pos)) ==>
        forall pos :: 0 <= pos < PolicySize(others) ==> r[pos] == PolicySum(others, pos, |others|) / (|others| as real))
    ensures forall pos :: 0 <= pos < PolicySize(others) ==>
      (MergedPolicy(others)[pos] < 0.0 <==> others[0].policyProbs[pos] < 0.0)
  {
    MismatchIffDisagreement(others);
    if !Mismatch(others, |others|) {
      forall pos | 0 <= pos < PolicySize(others)
        ensures MergedPolicy(others)[pos] < 0.0 <==> others[0].policyProbs[pos] < 0.0
      {
        SumKeepsSign(others, pos, |others|);
        var s := PolicySum(others, pos, |others|);
        var l := |others| as real;
        assert s / l < 0.0 <==> s < 0.0;
      }
    }
  }

  /** OwnerCount is 0 exactly when none of the first n inputs carries a map. */
  lemma {:induction false} OwnerCountZero(others: seq<NNOutput>, n: nat)
    requires n <= |others|
    ensures OwnerCount(others, n) == 0 <==> forall i :: 0 <= i < n ==> others[i].whiteOwnerMap.None?
    ensures OwnerCount(others, n) <= n
    ensures OwnerCount(others, n) == n <==> forall i :: 0 <= i < n ==> others[i].whiteOwnerMap.Some?
  {
    if n > 0 {
      OwnerCountZero(others, n - 1);
    }
  }

  /** The merged owner map is absent exactly when no input has one, and when
      every input has one it is the plain mean. */
  lemma {:induction false} MergedOwnerMapCases(others: seq<NNOutput>)
    requires Mergeable(others)
    ensures MergedOwnerMap(others).None? <==> forall i :: 0 <= i < |others| ==> others[i].whiteOwnerMap.None?
    ensures (forall i :: 0 <= i < |others| ==> others[i].whiteOwnerMap.Some?) ==>
      |MergedOwnerMap(others).value| == OwnerArea(others[0]) &&
      forall pos :: 0 <= pos < OwnerArea(others[0]) ==>
        MergedOwnerMap(others).value[pos] == OwnerSum(others, pos, |others|) / (|others| as real)
  {
    OwnerCountZero(others, |others|);
  }

  /** An extra input without an owner map does not change the merged owner map. */
  lemma {:induction false} OwnerMapIgnoresMissing(others: seq<NNOutput>, o: NNOutput)
    requires Mergeable(others) && Mergeable(others + [o]) && o.whiteOwnerMap.None?
    ensures MergedOwnerMap(others + [o]) == MergedOwnerMap(others)
  {
    var more := others + [o];
    OwnerCountPrefix(others, more, |others|);
    assert OwnerCount(more, |more|) == OwnerCount(others, |others|);
    if OwnerCount(others, |others|) > 0 {
      var area := OwnerArea(others[0]);
      forall pos | 0 <= pos < area ensures OwnerSum(more, pos, |more|) == OwnerSum(others, pos, |others|) {
        OwnerSumPrefix(others, more, pos, |others|);
      }
      assert OwnerMeans(more, area) == OwnerMeans(others, area);
    }
  }

  lemma {:induction false} OwnerCountPrefix(others: seq<NNOutput>, more: seq<NNOutput>, n: nat)
    requires n <= |others| <= |more| && others == more[..|others|]
    ensures OwnerCount(more, n) == OwnerCount(others, n)
  {
    if n > 0 {
      OwnerCountPrefix(others, more, n - 1);
      assert more[n - 1] == others[n - 1];
    }
  }

  lemma {:induction false} OwnerSumPrefix(others: seq<NNOutput>, more: seq<NNOutput>, pos: int, n: nat)
    requires Mergeable(others) && Mergeable(more) && n <= |others| <= |more| && others == more[..|others|]
    requires 0 <= pos < OwnerArea(others[0])
    ensures OwnerSum(more, pos, n) == OwnerSum(others, pos, n)
  {
    assert more[0] == others[0];
    if n > 0 {
      OwnerSumPrefix(others, more, pos, n - 1);
      assert more[n - 1] == others[n - 1];
    }
  }

  /** Each share is divided by the same length, so the shares sum to the mean. */
  lemma {:induction false} OptimismSharesSum(others: seq<NNOutput>, n: nat, total: real)
    requires 0 < |others| && n <= |others|
    requires total == OptimismTotal(others, n)
    ensures OptimismShares(others, n) == total / (|others| as real)
  {
    if n > 0 {
      OptimismSharesSum(others, n - 1, OptimismTotal(others, n - 1));
    }
  }

  function OptimismTotal(others: seq<NNOutput>, n: nat): real
    requires n <= |others|
  {
    if n == 0 then 0.0 else OptimismTotal(others, n - 1) + others[n - 1].policyOptimismUsed
  }

  lemma {:induction false} OptimismTotalOfEqual(others: seq<NNOutput>, n: nat)
    requires 0 < |others| && n <= |others| && AllOptimismsMatch(others)
    ensures OptimismTotal(others, n) == (n as real) * others[0].policyOptimismUsed
  {
    if n > 0 {
      OptimismTotalOfEqual(others, n - 1);
      assert others[n - 1].policyOptimismUsed == others[0].policyOptimismUsed;
      assert (n as real) * others[0].policyOptimismUsed
          == ((n - 1) as real) * others[0].policyOptimismUsed + others[0].policyOptimismUsed;
    }
  }

  /** The shortcut for matching optimisms agrees with the mean: over exact
      arithmetic, the merged optimism is always the mean of the inputs'. */
  lemma {:induction false} MergedOptimismIsMean(others: seq<NNOutput>)
    requires 0 < |others|
    ensures MergedOptimism(others) == OptimismTotal(others, |others|) / (|others| as real)
  {
    OptimismSharesSum(others, |others|, OptimismTotal(others, |others|));
    if AllOptimismsMatch(others) {
      OptimismTotalOfEqual(others, |others|);
      var l := |others| as real;
      var p := others[0].policyOptimismUsed;
      assert (l * p) / l == p;
    }
  }

  lemma {:induction false} StatSumBounds(others: seq<NNOutput>, k: Stat, n: nat, lo: real, hi: real)
    requires n <= |others|
    requires forall i :: 0 <= i < |others| ==> lo <= StatOf(others[i], k) <= hi
    ensures (n as real) * lo <= StatSum(others, k, n) <= (n as real) * hi
  {
    if n > 0 {
      StatSumBounds(others, k, n - 1, lo, hi);
      assert (n as real) * lo == ((n - 1) as real) * lo + lo;
      assert (n as real) * hi == ((n - 1) as real) * hi + hi;
    }
  }

  /** A merged statistic lies within the range of the inputs' values; in
      particular merged probabilities stay probabilities. */
  lemma {:induction false} StatMeanBounds(others: seq<NNOutput>, k: Stat, lo: real, hi: real)
    requires 0 < |others|
    requires forall i :: 0 <= i < |others| ==> lo <= StatOf(others[i], k) <= hi
    ensures lo <= StatMean(others, k) <= hi
  {
    StatSumBounds(others, k, |others|, lo, hi);
    DivideBetween(StatSum(others, k, |others|), |others| as real, lo, hi);
  }

  lemma DivideBetween(s: real, l: real, lo: real, hi: real)
    requires l > 0.0 && l * lo <= s <= l * hi
    ensures lo <= s / l <= hi
  {
    var q := s / l;
    assert q * l == s;
    assert (q - lo) * l == s - l * lo;
    assert (hi - q) * l == l * hi - s;
  }

  // ---- Merging copies of one evaluation ----

  /** n copies of o. */
  function Copies(o: NNOutput, n: nat): (r: seq<NNOutput>)
    ensures |r| == n && forall i :: 0 <= i < n ==> r[i] == o
  {
    if n == 0 then [] else Copies(o, n - 1) + [o]
  }

  /** An evaluation whose owner map, if any, exactly covers its grid. */
  predicate WellFormed(o: NNOutput) {
    o.nnXLen >= 0 && o.nnYLen >= 0 &&
    (o.whiteOwnerMap.Some? ==> |o.whiteOwnerMap.value| == OwnerArea(o))
  }

  lemma {:induction false} CopiesStatSum(o: NNOutput, n: nat, m: nat, k: Stat)
    requires m <= n
    ensures StatSum(Copies(o, n), k, m) == (m as real) * StatOf(o, k)
  {
    if m > 0 {
      CopiesStatSum(o, n, m - 1, k);
      assert (m as real) * StatOf(o, k) == ((m - 1) as real) * StatOf(o, k) + StatOf(o, k);
    }
  }

  lemma {:induction false} CopiesPolicySum(o: NNOutput, n: nat, m: nat, pos: int)
    requires 0 < n < 1000000 && WellFormed(o) && Mergeable(Copies(o, n)) && 0 <= pos < |o.policyProbs| && m <= n
    ensures PolicySum(Copies(o, n), pos, m) == (m as real) * o.policyProbs[pos]
  {
    if m > 0 {
      CopiesPolicySum(o, n, m - 1, pos);
      assert (m as real) * o.policyProbs[pos] == ((m - 1) as real) * o.policyProbs[pos] + o.policyProbs[pos];
    }
  }

  lemma {:induction false} CopiesOwner(o: NNOutput, n: nat, m: nat, pos: int)
    requires 0 < n < 1000000 && WellFormed(o) && Mergeable(Copies(o, n)) && o.whiteOwnerMap.Some?
    requires 0 <= pos < OwnerArea(o) && m <= n
    ensures OwnerCount(Copies(o, n), m) == m
    ensures OwnerSum(Copies(o, n), pos, m) == (m as real) * o.whiteOwnerMap.value[pos]
  {
    if m > 0 {
      CopiesOwner(o, n, m - 1, pos);
      var v := o.whiteOwnerMap.value[pos];
      assert (m as real) * v == ((m - 1) as real) * v + v;
    }
  }

  lemma CopiesMergeable(o: NNOutput, n: nat)
    requires 0 < n < 1000000 && WellFormed(o)
    ensures Mergeable(Copies(o, n))
  {
  }

  lemma {:induction false} CopiesPolicy(o: NNOutput, n: nat)
    requires 0 < n < 1000000 && WellFormed(o) && Mergeable(Copies(o, n))
    ensures MergedPolicy(Copies(o, n)) == o.policyProbs
  {
    var cs := Copies(o, n);
    var l := n as real;
    MismatchIffDisagreement(cs);
    assert !Mismatch(cs, n);
    var pm := PolicyMeans(cs, |o.policyProbs|);
    forall pos | 0 <= pos < |o.policyProbs| ensures pm[pos] == o.policyProbs[pos] {
      CopiesPolicySum(o, n, n, pos);
      assert (l * o.policyProbs[pos]) / l == o.policyProbs[pos];
    }
  }

  lemma {:induction false} CopiesOwnerMap(o: NNOutput, n: nat)
    requires 0 < n < 1000000 && WellFormed(o) && Mergeable(Copies(o, n))
    ensures MergedOwnerMap(Copies(o, n)) == o.whiteOwnerMap
  {
    var cs := Copies(o, n);
    var l := n as real;
    if o.whiteOwnerMap.Some? {
      var area := OwnerArea(o);
      if area > 0 {
        CopiesOwner(o, n, n, 0);
      } else {
        OwnerCountZero(cs, n);
      }
      var om := OwnerMeans(cs, area);
      forall pos | 0 <= pos < area ensures om[pos] == o.whiteOwnerMap.value[pos] {
        CopiesOwner(o, n, n, pos);
        assert (l * o.whiteOwnerMap.value[pos]) / l == o.whiteOwnerMap.value[pos];
      }
      assert om == o.whiteOwnerMap.value;
    } else {
      OwnerCountZero(cs, n);
    }
  }

  /** Merging n copies of one evaluation gives that evaluation back, without
      its noised policy. */
  lemma {:induction false} MergeCopies(o: NNOutput, n: nat)
    requires 0 < n < 1000000 && WellFormed(o)
    ensures Mergeable(Copies(o, n))
    ensures Merged(Copies(o, n)) == o.(noisedPolicyProbs := None)
  {
    var cs := Copies(o, n);
    var l := n as real;
    CopiesMergeable(o, n);
    forall k: Stat ensures StatMean(cs, k) == StatOf(o, k) {
      CopiesStatSum(o, n, n, k);
      assert (l * StatOf(o, k)) / l == StatOf(o, k);
    }
    CopiesPolicy(o, n);
    CopiesOwnerMap(o, n);
    assert AllOptimismsMatch(cs);
    assert StatMean(cs, WinProb) == o.whiteWinProb;
  }
}
