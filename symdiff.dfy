/** getSymmetryDifference(s): how far a board is from another board once a
    symmetry is applied to it, counted as 1 for a stone against an empty point
    and 3 for a stone against a stone of the other colour, and capped. */
module SymmetryDifference {
  import opened Location
  import opened Symmetry

  /** The two boards can be compared under s. */
  predicate Comparable(b: Board, other: Board, s: Symmetry) {
    ValidBoard(b) && ValidBoard(other) && b.xSize == other.xSize && b.ySize == other.ySize &&
    SymAllowed(b.xSize, b.ySize, s)
  }

  /** The colour of b at (x, y) and the colour of other at the image of (x, y). */
  function ColorPair(b: Board, other: Board, s: Symmetry, x: int, y: int): (Color, Color)
    requires Comparable(b, other, s) && OnBoardXY(x, y, b.xSize, b.ySize)
  {
    SymLocOnSameBoard(x, y, b.xSize, b.ySize, s);
    OnBoardLocBound(x, y, b.xSize, b.ySize);
    (b.colors[GetLoc(x, y, b.xSize)], other.colors[GetSymLocXY(x, y, b.xSize, b.ySize, s)])
  }

  /** The penalty of one cell: 0 if the colours agree, 1 if one side is empty, 3 otherwise. */
  function Penalty(b: Board, other: Board, s: Symmetry, x: int, y: int): (p: real)
    requires Comparable(b, other, s) && OnBoardXY(x, y, b.xSize, b.ySize)
    ensures p == 0.0 <==> ColorPair(b, other, s, x, y).0 == ColorPair(b, other, s, x, y).1
    ensures p == 0.0 || p == 1.0 || p == 3.0
  {
    var (c, d) := ColorPair(b, other, s, x, y);
    if c == d then 0.0
    else if c == Empty || d == Empty then 1.0
    else 3.0
  }

  /** The penalties of the first m cells of row y. */
  function RowDiff(b: Board, other: Board, s: Symmetry, y: int, m: nat): (r: real)
    requires Comparable(b, other, s) && 0 <= y < b.ySize && m <= b.xSize
    ensures r >= 0.0
  {
    if m == 0 then 0.0 else RowDiff(b, other, s, y, m - 1) + Penalty(b, other, s, m - 1, y)
  }

  /** The penalties of the first n rows. */
  function RowsDiff(b: Board, other: Board, s: Symmetry, n: nat): (r: real)
    requires Comparable(b, other, s) && n <= b.ySize
    ensures r >= 0.0
  {
    if n == 0 then 0.0 else RowsDiff(b, other, s, n - 1) + RowDiff(b, other, s, n - 1, b.xSize)
  }

  /** The uncapped sum over the whole board. */
  function RawDifference(b: Board, other: Board, s: Symmetry): real
    requires Comparable(b, other, s)
  {
    RowsDiff(b, other, s, b.ySize)
  }

  /** What getSymmetryDifference returns: the sum, or the cap once some
      difference has pushed the running sum past it. */
  function CappedDifference(b: Board, other: Board, s: Symmetry, maxDifferenceToReport: real): real
    requires Comparable(b, other, s)
  {
    var raw := RawDifference(b, other, s);
    if raw > 0.0 && raw > maxDifferenceToReport then maxDifferenceToReport else raw
  }

  lemma {:induction false} RowDiffMono(b: Board, other: Board, s: Symmetry, y: int, m1: nat, m2: nat)
    requires Comparable(b, other, s) && 0 <= y < b.ySize && m1 <= m2 <= b.xSize
    ensures RowDiff(b, other, s, y, m1) <= RowDiff(b, other, s, y, m2)
    decreases m2
  {
    if m1 < m2 {
      RowDiffMono(b, other, s, y, m1, m2 - 1);
    }
  }

  lemma {:induction false} RowsDiffMono(b: Board, other: Board, s: Symmetry, n1: nat, n2: nat)
    requires Comparable(b, other, s) && n1 <= n2 <= b.ySize
    ensures RowsDiff(b, other, s, n1) <= RowsDiff(b, other, s, n2)
    decreases n2
  {
    if n1 < n2 {
      RowsDiffMono(b, other, s, n1, n2 - 1);
    }
  }

  /** A running sum never exceeds the whole sum. */
  lemma {:induction false} RunningSumBound(b: Board, other: Board, s: Symmetry, y: int, x: int)
    requires Comparable(b, other, s) && 0 <= y < b.ySize && 0 <= x < b.xSize
    ensures RowsDiff(b, other, s, y) + RowDiff(b, other, s, y, x + 1) <= RawDifference(b, other, s)
  {
    RowDiffMono(b, other, s, y, x + 1, b.xSize);
    RowsDiffMono(b, other, s, y + 1, b.ySize);
  }

  /** getSymmetryDifference, with its early return once the cap is passed. */
  method GetSymmetryDifference(b: Board, other: Board, s: Symmetry, maxDifferenceToReport: real) returns (d: real)
    requires Comparable(b, other, s)
    ensures d == CappedDifference(b, other, s, maxDifferenceToReport)
  {
    var thisDifference := 0.0;
    var y := 0;
    while y < b.ySize
      invariant 0 <= y <= b.ySize
      invariant thisDifference == RowsDiff(b, other, s, y)
      invariant thisDifference <= maxDifferenceToReport || thisDifference == 0.0
    {
      var x := 0;
      while x < b.xSize
        invariant 0 <= x <= b.xSize
        invariant thisDifference == RowsDiff(b, other, s, y) + RowDiff(b, other, s, y, x)
        invariant thisDifference <= maxDifferenceToReport || thisDifference == 0.0
      {
        var loc := GetLoc(x, y, b.xSize);
        var symLoc := GetSymLocXY(x, y, b.xSize, b.ySize, s);
        SymLocOnSameBoard(x, y, b.xSize, b.ySize, s);
        OnBoardLocBound(x, y, b.xSize, b.ySize);
        if b.colors[loc] != other.colors[symLoc] {
          if b.colors[loc] == Empty || other.colors[symLoc] == Empty {
            thisDifference := thisDifference + 1.0;
          } else {
            thisDifference := thisDifference + 3.0;
          }
          if thisDifference > maxDifferenceToReport {
            RunningSumBound(b, other, s, y, x);
            return maxDifferenceToReport;
          }
        }
        x := x + 1;
      }
      y := y + 1;
    }
    return thisDifference;
  }

  /** With a non-negative cap, the result lies between 0 and the cap. */
  lemma CappedDifferenceBound(b: Board, other: Board, s: Symmetry, maxDifferenceToReport: real)
    requires Comparable(b, other, s) && maxDifferenceToReport >= 0.0
    ensures 0.0 <= CappedDifference(b, other, s, maxDifferenceToReport) <= maxDifferenceToReport
  {
  }

  /** Every cell of b has the colour of its image in other. */
  predicate MatchesUnder(b: Board, other: Board, s: Symmetry)
    requires Comparable(b, other, s)
  {
    forall x, y :: 0 <= x < b.xSize && 0 <= y < b.ySize ==> ColorPair(b, other, s, x, y).0 == ColorPair(b, other, s, x, y).1
  }

  lemma {:induction false} RowDiffZero(b: Board, other: Board, s: Symmetry, y: int, m: nat)
    requires Comparable(b, other, s) && 0 <= y < b.ySize && m <= b.xSize
    ensures RowDiff(b, other, s, y, m) == 0.0 <==> forall x :: 0 <= x < m ==> Penalty(b, other, s, x, y) == 0.0
    decreases m
  {
    if m > 0 {
      RowDiffZero(b, other, s, y, m - 1);
    }
  }

  lemma {:induction false} RowsDiffZero(b: Board, other: Board, s: Symmetry, n: nat)
    requires Comparable(b, other, s) && n <= b.ySize
    ensures RowsDiff(b, other, s, n) == 0.0 <==>
      forall x, y :: 0 <= x < b.xSize && 0 <= y < n ==> Penalty(b, other, s, x, y) == 0.0
    decreases n
  {
    if n > 0 {
      RowsDiffZero(b, other, s, n - 1);
      RowDiffZero(b, other, s, n - 1, b.xSize);
    }
  }

  /** With a positive cap, the difference is 0 exactly when s maps b onto other stone for stone. */
  lemma {:induction false} ZeroDifferenceIffMatch(b: Board, other: Board, s: Symmetry, maxDifferenceToReport: real)
    requires Comparable(b, other, s) && maxDifferenceToReport > 0.0
    ensures CappedDifference(b, other, s, maxDifferenceToReport) == 0.0 <==> MatchesUnder(b, other, s)
  {
    RowsDiffZero(b, other, s, b.ySize);
    var zero := forall x, y :: 0 <= x < b.xSize && 0 <= y < b.ySize ==> Penalty(b, other, s, x, y) == 0.0;
    assert zero <==> MatchesUnder(b, other, s) by {
      if zero {
        forall x, y | 0 <= x < b.xSize && 0 <= y < b.ySize
          ensures ColorPair(b, other, s, x, y).0 == ColorPair(b, other, s, x, y).1
        {
          assert Penalty(b, other, s, x, y) == 0.0;
        }
      }
      if MatchesUnder(b, other, s) {
        forall x, y | 0 <= x < b.xSize && 0 <= y < b.ySize ensures Penalty(b, other, s, x, y) == 0.0 {
          assert ColorPair(b, other, s, x, y).0 == ColorPair(b, other, s, x, y).1;
        }
      }
    }
    assert RawDifference(b, other, s) == 0.0 <==> zero;
  }

  /** A board compared with itself under the identity differs by 0. */
  lemma {:induction false} SelfDifferenceZero(b: Board, maxDifferenceToReport: real)
    requires ValidBoard(b)
    ensures Comparable(b, b, 0) && CappedDifference(b, b, 0, maxDifferenceToReport) == 0.0
  {
    BitsOf(0);
    RowsDiffZero(b, b, 0, b.ySize);
    forall x, y | 0 <= x < b.xSize && 0 <= y < b.ySize ensures Penalty(b, b, 0, x, y) == 0.0 {
      SymXYIdentity(x, y, b.xSize, b.ySize);
    }
  }

  /** The number of symmetries getSymmetryDifferences computes: no transposes on a board that is not square. */
  function NumSymmetriesFor(b: Board): int {
    if b.xSize != b.ySize then NUM_SYMMETRIES_WITHOUT_TRANSPOSE else NUM_SYMMETRIES
  }

  /** The entry for symmetry s of the array getSymmetryDifferences fills. */
  function DifferenceEntry(b: Board, other: Board, maxDifferenceToReport: real, s: Symmetry): real
    requires ValidBoard(b) && ValidBoard(other)
  {
    if b.xSize != other.xSize || b.ySize != other.ySize || s >= NumSymmetriesFor(b) then maxDifferenceToReport
    else
      BitsOf(s);
      CappedDifference(b, other, s, maxDifferenceToReport)
  }

  /** getSymmetryDifferences: every entry starts at the cap and is overwritten
      only when the boards have the same size and the symmetry is tried. */
  method GetSymmetryDifferences(b: Board, other: Board, maxDifferenceToReport: real, symmetryDifferences: array<real>)
    requires ValidBoard(b) && ValidBoard(other) && symmetryDifferences.Length == NUM_SYMMETRIES
    modifies symmetryDifferences
    ensures forall s: Symmetry :: symmetryDifferences[s] == DifferenceEntry(b, other, maxDifferenceToReport, s)
  {
    var symmetry := 0;
    while symmetry < NUM_SYMMETRIES
      invariant 0 <= symmetry <= NUM_SYMMETRIES
      invariant forall s :: 0 <= s < symmetry ==> symmetryDifferences[s] == maxDifferenceToReport
    {
      symmetryDifferences[symmetry] := maxDifferenceToReport;
      symmetry := symmetry + 1;
    }

    if b.xSize != other.xSize || b.ySize != other.ySize {
      return;
    }

    var numSymmetries := NUM_SYMMETRIES;
    if b.xSize != b.ySize {
      numSymmetries := NUM_SYMMETRIES_WITHOUT_TRANSPOSE;
    }

    symmetry := 0;
    while symmetry < numSymmetries
      invariant 0 <= symmetry <= numSymmetries && numSymmetries == NumSymmetriesFor(b)
      invariant forall s: Symmetry :: s < symmetry ==> symmetryDifferences[s] == DifferenceEntry(b, other, maxDifferenceToReport, s)
      invariant forall s: Symmetry :: s >= symmetry ==> symmetryDifferences[s] == maxDifferenceToReport
    {
      var s: Symmetry := symmetry;
      BitsOf(s);
      var d := GetSymmetryDifference(b, other, s, maxDifferenceToReport);
      symmetryDifferences[symmetry] := d;
      symmetry := symmetry + 1;
    }
  }

  /** Boards of different sizes leave every entry at the cap; a board that is
      not square leaves the four transpose entries at the cap; with a
      non-negative cap every entry is at most the cap; and a board against
      itself has entry 0 for the identity. */
  lemma {:induction false} DifferenceEntries(b: Board, other: Board, maxDifferenceToReport: real, s: Symmetry)
    requires ValidBoard(b) && ValidBoard(other)
    ensures b.xSize != other.xSize || b.ySize != other.ySize ==> DifferenceEntry(b, other, maxDifferenceToReport, s) == maxDifferenceToReport
    ensures b.xSize != b.ySize && IsTranspose(s) ==> DifferenceEntry(b, other, maxDifferenceToReport, s) == maxDifferenceToReport
    ensures maxDifferenceToReport >= 0.0 ==> DifferenceEntry(b, other, maxDifferenceToReport, s) <= maxDifferenceToReport
    ensures DifferenceEntry(b, b, maxDifferenceToReport, 0) == 0.0
  {
    BitsOf(s);
    BitsOf(0);
    SelfDifferenceZero(b, maxDifferenceToReport);
    if b.xSize == other.xSize && b.ySize == other.ySize && s < NumSymmetriesFor(b) && maxDifferenceToReport >= 0.0 {
      CappedDifferenceBound(b, other, s, maxDifferenceToReport);
    }
  }
}
