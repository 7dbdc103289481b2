/** markDuplicateMoveLocs: the symmetries under which the stones of a board
    are unchanged, and the cells that, under one of them, duplicate a cell
    visited earlier and are therefore not worth searching. */
module SymmetryDuplicates {
  import opened Location
  import opened Symmetry
  import opened Wrappers

  // ---- which symmetries leave the board unchanged ----

  /** The cell (x, y) has the colour of its image under s. */
  predicate CellSym(b: Board, x: int, y: int, s: Symmetry)
    requires ValidBoard(b) && OnBoardXY(x, y, b.xSize, b.ySize) && SymAllowed(b.xSize, b.ySize, s)
  {
    SymLocOnSameBoard(x, y, b.xSize, b.ySize, s);
    OnBoardLocBound(x, y, b.xSize, b.ySize);
    b.colors[GetLoc(x, y, b.xSize)] == b.colors[GetSymLocXY(x, y, b.xSize, b.ySize, s)]
  }

  /** Every stone of the board is mapped by s onto a point of the same colour. */
  predicate IsBoardSym(b: Board, s: Symmetry)
    requires ValidBoard(b) && SymAllowed(b.xSize, b.ySize, s)
  {
    forall x, y :: 0 <= x < b.xSize && 0 <= y < b.ySize ==> CellSym(b, x, y, s)
  }

  /** The scan of the board for one symmetry, stopping at the first cell whose
      colour differs from that of its image. */
  method BoardIsSymmetric(b: Board, s: Symmetry) returns (isBoardSym: bool)
    requires ValidBoard(b) && SymAllowed(b.xSize, b.ySize, s)
    ensures isBoardSym == IsBoardSym(b, s)
  {
    isBoardSym := true;
    var y := 0;
    while y < b.ySize
      invariant 0 <= y <= b.ySize
      invariant isBoardSym
      invariant forall y', x' :: 0 <= y' < y && 0 <= x' < b.xSize ==> CellSym(b, x', y', s)
    {
      var x := 0;
      while x < b.xSize
        invariant 0 <= x <= b.xSize
        invariant isBoardSym
        invariant forall x' :: 0 <= x' < x ==> CellSym(b, x', y, s)
      {
        var loc := GetLoc(x, y, b.xSize);
        var symLoc := GetSymLocXY(x, y, b.xSize, b.ySize, s);
        SymLocOnSameBoard(x, y, b.xSize, b.ySize, s);
        OnBoardLocBound(x, y, b.xSize, b.ySize);
        var isStoneSym := b.colors[loc] == b.colors[symLoc];
        var isKoRecapBlockedSym := true;
        if !isStoneSym || !isKoRecapBlockedSym {
          assert !CellSym(b, x, y, s);
          isBoardSym := false;
          break;
        }
        x := x + 1;
      }
      if !isBoardSym {
        break;
      }
      y := y + 1;
    }
  }

  /** The number of symmetries examined: transposes only on a square board. */
  function SymmetrySearchUpperBound(b: Board): int {
    if b.xSize == b.ySize then NUM_SYMMETRIES else NUM_SYMMETRIES_WITHOUT_TRANSPOSE
  }

  /** The symmetries the caller permits: all, or those listed. */
  predicate Permitted(onlySymmetries: Option<seq<int>>, s: int) {
    onlySymmetries.None? || s in onlySymmetries.value
  }

  /** Symmetry s is tried and leaves the board unchanged. */
  predicate Accepted(b: Board, onlySymmetries: Option<seq<int>>, s: Symmetry)
    requires ValidBoard(b)
  {
    SymAllowed(b.xSize, b.ySize, s) && Permitted(onlySymmetries, s) && IsBoardSym(b, s)
  }

  /** The non-identity symmetries below n that are permitted and leave the board unchanged, in increasing order. */
  function CandidatesBelow(b: Board, onlySymmetries: Option<seq<int>>, n: int): seq<Symmetry>
    requires ValidBoard(b) && 1 <= n <= SymmetrySearchUpperBound(b)
    decreases n
  {
    if n == 1 then []
    else
      var s: Symmetry := n - 1;
      BitsOf(s);
      CandidatesBelow(b, onlySymmetries, n - 1) + (if Accepted(b, onlySymmetries, s) then [s] else [])
  }

  /** The list markDuplicateMoveLocs returns in validSymmetries. */
  function ValidSymmetries(b: Board, onlySymmetries: Option<seq<int>>): seq<Symmetry>
    requires ValidBoard(b)
  {
    if b.koLoc != NULL_LOC then [0]
    else [0] + CandidatesBelow(b, onlySymmetries, SymmetrySearchUpperBound(b))
  }

  /** Symmetry 0 leaves every board unchanged. */
  lemma {:induction false} IdentityIsBoardSym(b: Board)
    requires ValidBoard(b)
    ensures SymAllowed(b.xSize, b.ySize, 0) && IsBoardSym(b, 0)
  {
    BitsOf(0);
    forall x, y | OnBoardXY(x, y, b.xSize, b.ySize) ensures CellSym(b, x, y, 0) {
      SymXYIdentity(x, y, b.xSize, b.ySize);
    }
  }

  /** The candidates are strictly increasing and lie in 1 .. n - 1. */
  lemma {:induction false} CandidatesBelowSorted(b: Board, onlySymmetries: Option<seq<int>>, n: int)
    requires ValidBoard(b) && 1 <= n <= SymmetrySearchUpperBound(b)
    ensures var c := CandidatesBelow(b, onlySymmetries, n);
      (forall i :: 0 <= i < |c| ==> 1 <= c[i] < n) && StrictlyIncreasing(c)
    decreases n
  {
    if n > 1 {
      CandidatesBelowSorted(b, onlySymmetries, n - 1);
    }
  }

  /** The candidates are exactly the accepted symmetries in 1 .. n - 1. */
  lemma {:induction false} CandidatesBelowMembers(b: Board, onlySymmetries: Option<seq<int>>, n: int)
    requires ValidBoard(b) && 1 <= n <= SymmetrySearchUpperBound(b)
    ensures forall s: Symmetry :: s in CandidatesBelow(b, onlySymmetries, n) <==> 1 <= s < n && Accepted(b, onlySymmetries, s)
    decreases n
  {
    if n > 1 {
      CandidatesBelowMembers(b, onlySymmetries, n - 1);
      var c' := CandidatesBelow(b, onlySymmetries, n - 1);
      var s: Symmetry := n - 1;
      if Accepted(b, onlySymmetries, s) {
        assert CandidatesBelow(b, onlySymmetries, n) == c' + [s];
        assert forall t: Symmetry :: t in c' + [s] <==> t in c' || t == s;
      } else {
        assert CandidatesBelow(b, onlySymmetries, n) == c';
      }
    }
  }

  predicate StrictlyIncreasing(s: seq<int>) {
    forall i, j :: 0 <= i < j < |s| ==> s[i] < s[j]
  }

  lemma PrependSmaller(a: int, c: seq<int>)
    requires StrictlyIncreasing(c) && forall i :: 0 <= i < |c| ==> a < c[i]
    ensures StrictlyIncreasing([a] + c)
  {
    var r := [a] + c;
    forall i, j | 0 <= i < j < |r| ensures r[i] < r[j] {
      assert r[j] == c[j - 1];
      if i > 0 {
        assert r[i] == c[i - 1];
      }
    }
  }

  /** validSymmetries always starts with 0 and is strictly increasing; a
      simple-ko point makes it exactly [0]. */
  lemma {:induction false} ValidSymmetriesSorted(b: Board, onlySymmetries: Option<seq<int>>)
    requires ValidBoard(b)
    ensures var vs := ValidSymmetries(b, onlySymmetries);
      |vs| >= 1 && vs[0] == 0 &&
      StrictlyIncreasing(vs) && (b.koLoc != NULL_LOC ==> vs == [0])
  {
    if b.koLoc == NULL_LOC {
      var ub := SymmetrySearchUpperBound(b);
      CandidatesBelowSorted(b, onlySymmetries, ub);
      var vs := ValidSymmetries(b, onlySymmetries);
      var c := CandidatesBelow(b, onlySymmetries, ub);
      assert vs == [0] + c;
      PrependSmaller(0, c);
    }
  }

  /** Without a simple-ko point, validSymmetries holds 0 and exactly the
      permitted symmetries that preserve every stone, transposes only on a
      square board. */
  lemma {:induction false} ValidSymmetriesMembers(b: Board, onlySymmetries: Option<seq<int>>)
    requires ValidBoard(b)
    ensures forall s: Symmetry :: s in ValidSymmetries(b, onlySymmetries) <==>
      s == 0 || (b.koLoc == NULL_LOC && s < SymmetrySearchUpperBound(b) && Accepted(b, onlySymmetries, s))
  {
    if b.koLoc == NULL_LOC {
      CandidatesBelowMembers(b, onlySymmetries, SymmetrySearchUpperBound(b));
    }
  }

  /** Every listed symmetry maps each cell onto a cell of the same colour, and
      a board that is not square lists no transpose. */
  lemma {:induction false} ValidSymmetriesPreserveStones(b: Board, onlySymmetries: Option<seq<int>>)
    requires ValidBoard(b)
    ensures forall s: Symmetry :: s in ValidSymmetries(b, onlySymmetries) ==>
      SymAllowed(b.xSize, b.ySize, s) && IsBoardSym(b, s) &&
      (b.xSize != b.ySize ==> s < NUM_SYMMETRIES_WITHOUT_TRANSPOSE)
  {
    ValidSymmetriesMembers(b, onlySymmetries);
    IdentityIsBoardSym(b);
  }

  lemma ValidSymmetriesAllowed(b: Board, onlySymmetries: Option<seq<int>>)
    requires ValidBoard(b)
    ensures SymsAllowed(b, ValidSymmetries(b, onlySymmetries))
  {
    var vs := ValidSymmetries(b, onlySymmetries);
    ValidSymmetriesPreserveStones(b, onlySymmetries);
    forall k | 0 <= k < |vs| ensures SymAllowed(b.xSize, b.ySize, vs[k]) {
      assert vs[k] in vs;
    }
  }

  /** The first loop of markDuplicateMoveLocs: the symmetries to keep. */
  method ComputeValidSymmetries(b: Board, onlySymmetries: Option<seq<int>>) returns (validSymmetries: seq<Symmetry>)
    requires ValidBoard(b)
    ensures validSymmetries == ValidSymmetries(b, onlySymmetries)
  {
    validSymmetries := [0];
    if b.koLoc != NULL_LOC {
      return;
    }
    var symmetrySearchUpperBound := if b.xSize == b.ySize then NUM_SYMMETRIES else NUM_SYMMETRIES_WITHOUT_TRANSPOSE;
    var symmetry := 1;
    while symmetry < symmetrySearchUpperBound
      invariant 1 <= symmetry <= symmetrySearchUpperBound
      invariant validSymmetries == [0] + CandidatesBelow(b, onlySymmetries, symmetry)
    {
      validSymmetries := ConsiderSymmetry(b, onlySymmetries, symmetry, validSymmetries);
      symmetry := symmetry + 1;
    }
  }

  /** One pass of that loop: symmetry s is appended exactly when it is
      permitted and leaves the board unchanged. */
  method ConsiderSymmetry(b: Board, onlySymmetries: Option<seq<int>>, s: Symmetry, validSymmetries: seq<Symmetry>)
    returns (validSymmetries': seq<Symmetry>)
    requires ValidBoard(b) && 1 <= s < SymmetrySearchUpperBound(b)
    ensures validSymmetries' == validSymmetries + (if Accepted(b, onlySymmetries, s) then [s] else [])
    ensures validSymmetries == [0] + CandidatesBelow(b, onlySymmetries, s) ==>
      validSymmetries' == [0] + CandidatesBelow(b, onlySymmetries, s + 1)
  {
    BitsOf(s);
    validSymmetries' := validSymmetries;
    if onlySymmetries.Some? && s !in onlySymmetries.value {
      return;
    }
    var isBoardSym := BoardIsSymmetric(b, s);
    if isBoardSym {
      validSymmetries' := validSymmetries + [s];
    }
  }

  // ---- the order in which cells are visited ----

  /** Column x from the top: (x, 0), ..., (x, m - 1). */
  function ColumnDownward(x: int, m: nat): (r: seq<(int, int)>)
    ensures |r| == m
    ensures forall i :: 0 <= i < m ==> r[i] == (x, i)
  {
    if m == 0 then [] else ColumnDownward(x, m - 1) + [(x, m - 1)]
  }

  /** Column x from the bottom: (x, ySize - 1), ..., (x, ySize - m). */
  function ColumnUpward(x: int, ySize: int, m: nat): (r: seq<(int, int)>)
    ensures |r| == m
    ensures forall i :: 0 <= i < m ==> r[i] == (x, ySize - 1 - i)
  {
    if m == 0 then [] else ColumnUpward(x, ySize, m - 1) + [(x, ySize - m)]
  }

  /** Black to move: the n rightmost columns, right to left, each from the top. */
  function BlackCells(xSize: nat, ySize: nat, n: nat): seq<(int, int)>
    requires n <= xSize
  {
    if n == 0 then [] else BlackCells(xSize, ySize, n - 1) + ColumnDownward(xSize - n, ySize)
  }

  /** Any other player to move: the n leftmost columns, left to right, each from the bottom. */
  function WhiteCells(xSize: nat, ySize: nat, n: nat): seq<(int, int)>
    requires n <= xSize
  {
    if n == 0 then [] else WhiteCells(xSize, ySize, n - 1) + ColumnUpward(n - 1, ySize, ySize)
  }

  lemma BlackCellsStep(xSize: nat, ySize: nat, n: nat, x: int)
    requires n < xSize && x == xSize - 1 - n
    ensures BlackCells(xSize, ySize, n + 1) == BlackCells(xSize, ySize, n) + ColumnDownward(x, ySize)
  {
  }

  lemma WhiteCellsStep(xSize: nat, ySize: nat, n: nat)
    requires n < xSize
    ensures WhiteCells(xSize, ySize, n + 1) == WhiteCells(xSize, ySize, n) + ColumnUpward(n, ySize, ySize)
  {
  }

  lemma {:induction false} BlackCellsMembers(xSize: nat, ySize: nat, n: nat)
    requires n <= xSize
    ensures forall c :: c in BlackCells(xSize, ySize, n) <==> xSize - n <= c.0 < xSize && 0 <= c.1 < ySize
  {
    if n > 0 {
      BlackCellsMembers(xSize, ySize, n - 1);
      var col := ColumnDownward(xSize - n, ySize);
      forall c: (int, int) | c.0 == xSize - n && 0 <= c.1 < ySize ensures c in col {
        assert col[c.1] == c;
      }
    }
  }

  /** A column visited upward holds exactly the cells of that column. */
  lemma ColumnUpwardMembers(x: int, ySize: nat)
    ensures forall c :: c in ColumnUpward(x, ySize, ySize) <==> c.0 == x && 0 <= c.1 < ySize
  {
    var col := ColumnUpward(x, ySize, ySize);
    forall c: (int, int) ensures c in col <==> c.0 == x && 0 <= c.1 < ySize {
      if c.0 == x && 0 <= c.1 < ySize {
        assert col[ySize - 1 - c.1] == c;
      }
      if c in col {
        var i :| 0 <= i < |col| && col[i] == c;
      }
    }
  }

  lemma {:induction false} WhiteCellsMembers(xSize: nat, ySize: nat, n: nat)
    requires n <= xSize
    ensures forall c :: c in WhiteCells(xSize, ySize, n) <==> 0 <= c.0 < n && 0 <= c.1 < ySize
  {
    if n > 0 {
      WhiteCellsMembers(xSize, ySize, n - 1);
      ColumnUpwardMembers(n - 1, ySize);
      var prev := WhiteCells(xSize, ySize, n - 1);
      var col := ColumnUpward(n - 1, ySize, ySize);
      assert WhiteCells(xSize, ySize, n) == prev + col;
      forall c: (int, int) ensures c in prev + col <==> 0 <= c.0 < n && 0 <= c.1 < ySize {
        assert c in prev + col <==> c in prev || c in col;
      }
    }
  }

  /** The visiting order of markDuplicateMoveLocs: it holds every cell of the board and nothing else. */
  function CellOrder(b: Board, presumedNextMovePla: Player): (r: seq<(int, int)>)
    ensures forall c :: c in r <==> OnBoardXY(c.0, c.1, b.xSize, b.ySize)
  {
    BlackCellsMembers(b.xSize, b.ySize, b.xSize);
    WhiteCellsMembers(b.xSize, b.ySize, b.xSize);
    if presumedNextMovePla == Black then BlackCells(b.xSize, b.ySize, b.xSize)
    else WhiteCells(b.xSize, b.ySize, b.xSize)
  }

  // ---- marking ----

  /** Every symmetry of the list maps the board onto itself. */
  predicate SymsAllowed(b: Board, syms: seq<Symmetry>) {
    forall k :: 0 <= k < |syms| ==> SymAllowed(b.xSize, b.ySize, syms[k])
  }

  /** The arguments every marking function needs. */
  predicate MarkArgs(b: Board, marks: seq<bool>, syms: seq<Symmetry>, avoidMoves: seq<int>) {
    ValidBoard(b) && |marks| >= ArrSize(b.xSize, b.ySize) &&
    (|avoidMoves| == 0 || |avoidMoves| >= ArrSize(b.xSize, b.ySize)) &&
    SymsAllowed(b, syms)
  }

  predicate OnBoardCells(b: Board, cells: seq<(int, int)>) {
    forall k :: 0 <= k < |cells| ==> OnBoardXY(cells[k].0, cells[k].1, b.xSize, b.ySize)
  }

  /** The cell at loc is excluded from marking others. */
  predicate Avoided(avoidMoves: seq<int>, loc: Loc)
    requires |avoidMoves| == 0 || 0 <= loc < |avoidMoves|
  {
    |avoidMoves| > 0 && avoidMoves[loc] > 0
  }

  /** The marks after cell (x, y) has tried the symmetries of syms in order:
      each non-identity one marks the image of the cell if the image is a
      different point and the cell itself is unmarked. */
  function MarkSyms(b: Board, marks: seq<bool>, x: int, y: int, syms: seq<Symmetry>): (r: seq<bool>)
    requires MarkArgs(b, marks, syms, []) && OnBoardXY(x, y, b.xSize, b.ySize)
    ensures |r| == |marks|
    decreases |syms|
  {
    if |syms| == 0 then marks
    else
      var m := MarkSyms(b, marks, x, y, syms[..|syms| - 1]);
      var s := syms[|syms| - 1];
      var loc := GetLoc(x, y, b.xSize);
      var symLoc := GetSymLocXY(x, y, b.xSize, b.ySize, s);
      SymLocOnSameBoard(x, y, b.xSize, b.ySize, s);
      OnBoardLocBound(x, y, b.xSize, b.ySize);
      if s != 0 && !m[loc] && loc != symLoc then m[symLoc := true] else m
  }

  /** The marks after the cell c has been visited. */
  function MarkCell(b: Board, marks: seq<bool>, c: (int, int), syms: seq<Symmetry>, avoidMoves: seq<int>): (r: seq<bool>)
    requires MarkArgs(b, marks, syms, avoidMoves) && OnBoardXY(c.0, c.1, b.xSize, b.ySize)
    ensures |r| == |marks|
  {
    OnBoardLocBound(c.0, c.1, b.xSize, b.ySize);
    if Avoided(avoidMoves, GetLoc(c.0, c.1, b.xSize)) then marks
    else MarkSyms(b, marks, c.0, c.1, syms)
  }

  /** The marks after the cells have been visited in order. */
  function MarkCells(b: Board, marks: seq<bool>, cells: seq<(int, int)>, syms: seq<Symmetry>, avoidMoves: seq<int>): (r: seq<bool>)
    requires MarkArgs(b, marks, syms, avoidMoves) && OnBoardCells(b, cells)
    ensures |r| == |marks|
    decreases |cells|
  {
    if |cells| == 0 then marks
    else
      var m := MarkCells(b, marks, cells[..|cells| - 1], syms, avoidMoves);
      MarkCell(b, m, cells[|cells| - 1], syms, avoidMoves)
  }

  /** An array of len cleared marks. */
  function Unmarked(len: nat): (r: seq<bool>)
    ensures |r| == len && forall j :: 0 <= j < len ==> !r[j]
  {
    seq(len, _ => false)
  }

  lemma CellOrderOnBoard(b: Board, presumedNextMovePla: Player)
    ensures OnBoardCells(b, CellOrder(b, presumedNextMovePla))
  {
    var r := CellOrder(b, presumedNextMovePla);
    forall k | 0 <= k < |r| ensures OnBoardXY(r[k].0, r[k].1, b.xSize, b.ySize) {
      assert r[k] in r;
    }
  }

  /** The isSymDupLoc array markDuplicateMoveLocs leaves: all marks cleared,
      then every cell visited in the order for the player to move. */
  function MarkAll(b: Board, presumedNextMovePla: Player, syms: seq<Symmetry>, avoidMoves: seq<int>, len: nat): (r: seq<bool>)
    requires MarkArgs(b, Unmarked(len), syms, avoidMoves)
    ensures |r| == len
  {
    CellOrderOnBoard(b, presumedNextMovePla);
    MarkCells(b, Unmarked(len), CellOrder(b, presumedNextMovePla), syms, avoidMoves)
  }

  /** The symmetry s, tried by the unmarked cell (x, y), marks j. */
  predicate SymMarks(b: Board, marks: seq<bool>, x: int, y: int, s: Symmetry, j: int)
    requires ValidBoard(b) && |marks| >= ArrSize(b.xSize, b.ySize) && OnBoardXY(x, y, b.xSize, b.ySize)
  {
    OnBoardLocBound(x, y, b.xSize, b.ySize);
    var loc := GetLoc(x, y, b.xSize);
    s != 0 && !marks[loc] && loc != j && GetSymLocXY(x, y, b.xSize, b.ySize, s) == j
  }

  /** Some symmetry of syms, tried by the unmarked cell (x, y), marks j. */
  predicate SomeSymMarks(b: Board, marks: seq<bool>, x: int, y: int, syms: seq<Symmetry>, j: int)
    requires ValidBoard(b) && |marks| >= ArrSize(b.xSize, b.ySize) && OnBoardXY(x, y, b.xSize, b.ySize)
  {
    exists k :: 0 <= k < |syms| && SymMarks(b, marks, x, y, syms[k], j)
  }

  lemma {:induction false} MarkSymsIff(b: Board, marks: seq<bool>, x: int, y: int, syms: seq<Symmetry>, j: int)
    requires MarkArgs(b, marks, syms, []) && OnBoardXY(x, y, b.xSize, b.ySize) && 0 <= j < |marks|
    ensures MarkSyms(b, marks, x, y, syms)[j] <==> marks[j] || SomeSymMarks(b, marks, x, y, syms, j)
    decreases |syms|
  {
    if |syms| > 0 {
      var n := |syms| - 1;
      var pre := syms[..n];
      var s := syms[n];
      var loc := GetLoc(x, y, b.xSize);
      OnBoardLocBound(x, y, b.xSize, b.ySize);
      MarkSymsIff(b, marks, x, y, pre, j);
      MarkSymsIff(b, marks, x, y, pre, loc);
      var m := MarkSyms(b, marks, x, y, pre);
      assert m[loc] == marks[loc];
      var symLoc := GetSymLocXY(x, y, b.xSize, b.ySize, s);
      assert SymMarks(b, marks, x, y, s, j) <==> s != 0 && !m[loc] && loc != symLoc && symLoc == j;
      assert SomeSymMarks(b, marks, x, y, syms, j) <==> SomeSymMarks(b, marks, x, y, pre, j) || SymMarks(b, marks, x, y, s, j) by {
        if SomeSymMarks(b, marks, x, y, syms, j) {
          var k :| 0 <= k < |syms| && SymMarks(b, marks, x, y, syms[k], j);
          if k < n {
            assert pre[k] == syms[k];
          }
        }
        if SomeSymMarks(b, marks, x, y, pre, j) {
          var k :| 0 <= k < |pre| && SymMarks(b, marks, x, y, pre[k], j);
          assert syms[k] == pre[k];
        }
      }
    }
  }

  /** Cell i of cells, unmarked when it was visited and not avoided, marks j
      under the symmetry syms[k]. */
  predicate Justifies(b: Board, marks: seq<bool>, cells: seq<(int, int)>, syms: seq<Symmetry>, avoidMoves: seq<int>,
                      i: int, k: int, j: int)
    requires MarkArgs(b, marks, syms, avoidMoves) && OnBoardCells(b, cells)
  {
    0 <= i < |cells| && 0 <= k < |syms| &&
    var c := cells[i];
    OnBoardLocBound(c.0, c.1, b.xSize, b.ySize);
    !Avoided(avoidMoves, GetLoc(c.0, c.1, b.xSize)) &&
    SymMarks(b, MarkCells(b, marks, cells[..i], syms, avoidMoves), c.0, c.1, syms[k], j)
  }

  /** Whether an earlier cell justifies a mark does not depend on the cells after it. */
  lemma JustifiesPrefix(b: Board, marks: seq<bool>, cells: seq<(int, int)>, syms: seq<Symmetry>, avoidMoves: seq<int>,
                        i: int, k: int, j: int)
    requires MarkArgs(b, marks, syms, avoidMoves) && OnBoardCells(b, cells) && 0 <= i < |cells| - 1
    ensures OnBoardCells(b, cells[..|cells| - 1])
    ensures Justifies(b, marks, cells, syms, avoidMoves, i, k, j) <==>
      Justifies(b, marks, cells[..|cells| - 1], syms, avoidMoves, i, k, j)
  {
    assert cells[..i] == cells[..|cells| - 1][..i];
  }

  /** The last cell, when not avoided, justifies exactly the marks its visit adds. */
  lemma JustifiesLast(b: Board, marks: seq<bool>, cells: seq<(int, int)>, syms: seq<Symmetry>, avoidMoves: seq<int>, j: int)
    requires MarkArgs(b, marks, syms, avoidMoves) && OnBoardCells(b, cells) && |cells| > 0 && 0 <= j < |marks|
    requires var c := cells[|cells| - 1];
      OnBoardXY(c.0, c.1, b.xSize, b.ySize) &&
      0 <= GetLoc(c.0, c.1, b.xSize) < ArrSize(b.xSize, b.ySize) && !Avoided(avoidMoves, GetLoc(c.0, c.1, b.xSize))
    ensures var c := cells[|cells| - 1];
      var m := MarkCells(b, marks, cells[..|cells| - 1], syms, avoidMoves);
      (MarkSyms(b, m, c.0, c.1, syms)[j] <==> m[j] || SomeSymMarks(b, m, c.0, c.1, syms, j)) &&
      forall k :: Justifies(b, marks, cells, syms, avoidMoves, |cells| - 1, k, j) <==>
        0 <= k < |syms| && SymMarks(b, m, c.0, c.1, syms[k], j)
  {
    var n := |cells| - 1;
    var c := cells[n];
    var m := MarkCells(b, marks, cells[..n], syms, avoidMoves);
    MarkSymsIff(b, m, c.0, c.1, syms, j);
    forall k ensures Justifies(b, marks, cells, syms, avoidMoves, n, k, j) <==>
      0 <= k < |syms| && SymMarks(b, m, c.0, c.1, syms[k], j)
    {
    }
  }

  /** A point ends up marked exactly when it was marked at the start or some
      visited cell, not avoided and unmarked when its turn came, is a
      different point that a listed non-identity symmetry maps onto it. */
  lemma {:induction false} MarkCellsIff(b: Board, marks: seq<bool>, cells: seq<(int, int)>, syms: seq<Symmetry>,
                                        avoidMoves: seq<int>, j: int)
    requires MarkArgs(b, marks, syms, avoidMoves) && OnBoardCells(b, cells) && 0 <= j < |marks|
    ensures MarkCells(b, marks, cells, syms, avoidMoves)[j] <==>
      marks[j] || exists i, k :: Justifies(b, marks, cells, syms, avoidMoves, i, k, j)
    decreases |cells|
  {
    if |cells| > 0 {
      var n := |cells| - 1;
      var pre := cells[..n];
      var c := cells[n];
      MarkCellsIff(b, marks, pre, syms, avoidMoves, j);
      var m := MarkCells(b, marks, pre, syms, avoidMoves);
      forall i, k | 0 <= i < n
        ensures Justifies(b, marks, cells, syms, avoidMoves, i, k, j) <==> Justifies(b, marks, pre, syms, avoidMoves, i, k, j)
      {
        JustifiesPrefix(b, marks, cells, syms, avoidMoves, i, k, j);
      }
      OnBoardLocBound(c.0, c.1, b.xSize, b.ySize);
      var loc := GetLoc(c.0, c.1, b.xSize);
      if !Avoided(avoidMoves, loc) {
        JustifiesLast(b, marks, cells, syms, avoidMoves, j);
      }
      if exists i, k :: Justifies(b, marks, cells, syms, avoidMoves, i, k, j) {
        var i, k :| Justifies(b, marks, cells, syms, avoidMoves, i, k, j);
        if i < n {
          assert Justifies(b, marks, pre, syms, avoidMoves, i, k, j);
        }
      }
      if exists i, k :: Justifies(b, marks, pre, syms, avoidMoves, i, k, j) {
        var i, k :| Justifies(b, marks, pre, syms, avoidMoves, i, k, j);
        assert Justifies(b, marks, cells, syms, avoidMoves, i, k, j);
      }
    }
  }

  /** In the array markDuplicateMoveLocs leaves, a point is marked exactly when
      some cell, not avoided and not marked when it was visited, is a
      different point that a listed non-identity symmetry maps onto it. */
  lemma {:induction false} MarkedIffDuplicate(b: Board, presumedNextMovePla: Player, syms: seq<Symmetry>,
                                              avoidMoves: seq<int>, len: nat, j: int)
    requires MarkArgs(b, Unmarked(len), syms, avoidMoves) && 0 <= j < len
    ensures OnBoardCells(b, CellOrder(b, presumedNextMovePla))
    ensures MarkAll(b, presumedNextMovePla, syms, avoidMoves, len)[j] <==>
      exists i, k :: Justifies(b, Unmarked(len), CellOrder(b, presumedNextMovePla), syms, avoidMoves, i, k, j)
  {
    CellOrderOnBoard(b, presumedNextMovePla);
    MarkCellsIff(b, Unmarked(len), CellOrder(b, presumedNextMovePla), syms, avoidMoves, j);
  }

  /** With only the identity to try, nothing is marked. */
  lemma {:induction false} OnlyIdentityMarksNothing(b: Board, presumedNextMovePla: Player, avoidMoves: seq<int>, len: nat)
    requires MarkArgs(b, Unmarked(len), [0], avoidMoves)
    ensures MarkAll(b, presumedNextMovePla, [0], avoidMoves, len) == Unmarked(len)
  {
    var r := MarkAll(b, presumedNextMovePla, [0], avoidMoves, len);
    forall j | 0 <= j < len ensures !r[j] {
      MarkedIffDuplicate(b, presumedNextMovePla, [0], avoidMoves, len, j);
    }
  }

  lemma MarkCellsSnoc(b: Board, marks: seq<bool>, cells: seq<(int, int)>, c: (int, int), syms: seq<Symmetry>, avoidMoves: seq<int>)
    requires MarkArgs(b, marks, syms, avoidMoves) && OnBoardCells(b, cells) && OnBoardXY(c.0, c.1, b.xSize, b.ySize)
    ensures OnBoardCells(b, cells + [c])
    ensures MarkCells(b, marks, cells + [c], syms, avoidMoves)
         == MarkCell(b, MarkCells(b, marks, cells, syms, avoidMoves), c, syms, avoidMoves)
  {
    assert (cells + [c])[..|cells|] == cells;
  }

  lemma MarkSymsSnoc(b: Board, marks: seq<bool>, x: int, y: int, syms: seq<Symmetry>, i: int)
    requires MarkArgs(b, marks, syms, []) && OnBoardXY(x, y, b.xSize, b.ySize) && 0 <= i < |syms|
    ensures MarkArgs(b, marks, syms[..i], []) && MarkArgs(b, marks, syms[..i + 1], [])
    ensures var m := MarkSyms(b, marks, x, y, syms[..i]);
      var s := syms[i];
      var loc, symLoc := GetLoc(x, y, b.xSize), GetSymLocXY(x, y, b.xSize, b.ySize, s);
      0 <= loc < |m| && 0 <= symLoc < |m| &&
      MarkSyms(b, marks, x, y, syms[..i + 1]) == if s != 0 && !m[loc] && loc != symLoc then m[symLoc := true] else m
  {
    assert syms[..i + 1][..i] == syms[..i];
    SymLocOnSameBoard(x, y, b.xSize, b.ySize, syms[i]);
    OnBoardLocBound(x, y, b.xSize, b.ySize);
  }

  /** One visited cell, as the innermost loop of markDuplicateMoveLocs performs it. */
  method VisitCell(b: Board, x: int, y: int, validSymmetries: seq<Symmetry>, avoidMoves: seq<int>, isSymDupLoc: array<bool>)
    requires MarkArgs(b, isSymDupLoc[..], validSymmetries, avoidMoves) && OnBoardXY(x, y, b.xSize, b.ySize)
    modifies isSymDupLoc
    ensures isSymDupLoc[..] == MarkCell(b, old(isSymDupLoc[..]), (x, y), validSymmetries, avoidMoves)
  {
    var loc := GetLoc(x, y, b.xSize);
    OnBoardLocBound(x, y, b.xSize, b.ySize);
    if |avoidMoves| > 0 && avoidMoves[loc] > 0 {
      return;
    }
    ghost var start := isSymDupLoc[..];
    var i := 0;
    while i < |validSymmetries|
      invariant 0 <= i <= |validSymmetries|
      invariant isSymDupLoc[..] == MarkSyms(b, start, x, y, validSymmetries[..i])
    {
      var symmetry := validSymmetries[i];
      MarkSymsSnoc(b, start, x, y, validSymmetries, i);
      if symmetry != 0 {
        var symLoc := GetSymLocXY(x, y, b.xSize, b.ySize, symmetry);
        if !isSymDupLoc[loc] && loc != symLoc {
          isSymDupLoc[symLoc] := true;
        }
      }
      i := i + 1;
    }
    assert validSymmetries[..i] == validSymmetries;
  }

  /** One column for Black to move, from the top. */
  method MarkColumnDownward(b: Board, x: int, validSymmetries: seq<Symmetry>, avoidMoves: seq<int>, isSymDupLoc: array<bool>,
                            ghost start: seq<bool>, ghost visited: seq<(int, int)>)
    requires 0 <= x < b.xSize
    requires MarkArgs(b, start, validSymmetries, avoidMoves) && OnBoardCells(b, visited)
    requires isSymDupLoc[..] == MarkCells(b, start, visited, validSymmetries, avoidMoves)
    modifies isSymDupLoc
    ensures OnBoardCells(b, visited + ColumnDownward(x, b.ySize))
    ensures isSymDupLoc[..] == MarkCells(b, start, visited + ColumnDownward(x, b.ySize), validSymmetries, avoidMoves)
  {
    ghost var cells := visited;
    assert visited + ColumnDownward(x, 0) == visited;
    var y := 0;
    while y < b.ySize
      invariant 0 <= y <= b.ySize
      invariant cells == visited + ColumnDownward(x, y)
      invariant OnBoardCells(b, cells)
      invariant isSymDupLoc[..] == MarkCells(b, start, cells, validSymmetries, avoidMoves)
    {
      MarkCellsSnoc(b, start, cells, (x, y), validSymmetries, avoidMoves);
      VisitCell(b, x, y, validSymmetries, avoidMoves, isSymDupLoc);
      ColumnDownwardStep(visited, x, y);
      cells := cells + [(x, y)];
      y := y + 1;
    }
    assert y == b.ySize;
  }

  /** One column for any other player, from the bottom. */
  method MarkColumnUpward(b: Board, x: int, validSymmetries: seq<Symmetry>, avoidMoves: seq<int>, isSymDupLoc: array<bool>,
                          ghost start: seq<bool>, ghost visited: seq<(int, int)>)
    requires 0 <= x < b.xSize
    requires MarkArgs(b, start, validSymmetries, avoidMoves) && OnBoardCells(b, visited)
    requires isSymDupLoc[..] == MarkCells(b, start, visited, validSymmetries, avoidMoves)
    modifies isSymDupLoc
    ensures OnBoardCells(b, visited + ColumnUpward(x, b.ySize, b.ySize))
    ensures isSymDupLoc[..] == MarkCells(b, start, visited + ColumnUpward(x, b.ySize, b.ySize), validSymmetries, avoidMoves)
  {
    ghost var cells := visited;
    ghost var m := 0;
    assert visited + ColumnUpward(x, b.ySize, 0) == visited;
    var y := b.ySize - 1;
    while y >= 0
      invariant -1 <= y <= b.ySize - 1 && m == b.ySize - 1 - y
      invariant cells == visited + ColumnUpward(x, b.ySize, m)
      invariant OnBoardCells(b, cells)
      invariant isSymDupLoc[..] == MarkCells(b, start, cells, validSymmetries, avoidMoves)
    {
      MarkCellsSnoc(b, start, cells, (x, y), validSymmetries, avoidMoves);
      VisitCell(b, x, y, validSymmetries, avoidMoves, isSymDupLoc);
      ColumnUpwardStep(visited, x, b.ySize, m, y);
      cells := cells + [(x, y)];
      m := m + 1;
      y := y - 1;
    }
    assert m == b.ySize;
  }

  lemma ColumnDownwardStep(visited: seq<(int, int)>, x: int, y: nat)
    ensures visited + ColumnDownward(x, y + 1) == (visited + ColumnDownward(x, y)) + [(x, y)]
  {
  }

  lemma ColumnUpwardStep(visited: seq<(int, int)>, x: int, ySize: int, m: nat, y: int)
    requires y == ySize - 1 - m
    ensures visited + ColumnUpward(x, ySize, m + 1) == (visited + ColumnUpward(x, ySize, m)) + [(x, y)]
  {
  }

  /** The marking loops for Black to move: columns right to left. */
  method MarkBlackOrder(b: Board, validSymmetries: seq<Symmetry>, avoidMoves: seq<int>, isSymDupLoc: array<bool>)
    requires MarkArgs(b, isSymDupLoc[..], validSymmetries, avoidMoves)
    modifies isSymDupLoc
    ensures OnBoardCells(b, BlackCells(b.xSize, b.ySize, b.xSize))
    ensures isSymDupLoc[..] == MarkCells(b, old(isSymDupLoc[..]), BlackCells(b.xSize, b.ySize, b.xSize), validSymmetries, avoidMoves)
  {
    ghost var start := isSymDupLoc[..];
    var x := b.xSize - 1;
    while x >= 0
      invariant -1 <= x <= b.xSize - 1
      invariant OnBoardCells(b, BlackCells(b.xSize, b.ySize, b.xSize - 1 - x))
      invariant isSymDupLoc[..] == MarkCells(b, start, BlackCells(b.xSize, b.ySize, b.xSize - 1 - x), validSymmetries, avoidMoves)
    {
      MarkColumn(b, x, validSymmetries, avoidMoves, isSymDupLoc, start);
      x := x - 1;
    }
    assert b.xSize - 1 - x == b.xSize;
  }

  /** The body of the column loop for Black. */
  method MarkColumn(b: Board, x: int, validSymmetries: seq<Symmetry>, avoidMoves: seq<int>, isSymDupLoc: array<bool>,
                    ghost start: seq<bool>)
    requires 0 <= x < b.xSize
    requires MarkArgs(b, start, validSymmetries, avoidMoves) && OnBoardCells(b, BlackCells(b.xSize, b.ySize, b.xSize - 1 - x))
    requires isSymDupLoc[..] == MarkCells(b, start, BlackCells(b.xSize, b.ySize, b.xSize - 1 - x), validSymmetries, avoidMoves)
    modifies isSymDupLoc
    ensures OnBoardCells(b, BlackCells(b.xSize, b.ySize, b.xSize - x))
    ensures isSymDupLoc[..] == MarkCells(b, start, BlackCells(b.xSize, b.ySize, b.xSize - x), validSymmetries, avoidMoves)
  {
    BlackCellsStep(b.xSize, b.ySize, b.xSize - 1 - x, x);
    MarkColumnDownward(b, x, validSymmetries, avoidMoves, isSymDupLoc, start, BlackCells(b.xSize, b.ySize, b.xSize - 1 - x));
  }

  /** The marking loops for any other player: columns left to right. */
  method MarkWhiteOrder(b: Board, validSymmetries: seq<Symmetry>, avoidMoves: seq<int>, isSymDupLoc: array<bool>)
    requires MarkArgs(b, isSymDupLoc[..], validSymmetries, avoidMoves)
    modifies isSymDupLoc
    ensures OnBoardCells(b, WhiteCells(b.xSize, b.ySize, b.xSize))
    ensures isSymDupLoc[..] == MarkCells(b, old(isSymDupLoc[..]), WhiteCells(b.xSize, b.ySize, b.xSize), validSymmetries, avoidMoves)
  {
    ghost var start := isSymDupLoc[..];
    var x := 0;
    while x < b.xSize
      invariant 0 <= x <= b.xSize
      invariant OnBoardCells(b, WhiteCells(b.xSize, b.ySize, x))
      invariant isSymDupLoc[..] == MarkCells(b, start, WhiteCells(b.xSize, b.ySize, x), validSymmetries, avoidMoves)
    {
      ghost var done := WhiteCells(b.xSize, b.ySize, x);
      WhiteCellsStep(b.xSize, b.ySize, x);
      MarkColumnUpward(b, x, validSymmetries, avoidMoves, isSymDupLoc, start, done);
      x := x + 1;
    }
  }

  /** markDuplicateMoveLocs: returns validSymmetries and leaves in isSymDupLoc
      the marks MarkAll describes. The array stands for the first entries of
      the Board::MAX_ARR_SIZE buffer the caller passes. */
  method MarkDuplicateMoveLocs(b: Board, presumedNextMovePla: Player, onlySymmetries: Option<seq<int>>,
                               avoidMoves: seq<int>, isSymDupLoc: array<bool>)
    returns (validSymmetries: seq<Symmetry>)
    requires ValidBoard(b) && isSymDupLoc.Length >= ArrSize(b.xSize, b.ySize)
    requires |avoidMoves| == 0 || |avoidMoves| >= ArrSize(b.xSize, b.ySize)
    modifies isSymDupLoc
    ensures validSymmetries == ValidSymmetries(b, onlySymmetries)
    ensures MarkArgs(b, Unmarked(isSymDupLoc.Length), validSymmetries, avoidMoves)
    ensures isSymDupLoc[..] == MarkAll(b, presumedNextMovePla, validSymmetries, avoidMoves, isSymDupLoc.Length)
  {
    var k := 0;
    while k < isSymDupLoc.Length
      invariant 0 <= k <= isSymDupLoc.Length
      invariant forall j :: 0 <= j < k ==> !isSymDupLoc[j]
    {
      isSymDupLoc[k] := false;
      k := k + 1;
    }
    assert isSymDupLoc[..] == Unmarked(isSymDupLoc.Length);
    validSymmetries := ComputeValidSymmetries(b, onlySymmetries);
    ValidSymmetriesAllowed(b, onlySymmetries);

    if b.koLoc != NULL_LOC {
      ValidSymmetriesSorted(b, onlySymmetries);
      OnlyIdentityMarksNothing(b, presumedNextMovePla, avoidMoves, isSymDupLoc.Length);
      return;
    }

    if presumedNextMovePla == Black {
      MarkBlackOrder(b, validSymmetries, avoidMoves, isSymDupLoc);
    } else {
      MarkWhiteOrder(b, validSymmetries, avoidMoves, isSymDupLoc);
    }
  }
}
