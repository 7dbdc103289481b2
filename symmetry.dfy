/** The eight board symmetries as 3-bit identifiers: bit 0 flips y, bit 1
    flips x and bit 2 transposes, applied in that order (flips first). */
module Symmetry {
  import opened Location

  const NUM_SYMMETRIES: int := 8
  const NUM_SYMMETRIES_WITHOUT_TRANSPOSE: int := 4

  type Symmetry = s: int | 0 <= s < 8

  predicate IsTranspose(s: Symmetry) { (s as bv8) & 4 != 0 }
  predicate IsFlipX(s: Symmetry) { (s as bv8) & 2 != 0 }
  predicate IsFlipY(s: Symmetry) { (s as bv8) & 1 != 0 }

  /** The three bits determine the identifier. */
  lemma BitsOf(s: Symmetry)
    ensures IsTranspose(s) <==> s >= 4
    ensures IsFlipX(s) <==> s % 4 >= 2
    ensures IsFlipY(s) <==> s % 2 == 1
  {
    if s == 0 {} else if s == 1 {} else if s == 2 {} else if s == 3 {}
    else if s == 4 {} else if s == 5 {} else if s == 6 {} else {}
  }

  /** The inverse undoes the flips after undoing the transpose, so a
      transposing symmetry's inverse swaps its two flips. */
  function Invert(s: Symmetry): (r: Symmetry)
    ensures IsTranspose(r) == IsTranspose(s)
    ensures IsFlipX(r) == (if IsTranspose(s) then IsFlipY(s) else IsFlipX(s))
    ensures IsFlipY(r) == (if IsTranspose(s) then IsFlipX(s) else IsFlipY(s))
  {
    BitsOf(s);
    BitsOf(if s == 5 then 6 else if s == 6 then 5 else s);
    if s == 5 then 6
    else if s == 6 then 5
    else s
  }

  /** Rewrites the second symmetry in the frame of the first: after a
      transpose, a flip of x is a flip of the old y and vice versa. */
  function PermuteFlips(s: Symmetry): (r: Symmetry)
    ensures IsTranspose(r) == IsTranspose(s)
    ensures IsFlipX(r) == IsFlipY(s) && IsFlipY(r) == IsFlipX(s)
  {
    var b := s as bv8;
    var p := (b & 4) | ((b & 2) >> 1) | ((b & 1) << 1);
    BitsOf(s);
    assert p < 8;
    var r := p as int;
    BitsOf(r);
    r
  }

  /** The symmetry "first, then next". */
  function Compose(first: Symmetry, next: Symmetry): (r: Symmetry)
    ensures IsTranspose(r) == (IsTranspose(first) != IsTranspose(next))
    ensures IsFlipX(r) == (IsFlipX(first) != (if IsTranspose(first) then IsFlipY(next) else IsFlipX(next)))
    ensures IsFlipY(r) == (IsFlipY(first) != (if IsTranspose(first) then IsFlipX(next) else IsFlipY(next)))
  {
    var n := if IsTranspose(first) then PermuteFlips(next) else next;
    BitsOf(first);
    BitsOf(n);
    var x := (first as bv8) ^ (n as bv8);
    assert x < 8;
    var r := x as int;
    BitsOf(r);
    r
  }

  /** Three symmetries in a row; the grouping does not matter. */
  function Compose3(first: Symmetry, next: Symmetry, nextNext: Symmetry): (r: Symmetry)
    ensures r == Compose(first, Compose(next, nextNext))
  {
    ComposeAssociative(first, next, nextNext);
    Compose(Compose(first, next), nextNext)
  }

  /** Two symmetries with the same three bits are equal. */
  lemma BitsDetermine(a: Symmetry, b: Symmetry)
    requires IsTranspose(a) == IsTranspose(b) && IsFlipX(a) == IsFlipX(b) && IsFlipY(a) == IsFlipY(b)
    ensures a == b
  {
    BitsOf(a);
    BitsOf(b);
  }

  /** Invert is an involution that swaps 5 and 6 and fixes every other symmetry. */
  lemma InvertInvolution(s: Symmetry)
    ensures Invert(Invert(s)) == s
    ensures Invert(s) != s <==> s == 5 || s == 6
  {
  }

  /** The identity is neutral on both sides, and Invert gives the inverse on both sides. */
  lemma {:induction false} GroupLaws(s: Symmetry)
    ensures Compose(0, s) == s && Compose(s, 0) == s
    ensures Compose(s, Invert(s)) == 0 && Compose(Invert(s), s) == 0
  {
    BitsOf(0);
    BitsOf(s);
    BitsOf(Invert(s));
    BitsDetermine(Compose(0, s), s);
    BitsDetermine(Compose(s, 0), s);
    BitsDetermine(Compose(s, Invert(s)), 0);
    BitsDetermine(Compose(Invert(s), s), 0);
  }

  /** Composition is associative. */
  lemma {:induction false} ComposeAssociative(a: Symmetry, b: Symmetry, c: Symmetry)
    ensures Compose(Compose(a, b), c) == Compose(a, Compose(b, c))
  {
    BitsDetermine(Compose(Compose(a, b), c), Compose(a, Compose(b, c)));
  }

  /** Maps a cell through a symmetry: flip x, flip y, then possibly swap the axes. */
  function SymXY(x: int, y: int, xSize: int, ySize: int, s: Symmetry): (int, int) {
    var x1 := if IsFlipX(s) then xSize - x - 1 else x;
    var y1 := if IsFlipY(s) then ySize - y - 1 else y;
    if IsTranspose(s) then (y1, x1) else (x1, y1)
  }

  /** The board a symmetry maps onto: the same, or its transpose. */
  function SymSizes(xSize: int, ySize: int, s: Symmetry): (int, int) {
    if IsTranspose(s) then (ySize, xSize) else (xSize, ySize)
  }

  /** The location of the image of cell (x, y); under the identity, the
      cell's own location. */
  function GetSymLocXY(x: int, y: int, xSize: int, ySize: int, s: Symmetry): (r: Loc)
    ensures s == 0 ==> r == GetLoc(x, y, xSize)
  {
    BitsOf(0);
    var p := SymXY(x, y, xSize, ySize, s);
    GetLoc(p.0, p.1, if IsTranspose(s) then ySize else xSize)
  }

  /** NULL_LOC and PASS_LOC are kept. */
  function GetSymLoc(loc: Loc, xSize: nat, ySize: nat, s: Symmetry): (r: Loc)
    ensures loc == NULL_LOC || loc == PASS_LOC ==> r == loc
  {
    if loc == NULL_LOC || loc == PASS_LOC then loc
    else GetSymLocXY(GetX(loc, xSize), GetY(loc, xSize), xSize, ySize, s)
  }

  function GetSymLocOnBoard(loc: Loc, b: Board, s: Symmetry): Loc {
    GetSymLoc(loc, b.xSize, b.ySize, s)
  }

  /** An on-board cell is mapped to an on-board cell of the (possibly transposed) board. */
  lemma SymXYInBounds(x: int, y: int, xSize: int, ySize: int, s: Symmetry)
    requires OnBoardXY(x, y, xSize, ySize)
    ensures var p, d := SymXY(x, y, xSize, ySize, s), SymSizes(xSize, ySize, s);
      OnBoardXY(p.0, p.1, d.0, d.1)
  {
  }

  /** A symmetry maps a board onto itself when it has no transpose or the board is square. */
  predicate SymAllowed(xSize: int, ySize: int, s: Symmetry) {
    IsTranspose(s) ==> xSize == ySize
  }

  /** On such a board, the image of an on-board cell is an on-board location
      of the same board, inside its array. */
  lemma {:induction false} SymLocOnSameBoard(x: int, y: int, xSize: nat, ySize: nat, s: Symmetry)
    requires OnBoardXY(x, y, xSize, ySize) && SymAllowed(xSize, ySize, s)
    ensures var p := SymXY(x, y, xSize, ySize, s);
      OnBoardXY(p.0, p.1, xSize, ySize) && GetSymLocXY(x, y, xSize, ySize, s) == GetLoc(p.0, p.1, xSize)
    ensures 0 <= GetSymLocXY(x, y, xSize, ySize, s) < ArrSize(xSize, ySize)
  {
    var p := SymXY(x, y, xSize, ySize, s);
    SymXYInBounds(x, y, xSize, ySize, s);
    OnBoardLocBound(p.0, p.1, xSize, ySize);
  }

  /** Symmetry 0 maps every cell to itself. */
  lemma SymXYIdentity(x: int, y: int, xSize: int, ySize: int)
    ensures SymXY(x, y, xSize, ySize, 0) == (x, y)
  {
    BitsOf(0);
  }

  /** The identity symmetry changes nothing. */
  lemma SymIdentity(loc: Loc, xSize: nat, ySize: nat)
    requires loc >= 0
    ensures GetSymLoc(loc, xSize, ySize, 0) == loc
  {
    BitsOf(0);
    LocDecode(loc, xSize);
  }

  /** Every symmetry fixes NULL_LOC and PASS_LOC. */
  lemma SymFixesSpecialLocs(xSize: nat, ySize: nat, s: Symmetry)
    ensures GetSymLoc(NULL_LOC, xSize, ySize, s) == NULL_LOC
    ensures GetSymLoc(PASS_LOC, xSize, ySize, s) == PASS_LOC
  {
  }

  /** Mapping a cell by `first` and then, on the board it lands on, by `next`
      is mapping it by Compose(first, next). */
  lemma {:induction false} SymXYCompose(x: int, y: int, xSize: int, ySize: int, first: Symmetry, next: Symmetry)
    ensures var p, d := SymXY(x, y, xSize, ySize, first), SymSizes(xSize, ySize, first);
      SymXY(p.0, p.1, d.0, d.1, next) == SymXY(x, y, xSize, ySize, Compose(first, next))
    ensures var d := SymSizes(xSize, ySize, first);
      SymSizes(d.0, d.1, next) == SymSizes(xSize, ySize, Compose(first, next))
  {
  }

  /** Mapping a cell by a symmetry and back by its inverse, on the board the
      first map lands on, returns the cell. */
  lemma {:induction false} SymXYInverse(x: int, y: int, xSize: int, ySize: int, s: Symmetry)
    ensures var p, d := SymXY(x, y, xSize, ySize, s), SymSizes(xSize, ySize, s);
      SymXY(p.0, p.1, d.0, d.1, Invert(s)) == (x, y)
  {
    SymXYCompose(x, y, xSize, ySize, s, Invert(s));
    GroupLaws(s);
    BitsOf(0);
  }

  /** The same for locations: on a rectangular board without transposes and on
      any square board, the inverse symmetry maps every on-board location back. */
  lemma {:induction false} SymLocInverse(loc: Loc, xSize: nat, ySize: nat, s: Symmetry)
    requires IsOnBoard(loc, xSize, ySize)
    requires IsTranspose(s) ==> xSize == ySize
    ensures GetSymLoc(GetSymLoc(loc, xSize, ySize, s), xSize, ySize, Invert(s)) == loc
  {
    var x, y := GetX(loc, xSize), GetY(loc, xSize);
    LocDecode(loc, xSize);
    LocRoundTrip(x, y, xSize);
    var p := SymXY(x, y, xSize, ySize, s);
    SymXYInBounds(x, y, xSize, ySize, s);
    LocRoundTrip(p.0, p.1, xSize);
    SymXYInverse(x, y, xSize, ySize, s);
  }
}
