/** Board locations, players, stone colours and the read-only part of a board
    that the symmetry helpers and the search results look at.

    A location packs a cell (x, y) of a board of width xSize into one integer,
    one column of padding per row and one row of padding above the board, so
    that no on-board cell is ever NULL_LOC or PASS_LOC. */
module Location {

  type Loc = int

  const NULL_LOC: Loc := 0
  const PASS_LOC: Loc := 1

  datatype Player = Black | White

  datatype Color = Empty | BlackStone | WhiteStone | Wall

  /** Truncating division and remainder, as C++ computes them on int. */
  function CppDiv(a: int, b: int): (q: int)
    requires b > 0
    ensures a >= 0 ==> q == a / b
  {
    if a >= 0 then a / b else -((-a) / b)
  }

  function CppMod(a: int, b: int): (r: int)
    requires b > 0
    ensures a == CppDiv(a, b) * b + r
    ensures -b < r < b
    ensures a >= 0 ==> r == a % b
  {
    a - CppDiv(a, b) * b
  }

  function GetLoc(x: int, y: int, xSize: int): Loc {
    (x + 1) + (y + 1) * (xSize + 1)
  }

  function GetX(loc: Loc, xSize: nat): int {
    CppMod(loc, xSize + 1) - 1
  }

  function GetY(loc: Loc, xSize: nat): int {
    CppDiv(loc, xSize + 1) - 1
  }

  predicate OnBoardXY(x: int, y: int, xSize: int, ySize: int) {
    0 <= x < xSize && 0 <= y < ySize
  }

  /** The location is non-negative and decodes to a cell inside the board. */
  predicate IsOnBoard(loc: Loc, xSize: nat, ySize: nat) {
    loc >= 0 && OnBoardXY(GetX(loc, xSize), GetY(loc, xSize), xSize, ySize)
  }

  /** (q*d + r) / d == q and (q*d + r) % d == r for 0 <= r < d. */
  lemma {:induction false} DivModUnique(q: int, r: int, d: int)
    requires d > 0 && 0 <= r < d && q >= 0
    ensures (q * d + r) / d == q && (q * d + r) % d == r
  {
    var n := q * d + r;
    var q', r' := n / d, n % d;
    assert n == q' * d + r';
    if q' < q {
      MulMono(q' + 1, q, d);
      assert false;
    } else if q' > q {
      MulMono(q + 1, q', d);
      assert false;
    }
  }

  lemma MulMono(a: int, b: int, d: int)
    requires a <= b && d >= 0
    ensures a * d <= b * d
  {
    assert b * d - a * d == (b - a) * d;
  }

  /** Decoding an on-board location gives back its coordinates. */
  lemma LocRoundTrip(x: int, y: int, xSize: nat)
    requires 0 <= x < xSize && y >= 0
    ensures GetLoc(x, y, xSize) >= xSize + 2
    ensures GetX(GetLoc(x, y, xSize), xSize) == x
    ensures GetY(GetLoc(x, y, xSize), xSize) == y
  {
    DivModUnique(y + 1, x + 1, xSize + 1);
    assert GetLoc(x, y, xSize) == (y + 1) * (xSize + 1) + (x + 1);
  }

  /** Every non-negative location is the location of its decoded cell. */
  lemma LocDecode(loc: Loc, xSize: nat)
    requires loc >= 0
    ensures GetLoc(GetX(loc, xSize), GetY(loc, xSize), xSize) == loc
  {
  }

  /** On-board cells never collide with NULL_LOC, PASS_LOC or each other. */
  lemma {:induction false} GetLocInjective(x1: int, y1: int, x2: int, y2: int, xSize: nat)
    requires 0 <= x1 < xSize && 0 <= x2 < xSize && y1 >= 0 && y2 >= 0
    ensures GetLoc(x1, y1, xSize) != NULL_LOC && GetLoc(x1, y1, xSize) != PASS_LOC
    ensures GetLoc(x1, y1, xSize) == GetLoc(x2, y2, xSize) <==> x1 == x2 && y1 == y2
  {
    LocRoundTrip(x1, y1, xSize);
    LocRoundTrip(x2, y2, xSize);
  }

  lemma OnBoardLocBound(x: int, y: int, xSize: nat, ySize: nat)
    requires OnBoardXY(x, y, xSize, ySize)
    ensures 0 <= GetLoc(x, y, xSize) < ArrSize(xSize, ySize)
  {
    assert (y + 1) * (xSize + 1) <= ySize * (xSize + 1);
  }

  /** Number of array slots needed to index every on-board cell of a board. */
  function ArrSize(xSize: nat, ySize: nat): nat {
    (xSize + 1) * (ySize + 2) + 1
  }

  /** The state of a board that this core reads: its size, the colour at
      every location and the simple-ko location. */
  datatype Board = Board(xSize: nat, ySize: nat, colors: seq<Color>, koLoc: Loc)

  predicate ValidBoard(b: Board) {
    b.xSize >= 1 && b.ySize >= 1 && |b.colors| >= ArrSize(b.xSize, b.ySize)
  }

  function ColorAt(b: Board, x: int, y: int): Color
    requires ValidBoard(b) && OnBoardXY(x, y, b.xSize, b.ySize)
  {
    OnBoardLocBound(x, y, b.xSize, b.ySize);
    b.colors[GetLoc(x, y, b.xSize)]
  }
}
