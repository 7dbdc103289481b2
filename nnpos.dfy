/** Conversion between board locations and flat indices of the neural net's
    policy vector. The net works on an nnXLen x nnYLen grid that may be larger
    than the board; index nnXLen * nnYLen is the extra slot for passing. */
module NNPos {
  import opened Location

  /** The row-major index of cell (x, y): a cell of the grid is recovered as
      the remainder and quotient of its index by the row length. */
  function XYToPos(x: int, y: int, nnXLen: int): (pos: int)
    ensures 0 <= x < nnXLen && y >= 0 ==> pos >= 0 && pos % nnXLen == x && pos / nnXLen == y
  {
    if 0 <= x < nnXLen && y >= 0 then
      DivModUnique(y, x, nnXLen);
      MulMono(0, y, nnXLen);
      y * nnXLen + x
    else y * nnXLen + x
  }

  /** The index of a location: pass has the pass slot, NULL_LOC a slot past the
      policy vector, and a cell the index of its coordinates. */
  function LocToPos(loc: Loc, boardXSize: nat, nnXLen: int, nnYLen: int): (pos: int)
    ensures loc == PASS_LOC ==> pos == GetPassPos(nnXLen, nnYLen)
    ensures loc == NULL_LOC && nnXLen > 0 ==> pos >= GetPolicySize(nnXLen, nnYLen)
    ensures loc != PASS_LOC && loc != NULL_LOC ==> pos == XYToPos(GetX(loc, boardXSize), GetY(loc, boardXSize), nnXLen)
  {
    if loc == PASS_LOC then nnXLen * nnYLen
    else if loc == NULL_LOC then
      assert nnXLen * (nnYLen + 1) == nnXLen * nnYLen + nnXLen;
      nnXLen * (nnYLen + 1)
    else GetY(loc, boardXSize) * nnXLen + GetX(loc, boardXSize)
  }

  /** Decodes a policy index; an index whose cell lies off the board is NULL_LOC.
      Whatever the index, the result is a location a move can be made at. */
  function PosToLoc(pos: int, boardXSize: nat, boardYSize: nat, nnXLen: int, nnYLen: int): (loc: Loc)
    requires nnXLen > 0
    ensures loc == PASS_LOC || loc == NULL_LOC || IsOnBoard(loc, boardXSize, boardYSize)
    ensures loc == PASS_LOC <==> pos == nnXLen * nnYLen
  {
    if pos == nnXLen * nnYLen then PASS_LOC
    else
      var x := CppMod(pos, nnXLen);
      var y := CppDiv(pos, nnXLen);
      if x < 0 || x >= boardXSize || y < 0 || y >= boardYSize then NULL_LOC
      else
        LocRoundTrip(x, y, boardXSize);
        GetLoc(x, y, boardXSize)
  }

  /** The pass slot: on any board it decodes to the pass move. */
  function GetPassPos(nnXLen: int, nnYLen: int): (pos: int)
    ensures nnXLen > 0 ==> forall xSize: nat, ySize: nat :: PosToLoc(pos, xSize, ySize, nnXLen, nnYLen) == PASS_LOC
  {
    nnXLen * nnYLen
  }

  predicate IsPassPos(pos: int, nnXLen: int, nnYLen: int): (b: bool)
    ensures b <==> pos == GetPassPos(nnXLen, nnYLen)
  {
    pos == nnXLen * nnYLen
  }

  /** One entry per cell of the grid and one for passing, which comes last. */
  function GetPolicySize(nnXLen: int, nnYLen: int): (n: int)
    ensures n == GetPassPos(nnXLen, nnYLen) + 1
  {
    nnXLen * nnYLen + 1
  }

  /** The pass move has its own slot, the last one of the policy vector. */
  lemma PassSlot(boardXSize: nat, boardYSize: nat, nnXLen: int, nnYLen: int)
    requires nnXLen > 0
    ensures LocToPos(PASS_LOC, boardXSize, nnXLen, nnYLen) == GetPassPos(nnXLen, nnYLen) == nnXLen * nnYLen
    ensures PosToLoc(GetPassPos(nnXLen, nnYLen), boardXSize, boardYSize, nnXLen, nnYLen) == PASS_LOC
    ensures forall pos :: IsPassPos(pos, nnXLen, nnYLen) <==> pos == GetPassPos(nnXLen, nnYLen)
    ensures GetPolicySize(nnXLen, nnYLen) == GetPassPos(nnXLen, nnYLen) + 1
  {
  }

  /** The cell (x, y) of a board no larger than the net's grid has an index
      below the pass slot. */
  lemma {:induction false} CellPosBound(x: int, y: int, nnXLen: int, nnYLen: int)
    requires 0 <= x < nnXLen && 0 <= y < nnYLen
    ensures 0 <= XYToPos(x, y, nnXLen) < nnXLen * nnYLen
  {
    MulMono(y + 1, nnYLen, nnXLen);
    MulMono(0, y, nnXLen);
  }

  /** Encoding an on-board location and decoding the index gives the location
      back, provided the board fits in the net's grid. */
  lemma {:induction false} LocPosRoundTrip(loc: Loc, boardXSize: nat, boardYSize: nat, nnXLen: int, nnYLen: int)
    requires IsOnBoard(loc, boardXSize, boardYSize)
    requires boardXSize <= nnXLen && boardYSize <= nnYLen
    ensures 0 <= LocToPos(loc, boardXSize, nnXLen, nnYLen) < GetPassPos(nnXLen, nnYLen)
    ensures PosToLoc(LocToPos(loc, boardXSize, nnXLen, nnYLen), boardXSize, boardYSize, nnXLen, nnYLen) == loc
  {
    var x, y := GetX(loc, boardXSize), GetY(loc, boardXSize);
    LocDecode(loc, boardXSize);
    LocRoundTrip(x, y, boardXSize);
    assert loc != NULL_LOC && loc != PASS_LOC;
    var pos := y * nnXLen + x;
    assert LocToPos(loc, boardXSize, nnXLen, nnYLen) == pos;
    CellPosBound(x, y, nnXLen, nnYLen);
    DivModUnique(y, x, nnXLen);
    assert CppMod(pos, nnXLen) == x && CppDiv(pos, nnXLen) == y;
  }

  /** Decoding an index of an on-board cell and encoding it again gives the
      index back. */
  lemma {:induction false} PosLocRoundTrip(pos: int, boardXSize: nat, boardYSize: nat, nnXLen: int, nnYLen: int)
    requires nnXLen > 0 && 0 <= pos < GetPassPos(nnXLen, nnYLen)
    requires PosToLoc(pos, boardXSize, boardYSize, nnXLen, nnYLen) != NULL_LOC
    ensures LocToPos(PosToLoc(pos, boardXSize, boardYSize, nnXLen, nnYLen), boardXSize, nnXLen, nnYLen) == pos
  {
    var x, y := pos % nnXLen, pos / nnXLen;
    LocRoundTrip(x, y, boardXSize);
  }

  /** NULL_LOC is encoded past the end of the policy vector. */
  lemma NullPosOutsidePolicy(boardXSize: nat, nnXLen: int, nnYLen: int)
    requires nnXLen > 0
    ensures LocToPos(NULL_LOC, boardXSize, nnXLen, nnYLen) >= GetPolicySize(nnXLen, nnYLen)
  {
  }
}
