/** The symmetry expansion at the end of getAnalysisData: when root symmetry
    pruning searched only one move of each class of symmetric moves, each
    analysed move is copied once per root symmetry onto its image, skipping
    images already emitted and images the root player is told to avoid; then
    every record is numbered by its position. */
module AnalysisSymmetry {
  import opened Location
  import opened Symmetry
  import opened PlaySelection

  /** The fields of an analysed move that the expansion reads or rewrites;
      info stands for all the others, which a copy keeps as they are. */
  datatype AnalysisData<T> = AnalysisData(
    move: Loc,
    isSymmetryOf: Loc,
    symmetry: Symmetry,
    order: int,
    pv: seq<Loc>,
    info: T)

  /** A move of the root board: NULL_LOC, PASS_LOC or a cell of the board. */
  predicate IsMoveLoc(loc: Loc, xSize: nat, ySize: nat) {
    loc == NULL_LOC || loc == PASS_LOC || IsOnBoard(loc, xSize, ySize)
  }

  /** Every symmetry listed maps the root board onto itself. */
  predicate SymmetriesAllowed(xSize: nat, ySize: nat, syms: seq<Symmetry>) {
    forall k :: 0 <= k < |syms| ==> SymAllowed(xSize, ySize, syms[k])
  }

  predicate MovesOnBoard<T>(xSize: nat, ySize: nat, buf: seq<AnalysisData<T>>) {
    forall i :: 0 <= i < |buf| ==> IsMoveLoc(buf[i].move, xSize, ySize)
  }

  /** Every move of the root board indexes the avoid list, when it has entries. */
  predicate AvoidCovers(ctx: RootContext) {
    |AvoidMoveUntilByLoc(ctx)| == 0 || |AvoidMoveUntilByLoc(ctx)| >= ArrSize(ctx.xSize, ctx.ySize)
  }

  /** The image of a root-board move under an allowed symmetry is again a
      move of that board, inside its per-location arrays. */
  lemma SymMoveOnBoard(loc: Loc, xSize: nat, ySize: nat, s: Symmetry)
    requires IsMoveLoc(loc, xSize, ySize) && SymAllowed(xSize, ySize, s)
    ensures IsMoveLoc(GetSymLoc(loc, xSize, ySize, s), xSize, ySize)
    ensures 0 <= GetSymLoc(loc, xSize, ySize, s) < ArrSize(xSize, ySize)
  {
    if loc != NULL_LOC && loc != PASS_LOC {
      var x, y := GetX(loc, xSize), GetY(loc, xSize);
      SymLocOnSameBoard(x, y, xSize, ySize, s);
      var p := SymXY(x, y, xSize, ySize, s);
      LocRoundTrip(p.0, p.1, xSize);
    }
  }

  /** The avoid list forbids the move for now. */
  predicate Avoided(ctx: RootContext, loc: Loc)
    requires AvoidCovers(ctx) && 0 <= loc < ArrSize(ctx.xSize, ctx.ySize)
  {
    var avoid := AvoidMoveUntilByLoc(ctx);
    |avoid| > 0 && avoid[loc] > 0
  }

  /** The principal variation mapped move by move. */
  function SymPV(pv: seq<Loc>, xSize: nat, ySize: nat, s: Symmetry): (r: seq<Loc>)
    ensures |r| == |pv|
  {
    seq(|pv|, j requires 0 <= j < |pv| => GetSymLoc(pv[j], xSize, ySize, s))
  }

  /** The copy of a record for one symmetry. */
  function SymmetryCopy<T>(data: AnalysisData<T>, xSize: nat, ySize: nat, s: Symmetry): AnalysisData<T> {
    data.(move := GetSymLoc(data.move, xSize, ySize, s),
          isSymmetryOf := if s != 0 then data.move else data.isSymmetryOf,
          symmetry := s,
          pv := SymPV(data.pv, xSize, ySize, s))
  }

  /** The identity copy is the record itself, tagged with symmetry 0; any
      other copy names the original move, and mapping the copy's move and
      variation back by the inverse symmetry gives the original ones. */
  lemma {:induction false} SymmetryCopyInverts<T>(data: AnalysisData<T>, xSize: nat, ySize: nat, s: Symmetry)
    requires IsMoveLoc(data.move, xSize, ySize) && SymAllowed(xSize, ySize, s)
    requires forall j :: 0 <= j < |data.pv| ==> IsMoveLoc(data.pv[j], xSize, ySize)
    ensures var c := SymmetryCopy(data, xSize, ySize, s);
      (s == 0 ==> c == data.(symmetry := 0)) &&
      (s != 0 ==> c.isSymmetryOf == data.move) &&
      c.info == data.info && c.order == data.order && c.symmetry == s &&
      GetSymLoc(c.move, xSize, ySize, Invert(s)) == data.move &&
      SymPV(c.pv, xSize, ySize, Invert(s)) == data.pv
  {
    var c := SymmetryCopy(data, xSize, ySize, s);
    SymBack(data.move, xSize, ySize, s);
    forall j | 0 <= j < |data.pv|
      ensures GetSymLoc(c.pv[j], xSize, ySize, Invert(s)) == data.pv[j]
    {
      SymBack(data.pv[j], xSize, ySize, s);
    }
    if s == 0 {
      forall j | 0 <= j < |data.pv|
        ensures c.pv[j] == data.pv[j]
      {
        SymIdentity(data.pv[j], xSize, ySize);
      }
      SymIdentity(data.move, xSize, ySize);
    }
  }

  /** A root-board move mapped by a symmetry and back by its inverse. */
  lemma SymBack(loc: Loc, xSize: nat, ySize: nat, s: Symmetry)
    requires IsMoveLoc(loc, xSize, ySize) && SymAllowed(xSize, ySize, s)
    ensures GetSymLoc(GetSymLoc(loc, xSize, ySize, s), xSize, ySize, Invert(s)) == loc
  {
    if loc == NULL_LOC || loc == PASS_LOC {
      SymFixesSpecialLocs(xSize, ySize, s);
      SymFixesSpecialLocs(xSize, ySize, Invert(s));
    } else {
      SymLocInverse(loc, xSize, ySize, s);
    }
  }

  /** The records emitted so far and the set of their moves (isDone). */
  datatype Expansion<T> = Expansion(out: seq<AnalysisData<T>>, isDone: set<Loc>)

  predicate StepReady<T>(ctx: RootContext, data: AnalysisData<T>, s: Symmetry) {
    AvoidCovers(ctx) && IsMoveLoc(data.move, ctx.xSize, ctx.ySize) && SymAllowed(ctx.xSize, ctx.ySize, s)
  }

  /** One pass of the inner loop: the image is skipped when already emitted
      or avoided, and otherwise recorded and the copy appended. */
  function ExpandStep<T>(ctx: RootContext, st: Expansion<T>, data: AnalysisData<T>, s: Symmetry): Expansion<T>
    requires StepReady(ctx, data, s)
  {
    SymMoveOnBoard(data.move, ctx.xSize, ctx.ySize, s);
    var symMove := GetSymLoc(data.move, ctx.xSize, ctx.ySize, s);
    if symMove in st.isDone then st
    else if Avoided(ctx, symMove) then st
    else Expansion(st.out + [SymmetryCopy(data, ctx.xSize, ctx.ySize, s)], st.isDone + {symMove})
  }

  /** The inner loop over the root symmetries for one record. */
  function ExpandRow<T>(ctx: RootContext, st: Expansion<T>, data: AnalysisData<T>, syms: seq<Symmetry>): Expansion<T>
    requires AvoidCovers(ctx) && IsMoveLoc(data.move, ctx.xSize, ctx.ySize) && SymmetriesAllowed(ctx.xSize, ctx.ySize, syms)
    decreases |syms|
  {
    if |syms| == 0 then st
    else ExpandStep(ctx, ExpandRow(ctx, st, data, syms[..|syms| - 1]), data, syms[|syms| - 1])
  }

  /** The outer loop over the records. */
  function ExpandRows<T>(ctx: RootContext, st: Expansion<T>, buf: seq<AnalysisData<T>>, syms: seq<Symmetry>): Expansion<T>
    requires AvoidCovers(ctx) && MovesOnBoard(ctx.xSize, ctx.ySize, buf) && SymmetriesAllowed(ctx.xSize, ctx.ySize, syms)
    decreases |buf|
  {
    if |buf| == 0 then st
    else ExpandRow(ctx, ExpandRows(ctx, st, buf[..|buf| - 1], syms), buf[|buf| - 1], syms)
  }

  /** The records the expansion produces: no move twice, and no avoided move. */
  function Expanded<T>(ctx: RootContext, buf: seq<AnalysisData<T>>, syms: seq<Symmetry>): (out: seq<AnalysisData<T>>)
    requires AvoidCovers(ctx) && MovesOnBoard(ctx.xSize, ctx.ySize, buf) && SymmetriesAllowed(ctx.xSize, ctx.ySize, syms)
    ensures DistinctMoves(out) && NoneAvoided(ctx, out)
  {
    RowsConsistent(ctx, buf, syms);
    ExpandRows(ctx, Expansion([], {}), buf, syms).out
  }

  /** isDone holds exactly the moves emitted. */
  predicate DoneIsEmitted<T>(st: Expansion<T>) {
    (forall j :: 0 <= j < |st.out| ==> st.out[j].move in st.isDone) &&
    (forall m :: m in st.isDone ==> exists j :: 0 <= j < |st.out| && st.out[j].move == m)
  }

  /** No move is emitted twice. */
  predicate DistinctMoves<T>(out: seq<AnalysisData<T>>) {
    forall a, b :: 0 <= a < b < |out| ==> out[a].move != out[b].move
  }

  /** No emitted move is avoided. */
  predicate NoneAvoided<T>(ctx: RootContext, out: seq<AnalysisData<T>>)
    requires AvoidCovers(ctx)
  {
    forall j :: 0 <= j < |out| ==> 0 <= out[j].move < ArrSize(ctx.xSize, ctx.ySize) && !Avoided(ctx, out[j].move)
  }

  /** The invariant of the loops. */
  predicate Consistent<T>(ctx: RootContext, st: Expansion<T>)
    requires AvoidCovers(ctx)
  {
    DoneIsEmitted(st) && DistinctMoves(st.out) && NoneAvoided(ctx, st.out)
  }

  /** The image of a record under a symmetry has been emitted or is avoided. */
  predicate Covered<T>(ctx: RootContext, st: Expansion<T>, data: AnalysisData<T>, s: Symmetry)
    requires StepReady(ctx, data, s)
  {
    SymMoveOnBoard(data.move, ctx.xSize, ctx.ySize, s);
    var symMove := GetSymLoc(data.move, ctx.xSize, ctx.ySize, s);
    symMove in st.isDone || Avoided(ctx, symMove)
  }

  /** Appending a record whose move is new keeps isDone the set of emitted
      moves and the moves distinct. */
  lemma AppendNew<T>(st: Expansion<T>, d: AnalysisData<T>)
    requires DoneIsEmitted(st) && DistinctMoves(st.out) && d.move !in st.isDone
    ensures var next := Expansion(st.out + [d], st.isDone + {d.move});
      DoneIsEmitted(next) && DistinctMoves(next.out)
  {
    var next := Expansion(st.out + [d], st.isDone + {d.move});
    forall m | m in next.isDone
      ensures exists j :: 0 <= j < |next.out| && next.out[j].move == m
    {
      if m == d.move {
        assert next.out[|st.out|] == d;
      } else {
        var j :| 0 <= j < |st.out| && st.out[j].move == m;
        assert next.out[j] == st.out[j];
      }
    }
  }

  /** One step keeps the invariant. */
  lemma {:induction false} StepConsistent<T>(ctx: RootContext, st: Expansion<T>, data: AnalysisData<T>, s: Symmetry)
    requires StepReady(ctx, data, s) && Consistent(ctx, st)
    ensures Consistent(ctx, ExpandStep(ctx, st, data, s))
  {
    SymMoveOnBoard(data.move, ctx.xSize, ctx.ySize, s);
    var symMove := GetSymLoc(data.move, ctx.xSize, ctx.ySize, s);
    if symMove !in st.isDone && !Avoided(ctx, symMove) {
      var c := SymmetryCopy(data, ctx.xSize, ctx.ySize, s);
      AppendNew(st, c);
      assert ExpandStep(ctx, st, data, s) == Expansion(st.out + [c], st.isDone + {c.move});
    }
  }

  /** One step only appends a copy of the record, never forgets a move and
      covers the image it looked at. */
  lemma StepGrowth<T>(ctx: RootContext, st: Expansion<T>, data: AnalysisData<T>, s: Symmetry)
    requires StepReady(ctx, data, s)
    ensures var next := ExpandStep(ctx, st, data, s);
      st.isDone <= next.isDone && Covered(ctx, next, data, s) &&
      (next.out == st.out || next.out == st.out + [SymmetryCopy(data, ctx.xSize, ctx.ySize, s)])
  {
    SymMoveOnBoard(data.move, ctx.xSize, ctx.ySize, s);
  }

  /** The records a state holds from a given length on are copies of the
      given records under the given symmetries. */
  ghost predicate CopiesFrom<T>(out: seq<AnalysisData<T>>, from: nat, buf: seq<AnalysisData<T>>, syms: seq<Symmetry>,
                                xSize: nat, ySize: nat) {
    forall j :: from <= j < |out| ==>
      exists i, k :: 0 <= i < |buf| && 0 <= k < |syms| && out[j] == SymmetryCopy(buf[i], xSize, ySize, syms[k])
  }

  /** The inner loop keeps the invariant. */
  lemma {:induction false} RowConsistent<T>(ctx: RootContext, st: Expansion<T>, data: AnalysisData<T>, syms: seq<Symmetry>)
    requires AvoidCovers(ctx) && IsMoveLoc(data.move, ctx.xSize, ctx.ySize) && SymmetriesAllowed(ctx.xSize, ctx.ySize, syms)
    requires Consistent(ctx, st)
    ensures Consistent(ctx, ExpandRow(ctx, st, data, syms))
    decreases |syms|
  {
    if |syms| > 0 {
      RowConsistent(ctx, st, data, syms[..|syms| - 1]);
      StepConsistent(ctx, ExpandRow(ctx, st, data, syms[..|syms| - 1]), data, syms[|syms| - 1]);
    }
  }

  /** The inner loop keeps what was emitted before, never forgets a move and
      only adds copies of the record. */
  lemma {:induction false} RowGrowth<T>(ctx: RootContext, st: Expansion<T>, data: AnalysisData<T>, syms: seq<Symmetry>)
    requires AvoidCovers(ctx) && IsMoveLoc(data.move, ctx.xSize, ctx.ySize) && SymmetriesAllowed(ctx.xSize, ctx.ySize, syms)
    ensures var row := ExpandRow(ctx, st, data, syms);
      st.isDone <= row.isDone && |st.out| <= |row.out| && row.out[..|st.out|] == st.out &&
      forall j :: |st.out| <= j < |row.out| ==>
        exists k :: 0 <= k < |syms| && row.out[j] == SymmetryCopy(data, ctx.xSize, ctx.ySize, syms[k])
    decreases |syms|
  {
    if |syms| > 0 {
      var init := syms[..|syms| - 1];
      var prev := ExpandRow(ctx, st, data, init);
      RowGrowth(ctx, st, data, init);
      StepGrowth(ctx, prev, data, syms[|syms| - 1]);
      var row := ExpandRow(ctx, st, data, syms);
      assert row == ExpandStep(ctx, prev, data, syms[|syms| - 1]);
      forall j | |st.out| <= j < |row.out|
        ensures exists k :: 0 <= k < |syms| && row.out[j] == SymmetryCopy(data, ctx.xSize, ctx.ySize, syms[k])
      {
        if j < |prev.out| {
          var k :| 0 <= k < |init| && prev.out[j] == SymmetryCopy(data, ctx.xSize, ctx.ySize, init[k]);
          assert row.out[j] == prev.out[j] && init[k] == syms[k];
        } else {
          assert row.out[j] == SymmetryCopy(data, ctx.xSize, ctx.ySize, syms[|syms| - 1]);
        }
      }
      assert row.out[..|st.out|] == prev.out[..|st.out|];
    }
  }

  /** A move once emitted stays emitted, so what is covered stays covered. */
  lemma CoveredStays<T>(ctx: RootContext, st: Expansion<T>, later: Expansion<T>, data: AnalysisData<T>, s: Symmetry)
    requires StepReady(ctx, data, s) && st.isDone <= later.isDone && Covered(ctx, st, data, s)
    ensures Covered(ctx, later, data, s)
  {
    SymMoveOnBoard(data.move, ctx.xSize, ctx.ySize, s);
  }

  /** After the inner loop every image of the record is emitted or avoided. */
  lemma {:induction false} RowCovers<T>(ctx: RootContext, st: Expansion<T>, data: AnalysisData<T>, syms: seq<Symmetry>)
    requires AvoidCovers(ctx) && IsMoveLoc(data.move, ctx.xSize, ctx.ySize) && SymmetriesAllowed(ctx.xSize, ctx.ySize, syms)
    ensures forall k :: 0 <= k < |syms| ==> Covered(ctx, ExpandRow(ctx, st, data, syms), data, syms[k])
    decreases |syms|
  {
    if |syms| > 0 {
      var init := syms[..|syms| - 1];
      var prev := ExpandRow(ctx, st, data, init);
      var row := ExpandRow(ctx, st, data, syms);
      RowCovers(ctx, st, data, init);
      StepGrowth(ctx, prev, data, syms[|syms| - 1]);
      forall k | 0 <= k < |syms|
        ensures Covered(ctx, row, data, syms[k])
      {
        if k < |syms| - 1 {
          assert syms[k] == init[k];
          CoveredStays(ctx, prev, row, data, syms[k]);
        }
      }
    }
  }

  /** The outer loop keeps the invariant. */
  lemma {:induction false} RowsConsistent<T>(ctx: RootContext, buf: seq<AnalysisData<T>>, syms: seq<Symmetry>)
    requires AvoidCovers(ctx) && MovesOnBoard(ctx.xSize, ctx.ySize, buf) && SymmetriesAllowed(ctx.xSize, ctx.ySize, syms)
    ensures Consistent(ctx, ExpandRows(ctx, Expansion([], {}), buf, syms))
    decreases |buf|
  {
    if |buf| > 0 {
      RowsConsistent(ctx, buf[..|buf| - 1], syms);
      RowConsistent(ctx, ExpandRows(ctx, Expansion([], {}), buf[..|buf| - 1], syms), buf[|buf| - 1], syms);
    }
  }

  /** Everything the outer loop emits is a copy of an input record. */
  lemma {:induction false} RowsCopies<T>(ctx: RootContext, buf: seq<AnalysisData<T>>, syms: seq<Symmetry>)
    requires AvoidCovers(ctx) && MovesOnBoard(ctx.xSize, ctx.ySize, buf) && SymmetriesAllowed(ctx.xSize, ctx.ySize, syms)
    ensures CopiesFrom(ExpandRows(ctx, Expansion([], {}), buf, syms).out, 0, buf, syms, ctx.xSize, ctx.ySize)
    decreases |buf|
  {
    if |buf| > 0 {
      var init := buf[..|buf| - 1];
      var data := buf[|buf| - 1];
      var prev := ExpandRows(ctx, Expansion([], {}), init, syms);
      var st := ExpandRows(ctx, Expansion([], {}), buf, syms);
      RowsCopies(ctx, init, syms);
      RowGrowth(ctx, prev, data, syms);
      forall j | 0 <= j < |st.out|
        ensures exists i, k :: 0 <= i < |buf| && 0 <= k < |syms| && st.out[j] == SymmetryCopy(buf[i], ctx.xSize, ctx.ySize, syms[k])
      {
        if j < |prev.out| {
          assert st.out[j] == prev.out[j];
          var i, k :| 0 <= i < |init| && 0 <= k < |syms| && prev.out[j] == SymmetryCopy(init[i], ctx.xSize, ctx.ySize, syms[k]);
          assert init[i] == buf[i];
        } else {
          var k :| 0 <= k < |syms| && st.out[j] == SymmetryCopy(data, ctx.xSize, ctx.ySize, syms[k]);
          assert st.out[j] == SymmetryCopy(buf[|buf| - 1], ctx.xSize, ctx.ySize, syms[k]);
        }
      }
    }
  }

  /** After the outer loop every image of every record is emitted or avoided. */
  lemma {:induction false} RowsCovers<T>(ctx: RootContext, buf: seq<AnalysisData<T>>, syms: seq<Symmetry>)
    requires AvoidCovers(ctx) && MovesOnBoard(ctx.xSize, ctx.ySize, buf) && SymmetriesAllowed(ctx.xSize, ctx.ySize, syms)
    ensures forall i, k :: 0 <= i < |buf| && 0 <= k < |syms| ==>
      Covered(ctx, ExpandRows(ctx, Expansion([], {}), buf, syms), buf[i], syms[k])
    decreases |buf|
  {
    if |buf| > 0 {
      var init := buf[..|buf| - 1];
      var data := buf[|buf| - 1];
      var prev := ExpandRows(ctx, Expansion([], {}), init, syms);
      var st := ExpandRows(ctx, Expansion([], {}), buf, syms);
      RowsCovers(ctx, init, syms);
      RowGrowth(ctx, prev, data, syms);
      RowCovers(ctx, prev, data, syms);
      forall i, k | 0 <= i < |buf| && 0 <= k < |syms|
        ensures Covered(ctx, st, buf[i], syms[k])
      {
        if i < |buf| - 1 {
          assert buf[i] == init[i];
          CoveredStays(ctx, prev, st, buf[i], syms[k]);
        }
      }
    }
  }

  /** The expansion never emits a move twice or an avoided move, emits only
      copies of the input records under the root symmetries, and emits every
      image of every input move that is not avoided. */
  lemma ExpansionProperties<T>(ctx: RootContext, buf: seq<AnalysisData<T>>, syms: seq<Symmetry>)
    requires AvoidCovers(ctx) && MovesOnBoard(ctx.xSize, ctx.ySize, buf) && SymmetriesAllowed(ctx.xSize, ctx.ySize, syms)
    ensures var out := Expanded(ctx, buf, syms);
      (forall a, b :: 0 <= a < b < |out| ==> out[a].move != out[b].move) &&
      (forall j :: 0 <= j < |out| ==> 0 <= out[j].move < ArrSize(ctx.xSize, ctx.ySize) && !Avoided(ctx, out[j].move)) &&
      CopiesFrom(out, 0, buf, syms, ctx.xSize, ctx.ySize) &&
      (forall i, k :: 0 <= i < |buf| && 0 <= k < |syms| ==>
        (SymMoveOnBoard(buf[i].move, ctx.xSize, ctx.ySize, syms[k]);
         var symMove := GetSymLoc(buf[i].move, ctx.xSize, ctx.ySize, syms[k]);
         Avoided(ctx, symMove) || exists j :: 0 <= j < |out| && out[j].move == symMove))
  {
    RowsConsistent(ctx, buf, syms);
    RowsCopies(ctx, buf, syms);
    RowsCovers(ctx, buf, syms);
    var st := ExpandRows(ctx, Expansion([], {}), buf, syms);
    forall i, k | 0 <= i < |buf| && 0 <= k < |syms|
      ensures (SymMoveOnBoard(buf[i].move, ctx.xSize, ctx.ySize, syms[k]);
        var symMove := GetSymLoc(buf[i].move, ctx.xSize, ctx.ySize, syms[k]);
        Avoided(ctx, symMove) || exists j :: 0 <= j < |st.out| && st.out[j].move == symMove)
    {
      SymMoveOnBoard(buf[i].move, ctx.xSize, ctx.ySize, syms[k]);
      assert Covered(ctx, st, buf[i], syms[k]);
    }
  }

  /** What a copy keeps of its original and how it names it. */
  ghost predicate DerivedFrom<T>(c: AnalysisData<T>, data: AnalysisData<T>, s: Symmetry, xSize: nat, ySize: nat) {
    c.symmetry == s && c.info == data.info && |c.pv| == |data.pv| &&
    (s == 0 ==> c.move == data.move && c.isSymmetryOf == data.isSymmetryOf) &&
    (s != 0 ==> c.isSymmetryOf == data.move) &&
    GetSymLoc(c.move, xSize, ySize, Invert(s)) == data.move
  }

  /** Each emitted record comes from an input record under one of the root
      symmetries: it keeps the record's other fields; under the identity it
      keeps the move and isSymmetryOf, and under any other symmetry
      isSymmetryOf names the original move; the inverse symmetry maps the
      emitted move back to the original. */
  lemma {:induction false} ExpandedOrigins<T>(ctx: RootContext, buf: seq<AnalysisData<T>>, syms: seq<Symmetry>)
    requires AvoidCovers(ctx) && MovesOnBoard(ctx.xSize, ctx.ySize, buf) && SymmetriesAllowed(ctx.xSize, ctx.ySize, syms)
    ensures var out := Expanded(ctx, buf, syms);
      forall j :: 0 <= j < |out| ==>
        exists i, k :: 0 <= i < |buf| && 0 <= k < |syms| && DerivedFrom(out[j], buf[i], syms[k], ctx.xSize, ctx.ySize)
  {
    var out := Expanded(ctx, buf, syms);
    RowsCopies(ctx, buf, syms);
    forall j | 0 <= j < |out|
      ensures exists i, k :: 0 <= i < |buf| && 0 <= k < |syms| && DerivedFrom(out[j], buf[i], syms[k], ctx.xSize, ctx.ySize)
    {
      var i, k :| 0 <= i < |buf| && 0 <= k < |syms| && out[j] == SymmetryCopy(buf[i], ctx.xSize, ctx.ySize, syms[k]);
      SymBack(buf[i].move, ctx.xSize, ctx.ySize, syms[k]);
      if syms[k] == 0 {
        SymIdentity(buf[i].move, ctx.xSize, ctx.ySize);
      }
    }
  }

  /** The loop mapping a copy's principal variation in place. */
  method MapPV(pv: seq<Loc>, xSize: nat, ySize: nat, s: Symmetry) returns (r: seq<Loc>)
    ensures r == SymPV(pv, xSize, ySize, s)
  {
    r := pv;
    for j := 0 to |r|
      invariant |r| == |pv|
      invariant forall t :: 0 <= t < j ==> r[t] == GetSymLoc(pv[t], xSize, ySize, s)
      invariant forall t :: j <= t < |r| ==> r[t] == pv[t]
    {
      r := r[j := GetSymLoc(r[j], xSize, ySize, s)];
    }
  }

  /** The two loops of the expansion, with isDone as a set. */
  method ExpandBySymmetry<T>(ctx: RootContext, rootSymmetries: seq<Symmetry>, buf: seq<AnalysisData<T>>)
    returns (newBuf: seq<AnalysisData<T>>)
    requires AvoidCovers(ctx) && MovesOnBoard(ctx.xSize, ctx.ySize, buf)
    requires SymmetriesAllowed(ctx.xSize, ctx.ySize, rootSymmetries)
    ensures newBuf == Expanded(ctx, buf, rootSymmetries)
  {
    newBuf := [];
    var isDone: set<Loc> := {};
    var avoidMoveUntilByLoc := AvoidMoveUntilByLoc(ctx);
    for i := 0 to |buf|
      invariant Expansion(newBuf, isDone) == ExpandRows(ctx, Expansion([], {}), buf[..i], rootSymmetries)
    {
      var data := buf[i];
      ghost var before := Expansion(newBuf, isDone);
      for k := 0 to |rootSymmetries|
        invariant Expansion(newBuf, isDone) == ExpandRow(ctx, before, data, rootSymmetries[..k])
      {
        var symmetry := rootSymmetries[k];
        assert rootSymmetries[..k + 1][..k] == rootSymmetries[..k];
        SymMoveOnBoard(data.move, ctx.xSize, ctx.ySize, symmetry);
        var symMove := GetSymLoc(data.move, ctx.xSize, ctx.ySize, symmetry);
        if symMove in isDone {
          continue;
        }
        if |avoidMoveUntilByLoc| > 0 && avoidMoveUntilByLoc[symMove] > 0 {
          continue;
        }
        isDone := isDone + {symMove};
        var newPV := MapPV(data.pv, ctx.xSize, ctx.ySize, symmetry);
        var newData := data.(move := symMove, symmetry := symmetry, pv := newPV);
        if symmetry != 0 {
          newData := newData.(isSymmetryOf := data.move);
        }
        newBuf := newBuf + [newData];
      }
      assert rootSymmetries[..|rootSymmetries|] == rootSymmetries;
      assert buf[..i + 1][..i] == buf[..i];
    }
    assert buf[..|buf|] == buf;
  }

  /** The last loop: each record's order becomes its index. */
  method NumberInOrder<T>(buf: seq<AnalysisData<T>>) returns (r: seq<AnalysisData<T>>)
    ensures |r| == |buf|
    ensures forall i :: 0 <= i < |r| ==> r[i].order == i && r[i] == buf[i].(order := i)
  {
    r := buf;
    for i := 0 to |r|
      invariant |r| == |buf|
      invariant forall t :: 0 <= t < i ==> r[t] == buf[t].(order := t)
      invariant forall t :: i <= t < |r| ==> r[t] == buf[t]
    {
      r := r[i := r[i].(order := i)];
    }
  }

  /** The expansion applies only when duplicates are asked for, root symmetry
      pruning is on and the root has a symmetry besides the identity. */
  predicate ExpansionApplies(duplicateForSymmetries: bool, rootSymmetryPruning: bool, rootSymmetries: seq<Symmetry>) {
    duplicateForSymmetries && rootSymmetryPruning && |rootSymmetries| > 1
  }

  predicate ExpansionReady<T>(ctx: RootContext, duplicateForSymmetries: bool, rootSymmetryPruning: bool,
                              rootSymmetries: seq<Symmetry>, buf: seq<AnalysisData<T>>) {
    ExpansionApplies(duplicateForSymmetries, rootSymmetryPruning, rootSymmetries) ==>
      AvoidCovers(ctx) && MovesOnBoard(ctx.xSize, ctx.ySize, buf) && SymmetriesAllowed(ctx.xSize, ctx.ySize, rootSymmetries)
  }

  /** The end of getAnalysisData after the sort: the records, expanded when
      the expansion applies, numbered in order. */
  method FinishAnalysisData<T>(ctx: RootContext, duplicateForSymmetries: bool, rootSymmetryPruning: bool,
                               rootSymmetries: seq<Symmetry>, buf: seq<AnalysisData<T>>)
    returns (r: seq<AnalysisData<T>>)
    requires ExpansionReady(ctx, duplicateForSymmetries, rootSymmetryPruning, rootSymmetries, buf)
    ensures var expanded :=
      if ExpansionApplies(duplicateForSymmetries, rootSymmetryPruning, rootSymmetries)
      then Expanded(ctx, buf, rootSymmetries) else buf;
      |r| == |expanded| && forall i :: 0 <= i < |r| ==> r[i] == expanded[i].(order := i)
  {
    var b := buf;
    if duplicateForSymmetries && rootSymmetryPruning && |rootSymmetries| > 1 {
      b := ExpandBySymmetry(ctx, rootSymmetries, buf);
    }
    r := NumberInOrder(b);
  }
}
