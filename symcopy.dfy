/** Copying a batch of board-shaped tensors through a symmetry, in either
    channel-last (NHWC) or channel-first (NCHW) layout. Inputs to the net are
    copied forward; the net's outputs are copied back with `reverse` set, which
    undoes the forward copy. */
module SymmetryCopy {
  import opened Location
  import opened Symmetry

  /** Which axes the copy flips and whether it swaps them. */
  datatype Orientation = Orientation(transpose: bool, flipX: bool, flipY: bool)

  /** A transpose is honoured only on square tensors; going forward through a
      transpose, the flips are applied to the swapped axes. */
  function CopyOrientation(hSize: int, wSize: int, s: Symmetry, reverse: bool): (o: Orientation)
    ensures o.transpose <==> IsTranspose(s) && hSize == wSize
    ensures o.flipX == (if o.transpose && !reverse then IsFlipY(s) else IsFlipX(s))
    ensures o.flipY == (if o.transpose && !reverse then IsFlipX(s) else IsFlipY(s))
  {
    var t := IsTranspose(s) && hSize == wSize;
    var fx := IsFlipX(s);
    var fy := IsFlipY(s);
    if t && !reverse then Orientation(t, fy, fx) else Orientation(t, fx, fy)
  }

  /** Row and column that the cell (h, w) of the source is copied to. */
  function DstRow(o: Orientation, hSize: int, wSize: int, h: int, w: int): int {
    if o.transpose then (if o.flipY then hSize - 1 - w else w)
    else (if o.flipY then hSize - 1 - h else h)
  }

  function DstCol(o: Orientation, hSize: int, wSize: int, h: int, w: int): int {
    if o.transpose then (if o.flipX then wSize - 1 - h else h)
    else (if o.flipX then wSize - 1 - w else w)
  }

  /** Flat index of element (a, h, w, k) of an A x H x W x K tensor. */
  function Flat(a: int, h: int, w: int, k: int, hSize: int, wSize: int, kSize: int): int {
    ((a * hSize + h) * wSize + w) * kSize + k
  }

  predicate InBox(a: int, h: int, w: int, k: int, aSize: int, hSize: int, wSize: int, kSize: int) {
    0 <= a < aSize && 0 <= h < hSize && 0 <= w < wSize && 0 <= k < kSize
  }

  /** (a, h, w, k) comes before (a', h', w', k') in the order the loops visit. */
  predicate Before(a: int, h: int, w: int, k: int, a': int, h': int, w': int, k': int) {
    a < a' || (a == a' && (h < h' || (h == h' && (w < w' || (w == w' && k < k')))))
  }

  function Total(aSize: nat, hSize: nat, wSize: nat, kSize: nat): nat {
    aSize * hSize * wSize * kSize
  }

  // ---- the destination cell map is a bijection of the H x W grid ----

  lemma DstCellInBounds(o: Orientation, hSize: int, wSize: int, h: int, w: int)
    requires o.transpose ==> hSize == wSize
    requires 0 <= h < hSize && 0 <= w < wSize
    ensures 0 <= DstRow(o, hSize, wSize, h, w) < hSize && 0 <= DstCol(o, hSize, wSize, h, w) < wSize
  {
  }

  lemma DstCellInjective(o: Orientation, hSize: int, wSize: int, h: int, w: int, h': int, w': int)
    requires DstRow(o, hSize, wSize, h, w) == DstRow(o, hSize, wSize, h', w')
    requires DstCol(o, hSize, wSize, h, w) == DstCol(o, hSize, wSize, h', w')
    ensures h == h' && w == w'
  {
  }

  /** Every cell of the grid is the destination of some cell. */
  lemma DstCellOnto(o: Orientation, hSize: int, wSize: int, r: int, c: int) returns (h: int, w: int)
    requires o.transpose ==> hSize == wSize
    requires 0 <= r < hSize && 0 <= c < wSize
    ensures 0 <= h < hSize && 0 <= w < wSize
    ensures DstRow(o, hSize, wSize, h, w) == r && DstCol(o, hSize, wSize, h, w) == c
  {
    if o.transpose {
      w := if o.flipY then hSize - 1 - r else r;
      h := if o.flipX then wSize - 1 - c else c;
    } else {
      h := if o.flipY then hSize - 1 - r else r;
      w := if o.flipX then wSize - 1 - c else c;
    }
  }

  /** The output copy undoes the input copy, cell by cell. */
  lemma CopyOutputsUndoInputs(hSize: int, wSize: int, s: Symmetry, h: int, w: int)
    ensures var fwd, rev := CopyOrientation(hSize, wSize, s, false), CopyOrientation(hSize, wSize, s, true);
      var r, c := DstRow(fwd, hSize, wSize, h, w), DstCol(fwd, hSize, wSize, h, w);
      DstRow(rev, hSize, wSize, r, c) == h && DstCol(rev, hSize, wSize, r, c) == w
  {
  }

  /** The input copy puts the value of cell (x, y) where getSymLoc maps (x, y). */
  lemma CopyInputsFollowSymLoc(hSize: int, wSize: int, s: Symmetry, x: int, y: int)
    requires IsTranspose(s) ==> hSize == wSize
    ensures var o, p := CopyOrientation(hSize, wSize, s, false), SymXY(x, y, wSize, hSize, s);
      DstRow(o, hSize, wSize, y, x) == p.1 && DstCol(o, hSize, wSize, y, x) == p.0
  {
  }

  // ---- flat indices ----

  lemma {:induction false} FlatDecompose(a: int, h: int, w: int, k: int, hSize: int, wSize: int, kSize: int)
    requires a >= 0 && 0 <= h < hSize && 0 <= w < wSize && 0 <= k < kSize
    ensures Flat(a, h, w, k, hSize, wSize, kSize) % kSize == k
    ensures Flat(a, h, w, k, hSize, wSize, kSize) / kSize == (a * hSize + h) * wSize + w
    ensures ((a * hSize + h) * wSize + w) % wSize == w && ((a * hSize + h) * wSize + w) / wSize == a * hSize + h
    ensures (a * hSize + h) % hSize == h && (a * hSize + h) / hSize == a
  {
    MulMono(0, a, hSize);
    MulMono(0, a * hSize + h, wSize);
    DivModUnique(a, h, hSize);
    DivModUnique(a * hSize + h, w, wSize);
    DivModUnique((a * hSize + h) * wSize + w, k, kSize);
  }

  lemma {:induction false} FlatInjective(a: int, h: int, w: int, k: int, a': int, h': int, w': int, k': int,
                                         hSize: int, wSize: int, kSize: int)
    requires a >= 0 && 0 <= h < hSize && 0 <= w < wSize && 0 <= k < kSize
    requires a' >= 0 && 0 <= h' < hSize && 0 <= w' < wSize && 0 <= k' < kSize
    requires Flat(a, h, w, k, hSize, wSize, kSize) == Flat(a', h', w', k', hSize, wSize, kSize)
    ensures a == a' && h == h' && w == w' && k == k'
  {
    FlatDecompose(a, h, w, k, hSize, wSize, kSize);
    FlatDecompose(a', h', w', k', hSize, wSize, kSize);
  }

  /** One level of the index: t*d + x stays below T*d. */
  lemma {:induction false} StepBound(t: int, x: int, tSize: int, d: int)
    requires 0 <= t < tSize && 0 <= x < d
    ensures 0 <= t * d + x < tSize * d
  {
    MulMono(t + 1, tSize, d);
    MulMono(0, t, d);
    assert (t + 1) * d == t * d + d;
  }

  /** One level back: j below T*d splits into j / d below T and j % d. */
  lemma {:induction false} StepOnto(j: int, tSize: int, d: int)
    requires d > 0 && 0 <= j < tSize * d
    ensures 0 <= j / d < tSize && 0 <= j % d < d && j == (j / d) * d + j % d
  {
    if j / d >= tSize {
      MulMono(tSize, j / d, d);
      assert false;
    }
  }

  lemma ProductPositive(a: int, b: int)
    requires a >= 0 && b >= 0 && a * b > 0
    ensures a > 0 && b > 0
  {
  }

  lemma {:induction false} FlatBounds(a: int, h: int, w: int, k: int, aSize: nat, hSize: nat, wSize: nat, kSize: nat)
    requires InBox(a, h, w, k, aSize, hSize, wSize, kSize)
    ensures 0 <= Flat(a, h, w, k, hSize, wSize, kSize) < Total(aSize, hSize, wSize, kSize)
  {
    StepBound(a, h, aSize, hSize);
    StepBound(a * hSize + h, w, aSize * hSize, wSize);
    StepBound((a * hSize + h) * wSize + w, k, aSize * hSize * wSize, kSize);
  }

  /** Every flat index below the total is the index of an element of the box. */
  lemma {:induction false} FlatOnto(j: int, aSize: nat, hSize: nat, wSize: nat, kSize: nat)
    returns (a: int, h: int, w: int, k: int)
    requires 0 <= j < Total(aSize, hSize, wSize, kSize)
    ensures InBox(a, h, w, k, aSize, hSize, wSize, kSize) && Flat(a, h, w, k, hSize, wSize, kSize) == j
  {
    ProductPositive(aSize * hSize * wSize, kSize);
    ProductPositive(aSize * hSize, wSize);
    ProductPositive(aSize, hSize);
    StepOnto(j, aSize * hSize * wSize, kSize);
    k := j % kSize;
    var t1 := j / kSize;
    StepOnto(t1, aSize * hSize, wSize);
    w := t1 % wSize;
    var t2 := t1 / wSize;
    StepOnto(t2, aSize, hSize);
    h := t2 % hSize;
    a := t2 / hSize;
  }

  // ---- the strides as the copy computes them ----

  function HBase(o: Orientation, hSize: int, hStride: int): int {
    if o.flipY then (hSize - 1) * hStride else 0
  }

  function WBase(o: Orientation, wSize: int, wStride: int): int {
    if o.flipX then (wSize - 1) * wStride else 0
  }

  function HMul(o: Orientation, hStride: int, wStride: int): int {
    var hs := if o.flipY then -hStride else hStride;
    var ws := if o.flipX then -wStride else wStride;
    if o.transpose then ws else hs
  }

  function WMul(o: Orientation, hStride: int, wStride: int): int {
    var hs := if o.flipY then -hStride else hStride;
    var ws := if o.flipX then -wStride else wStride;
    if o.transpose then hs else ws
  }

  lemma Distrib(a: int, b: int, m: int)
    ensures (a - b) * m == a * m - b * m
  {
  }

  /** The offset the strides produce is that of the destination cell. */
  lemma {:induction false} StrideOffset(o: Orientation, hSize: int, wSize: int, hStride: int, wStride: int, h: int, w: int)
    requires o.transpose ==> hSize == wSize
    ensures HBase(o, hSize, hStride) + h * HMul(o, hStride, wStride) + WBase(o, wSize, wStride) + w * WMul(o, hStride, wStride)
         == DstRow(o, hSize, wSize, h, w) * hStride + DstCol(o, hSize, wSize, h, w) * wStride
  {
    Distrib(hSize - 1, h, hStride);
    Distrib(hSize - 1, w, hStride);
    Distrib(wSize - 1, h, wStride);
    Distrib(wSize - 1, w, wStride);
  }

  lemma {:induction false} FlatExpand(a: int, h: int, w: int, k: int, hSize: int, wSize: int, kSize: int)
    ensures Flat(a, h, w, k, hSize, wSize, kSize) == a * (hSize * wSize * kSize) + (h * (wSize * kSize) + w * kSize) + k
  {
    assert (a * hSize + h) * wSize == a * hSize * wSize + h * wSize;
    assert (a * hSize * wSize + h * wSize + w) * kSize == a * hSize * wSize * kSize + h * wSize * kSize + w * kSize;
  }

  /** The element (a, h, w, k) of src sits at its destination in dst. */
  ghost predicate CopiedAt(src: seq<real>, dst: seq<real>, o: Orientation, a: int, h: int, w: int, k: int,
                           hSize: int, wSize: int, kSize: int)
  {
    var d := Flat(a, DstRow(o, hSize, wSize, h, w), DstCol(o, hSize, wSize, h, w), k, hSize, wSize, kSize);
    var s := Flat(a, h, w, k, hSize, wSize, kSize);
    0 <= d < |dst| && 0 <= s < |src| && dst[d] == src[s]
  }

  /** The elements already copied: every element before (a, h, w, k) in loop order. */
  ghost predicate Copied(src: seq<real>, dst: seq<real>, o: Orientation, a: int, h: int, w: int, k: int,
                         aSize: int, hSize: int, wSize: int, kSize: int)
  {
    forall a', h', w', k' ::
      InBox(a', h', w', k', aSize, hSize, wSize, kSize) && Before(a', h', w', k', a, h, w, k) ==>
        CopiedAt(src, dst, o, a', h', w', k', hSize, wSize, kSize)
  }

  /** Writing one destination element keeps every other copied element. */
  lemma {:induction false} CopiedStep(src: seq<real>, dst: seq<real>, dst': seq<real>, o: Orientation,
                                      a: int, h: int, w: int, k: int, aSize: nat, hSize: nat, wSize: nat, kSize: nat)
    requires |src| >= Total(aSize, hSize, wSize, kSize) && |dst| >= Total(aSize, hSize, wSize, kSize)
    requires o.transpose ==> hSize == wSize
    requires InBox(a, h, w, k, aSize, hSize, wSize, kSize)
    requires Copied(src, dst, o, a, h, w, k, aSize, hSize, wSize, kSize)
    requires |dst'| == |dst|
    requires
      var r, c := DstRow(o, hSize, wSize, h, w), DstCol(o, hSize, wSize, h, w);
      var d := Flat(a, r, c, k, hSize, wSize, kSize);
      0 <= d < |dst| && 0 <= Flat(a, h, w, k, hSize, wSize, kSize) < |src| &&
      dst' == dst[d := src[Flat(a, h, w, k, hSize, wSize, kSize)]]
    ensures Copied(src, dst', o, a, h, w, k + 1, aSize, hSize, wSize, kSize)
  {
    var r, c := DstRow(o, hSize, wSize, h, w), DstCol(o, hSize, wSize, h, w);
    DstCellInBounds(o, hSize, wSize, h, w);
    forall a', h', w', k' | InBox(a', h', w', k', aSize, hSize, wSize, kSize) && Before(a', h', w', k', a, h, w, k + 1)
      ensures CopiedAt(src, dst', o, a', h', w', k', hSize, wSize, kSize)
    {
      var r', c' := DstRow(o, hSize, wSize, h', w'), DstCol(o, hSize, wSize, h', w');
      DstCellInBounds(o, hSize, wSize, h', w');
      if (a', h', w', k') != (a, h, w, k) {
        assert CopiedAt(src, dst, o, a', h', w', k', hSize, wSize, kSize);
        if Flat(a', r', c', k', hSize, wSize, kSize) == Flat(a, r, c, k, hSize, wSize, kSize) {
          FlatInjective(a', r', c', k', a, r, c, k, hSize, wSize, kSize);
          DstCellInjective(o, hSize, wSize, h', w', h, w);
          assert false;
        }
      }
    }
  }

  /** Having copied every channel of (a, h, w) is having copied everything before (a, h, w + 1). */
  lemma CopiedNextCell(src: seq<real>, dst: seq<real>, o: Orientation,
                       a: int, h: int, w: int, aSize: nat, hSize: nat, wSize: nat, kSize: nat)
    requires Copied(src, dst, o, a, h, w, kSize, aSize, hSize, wSize, kSize)
    ensures Copied(src, dst, o, a, h, w + 1, 0, aSize, hSize, wSize, kSize)
  {
  }

  /** The indices the channel-first loops compute are the flat indices of the
      source element and of its destination. */
  lemma {:induction false} NCHWIndex(o: Orientation, hSize: nat, wSize: nat, nc: int, h: int, w: int)
    requires o.transpose ==> hSize == wSize
    ensures nc * (hSize * wSize) + h * wSize + w * 1 == Flat(nc, h, w, 0, hSize, wSize, 1)
    ensures nc * (hSize * wSize) + HBase(o, hSize, wSize) + h * HMul(o, wSize, 1) + WBase(o, wSize, 1) + w * WMul(o, wSize, 1)
         == Flat(nc, DstRow(o, hSize, wSize, h, w), DstCol(o, hSize, wSize, h, w), 0, hSize, wSize, 1)
  {
    StrideOffset(o, hSize, wSize, wSize, 1, h, w);
    FlatExpand(nc, h, w, 0, hSize, wSize, 1);
    FlatExpand(nc, DstRow(o, hSize, wSize, h, w), DstCol(o, hSize, wSize, h, w), 0, hSize, wSize, 1);
  }

  /** Channel-last layout: four nested loops over n, h, w and c. */
  method CopyNHWC(src: array<real>, dst: array<real>, nSize: nat, hSize: nat, wSize: nat, cSize: nat, o: Orientation)
    requires o.transpose ==> hSize == wSize
    requires src.Length >= Total(nSize, hSize, wSize, cSize) && dst.Length >= Total(nSize, hSize, wSize, cSize)
    requires src != dst
    modifies dst
    ensures Copied(src[..], dst[..], o, nSize, 0, 0, 0, nSize, hSize, wSize, cSize)
    ensures forall j :: Total(nSize, hSize, wSize, cSize) <= j < dst.Length ==> dst[j] == old(dst[j])
  {
    var nStride := hSize * wSize * cSize;
    var hStride := wSize * cSize;
    var wStride := cSize;
    var hBaseNew := 0; var hStrideNew := hStride;
    var wBaseNew := 0; var wStrideNew := wStride;
    if o.flipY { hBaseNew := (hSize - 1) * hStrideNew; hStrideNew := -hStrideNew; }
    if o.flipX { wBaseNew := (wSize - 1) * wStrideNew; wStrideNew := -wStrideNew; }
    if o.transpose { hStrideNew, wStrideNew := wStrideNew, hStrideNew; }
    assert hBaseNew == HBase(o, hSize, hStride) && wBaseNew == WBase(o, wSize, wStride);
    assert hStrideNew == HMul(o, hStride, wStride) && wStrideNew == WMul(o, hStride, wStride);
    ghost var total := Total(nSize, hSize, wSize, cSize);

    var n := 0;
    while n < nSize
      invariant 0 <= n <= nSize
      invariant Copied(src[..], dst[..], o, n, 0, 0, 0, nSize, hSize, wSize, cSize)
      invariant forall j :: total <= j < dst.Length ==> dst[j] == old(dst[j])
    {
      var h := 0;
      while h < hSize
        invariant 0 <= h <= hSize
        invariant Copied(src[..], dst[..], o, n, h, 0, 0, nSize, hSize, wSize, cSize)
        invariant forall j :: total <= j < dst.Length ==> dst[j] == old(dst[j])
      {
        var nhOld := n * nStride + h * hStride;
        var nhNew := n * nStride + hBaseNew + h * hStrideNew;
        var w := 0;
        while w < wSize
          invariant 0 <= w <= wSize
          invariant Copied(src[..], dst[..], o, n, h, w, 0, nSize, hSize, wSize, cSize)
          invariant forall j :: total <= j < dst.Length ==> dst[j] == old(dst[j])
        {
          var nhwOld := nhOld + w * wStride;
          var nhwNew := nhNew + wBaseNew + w * wStrideNew;
          StrideOffset(o, hSize, wSize, hStride, wStride, h, w);
          var r, c0 := DstRow(o, hSize, wSize, h, w), DstCol(o, hSize, wSize, h, w);
          DstCellInBounds(o, hSize, wSize, h, w);
          var c := 0;
          while c < cSize
            invariant 0 <= c <= cSize
            invariant Copied(src[..], dst[..], o, n, h, w, c, nSize, hSize, wSize, cSize)
            invariant forall j :: total <= j < dst.Length ==> dst[j] == old(dst[j])
          {
            FlatExpand(n, h, w, c, hSize, wSize, cSize);
            FlatExpand(n, r, c0, c, hSize, wSize, cSize);
            FlatBounds(n, h, w, c, nSize, hSize, wSize, cSize);
            FlatBounds(n, r, c0, c, nSize, hSize, wSize, cSize);
            assert nhwOld + c == Flat(n, h, w, c, hSize, wSize, cSize);
            assert nhwNew + c == Flat(n, r, c0, c, hSize, wSize, cSize);
            ghost var before := dst[..];
            dst[nhwNew + c] := src[nhwOld + c];
            CopiedStep(src[..], before, dst[..], o, n, h, w, c, nSize, hSize, wSize, cSize);
            c := c + 1;
          }
          w := w + 1;
        }
        h := h + 1;
      }
      n := n + 1;
    }
  }

  /** Channel-first layout: three nested loops over (n, c) together, h and w. */
  method CopyNCHW(src: array<real>, dst: array<real>, nSize: nat, hSize: nat, wSize: nat, cSize: nat, o: Orientation)
    requires o.transpose ==> hSize == wSize
    requires src.Length >= Total(nSize * cSize, hSize, wSize, 1) && dst.Length >= Total(nSize * cSize, hSize, wSize, 1)
    requires src != dst
    modifies dst
    ensures Copied(src[..], dst[..], o, nSize * cSize, 0, 0, 0, nSize * cSize, hSize, wSize, 1)
    ensures forall j :: Total(nSize * cSize, hSize, wSize, 1) <= j < dst.Length ==> dst[j] == old(dst[j])
  {
    var ncSize := nSize * cSize;
    var ncStride: int := hSize * wSize;
    var hStride: int := wSize;
    var wStride := 1;
    var hBaseNew := 0; var hStrideNew := hStride;
    var wBaseNew := 0; var wStrideNew := wStride;
    if o.flipY { hBaseNew := (hSize - 1) * hStrideNew; hStrideNew := -hStrideNew; }
    if o.flipX { wBaseNew := (wSize - 1) * wStrideNew; wStrideNew := -wStrideNew; }
    if o.transpose { hStrideNew, wStrideNew := wStrideNew, hStrideNew; }
    assert hBaseNew == HBase(o, hSize, hStride) && wBaseNew == WBase(o, wSize, wStride);
    assert hStrideNew == HMul(o, hStride, wStride) && wStrideNew == WMul(o, hStride, wStride);
    ghost var total := Total(ncSize, hSize, wSize, 1);

    var nc := 0;
    while nc < ncSize
      invariant 0 <= nc <= ncSize
      invariant Copied(src[..], dst[..], o, nc, 0, 0, 0, ncSize, hSize, wSize, 1)
      invariant forall j :: total <= j < dst.Length ==> dst[j] == old(dst[j])
    {
      var h := 0;
      while h < hSize
        invariant 0 <= h <= hSize
        invariant Copied(src[..], dst[..], o, nc, h, 0, 0, ncSize, hSize, wSize, 1)
        invariant forall j :: total <= j < dst.Length ==> dst[j] == old(dst[j])
      {
        var nchOld := nc * ncStride + h * hStride;
        var nchNew := nc * ncStride + hBaseNew + h * hStrideNew;
        var w := 0;
        while w < wSize
          invariant 0 <= w <= wSize
          invariant Copied(src[..], dst[..], o, nc, h, w, 0, ncSize, hSize, wSize, 1)
          invariant forall j :: total <= j < dst.Length ==> dst[j] == old(dst[j])
        {
          var nchwOld := nchOld + w * wStride;
          var nchwNew := nchNew + wBaseNew + w * wStrideNew;
          NCHWIndex(o, hSize, wSize, nc, h, w);
          var r, c0 := DstRow(o, hSize, wSize, h, w), DstCol(o, hSize, wSize, h, w);
          DstCellInBounds(o, hSize, wSize, h, w);
          FlatBounds(nc, h, w, 0, ncSize, hSize, wSize, 1);
          FlatBounds(nc, r, c0, 0, ncSize, hSize, wSize, 1);
          ghost var before := dst[..];
          dst[nchwNew] := src[nchwOld];
          CopiedStep(src[..], before, dst[..], o, nc, h, w, 0, ncSize, hSize, wSize, 1);
          CopiedNextCell(src[..], dst[..], o, nc, h, w, ncSize, hSize, wSize, 1);
          w := w + 1;
        }
        h := h + 1;
      }
      nc := nc + 1;
    }
  }

  /** The element counts of the two layouts agree. */
  lemma LayoutTotals(nSize: nat, hSize: nat, wSize: nat, cSize: nat)
    ensures Total(nSize * cSize, hSize, wSize, 1) == Total(nSize, hSize, wSize, cSize)
  {
    assert nSize * cSize * hSize * wSize == nSize * hSize * wSize * cSize;
  }

  /** copyWithSymmetry: every element of the n*h*w*c range of dst receives the
      element of src at the mirrored position and nothing past the range changes. */
  method CopyWithSymmetry(src: array<real>, dst: array<real>, nSize: nat, hSize: nat, wSize: nat, cSize: nat,
                          useNHWC: bool, symmetry: Symmetry, reverse: bool)
    requires src.Length >= Total(nSize, hSize, wSize, cSize) && dst.Length >= Total(nSize, hSize, wSize, cSize)
    requires src != dst
    modifies dst
    ensures var o := CopyOrientation(hSize, wSize, symmetry, reverse);
      if useNHWC then Copied(src[..], dst[..], o, nSize, 0, 0, 0, nSize, hSize, wSize, cSize)
      else Copied(src[..], dst[..], o, nSize * cSize, 0, 0, 0, nSize * cSize, hSize, wSize, 1)
    ensures forall j :: Total(nSize, hSize, wSize, cSize) <= j < dst.Length ==> dst[j] == old(dst[j])
    ensures symmetry == 0 ==> dst[..Total(nSize, hSize, wSize, cSize)] == src[..Total(nSize, hSize, wSize, cSize)]
  {
    var o := CopyOrientation(hSize, wSize, symmetry, reverse);
    LayoutTotals(nSize, hSize, wSize, cSize);
    if useNHWC {
      CopyNHWC(src, dst, nSize, hSize, wSize, cSize, o);
    } else {
      CopyNCHW(src, dst, nSize, hSize, wSize, cSize, o);
    }
    if symmetry == 0 {
      BitsOf(0);
      var t := Total(nSize, hSize, wSize, cSize);
      forall j | 0 <= j < t ensures dst[j] == src[j] {
        if useNHWC {
          var a, h, w, k := FlatOnto(j, nSize, hSize, wSize, cSize);
          assert CopiedAt(src[..], dst[..], o, a, h, w, k, hSize, wSize, cSize);
        } else {
          var a, h, w, k := FlatOnto(j, nSize * cSize, hSize, wSize, 1);
          assert CopiedAt(src[..], dst[..], o, a, h, w, k, hSize, wSize, 1);
        }
      }
    }
  }

  /** Each destination index below the total is written by exactly one source
      element: the copy is a permutation of the range. */
  lemma {:induction false} CopyIsPermutation(o: Orientation, j: int, aSize: nat, hSize: nat, wSize: nat, kSize: nat)
    returns (a: int, h: int, w: int, k: int)
    requires o.transpose ==> hSize == wSize
    requires 0 <= j < Total(aSize, hSize, wSize, kSize)
    ensures InBox(a, h, w, k, aSize, hSize, wSize, kSize)
    ensures Flat(a, DstRow(o, hSize, wSize, h, w), DstCol(o, hSize, wSize, h, w), k, hSize, wSize, kSize) == j
    ensures forall a', h', w', k' ::
      InBox(a', h', w', k', aSize, hSize, wSize, kSize) &&
      Flat(a', DstRow(o, hSize, wSize, h', w'), DstCol(o, hSize, wSize, h', w'), k', hSize, wSize, kSize) == j
      ==> (a', h', w', k') == (a, h, w, k)
  {
    var r, c;
    a, r, c, k := FlatOnto(j, aSize, hSize, wSize, kSize);
    h, w := DstCellOnto(o, hSize, wSize, r, c);
    forall a', h', w', k' |
      InBox(a', h', w', k', aSize, hSize, wSize, kSize) &&
      Flat(a', DstRow(o, hSize, wSize, h', w'), DstCol(o, hSize, wSize, h', w'), k', hSize, wSize, kSize) == j
      ensures (a', h', w', k') == (a, h, w, k)
    {
      DstCellInBounds(o, hSize, wSize, h', w');
      FlatInjective(a', DstRow(o, hSize, wSize, h', w'), DstCol(o, hSize, wSize, h', w'), k', a, r, c, k, hSize, wSize, kSize);
      DstCellInjective(o, hSize, wSize, h', w', h, w);
    }
  }
}
