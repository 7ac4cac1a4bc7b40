/**
  Interpreted outputs of a trained detector (`forward_pass_with_interpreted_outputs`):
  every grid cell of every image reports the box of its most confident anchor when
  that confidence exceeds 0.6, with corners truncated to integers; the boxes of all
  images are pooled and thinned by greedy non-maximal suppression that drops every box
  overlapping a pick by more than 0.3. An output row [x1, y1, x2, y2, conf] is a
  `Detection` with no class values.
 */
module Inference {
  import opened Wrappers
  import opened Seqs
  import opened Geometry
  import opened Settings
  import opened Decoder
  import opened Filter

  /** Values per cell of a raw output row: five anchor blocks of five logits, then one class logit. */
  const Stride: nat := 26

  /** Anchor blocks per cell that the loop reads. */
  const Blocks: nat := 5

  /** A cell yields a box only when its responsible confidence is strictly above this. */
  const MinConfidence: real := 0.6

  /** A box overlapping a pick by strictly more than this is suppressed. */
  const MaxOverlap: real := 0.3

  /**
    The ways the loop fails: with no images `all_boxes` is never assigned; when the first
    image yields no box the empty box array cannot be indexed by column; and a read past
    the end of a row, or a cell that reports a box from a block past the end of the
    anchor list, raises IndexError.
   */
  datatype InferError = NoImages | EmptyBoxList | IndexError

  /**
    All five anchor blocks of cell `i` lie inside the row. The class logit after them is
    never read, so the last cell may lack it.
   */
  predicate CellFits(data: seq<real>, i: nat) {
    Stride * i + 5 * Blocks <= |data|
  }

  /** The first `n` cells fit in the row. */
  predicate RowFits(data: seq<real>, n: int) {
    n <= 0 || Stride * n <= |data| + 1
  }

  /** The confidence of each anchor block of cell `i`: the sigmoid of its fifth logit. */
  function BlockConfs(act: Activations, data: seq<real>, i: nat): (r: seq<real>)
    requires CellFits(data, i)
    ensures |r| == Blocks
    ensures forall k :: 0 <= k < Blocks ==> r[k] == act.sigmoid(data[Stride * i + 5 * k + 4])
  {
    seq(Blocks, k requires 0 <= k < Blocks => act.sigmoid(data[Stride * i + 5 * k + 4]))
  }

  /**
    Where a cell's grid sits in the full image and how large a cell is: the centre is
    scaled by `cellW` / `cellH` and shifted by `offX` / `offY`, the size is scaled by
    `sizeW` / `sizeH`.
   */
  datatype Layout = Layout(cellW: real, cellH: real, sizeW: real, sizeH: real, offX: real, offY: real)

  /** An unpatched image: centre and size both in image pixels per grid cell, no shift. */
  function Plain(g: Grid): Layout
    requires ValidGrid(g)
  {
    Layout(CellWidth(g), CellHeight(g), CellWidth(g), CellHeight(g), 0.0, 0.0)
  }

  /** How an image is cut into patches: patches per row and per column, and the pixel size of a patch. */
  datatype Patching = Patching(across: nat, down: nat, width: int, height: int)

  /**
    Patch `m` of a patched image: the centre is scaled by patch pixels per grid cell and
    shifted by the patch's position, but the size is still scaled by image pixels per
    grid cell.
   */
  function PatchLayout(g: Grid, p: Patching, m: nat): Layout
    requires ValidGrid(g) && p.across > 0
  {
    Layout(p.width as real / g.gridW as real, p.height as real / g.gridH as real,
           CellWidth(g), CellHeight(g),
           (m % p.across) as real * p.width as real, (m / p.across) as real * p.height as real)
  }

  /** The corners the block at `base` describes before truncation, for anchor `a` at grid position (`col`, `row`). */
  function Corners(act: Activations, a: Anchor, data: seq<real>, base: nat, col: nat, row: nat, l: Layout): Box
    requires base + 4 <= |data|
  {
    var x := (act.sigmoid(data[base]) + col as real) * l.cellW + l.offX;
    var y := (act.sigmoid(data[base + 1]) + row as real) * l.cellH + l.offY;
    var w := act.exp(data[base + 2]) * a.w * l.sizeW;
    var h := act.exp(data[base + 3]) * a.h * l.sizeH;
    Box(x - w / 2.0, y - h / 2.0, x + w / 2.0, y + h / 2.0)
  }

  /** Corners truncated toward zero, as Python's `int()` does. */
  function TruncBox(b: Box): Box {
    Box(Trunc(b.x1) as real, Trunc(b.y1) as real, Trunc(b.x2) as real, Trunc(b.y2) as real)
  }

  /**
    Cell `i` reports a box from a block that has no anchor prior: its most confident
    block is above 0.6 and lies past the end of the anchor list, so reading the prior
    raises IndexError.
   */
  predicate AnchorMissing(act: Activations, anchors: seq<Anchor>, data: seq<real>, i: nat)
    requires CellFits(data, i)
  {
    var confs := BlockConfs(act, data, i);
    var k := ArgMax(confs);
    confs[k] > MinConfidence && |anchors| <= k
  }

  /** No cell among the first `n` of a row reports a box without an anchor prior. */
  predicate AnchorsCover(act: Activations, anchors: seq<Anchor>, data: seq<real>, n: nat)
    requires RowFits(data, n)
  {
    forall i :: 0 <= i < n ==> !AnchorMissing(act, anchors, data, i)
  }

  /** No block of the first `n` cells of a row is confident enough to report a box. */
  predicate Quiet(act: Activations, data: seq<real>, n: nat)
    requires RowFits(data, n)
  {
    forall i, k :: 0 <= i < n && 0 <= k < Blocks ==> BlockConfs(act, data, i)[k] <= MinConfidence
  }

  /**
    The cell loop over the first `n` cells of a row raises IndexError: some cell's blocks
    run past the end of the row, or some cell reports a box from a block without an
    anchor prior.
   */
  predicate LoopRaises(act: Activations, anchors: seq<Anchor>, data: seq<real>, n: nat) {
    !RowFits(data, n) || !AnchorsCover(act, anchors, data, n)
  }

  /** The cell loop over the first `n` cells of a row completes and reports no box. */
  predicate LoopQuiet(act: Activations, data: seq<real>, n: nat) {
    RowFits(data, n) && Quiet(act, data, n)
  }

  /** A quiet row reads no anchor prior, so it never misses one. */
  lemma QuietCovered(act: Activations, anchors: seq<Anchor>, data: seq<real>, n: nat)
    requires RowFits(data, n)
    ensures Quiet(act, data, n) ==> AnchorsCover(act, anchors, data, n)
  {
    if Quiet(act, data, n) {
      forall i | 0 <= i < n ensures !AnchorMissing(act, anchors, data, i) {
        var k := ArgMax(BlockConfs(act, data, i));
        assert BlockConfs(act, data, i)[k] <= MinConfidence;
      }
    }
  }

  /** With the five anchors the loop is written for, no cell misses its prior. */
  lemma FiveAnchorsCover(act: Activations, anchors: seq<Anchor>, data: seq<real>, n: nat)
    requires RowFits(data, n) && |anchors| >= Blocks
    ensures AnchorsCover(act, anchors, data, n)
  {
  }

  /**
    The output of cell `i`: the most confident block (the first one on ties) yields its
    truncated box and confidence when that confidence is above 0.6, and nothing
    otherwise.
   */
  function CellScored(g: Grid, act: Activations, anchors: seq<Anchor>, data: seq<real>, i: nat, l: Layout): (r: Option<Detection>)
    requires ValidGrid(g) && CellFits(data, i) && !AnchorMissing(act, anchors, data, i)
    ensures r.None? <==> forall k :: 0 <= k < Blocks ==> BlockConfs(act, data, i)[k] <= MinConfidence
    ensures r.Some? ==> r.value.conf > MinConfidence && r.value.conf in BlockConfs(act, data, i)
    ensures r.Some? ==> forall k :: 0 <= k < Blocks ==> BlockConfs(act, data, i)[k] <= r.value.conf
  {
    var confs := BlockConfs(act, data, i);
    var k := ArgMax(confs);
    if confs[k] > MinConfidence then
      Some(Detection(TruncBox(Corners(act, anchors[k], data, Stride * i + 5 * k, Col(g, i), RowOf(g, i), l)), confs[k], []))
    else
      None
  }

  /** The 25 block values of cell `i`. */
  function CellRow(data: seq<real>, i: nat): (row: seq<real>)
    requires CellFits(data, i)
    ensures |row| == 5 * Blocks
    ensures forall j :: 0 <= j < 5 * Blocks ==> row[j] == data[Stride * i + j]
  {
    data[Stride * i .. Stride * i + 5 * Blocks]
  }

  /** The block confidences are the decoder's candidate confidences. */
  lemma BlockConfsDecoded(g: Grid, act: Activations, anchors: seq<Anchor>, data: seq<real>, i: nat)
    requires ValidGrid(g) && |anchors| >= Blocks && CellFits(data, i)
    ensures Confs(DecodePredRow(g, act, anchors[..Blocks], i, CellRow(data, i)).candidates) == BlockConfs(act, data, i)
  {
    var row := CellRow(data, i);
    var cands := DecodePredRow(g, act, anchors[..Blocks], i, row).candidates;
    var confs := BlockConfs(act, data, i);
    forall k | 0 <= k < Blocks ensures Confs(cands)[k] == confs[k] {
      assert cands[k] == DecodeCandidate(g, act, anchors[..Blocks], i, row, k);
      assert row[5 * k + 4] == data[Stride * i + 5 * k + 4];
    }
  }

  /** Block `k`'s corners in an unpatched image are the decoder's box for anchor `k`. */
  lemma CornersDecoded(g: Grid, act: Activations, anchors: seq<Anchor>, data: seq<real>, i: nat, k: nat)
    requires ValidGrid(g) && |anchors| >= Blocks && CellFits(data, i) && k < Blocks
    ensures Corners(act, anchors[k], data, Stride * i + 5 * k, Col(g, i), RowOf(g, i), Plain(g))
      == DecodePredRow(g, act, anchors[..Blocks], i, CellRow(data, i)).candidates[k].box
  {
    var row := CellRow(data, i);
    var base := Stride * i + 5 * k;
    assert DecodePredRow(g, act, anchors[..Blocks], i, row).candidates[k] == DecodeCandidate(g, act, anchors[..Blocks], i, row, k);
    assert row[5 * k] == data[base];
    assert row[5 * k + 1] == data[base + 1];
    assert row[5 * k + 2] == data[base + 2];
    assert row[5 * k + 3] == data[base + 3];
    assert anchors[..Blocks][k] == anchors[k];
  }

  /**
    The unpatched loop decodes exactly what the coordinate decoder and the filter's
    choice of responsible anchor decode: the responsible detection of the cell's first
    25 values, truncated, when it is confident enough.
   */
  lemma CellScoredUsesDecoder(g: Grid, act: Activations, anchors: seq<Anchor>, data: seq<real>, i: nat)
    requires ValidGrid(g) && |anchors| >= Blocks && CellFits(data, i)
    ensures var d := Responsible(DecodePredRow(g, act, anchors[..Blocks], i, CellRow(data, i)));
      CellScored(g, act, anchors, data, i, Plain(g)) ==
        if d.conf > MinConfidence then Some(Detection(TruncBox(d.box), d.conf, [])) else None
  {
    var cell := DecodePredRow(g, act, anchors[..Blocks], i, CellRow(data, i));
    BlockConfsDecoded(g, act, anchors, data, i);
    var k := ArgMax(BlockConfs(act, data, i));
    assert ResponsibleAnchor(cell) == k;
    CornersDecoded(g, act, anchors, data, i, k);
  }

  /** A single patch the size of the image is laid out like an unpatched image. */
  lemma SinglePatchIsPlain(g: Grid, p: Patching)
    requires ValidGrid(g) && p.across > 0
    requires p.width == g.imageW && p.height == g.imageH
    ensures PatchLayout(g, p, 0) == Plain(g)
  {
  }

  /**
    Before truncation, a cell's box in patch `m` is its box in the patch at the origin
    shifted by the patch's position: `m % across` patch widths right and `m / across`
    patch heights down.
   */
  lemma PatchShift(g: Grid, act: Activations, a: Anchor, data: seq<real>, base: nat, col: nat, row: nat, p: Patching, m: nat)
    requires ValidGrid(g) && p.across > 0 && base + 4 <= |data|
    ensures var b0 := Corners(act, a, data, base, col, row, PatchLayout(g, p, 0));
      var dx := (m % p.across) as real * p.width as real;
      var dy := (m / p.across) as real * p.height as real;
      Corners(act, a, data, base, col, row, PatchLayout(g, p, m)) == Box(b0.x1 + dx, b0.y1 + dy, b0.x2 + dx, b0.y2 + dy)
  {
  }

  /** Every box in `s` is more confident than the minimum. */
  predicate Confident(s: seq<Detection>) {
    forall x :: x in s ==> x.conf > MinConfidence
  }

  /** The values present in `cells`, in order. */
  function Present(cells: seq<Option<Detection>>): (r: seq<Detection>)
    ensures |r| <= |cells|
    ensures forall x :: x in r ==> Some(x) in cells
  {
    if |cells| == 0 then []
    else
      var rest := Present(cells[1..]);
      forall x | x in rest ensures Some(x) in cells {
        assert Some(x) in cells[1..];
      }
      if cells[0].Some? then [cells[0].value] + rest else rest
  }

  /** Every present value is kept. */
  lemma {:induction false} PresentComplete(cells: seq<Option<Detection>>)
    ensures forall x :: Some(x) in cells ==> x in Present(cells)
  {
    if |cells| > 0 {
      PresentComplete(cells[1..]);
      forall x | Some(x) in cells ensures x in Present(cells) {
        if cells[0] != Some(x) {
          assert Some(x) in cells[1..];
        }
      }
    }
  }

  /** The output of each of the first `n` cells of one row. */
  function CellOutputs(g: Grid, act: Activations, anchors: seq<Anchor>, data: seq<real>, l: Layout, n: nat): (r: seq<Option<Detection>>)
    requires ValidGrid(g) && RowFits(data, n) && AnchorsCover(act, anchors, data, n)
    ensures |r| == n
    ensures forall i :: 0 <= i < n ==> r[i] == CellScored(g, act, anchors, data, i, l)
  {
    seq(n, i requires 0 <= i < n => CellScored(g, act, anchors, data, i, l))
  }

  /** The boxes of the first `n` cells of one row, in cell order. */
  function CellBoxes(g: Grid, act: Activations, anchors: seq<Anchor>, data: seq<real>, l: Layout, n: nat): (r: seq<Detection>)
    requires ValidGrid(g) && RowFits(data, n) && AnchorsCover(act, anchors, data, n)
    ensures |r| <= n
    ensures Confident(r)
    ensures forall x :: x in r ==> exists i :: 0 <= i < n && CellScored(g, act, anchors, data, i, l) == Some(x)
  {
    var cells := CellOutputs(g, act, anchors, data, l, n);
    var r := Present(cells);
    forall x | x in r ensures x.conf > MinConfidence && exists i :: 0 <= i < n && CellScored(g, act, anchors, data, i, l) == Some(x) {
      var i :| 0 <= i < n && cells[i] == Some(x);
    }
    r
  }

  /** The output of every cell of a row is among the row's boxes. */
  lemma CellBoxesComplete(g: Grid, act: Activations, anchors: seq<Anchor>, data: seq<real>, l: Layout, n: nat, i: nat)
    requires ValidGrid(g) && RowFits(data, n) && AnchorsCover(act, anchors, data, n) && i < n
    ensures var out := CellScored(g, act, anchors, data, i, l);
      out.Some? ==> out.value in CellBoxes(g, act, anchors, data, l, n)
  {
    var cells := CellOutputs(g, act, anchors, data, l, n);
    PresentComplete(cells);
    assert cells[i] == CellScored(g, act, anchors, data, i, l);
  }

  /** A row yields no box exactly when it is quiet. */
  lemma CellBoxesEmpty(g: Grid, act: Activations, anchors: seq<Anchor>, data: seq<real>, l: Layout, n: nat)
    requires ValidGrid(g) && RowFits(data, n) && AnchorsCover(act, anchors, data, n)
    ensures |CellBoxes(g, act, anchors, data, l, n)| == 0 <==> Quiet(act, data, n)
  {
    var boxes := CellBoxes(g, act, anchors, data, l, n);
    if |boxes| == 0 {
      forall i, k | 0 <= i < n && 0 <= k < Blocks ensures BlockConfs(act, data, i)[k] <= MinConfidence {
        CellBoxesComplete(g, act, anchors, data, l, n, i);
      }
    } else {
      assert boxes[0] in boxes;
    }
  }

  /** Every box of one unpatched image. */
  function ImageBoxes(g: Grid, act: Activations, anchors: seq<Anchor>, data: seq<real>): (r: seq<Detection>)
    requires ValidGrid(g) && RowFits(data, g.gridW * g.gridH) && AnchorsCover(act, anchors, data, g.gridW * g.gridH)
    ensures Confident(r)
    ensures |r| == 0 <==> Quiet(act, data, g.gridW * g.gridH)
  {
    CellBoxesEmpty(g, act, anchors, data, Plain(g), g.gridW * g.gridH);
    CellBoxes(g, act, anchors, data, Plain(g), g.gridW * g.gridH)
  }

  /** The first `m` patch rows of a patched image exist and hold all cells. */
  predicate PatchesFit(g: Grid, patches: seq<seq<real>>, m: nat) {
    m <= |patches| && forall q :: 0 <= q < m ==> RowFits(patches[q], g.gridW * g.gridH)
  }

  /** No cell of the first `m` patches reports a box without an anchor prior. */
  predicate PatchesCover(g: Grid, act: Activations, anchors: seq<Anchor>, patches: seq<seq<real>>, m: nat)
    requires ValidGrid(g) && PatchesFit(g, patches, m)
  {
    forall q :: 0 <= q < m ==> AnchorsCover(act, anchors, patches[q], g.gridW * g.gridH)
  }

  /** Every one of the first `m` patches is quiet. */
  predicate PatchesQuiet(g: Grid, act: Activations, patches: seq<seq<real>>, m: nat)
    requires ValidGrid(g) && PatchesFit(g, patches, m)
  {
    forall q :: 0 <= q < m ==> Quiet(act, patches[q], g.gridW * g.gridH)
  }

  /** The boxes of each of the first `m` patches of one image. */
  function PatchRows(g: Grid, act: Activations, anchors: seq<Anchor>, p: Patching, patches: seq<seq<real>>, m: nat): (r: seq<seq<Detection>>)
    requires ValidGrid(g) && p.across > 0
    requires PatchesFit(g, patches, m) && PatchesCover(g, act, anchors, patches, m)
    ensures |r| == m
    ensures forall q :: 0 <= q < m ==> r[q] == CellBoxes(g, act, anchors, patches[q], PatchLayout(g, p, q), g.gridW * g.gridH)
  {
    seq(m, q requires 0 <= q < m => CellBoxes(g, act, anchors, patches[q], PatchLayout(g, p, q), g.gridW * g.gridH))
  }

  /** Every box of one patched image: those of all its `across * down` patches, patch by patch. */
  function PatchedImageBoxes(g: Grid, act: Activations, anchors: seq<Anchor>, p: Patching, patches: seq<seq<real>>): (r: seq<Detection>)
    requires ValidGrid(g) && p.across > 0
    requires PatchesFit(g, patches, p.across * p.down) && PatchesCover(g, act, anchors, patches, p.across * p.down)
    ensures Confident(r)
    ensures |r| == 0 <==> PatchesQuiet(g, act, patches, p.across * p.down)
  {
    var n := g.gridW * g.gridH;
    var rows := PatchRows(g, act, anchors, p, patches, p.across * p.down);
    var r := Pooled(rows);
    forall x | x in r ensures x.conf > MinConfidence {
      var q :| 0 <= q < |rows| && x in rows[q];
    }
    forall q | 0 <= q < |rows| ensures |rows[q]| == 0 <==> Quiet(act, patches[q], n) {
      CellBoxesEmpty(g, act, anchors, patches[q], PatchLayout(g, p, q), n);
    }
    PooledEmpty(rows);
    r
  }

  /**
    Box `b` is suppressed by pick `a`. The source divides without a guard: over a zero
    union a positive overlap gives infinity, which exceeds the threshold, and a zero
    overlap gives NaN, which does not.
   */
  function Overlaps(a: Box, b: Box): (r: bool)
    ensures WellFormed(a) && WellFormed(b) && UnionArea(a, b) == 0.0 ==> !r
  {
    ZeroUnionEmpty(a, b);
    if UnionArea(a, b) == 0.0 then Intersection(a, b) > 0.0 else Iou(a, b) > MaxOverlap
  }

  /**
    A well-formed box suppresses itself exactly when it has area: otherwise its IoU with
    itself is NaN, which exceeds nothing.
   */
  lemma OverlapsSelf(b: Box)
    requires WellFormed(b)
    ensures Overlaps(b, b) <==> HasArea(b)
  {
    if HasArea(b) {
      IouSelf(b);
    } else {
      assert Area(b) == 0.0;
      IntersectionWithin(b, b);
    }
  }

  /** Suppression does not depend on which of the two boxes is the pick. */
  lemma OverlapsSymmetric(a: Box, b: Box)
    ensures Overlaps(a, b) == Overlaps(b, a)
  {
    assert Intersection(a, b) == Intersection(b, a);
    if UnionArea(a, b) != 0.0 {
      IouSymmetric(a, b);
    }
  }

  /**
    Over a non-zero union, a box this loop suppresses is one the training-time filter
    would not keep apart at the same threshold.
   */
  lemma OverlapsNotSeparated(a: Box, b: Box)
    requires UnionArea(a, b) != 0.0 && Overlaps(a, b)
    ensures !Separated(a, b, MaxOverlap)
  {
  }

  /**
    Two boxes whose IoU is exactly the threshold: a 10-by-1 box and the 3-by-1 box at its
    left end share 3 units of area out of a union of 10.
   */
  lemma BoundaryAreas(a: Box, b: Box)
    requires a == Box(0.0, 0.0, 10.0, 1.0) && b == Box(0.0, 0.0, 3.0, 1.0)
    ensures Intersection(a, b) == 3.0 && Area(a) == 10.0 && Area(b) == 3.0
  {
  }

  /**
    The comparison is strict: two boxes whose IoU is exactly the threshold do not suppress
    each other, whichever of them is the pick.
   */
  lemma BoundaryIou(a: Box, b: Box)
    requires UnionArea(a, b) != 0.0 && Iou(a, b) == MaxOverlap
    ensures !Overlaps(a, b) && !Overlaps(b, a)
  {
    OverlapsSymmetric(a, b);
  }

  /** An overlap of 3 between boxes of area 10 and 3 is an IoU of exactly 0.3. */
  lemma BoundaryRatio(a: Box, b: Box)
    requires Intersection(a, b) == 3.0 && Area(a) == 10.0 && Area(b) == 3.0
    ensures UnionArea(a, b) == 10.0 && Iou(a, b) == MaxOverlap
  {
    var i, u := Intersection(a, b), UnionArea(a, b);
    assert Iou(a, b) == i / u;
    assert i / u == 3.0 / 10.0;
  }

  /** Indices into `boxes`, each listed once, as `np.argsort` yields them. */
  predicate IndexOrder(boxes: seq<Box>, order: seq<nat>) {
    && (forall i :: 0 <= i < |order| ==> order[i] < |boxes|)
    && Distinct(order)
  }

  /**
    The indices of `order` other than the pick `cur` whose boxes `cur` does not suppress
    under `over` (pick, box). The pick is the last index and the order repeats none, so
    dropping it by value drops exactly the last position.
   */
  function Remaining(boxes: seq<Box>, order: seq<nat>, cur: nat, over: (Box, Box) -> bool): (r: seq<nat>)
    requires cur < |boxes|
    ensures |r| <= |order|
    ensures forall x :: x in r <==> x in order && x != cur && x < |boxes| && !over(boxes[cur], boxes[x])
  {
    Seqs.Filter(order, (x: nat) => x != cur && x < |boxes| && !over(boxes[cur], boxes[x]))
  }

  /** What remains after a round is an index order again, shorter by at least the pick. */
  lemma RemainingValid(boxes: seq<Box>, order: seq<nat>, cur: nat, over: (Box, Box) -> bool)
    requires IndexOrder(boxes, order) && cur in order
    ensures IndexOrder(boxes, Remaining(boxes, order, cur, over))
    ensures |Remaining(boxes, order, cur, over)| < |order|
  {
    var keep := (x: nat) => x != cur && x < |boxes| && !over(boxes[cur], boxes[x]);
    var rest := Remaining(boxes, order, cur, over);
    forall i | 0 <= i < |rest| ensures rest[i] < |boxes| {
      assert rest[i] in rest;
    }
    FilterDistinct(order, keep);
    FilterShrinks(order, keep, cur);
  }

  /**
    Greedy suppression over `order` (indices into `boxes`, least confident first) under
    the relation `over`: pick the last index, drop it and every other index whose box it
    suppresses, repeat. Each round removes at least the pick, so the loop ends whatever
    the boxes and the relation.
   */
  function Greedy(boxes: seq<Box>, order: seq<nat>, over: (Box, Box) -> bool): (picks: seq<nat>)
    requires IndexOrder(boxes, order)
    ensures |picks| <= |order|
    ensures |order| > 0 ==> |picks| > 0 && picks[0] == order[|order| - 1]
    ensures forall i :: 0 <= i < |picks| ==> picks[i] in order && picks[i] < |boxes|
    ensures Distinct(picks)
    decreases |order|
  {
    if |order| == 0 then []
    else
      var cur := order[|order| - 1];
      var rest := Remaining(boxes, order, cur, over);
      RemainingValid(boxes, order, cur, over);
      [cur] + Greedy(boxes, rest, over)
  }

  /** One round: the last index is picked and suppression continues over what remains. */
  lemma GreedyUnfold(boxes: seq<Box>, order: seq<nat>, over: (Box, Box) -> bool)
    requires IndexOrder(boxes, order) && |order| > 0
    ensures var cur := order[|order| - 1];
      var rest := Remaining(boxes, order, cur, over);
      && IndexOrder(boxes, rest)
      && |rest| < |order|
      && Greedy(boxes, order, over) == [cur] + Greedy(boxes, rest, over)
  {
    RemainingValid(boxes, order, order[|order| - 1], over);
  }

  /** No pick suppresses a later pick. */
  lemma {:induction false} GreedySeparated(boxes: seq<Box>, order: seq<nat>, over: (Box, Box) -> bool)
    requires IndexOrder(boxes, order)
    ensures var picks := Greedy(boxes, order, over);
      forall i, j :: 0 <= i < j < |picks| ==> !over(boxes[picks[i]], boxes[picks[j]])
    decreases |order|
  {
    if |order| > 0 {
      var cur := order[|order| - 1];
      var rest := Remaining(boxes, order, cur, over);
      GreedyUnfold(boxes, order, over);
      GreedySeparated(boxes, rest, over);
      var sub := Greedy(boxes, rest, over);
      var picks := [cur] + sub;
      forall i, j | 0 <= i < j < |picks| ensures !over(boxes[picks[i]], boxes[picks[j]]) {
        assert picks[j] == sub[j - 1];
        if i > 0 {
          assert picks[i] == sub[i - 1];
        } else {
          assert sub[j - 1] in rest;
        }
      }
    }
  }

  /** Box `x` is suppressed by one of `picks`. */
  predicate SuppressedBy(boxes: seq<Box>, picks: seq<nat>, x: nat, over: (Box, Box) -> bool)
    requires forall i :: 0 <= i < |picks| ==> picks[i] < |boxes|
    requires x < |boxes|
  {
    exists i :: 0 <= i < |picks| && over(boxes[picks[i]], boxes[x])
  }

  /**
    Completeness survives a round: an index the pick suppresses, or one the later picks
    cover, is covered by the pick followed by the later picks.
   */
  lemma PrependSuppresses(boxes: seq<Box>, order: seq<nat>, rest: seq<nat>, cur: nat, sub: seq<nat>, over: (Box, Box) -> bool)
    requires cur < |boxes| && forall i :: 0 <= i < |sub| ==> sub[i] < |boxes|
    requires forall x :: x in order ==> x < |boxes|
    requires forall x :: x in order && x !in rest ==> x == cur || over(boxes[cur], boxes[x])
    requires forall x :: x in rest ==> x < |boxes| && (x in sub || SuppressedBy(boxes, sub, x, over))
    ensures forall x :: x in order && x !in [cur] + sub ==> SuppressedBy(boxes, [cur] + sub, x, over)
  {
    var picks := [cur] + sub;
    forall x | x in order && x !in picks ensures SuppressedBy(boxes, picks, x, over) {
      if x in rest {
        var i :| 0 <= i < |sub| && over(boxes[sub[i]], boxes[x]);
        assert picks[i + 1] == sub[i];
      } else {
        assert over(boxes[picks[0]], boxes[x]);
      }
    }
  }

  /** Box `x` is suppressed by one of `picks` that ranks at least as high under `key`. */
  predicate SuppressedByAbove(boxes: seq<Box>, picks: seq<nat>, x: nat, over: (Box, Box) -> bool, key: nat -> real)
    requires forall i :: 0 <= i < |picks| ==> picks[i] < |boxes|
    requires x < |boxes|
  {
    exists i :: 0 <= i < |picks| && over(boxes[picks[i]], boxes[x]) && key(x) <= key(picks[i])
  }

  /**
    Ranked completeness survives a round when the pick ranks highest: an index the pick
    suppresses ranks no higher than the pick.
   */
  lemma PrependSuppressesAbove(boxes: seq<Box>, order: seq<nat>, rest: seq<nat>, cur: nat, sub: seq<nat>, over: (Box, Box) -> bool, key: nat -> real)
    requires cur < |boxes| && forall i :: 0 <= i < |sub| ==> sub[i] < |boxes|
    requires forall x :: x in order ==> x < |boxes| && key(x) <= key(cur)
    requires forall x :: x in order && x !in rest ==> x == cur || over(boxes[cur], boxes[x])
    requires forall x :: x in rest ==> x < |boxes| && (x in sub || SuppressedByAbove(boxes, sub, x, over, key))
    ensures forall x :: x in order && x !in [cur] + sub ==> SuppressedByAbove(boxes, [cur] + sub, x, over, key)
  {
    var picks := [cur] + sub;
    forall x | x in order && x !in picks ensures SuppressedByAbove(boxes, picks, x, over, key) {
      if x in rest {
        var i :| 0 <= i < |sub| && over(boxes[sub[i]], boxes[x]) && key(x) <= key(sub[i]);
        assert picks[i + 1] == sub[i];
      } else {
        assert over(boxes[picks[0]], boxes[x]);
      }
    }
  }

  /**
    Every index of `order` is picked or suppressed by some pick; when `order` ascends
    under `key`, by a pick that ranks at least as high.
   */
  lemma {:induction false} GreedyComplete(boxes: seq<Box>, order: seq<nat>, over: (Box, Box) -> bool, key: nat -> real)
    requires IndexOrder(boxes, order)
    ensures var picks := Greedy(boxes, order, over);
      forall x :: x in order && x !in picks ==> SuppressedBy(boxes, picks, x, over)
    ensures var picks := Greedy(boxes, order, over);
      SortedBy(order, key) ==> forall x :: x in order && x !in picks ==> SuppressedByAbove(boxes, picks, x, over, key)
    decreases |order|
  {
    if |order| > 0 {
      var cur := order[|order| - 1];
      var rest := Remaining(boxes, order, cur, over);
      GreedyUnfold(boxes, order, over);
      var sub := Greedy(boxes, rest, over);
      GreedyComplete(boxes, rest, over, key);
      PrependSuppresses(boxes, order, rest, cur, sub, over);
      if SortedBy(order, key) {
        FilterSorted(order, (x: nat) => x != cur && x < |boxes| && !over(boxes[cur], boxes[x]), key);
        SortedLast(order, key);
        PrependSuppressesAbove(boxes, order, rest, cur, sub, over, key);
      }
    }
  }

  /** When `order` ascends in confidence the picks come out in non-increasing confidence. */
  lemma {:induction false} GreedyDescending(boxes: seq<Box>, order: seq<nat>, over: (Box, Box) -> bool, key: nat -> real)
    requires IndexOrder(boxes, order) && SortedBy(order, key)
    ensures var picks := Greedy(boxes, order, over);
      forall i, j :: 0 <= i < j < |picks| ==> key(picks[j]) <= key(picks[i])
    decreases |order|
  {
    if |order| > 0 {
      var cur := order[|order| - 1];
      var rest := Remaining(boxes, order, cur, over);
      GreedyUnfold(boxes, order, over);
      FilterSorted(order, (x: nat) => x != cur && x < |boxes| && !over(boxes[cur], boxes[x]), key);
      GreedyDescending(boxes, rest, over, key);
      var sub := Greedy(boxes, rest, over);
      assert forall i :: 0 <= i < |sub| ==> key(sub[i]) <= key(cur) by {
        SortedLast(order, key);
        assert forall i :: 0 <= i < |sub| ==> sub[i] in rest;
      }
      PrependDescending(cur, sub, key);
    }
  }

  /** The loop's suppression: greedy, under `Overlaps`. */
  function InferNms(boxes: seq<Box>, order: seq<nat>): (picks: seq<nat>)
    requires IndexOrder(boxes, order)
    ensures |picks| <= |order|
    ensures forall i :: 0 <= i < |picks| ==> picks[i] in order && picks[i] < |boxes|
    ensures Distinct(picks)
  {
    Greedy(boxes, order, Overlaps)
  }

  /** The boxes of all groups (images, or patches of one image), group after group. */
  function Pooled(perImage: seq<seq<Detection>>): (r: seq<Detection>)
    ensures |perImage| > 0 ==> |perImage[0]| <= |r|
    ensures forall x :: x in r <==> exists m :: 0 <= m < |perImage| && x in perImage[m]
  {
    if |perImage| == 0 then []
    else
      var rest := Pooled(perImage[1..]);
      forall x | x in rest ensures exists m :: 0 <= m < |perImage| && x in perImage[m] {
        var m :| 0 <= m < |perImage[1..]| && x in perImage[1..][m];
        assert perImage[m + 1] == perImage[1..][m];
      }
      forall x | (exists m :: 0 <= m < |perImage| && x in perImage[m]) && x !in perImage[0] ensures x in rest {
        var m :| 0 <= m < |perImage| && x in perImage[m];
        assert perImage[1..][m - 1] == perImage[m];
      }
      perImage[0] + rest
  }

  /** The pool is empty exactly when every group is. */
  lemma {:induction false} PooledEmpty(perImage: seq<seq<Detection>>)
    ensures |Pooled(perImage)| == 0 <==> forall m :: 0 <= m < |perImage| ==> |perImage[m]| == 0
  {
    if |perImage| > 0 {
      var tail := perImage[1..];
      PooledEmpty(tail);
      assert |Pooled(perImage)| == |perImage[0]| + |Pooled(tail)|;
      assert forall m :: 1 <= m < |perImage| ==> perImage[m] == tail[m - 1];
    }
  }

  /** The pooled boxes' indices by ascending confidence. */
  function PooledOrder(pooled: seq<Detection>): (order: seq<nat>)
    ensures IndexOrder(Boxes(pooled), order)
    ensures forall x :: 0 <= x < |pooled| ==> x in order
    ensures SortedBy(order, KeyAt(DetConfs(pooled)))
  {
    var confs := DetConfs(pooled);
    var order := ArgsortAsc(confs);
    var key := KeyAt(confs);
    forall i, j | 0 <= i < j < |order| ensures key(order[i]) <= key(order[j]) {
      assert confs[order[i]] <= confs[order[j]];
    }
    order
  }

  /** The indices suppression keeps of the pooled boxes, most confident first. */
  function PooledPicks(pooled: seq<Detection>): (picks: seq<nat>)
    ensures forall k :: 0 <= k < |picks| ==> picks[k] < |pooled|
    ensures |pooled| > 0 ==> |picks| > 0
    ensures Distinct(picks)
  {
    InferNms(Boxes(pooled), PooledOrder(pooled))
  }

  /** Every image yields its boxes: none raised IndexError. */
  predicate AllYield(perImage: seq<Option<seq<Detection>>>) {
    forall m :: 0 <= m < |perImage| ==> perImage[m].Some?
  }

  /** The boxes of images that all yield. */
  function Yields(perImage: seq<Option<seq<Detection>>>): (r: seq<seq<Detection>>)
    requires AllYield(perImage)
    ensures |r| == |perImage|
    ensures forall m :: 0 <= m < |perImage| ==> perImage[m] == Some(r[m])
  {
    seq(|perImage|, m requires 0 <= m < |perImage| => perImage[m].value)
  }

  /** Every box the images yield is confident. */
  lemma PooledConfident(perImage: seq<Option<seq<Detection>>>)
    requires AllYield(perImage)
    ensures (forall m :: 0 <= m < |perImage| ==> Confident(perImage[m].value)) ==> Confident(Pooled(Yields(perImage)))
  {
    var rows := Yields(perImage);
    if forall m :: 0 <= m < |perImage| ==> Confident(perImage[m].value) {
      forall x | x in Pooled(rows) ensures x.conf > MinConfidence {
        var m :| 0 <= m < |rows| && x in rows[m];
        assert perImage[m] == Some(rows[m]);
      }
    }
  }

  /**
    `out` is what greedy suppression may leave of `pooled`: boxes of `pooled`, most
    confident first and led by the most confident box, none suppressed by an earlier one,
    and every other box of `pooled` suppressed by one of them at least as confident.
   */
  predicate SuppressionOf(pooled: seq<Detection>, out: seq<Detection>) {
    && (forall x :: x in out ==> x in pooled)
    && (|pooled| > 0 ==> |out| > 0 && forall x :: x in pooled ==> x.conf <= out[0].conf)
    && (forall i, j :: 0 <= i < j < |out| ==> out[j].conf <= out[i].conf)
    && (forall i, j :: 0 <= i < j < |out| ==> !Overlaps(out[i].box, out[j].box))
    && (forall x :: x in pooled && x !in out ==> exists i :: 0 <= i < |out| && Overlaps(out[i].box, x.box) && x.conf <= out[i].conf)
  }

  /**
    The loop's result over what each image yields (`None` for an image whose loop raised
    IndexError on a short row or a missing anchor): failing without images, at the first
    image when it raised or yields nothing, and at a later image that raised;
    otherwise suppression over the boxes of all images pooled (each image's pass
    suppresses over everything so far, and only the last pass is kept).
   */
  function Suppress(perImage: seq<Option<seq<Detection>>>): (r: Result<seq<Detection>, InferError>)
    ensures r == Failure(NoImages) <==> |perImage| == 0
    ensures r == Failure(EmptyBoxList) <==> |perImage| > 0 && perImage[0] == Some([])
    ensures r == Failure(IndexError) <==> !AllYield(perImage) && !(|perImage| > 0 && perImage[0] == Some([]))
    ensures r.Success? ==> AllYield(perImage) && |r.value| > 0 && r.value == Thinned(Pooled(Yields(perImage)))
    ensures r.Success? ==> SuppressionOf(Pooled(Yields(perImage)), r.value)
    ensures r.Success? && (forall m :: 0 <= m < |perImage| && perImage[m].Some? ==> Confident(perImage[m].value)) ==>
      Confident(r.value)
  {
    if |perImage| == 0 then Failure(NoImages)
    else if perImage[0].None? then Failure(IndexError)
    else if perImage[0] == Some([]) then Failure(EmptyBoxList)
    else if !AllYield(perImage) then Failure(IndexError)
    else
      var rows := Yields(perImage);
      var pooled := Pooled(rows);
      assert rows[0] == perImage[0].value && |pooled| > 0;
      ThinnedSuppresses(pooled);
      PooledConfident(perImage);
      Success(Thinned(pooled))
  }

  /** The kept boxes of `pooled`, most confident first. */
  function Thinned(pooled: seq<Detection>): (out: seq<Detection>)
    ensures |out| <= |pooled|
    ensures |pooled| > 0 ==> |out| > 0
    ensures var picks := PooledPicks(pooled);
      |out| == |picks| && forall k :: 0 <= k < |out| ==> out[k] == pooled[picks[k]]
  {
    Select(pooled, PooledPicks(pooled))
  }

  /** The kept boxes come in non-increasing confidence. */
  lemma ThinnedDescending(pooled: seq<Detection>)
    ensures var out := Thinned(pooled);
      forall i, j :: 0 <= i < j < |out| ==> out[j].conf <= out[i].conf
  {
    var key := KeyAt(DetConfs(pooled));
    var order := PooledOrder(pooled);
    var picks := PooledPicks(pooled);
    assert picks == Greedy(Boxes(pooled), order, Overlaps);
    GreedyDescending(Boxes(pooled), order, Overlaps, key);
    PicksKeyed(pooled);
  }

  /** The key of a pick is the confidence of the kept box it names. */
  lemma PicksKeyed(pooled: seq<Detection>)
    ensures var out, picks, key := Thinned(pooled), PooledPicks(pooled), KeyAt(DetConfs(pooled));
      forall k :: 0 <= k < |out| ==> key(picks[k]) == out[k].conf
  {
  }

  /** The sort key of a pooled index is the confidence of its box. */
  lemma KeyMeans(pooled: seq<Detection>, y: nat)
    requires y < |pooled|
    ensures KeyAt(DetConfs(pooled))(y) == pooled[y].conf
  {
  }

  /** The first kept box is a most confident box of the pool. */
  lemma ThinnedFirstIsMax(pooled: seq<Detection>)
    requires |pooled| > 0
    ensures var out := Thinned(pooled);
      |out| > 0 && forall x :: x in pooled ==> x.conf <= out[0].conf
  {
    var order := PooledOrder(pooled);
    assert 0 in order;
    var picks := Greedy(Boxes(pooled), order, Overlaps);
    assert picks == PooledPicks(pooled);
    var top := order[|order| - 1];
    assert picks[0] == top;
    var out := Thinned(pooled);
    assert out[0] == pooled[top];
    LastIsMax(pooled, order);
  }

  /** The last index of an order by ascending confidence covering the pool names a most confident box. */
  lemma LastIsMax(pooled: seq<Detection>, order: seq<nat>)
    requires |order| > 0 && order[|order| - 1] < |pooled|
    requires forall y :: 0 <= y < |pooled| ==> y in order
    requires SortedBy(order, KeyAt(DetConfs(pooled)))
    ensures forall x :: x in pooled ==> x.conf <= pooled[order[|order| - 1]].conf
  {
    var key := KeyAt(DetConfs(pooled));
    var top := order[|order| - 1];
    SortedLast(order, key);
    KeyMeans(pooled, top);
    forall x | x in pooled ensures x.conf <= pooled[top].conf {
      var y :| 0 <= y < |pooled| && pooled[y] == x;
      assert y in order;
      KeyMeans(pooled, y);
    }
  }

  /** No kept box is suppressed by an earlier kept box. */
  lemma ThinnedSeparated(pooled: seq<Detection>)
    ensures var out := Thinned(pooled);
      forall i, j :: 0 <= i < j < |out| ==> !Overlaps(out[i].box, out[j].box)
  {
    var boxes := Boxes(pooled);
    var order := PooledOrder(pooled);
    var picks := PooledPicks(pooled);
    assert picks == Greedy(boxes, order, Overlaps);
    var out := Thinned(pooled);
    GreedySeparated(boxes, order, Overlaps);
    assert forall i, j :: 0 <= i < j < |picks| ==> !Overlaps(boxes[picks[i]], boxes[picks[j]]);
    assert |out| == |picks|;
    forall i, j | 0 <= i < j < |out| ensures !Overlaps(out[i].box, out[j].box) {
      var a, b := picks[i], picks[j];
      assert !Overlaps(boxes[a], boxes[b]);
      assert out[i].box == boxes[a];
      assert out[j].box == boxes[b];
    }
  }

  /** No two kept boxes with area are the same box: a box with area suppresses its duplicates. */
  lemma ThinnedNoDuplicates(pooled: seq<Detection>)
    ensures var out := Thinned(pooled);
      forall i, j :: 0 <= i < j < |out| && HasArea(out[i].box) ==> out[i].box != out[j].box
  {
    var out := Thinned(pooled);
    ThinnedSeparated(pooled);
    forall i, j | 0 <= i < j < |out| && HasArea(out[i].box) ensures out[i].box != out[j].box {
      OverlapsSelf(out[i].box);
    }
  }

  /** Every box of `pooled` that is not kept is suppressed by some kept box at least as confident. */
  lemma ThinnedComplete(pooled: seq<Detection>)
    ensures var out := Thinned(pooled);
      forall x :: 0 <= x < |pooled| && x !in PooledPicks(pooled) ==>
        exists i :: 0 <= i < |out| && Overlaps(out[i].box, pooled[x].box) && pooled[x].conf <= out[i].conf
  {
    var boxes := Boxes(pooled);
    var order := PooledOrder(pooled);
    var picks := PooledPicks(pooled);
    var key := KeyAt(DetConfs(pooled));
    assert picks == Greedy(boxes, order, Overlaps);
    GreedyComplete(boxes, order, Overlaps, key);
    forall x | 0 <= x < |pooled| && x !in picks
      ensures exists i :: 0 <= i < |Thinned(pooled)| && Overlaps(Thinned(pooled)[i].box, pooled[x].box) && pooled[x].conf <= Thinned(pooled)[i].conf
    {
      assert x in order;
      SelectedAbove(pooled, picks, Thinned(pooled), x);
    }
  }

  /** A pick ranked above `x` by confidence is a selected box at least as confident as box `x`. */
  lemma SelectedAbove(pooled: seq<Detection>, picks: seq<nat>, out: seq<Detection>, x: nat)
    requires x < |pooled| && |out| == |picks|
    requires forall k :: 0 <= k < |picks| ==> picks[k] < |pooled| && out[k] == pooled[picks[k]]
    requires SuppressedByAbove(Boxes(pooled), picks, x, Overlaps, KeyAt(DetConfs(pooled)))
    ensures exists i :: 0 <= i < |out| && Overlaps(out[i].box, pooled[x].box) && pooled[x].conf <= out[i].conf
  {
    var boxes, key := Boxes(pooled), KeyAt(DetConfs(pooled));
    var i :| 0 <= i < |picks| && Overlaps(boxes[picks[i]], boxes[x]) && key(x) <= key(picks[i]);
    KeyMeans(pooled, x);
    KeyMeans(pooled, picks[i]);
    assert out[i].box == boxes[picks[i]];
  }

  /** The kept boxes of the pool are a suppression of it. */
  lemma ThinnedSuppresses(pooled: seq<Detection>)
    ensures SuppressionOf(pooled, Thinned(pooled))
  {
    var out := Thinned(pooled);
    var picks := PooledPicks(pooled);
    ThinnedDescending(pooled);
    ThinnedSeparated(pooled);
    ThinnedComplete(pooled);
    if |pooled| > 0 {
      ThinnedFirstIsMax(pooled);
    }
    forall x | x in out ensures x in pooled {
      var k :| 0 <= k < |out| && out[k] == x;
      assert out[k] == pooled[picks[k]];
    }
    forall x | x in pooled && x !in out ensures exists i :: 0 <= i < |out| && Overlaps(out[i].box, x.box) && x.conf <= out[i].conf {
      var y :| 0 <= y < |pooled| && pooled[y] == x;
      assert y !in picks by {
        forall k | 0 <= k < |picks| ensures picks[k] != y {
          assert out[k] in out;
        }
      }
    }
  }

  /** The number of pooled boxes more confident than `c`. */
  function Higher(pooled: seq<Detection>, c: real): nat {
    if |pooled| == 0 then 0 else (if pooled[0].conf > c then 1 else 0) + Higher(pooled[1..], c)
  }

  /** A pooled box more confident than `x` has fewer boxes above it than `x` has. */
  lemma {:induction false} HigherDrops(pooled: seq<Detection>, lo: real, y: Detection)
    requires y in pooled && lo < y.conf
    ensures Higher(pooled, y.conf) < Higher(pooled, lo)
  {
    if pooled[0] != y {
      HigherDrops(pooled[1..], lo, y);
    } else {
      HigherMono(pooled[1..], lo, y.conf);
    }
  }

  /** Raising the bar never adds boxes above it. */
  lemma {:induction false} HigherMono(pooled: seq<Detection>, lo: real, hi: real)
    requires lo <= hi
    ensures Higher(pooled, hi) <= Higher(pooled, lo)
  {
    if |pooled| > 0 {
      HigherMono(pooled[1..], lo, hi);
    }
  }

  /** No two pooled boxes share a confidence. */
  predicate DistinctConfs(pooled: seq<Detection>) {
    forall i, j :: 0 <= i < j < |pooled| ==> pooled[i].conf != pooled[j].conf
  }

  /** Of two kept boxes, one that suppresses the other is no more confident than it. */
  lemma KeptRanked(pooled: seq<Detection>, out: seq<Detection>, x: Detection, y: Detection)
    requires SuppressionOf(pooled, out) && x in out && y in out
    ensures Overlaps(y.box, x.box) ==> y.conf <= x.conf
  {
    var p :| 0 <= p < |out| && out[p] == x;
    var q :| 0 <= q < |out| && out[q] == y;
    if p < q {
      assert out[q].conf <= out[p].conf;
    } else if q < p {
      assert !Overlaps(out[q].box, out[p].box);
    }
  }

  /**
    Box `x` of a pool with distinct confidences is kept by one suppression exactly when it
    is kept by another: were it kept by one only, the other would have a more confident
    box suppressing it, which by induction on the boxes above `x` the first keeps too.
   */
  lemma {:induction false} SuppressionAgrees(pooled: seq<Detection>, out1: seq<Detection>, out2: seq<Detection>, x: Detection)
    requires DistinctConfs(pooled) && SuppressionOf(pooled, out1) && SuppressionOf(pooled, out2)
    requires x in pooled
    ensures x in out1 <==> x in out2
    decreases Higher(pooled, x.conf)
  {
    if x in out1 && x !in out2 {
      var i :| 0 <= i < |out2| && Overlaps(out2[i].box, x.box) && x.conf <= out2[i].conf;
      var y := out2[i];
      assert y in out2;
      DistinctAbove(pooled, x, y);
      HigherDrops(pooled, x.conf, y);
      SuppressionAgrees(pooled, out1, out2, y);
      KeptRanked(pooled, out1, x, y);
      assert false;
    } else if x in out2 && x !in out1 {
      var i :| 0 <= i < |out1| && Overlaps(out1[i].box, x.box) && x.conf <= out1[i].conf;
      var y := out1[i];
      assert y in out1;
      DistinctAbove(pooled, x, y);
      HigherDrops(pooled, x.conf, y);
      SuppressionAgrees(pooled, out1, out2, y);
      KeptRanked(pooled, out2, x, y);
      assert false;
    }
  }

  /** Two different boxes of a pool with distinct confidences: one at least as confident is more confident. */
  lemma DistinctAbove(pooled: seq<Detection>, x: Detection, y: Detection)
    requires DistinctConfs(pooled) && x in pooled && y in pooled && x != y && x.conf <= y.conf
    ensures x.conf < y.conf
  {
    var i :| 0 <= i < |pooled| && pooled[i] == x;
    var j :| 0 <= j < |pooled| && pooled[j] == y;
    if i < j {
      assert pooled[i].conf != pooled[j].conf;
    } else {
      assert pooled[j].conf != pooled[i].conf;
    }
  }

  /**
    With distinct confidences the conditions of a suppression pin down the kept boxes:
    every suppression of the pool keeps exactly the boxes the greedy loop keeps.
   */
  lemma SuppressionUnique(pooled: seq<Detection>, out: seq<Detection>)
    requires DistinctConfs(pooled) && SuppressionOf(pooled, out)
    ensures forall x :: x in out <==> x in Thinned(pooled)
  {
    ThinnedSuppresses(pooled);
    forall x | x in pooled ensures x in out <==> x in Thinned(pooled) {
      SuppressionAgrees(pooled, out, Thinned(pooled), x);
    }
  }

  /** What one unpatched image yields: its boxes, or `None` when its cell loop raises IndexError. */
  function ImageOutcome(g: Grid, act: Activations, anchors: seq<Anchor>, data: seq<real>): (r: Option<seq<Detection>>)
    requires ValidGrid(g)
    ensures r.None? <==>
      || !RowFits(data, g.gridW * g.gridH)
      || exists i :: 0 <= i < g.gridW * g.gridH && AnchorMissing(act, anchors, data, i)
    ensures r.None? <==> LoopRaises(act, anchors, data, g.gridW * g.gridH)
    ensures r == Some([]) <==> LoopQuiet(act, data, g.gridW * g.gridH)
    ensures r.Some? ==> Confident(r.value)
  {
    var n := g.gridW * g.gridH;
    if !RowFits(data, n) then None
    else
      QuietCovered(act, anchors, data, n);
      if AnchorsCover(act, anchors, data, n) then Some(ImageBoxes(g, act, anchors, data)) else None
  }

  /** What each unpatched image yields. */
  function AllImageOutcomes(g: Grid, act: Activations, anchors: seq<Anchor>, outputs: seq<seq<real>>): (r: seq<Option<seq<Detection>>>)
    requires ValidGrid(g)
    ensures |r| == |outputs|
    ensures forall m :: 0 <= m < |outputs| ==> r[m] == ImageOutcome(g, act, anchors, outputs[m])
  {
    seq(|outputs|, m requires 0 <= m < |outputs| => ImageOutcome(g, act, anchors, outputs[m]))
  }

  /**
    The interpreted outputs of unpatched images: no images, a quiet first image, or a cell
    loop that reads past its row or its anchor list makes the loop fail; otherwise the
    result is a suppression of the confident boxes of all images.
   */
  function InterpretOutputs(g: Grid, act: Activations, anchors: seq<Anchor>, outputs: seq<seq<real>>): (r: Result<seq<Detection>, InferError>)
    requires ValidGrid(g)
    ensures r == Failure(NoImages) <==> |outputs| == 0
    ensures r == Failure(EmptyBoxList) <==> |outputs| > 0 && LoopQuiet(act, outputs[0], g.gridW * g.gridH)
    ensures r == Failure(IndexError) <==>
      && |outputs| > 0 && !LoopQuiet(act, outputs[0], g.gridW * g.gridH)
      && exists m :: 0 <= m < |outputs| && LoopRaises(act, anchors, outputs[m], g.gridW * g.gridH)
    ensures r.Success? ==> Confident(r.value)
    ensures r.Success? ==>
      var perImage := AllImageOutcomes(g, act, anchors, outputs);
      && AllYield(perImage)
      && r.value == Thinned(Pooled(Yields(perImage)))
      && SuppressionOf(Pooled(Yields(perImage)), r.value)
  {
    var n := g.gridW * g.gridH;
    var perImage := AllImageOutcomes(g, act, anchors, outputs);
    var r := Suppress(perImage);
    assert AllYield(perImage) <==> forall m :: 0 <= m < |outputs| ==> !LoopRaises(act, anchors, outputs[m], n) by {
      forall m | 0 <= m < |outputs| ensures perImage[m].Some? <==> !LoopRaises(act, anchors, outputs[m], n) {
        assert perImage[m] == ImageOutcome(g, act, anchors, outputs[m]);
      }
    }
    r
  }

  /**
    Patched images: each holds at least `across * down` patch rows, as the reshape of the
    network output into one row per patch gives.
   */
  predicate PatchedOutputsFit(p: Patching, outputs: seq<seq<seq<real>>>) {
    forall m :: 0 <= m < |outputs| ==> p.across * p.down <= |outputs[m]|
  }

  /** The cell loop of some one of the first `m` patches raises IndexError. */
  predicate PatchesRaise(g: Grid, act: Activations, anchors: seq<Anchor>, patches: seq<seq<real>>, m: nat)
    requires ValidGrid(g) && m <= |patches|
  {
    exists q :: 0 <= q < m && LoopRaises(act, anchors, patches[q], g.gridW * g.gridH)
  }

  /** The cell loop of each of the first `m` patches completes and reports no box. */
  predicate PatchesSilent(g: Grid, act: Activations, patches: seq<seq<real>>, m: nat)
    requires ValidGrid(g) && m <= |patches|
  {
    forall q :: 0 <= q < m ==> LoopQuiet(act, patches[q], g.gridW * g.gridH)
  }

  /** What one patched image yields: its boxes, or `None` when the cell loop of a patch raises IndexError. */
  function PatchedOutcome(g: Grid, act: Activations, anchors: seq<Anchor>, p: Patching, patches: seq<seq<real>>)
    : (r: Option<seq<Detection>>)
    requires ValidGrid(g) && p.across > 0 && p.across * p.down <= |patches|
    ensures r.None? <==> PatchesRaise(g, act, anchors, patches, p.across * p.down)
    ensures r == Some([]) <==> PatchesSilent(g, act, patches, p.across * p.down)
    ensures r.Some? ==> Confident(r.value)
  {
    var m := p.across * p.down;
    if !PatchesFit(g, patches, m) then
      var q :| 0 <= q < m && !RowFits(patches[q], g.gridW * g.gridH);
      assert LoopRaises(act, anchors, patches[q], g.gridW * g.gridH);
      None
    else
      forall q | 0 <= q < m ensures Quiet(act, patches[q], g.gridW * g.gridH) ==> AnchorsCover(act, anchors, patches[q], g.gridW * g.gridH) {
        QuietCovered(act, anchors, patches[q], g.gridW * g.gridH);
      }
      if PatchesCover(g, act, anchors, patches, m) then Some(PatchedImageBoxes(g, act, anchors, p, patches)) else None
  }

  /** What each patched image yields. */
  function AllPatchedOutcomes(g: Grid, act: Activations, anchors: seq<Anchor>, p: Patching, outputs: seq<seq<seq<real>>>)
    : (r: seq<Option<seq<Detection>>>)
    requires ValidGrid(g) && p.across > 0 && PatchedOutputsFit(p, outputs)
    ensures |r| == |outputs|
    ensures forall m :: 0 <= m < |outputs| ==> r[m] == PatchedOutcome(g, act, anchors, p, outputs[m])
  {
    seq(|outputs|, m requires 0 <= m < |outputs| => PatchedOutcome(g, act, anchors, p, outputs[m]))
  }

  /**
    The interpreted outputs of patched images, boxes in full-image coordinates: no images,
    a first image whose patches are all quiet, or a patch whose cell loop reads past its
    row or the anchor list makes the loop fail; otherwise the result is a suppression of
    the confident boxes of all images.
   */
  function InterpretPatchedOutputs(g: Grid, act: Activations, anchors: seq<Anchor>, p: Patching, outputs: seq<seq<seq<real>>>)
    : (r: Result<seq<Detection>, InferError>)
    requires ValidGrid(g) && p.across > 0 && PatchedOutputsFit(p, outputs)
    ensures r == Failure(NoImages) <==> |outputs| == 0
    ensures r == Failure(EmptyBoxList) <==> |outputs| > 0 && PatchesSilent(g, act, outputs[0], p.across * p.down)
    ensures r == Failure(IndexError) <==>
      && |outputs| > 0 && !PatchesSilent(g, act, outputs[0], p.across * p.down)
      && exists m :: 0 <= m < |outputs| && PatchesRaise(g, act, anchors, outputs[m], p.across * p.down)
    ensures r.Success? ==> Confident(r.value)
    ensures r.Success? ==>
      var perImage := AllPatchedOutcomes(g, act, anchors, p, outputs);
      && AllYield(perImage)
      && r.value == Thinned(Pooled(Yields(perImage)))
      && SuppressionOf(Pooled(Yields(perImage)), r.value)
  {
    var perImage := AllPatchedOutcomes(g, act, anchors, p, outputs);
    var r := Suppress(perImage);
    assert AllYield(perImage) <==> forall m :: 0 <= m < |outputs| ==> !PatchesRaise(g, act, anchors, outputs[m], p.across * p.down) by {
      forall m | 0 <= m < |outputs| ensures perImage[m].Some? <==> !PatchesRaise(g, act, anchors, outputs[m], p.across * p.down) {
        assert perImage[m] == PatchedOutcome(g, act, anchors, p, outputs[m]);
      }
    }
    r
  }
}
