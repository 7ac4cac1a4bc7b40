/**
  Coordinate conversion for labels and predictions (`__yolo_coord_convert`): grid-cell
  relative centre/size boxes become pixel corner boxes. Prediction logits first go
  through the logistic sigmoid (offsets, confidence) and the exponential times the
  scaled anchor (size).
 */
module Decoder {
  import opened Geometry
  import opened Settings

  /** scipy's `expit` and NumPy's `exp`, known to the model only through their ranges. */
  datatype Activations = Activations(sigmoid: real -> real, exp: real -> real)

  /** The sigmoid maps into the open interval (0, 1) and the exponential is positive. */
  ghost predicate ValidActivations(act: Activations) {
    && (forall t :: 0.0 < act.sigmoid(t) < 1.0)
    && (forall t :: 0.0 < act.exp(t))
  }

  /** Column of linear cell index `idx` (`idx % grid_w`). */
  function Col(g: Grid, idx: nat): nat
    requires g.gridW > 0
  {
    idx % g.gridW
  }

  /** Row of linear cell index `idx` (`idx // grid_w`). */
  function RowOf(g: Grid, idx: nat): nat
    requires g.gridW > 0
  {
    idx / g.gridW
  }

  /**
    A box given in grid units relative to cell `idx` (centre offset x, y and size w, h)
    in pixel corner form.
   */
  function CellToCorners(g: Grid, idx: nat, x: real, y: real, w: real, h: real): (b: Box)
    requires ValidGrid(g)
  {
    var cx := (x + Col(g, idx) as real) * CellWidth(g);
    var cy := (y + RowOf(g, idx) as real) * CellHeight(g);
    var pw := w * CellWidth(g);
    var ph := h * CellHeight(g);
    Box(cx - pw / 2.0, cy - ph / 2.0, cx + pw / 2.0, cy + ph / 2.0)
  }

  /** The corners are centred on the cell-shifted centre and span the scaled size. */
  lemma CornersMeaning(g: Grid, idx: nat, x: real, y: real, w: real, h: real)
    requires ValidGrid(g)
    ensures var b := CellToCorners(g, idx, x, y, w, h);
      && (b.x1 + b.x2) / 2.0 == (x + Col(g, idx) as real) * CellWidth(g)
      && (b.y1 + b.y2) / 2.0 == (y + RowOf(g, idx) as real) * CellHeight(g)
      && b.x2 - b.x1 == w * CellWidth(g)
      && b.y2 - b.y1 == h * CellHeight(g)
  {
  }

  /** The last four entries of a decoded label row, which hold its corners. */
  function LabelBox(row: seq<real>): Box
    requires |row| >= 4
  {
    var n := |row|;
    Box(row[n - 4], row[n - 3], row[n - 2], row[n - 1])
  }

  /**
    One label row [objectness, classes..., x, y, w, h] of cell `idx` becomes
    [objectness, classes..., x1, y1, x2, y2]; the prefix is passed through.
   */
  function DecodeLabelRow(g: Grid, idx: nat, row: seq<real>): (r: seq<real>)
    requires ValidGrid(g) && |row| >= 4
    ensures |r| == |row|
    ensures r[..|row| - 4] == row[..|row| - 4]
    ensures LabelBox(r) == CellToCorners(g, idx, row[|row| - 4], row[|row| - 3], row[|row| - 2], row[|row| - 1])
  {
    var n := |row|;
    var b := CellToCorners(g, idx, row[n - 4], row[n - 3], row[n - 2], row[n - 1]);
    row[..n - 4] + [b.x1, b.y1, b.x2, b.y2]
  }

  /** All label rows of one image, row `i` belonging to cell `i`. */
  function DecodeLabels(g: Grid, rows: seq<seq<real>>): (r: seq<seq<real>>)
    requires ValidGrid(g) && |rows| == g.gridW * g.gridH
    requires forall i :: 0 <= i < |rows| ==> |rows[i]| >= 4
    ensures |r| == |rows|
    ensures forall i :: 0 <= i < |rows| ==> r[i] == DecodeLabelRow(g, i, rows[i])
  {
    seq(|rows|, i requires 0 <= i < |rows| => DecodeLabelRow(g, i, rows[i]))
  }

  /** The pixel box predicted by anchor `a` at cell `idx` from logits tx, ty, tw, th. */
  function AnchorBox(g: Grid, act: Activations, a: Anchor, idx: nat, tx: real, ty: real, tw: real, th: real): Box
    requires ValidGrid(g)
  {
    CellToCorners(g, idx, act.sigmoid(tx), act.sigmoid(ty), act.exp(tw) * a.w, act.exp(th) * a.h)
  }

  /** One anchor's decoded prediction: a pixel box and its confidence. */
  datatype Candidate = Candidate(box: Box, conf: real)

  /**
    A decoded prediction row: one candidate per anchor, then the class logits. The source
    keeps this as a flat row [x1, y1, x2, y2, conf, ..., classes] and reshapes the anchor
    part to one block of five per anchor wherever it reads it.
   */
  datatype DecodedCell = DecodedCell(candidates: seq<Candidate>, classes: seq<real>)

  /** Anchor `k`'s block (tx, ty, tw, th, to) of a raw prediction row, decoded. */
  function DecodeCandidate(g: Grid, act: Activations, anchors: seq<Anchor>, idx: nat, row: seq<real>, k: nat): Candidate
    requires ValidGrid(g) && k < |anchors| && 5 * |anchors| <= |row|
  {
    Candidate(AnchorBox(g, act, anchors[k], idx, row[5 * k], row[5 * k + 1], row[5 * k + 2], row[5 * k + 3]),
              act.sigmoid(row[5 * k + 4]))
  }

  /**
    One raw prediction row of cell `idx`: every anchor block of logits is decoded; the
    class logits after the blocks are passed through unchanged.
   */
  function DecodePredRow(g: Grid, act: Activations, anchors: seq<Anchor>, idx: nat, row: seq<real>): (r: DecodedCell)
    requires ValidGrid(g) && 5 * |anchors| <= |row|
    ensures |r.candidates| == |anchors|
    ensures r.classes == row[5 * |anchors|..]
  {
    DecodedCell(seq(|anchors|, k requires 0 <= k < |anchors| => DecodeCandidate(g, act, anchors, idx, row, k)),
                row[5 * |anchors|..])
  }

  /** Prediction rows of one image, row `i` belonging to cell `i`. */
  function DecodePredictions(g: Grid, act: Activations, anchors: seq<Anchor>, preds: seq<seq<real>>): (r: seq<DecodedCell>)
    requires ValidGrid(g) && |preds| == g.gridW * g.gridH
    requires forall i :: 0 <= i < |preds| ==> 5 * |anchors| <= |preds[i]|
    ensures |r| == |preds|
    ensures forall i :: 0 <= i < |preds| ==> r[i] == DecodePredRow(g, act, anchors, i, preds[i])
  {
    seq(|preds|, i requires 0 <= i < |preds| => DecodePredRow(g, act, anchors, i, preds[i]))
  }

  /** Every anchor has positive width and height. */
  predicate PositiveAnchors(anchors: seq<Anchor>) {
    forall k :: 0 <= k < |anchors| ==> anchors[k].w > 0.0 && anchors[k].h > 0.0
  }

  /** Every candidate of every cell has a box with positive area. */
  predicate BoxesHaveArea(cells: seq<DecodedCell>) {
    forall i, k :: 0 <= i < |cells| && 0 <= k < |cells[i].candidates| ==> HasArea(cells[i].candidates[k].box)
  }

  /**
    What a decoded prediction says, for anchor `k` at cell `idx`: the centre is the
    sigmoid offset plus the cell position, scaled to pixels; the size is exp of the logit
    times the anchor, scaled to pixels, hence positive; the confidence lies in (0, 1).
   */
  lemma PredictionMeaning(g: Grid, act: Activations, anchors: seq<Anchor>, idx: nat, row: seq<real>, k: nat)
    requires ValidGrid(g) && ValidActivations(act) && 5 * |anchors| <= |row| && k < |anchors|
    requires anchors[k].w > 0.0 && anchors[k].h > 0.0
    ensures var c := DecodePredRow(g, act, anchors, idx, row).candidates[k];
      && (c.box.x1 + c.box.x2) / 2.0 == (act.sigmoid(row[5 * k]) + Col(g, idx) as real) * CellWidth(g)
      && (c.box.y1 + c.box.y2) / 2.0 == (act.sigmoid(row[5 * k + 1]) + RowOf(g, idx) as real) * CellHeight(g)
      && c.box.x2 - c.box.x1 == act.exp(row[5 * k + 2]) * anchors[k].w * CellWidth(g)
      && c.box.y2 - c.box.y1 == act.exp(row[5 * k + 3]) * anchors[k].h * CellHeight(g)
      && HasArea(c.box)
      && 0.0 < c.conf < 1.0
  {
    var tw, th, to := row[5 * k + 2], row[5 * k + 3], row[5 * k + 4];
    var sx, sy := act.sigmoid(row[5 * k]), act.sigmoid(row[5 * k + 1]);
    var ew, eh := act.exp(tw), act.exp(th);
    var w, h := ew * anchors[k].w, eh * anchors[k].h;
    CornersMeaning(g, idx, sx, sy, w, h);
    assert 0.0 < ew && 0.0 < eh;
    MulPositive(ew, anchors[k].w);
    MulPositive(w, CellWidth(g));
    MulPositive(eh, anchors[k].h);
    MulPositive(h, CellHeight(g));
    assert 0.0 < act.sigmoid(to) < 1.0;
  }

  /** With positive anchors every decoded box has positive area. */
  lemma DecodedBoxesHaveArea(g: Grid, act: Activations, anchors: seq<Anchor>, preds: seq<seq<real>>)
    requires ValidGrid(g) && |preds| == g.gridW * g.gridH
    requires forall i :: 0 <= i < |preds| ==> 5 * |anchors| <= |preds[i]|
    requires ValidActivations(act) && PositiveAnchors(anchors)
    ensures BoxesHaveArea(DecodePredictions(g, act, anchors, preds))
  {
    var r := DecodePredictions(g, act, anchors, preds);
    forall i, k | 0 <= i < |r| && 0 <= k < |r[i].candidates|
      ensures HasArea(r[i].candidates[k].box)
    {
      PredictionMeaning(g, act, anchors, i, preds[i], k);
    }
  }

  /**
    In a consistent configuration the grid scaling of the anchors cancels: a decoded box
    is exp of the size logit times the raw pixel anchor wide and high.
   */
  lemma DecodedSizeUsesRawAnchor(c: Config, act: Activations, idx: nat, row: seq<real>, k: nat)
    requires Consistent(c) && c.image.Some? && ValidGrid(GridOf(c))
    requires 5 * c.numBoxes <= |row| && k < c.numBoxes
    ensures var b := DecodePredRow(GridOf(c), act, c.anchors.value, idx, row).candidates[k].box;
      && b.x2 - b.x1 == act.exp(row[5 * k + 2]) * c.rawAnchors[k].w as real
      && b.y2 - b.y1 == act.exp(row[5 * k + 3]) * c.rawAnchors[k].h as real
  {
    var g := GridOf(c);
    var anchors := c.anchors.value;
    var sx, sy := act.sigmoid(row[5 * k]), act.sigmoid(row[5 * k + 1]);
    var ew, eh := act.exp(row[5 * k + 2]), act.exp(row[5 * k + 3]);
    var w, h := ew * anchors[k].w, eh * anchors[k].h;
    CornersMeaning(g, idx, sx, sy, w, h);
    assert anchors[k].w * CellWidth(g) == c.rawAnchors[k].w as real;
    assert anchors[k].h * CellHeight(g) == c.rawAnchors[k].h as real;
    assert w * CellWidth(g) == ew * (anchors[k].w * CellWidth(g));
    assert h * CellHeight(g) == eh * (anchors[k].h * CellHeight(g));
  }
}
