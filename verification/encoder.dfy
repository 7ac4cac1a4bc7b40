/**
  The grid label encoder (`__convert_labels_to_yolo_format`): each image's pixel boxes
  become one flat vector of grid_w * grid_h cells, each cell holding
  [objectness, class, x offset, y offset, width, height] in grid units. A box is written
  into the cell its centre falls in; a box whose (column, row) pair was already claimed
  in the same image is skipped, and the cell index is wrapped modulo the cell count.

  The model keeps the grid as a sequence of cell rows; `Flatten` gives the flat vector
  and `FlattenUpdate` shows that writing a row is the source's slice assignment.
 */
module Encoder {
  import opened Wrappers
  import opened Arith
  import opened Geometry
  import opened Settings
  import opened Decoder

  /** A ground-truth box in the loaders' order: x_min, x_max, y_min, y_max (pixels). */
  datatype LabelBox = LabelBox(xMin: real, xMax: real, yMin: real, yMax: real)

  datatype EncodeError =
    /** Six values assigned to a cell slice of another length (a class count other than one). */
    | ShapeMismatch

  /** The number of values per cell: objectness, one per class, four coordinates. */
  function CellSize(numClasses: nat): nat {
    1 + numClasses + 4
  }

  function CenterX(b: LabelBox): real {
    (b.xMax - b.xMin) / 2.0 + b.xMin
  }

  function CenterY(b: LabelBox): real {
    (b.yMax - b.yMin) / 2.0 + b.yMin
  }

  /** The box centre in grid units: pixels times grid_w / image_width. */
  function GridX(g: Grid, b: LabelBox): real
    requires ValidGrid(g)
  {
    CenterX(b) * (g.gridW as real / g.imageW as real)
  }

  function GridY(g: Grid, b: LabelBox): real
    requires ValidGrid(g)
  {
    CenterY(b) * (g.gridH as real / g.imageH as real)
  }

  /** The integral parts of the grid centre (`np.modf`): the pair used for the duplicate check. */
  function GridPair(g: Grid, b: LabelBox): (int, int)
    requires ValidGrid(g)
  {
    (Trunc(GridX(g, b)), Trunc(GridY(g, b)))
  }

  /** The grid pairs of all boxes of an image, in order. */
  function Pairs(g: Grid, boxes: seq<LabelBox>): (r: seq<(int, int)>)
    requires ValidGrid(g)
    ensures |r| == |boxes|
    ensures forall i :: 0 <= i < |boxes| ==> r[i] == GridPair(g, boxes[i])
  {
    seq(|boxes|, i requires 0 <= i < |boxes| => GridPair(g, boxes[i]))
  }

  /** Box `i` is written: no earlier box of the image has the same grid pair. */
  predicate Claims(pairs: seq<(int, int)>, i: nat)
    requires i < |pairs|
  {
    pairs[i] !in pairs[..i]
  }

  /** The cell index of a pair, `(y * grid_w + x) % (grid_w * grid_h)`. */
  function WrappedCell(g: Grid, p: (int, int)): (c: nat)
    requires ValidGrid(g)
    ensures c < g.gridW * g.gridH
  {
    (p.1 * g.gridW + p.0) % (g.gridW * g.gridH)
  }

  /** The six values written for a box: objectness, class, centre offsets, size in grid units. */
  function LabelRow(g: Grid, b: LabelBox): (r: seq<real>)
    requires ValidGrid(g)
    ensures |r| == 6
  {
    var gx, gy := GridX(g, b), GridY(g, b);
    [1.0, 1.0,
     gx - Trunc(gx) as real, gy - Trunc(gy) as real,
     (b.xMax - b.xMin) * (g.gridW as real / g.imageW as real),
     (b.yMax - b.yMin) * (g.gridH as real / g.imageH as real)]
  }

  function Zeros(n: nat): (r: seq<real>)
    ensures |r| == n
    ensures forall i :: 0 <= i < n ==> r[i] == 0.0
  {
    seq(n, _ => 0.0)
  }

  /** The encoder's per-image state: the cell rows and the pairs claimed so far. */
  datatype EncodeState = EncodeState(cells: seq<seq<real>>, claimed: seq<(int, int)>)

  /**
    Box `i` is the last claiming box of the image that lands in cell `c`, so its row is
    the one left in the cell.
   */
  predicate LastWriter(g: Grid, pairs: seq<(int, int)>, i: nat)
    requires ValidGrid(g) && i < |pairs|
  {
    && Claims(pairs, i)
    && forall j :: i < j < |pairs| && Claims(pairs, j) ==> WrappedCell(g, pairs[j]) != WrappedCell(g, pairs[i])
  }

  /** No claiming box of the image lands in cell `c`. */
  predicate Untouched(g: Grid, pairs: seq<(int, int)>, c: nat)
    requires ValidGrid(g)
  {
    forall i :: 0 <= i < |pairs| && Claims(pairs, i) ==> WrappedCell(g, pairs[i]) != c
  }

  /** The rows written for all boxes of an image, in order. */
  function Rows(g: Grid, boxes: seq<LabelBox>): (r: seq<seq<real>>)
    requires ValidGrid(g)
    ensures |r| == |boxes|
    ensures forall i :: 0 <= i < |boxes| ==> r[i] == LabelRow(g, boxes[i])
  {
    seq(|boxes|, i requires 0 <= i < |boxes| => LabelRow(g, boxes[i]))
  }

  /**
    The write loop over (pair, row) items in order: an item whose pair is already claimed
    is skipped, otherwise its row overwrites its wrapped cell and its pair is claimed.
   */
  function WriteCells(g: Grid, pairs: seq<(int, int)>, rows: seq<seq<real>>): (st: EncodeState)
    requires ValidGrid(g) && |pairs| == |rows|
    requires forall i :: 0 <= i < |rows| ==> |rows[i]| == 6
    ensures |st.cells| == g.gridW * g.gridH
    ensures forall c :: 0 <= c < |st.cells| ==> |st.cells[c]| == 6
    ensures forall p :: p in st.claimed <==> p in pairs
    decreases |pairs|
  {
    if |pairs| == 0 then
      EncodeState(seq(g.gridW * g.gridH, _ => Zeros(6)), [])
    else
      var m := |pairs| - 1;
      var st := WriteCells(g, pairs[..m], rows[..m]);
      var p := pairs[m];
      assert pairs == pairs[..m] + [p];
      if p in st.claimed then st
      else EncodeState(st.cells[WrappedCell(g, p) := rows[m]], st.claimed + [p])
  }

  /** The boxes of one image written into the cell rows, in order. */
  function EncodeCells(g: Grid, boxes: seq<LabelBox>): (st: EncodeState)
    requires ValidGrid(g)
    ensures |st.cells| == g.gridW * g.gridH
    ensures forall c :: 0 <= c < |st.cells| ==> |st.cells[c]| == 6
    ensures forall p :: p in st.claimed <==> p in Pairs(g, boxes)
  {
    WriteCells(g, Pairs(g, boxes), Rows(g, boxes))
  }

  /** Whether an earlier item claimed the same pair does not depend on later items. */
  lemma ClaimsFront(pairs: seq<(int, int)>, m: nat, i: nat)
    requires i < m <= |pairs|
    ensures Claims(pairs[..m], i) <==> Claims(pairs, i)
  {
    assert pairs[..m][..i] == pairs[..i];
  }

  /** The last item of the write loop: claimed when its pair is new, and then written to its cell. */
  lemma WriteCellsStep(g: Grid, pairs: seq<(int, int)>, rows: seq<seq<real>>)
    requires ValidGrid(g) && |pairs| == |rows| && |pairs| > 0
    requires forall i :: 0 <= i < |rows| ==> |rows[i]| == 6
    ensures var m := |pairs| - 1;
      var prev := WriteCells(g, pairs[..m], rows[..m]);
      WriteCells(g, pairs, rows).cells ==
        if Claims(pairs, m) then prev.cells[WrappedCell(g, pairs[m]) := rows[m]] else prev.cells
  {
    var m := |pairs| - 1;
    var prev := WriteCells(g, pairs[..m], rows[..m]);
    assert pairs[m] in prev.claimed <==> pairs[m] in pairs[..m];
  }

  /** A cell the last item does not write keeps what the earlier items left in it. */
  lemma WriteCellsKeeps(g: Grid, pairs: seq<(int, int)>, rows: seq<seq<real>>, c: nat)
    requires ValidGrid(g) && |pairs| == |rows| && |pairs| > 0
    requires forall i :: 0 <= i < |rows| ==> |rows[i]| == 6
    requires c < g.gridW * g.gridH
    requires Claims(pairs, |pairs| - 1) ==> WrappedCell(g, pairs[|pairs| - 1]) != c
    ensures WriteCells(g, pairs, rows).cells[c] == WriteCells(g, pairs[..|pairs| - 1], rows[..|pairs| - 1]).cells[c]
  {
    WriteCellsStep(g, pairs, rows);
  }

  /** A cell untouched by all items is untouched by every prefix of them. */
  lemma UntouchedFront(g: Grid, pairs: seq<(int, int)>, m: nat, c: nat)
    requires ValidGrid(g) && m <= |pairs| && Untouched(g, pairs, c)
    ensures Untouched(g, pairs[..m], c)
  {
    var front := pairs[..m];
    forall i | 0 <= i < m && Claims(front, i) ensures WrappedCell(g, front[i]) != c {
      ClaimsFront(pairs, m, i);
      assert front[i] == pairs[i];
    }
  }

  /** A cell no claiming item lands in stays all zero. */
  lemma {:induction false} WriteCellsUntouched(g: Grid, pairs: seq<(int, int)>, rows: seq<seq<real>>, c: nat)
    requires ValidGrid(g) && |pairs| == |rows|
    requires forall i :: 0 <= i < |rows| ==> |rows[i]| == 6
    requires c < g.gridW * g.gridH && Untouched(g, pairs, c)
    ensures WriteCells(g, pairs, rows).cells[c] == Zeros(6)
    decreases |pairs|
  {
    if |pairs| > 0 {
      var m := |pairs| - 1;
      var front, earlier := pairs[..m], rows[..m];
      assert Untouched(g, front, c) by { UntouchedFront(g, pairs, m, c); }
      WriteCellsUntouched(g, front, earlier, c);
      WriteCellsKeeps(g, pairs, rows, c);
    }
  }

  /** The last claiming item landing in a cell leaves its row there. */
  lemma {:induction false} WriteCellsLast(g: Grid, pairs: seq<(int, int)>, rows: seq<seq<real>>, i: nat)
    requires ValidGrid(g) && |pairs| == |rows|
    requires forall k :: 0 <= k < |rows| ==> |rows[k]| == 6
    requires i < |pairs| && LastWriter(g, pairs, i)
    ensures WriteCells(g, pairs, rows).cells[WrappedCell(g, pairs[i])] == rows[i]
    decreases |pairs|
  {
    var m := |pairs| - 1;
    var front := pairs[..m];
    WriteCellsStep(g, pairs, rows);
    if i < m {
      ClaimsFront(pairs, m, i);
      forall j | i < j < m && Claims(front, j) ensures WrappedCell(g, front[j]) != WrappedCell(g, front[i]) {
        ClaimsFront(pairs, m, j);
      }
      WriteCellsLast(g, front, rows[..m], i);
    }
  }

  /**
    What the write loop leaves in each cell: a cell no claiming item lands in stays all
    zero, and a cell holds the row of the last claiming item that lands in it.
   */
  lemma WriteCellsContents(g: Grid, pairs: seq<(int, int)>, rows: seq<seq<real>>)
    requires ValidGrid(g) && |pairs| == |rows|
    requires forall i :: 0 <= i < |rows| ==> |rows[i]| == 6
    ensures var st := WriteCells(g, pairs, rows);
      && (forall c :: 0 <= c < |st.cells| && Untouched(g, pairs, c) ==> st.cells[c] == Zeros(6))
      && (forall i :: 0 <= i < |pairs| && LastWriter(g, pairs, i) ==> st.cells[WrappedCell(g, pairs[i])] == rows[i])
  {
    var st := WriteCells(g, pairs, rows);
    forall c | 0 <= c < |st.cells| && Untouched(g, pairs, c) ensures st.cells[c] == Zeros(6) {
      WriteCellsUntouched(g, pairs, rows, c);
    }
    forall i | 0 <= i < |pairs| && LastWriter(g, pairs, i) ensures st.cells[WrappedCell(g, pairs[i])] == rows[i] {
      WriteCellsLast(g, pairs, rows, i);
    }
  }

  /**
    What the encoder leaves in each cell of an image: a cell no claiming box lands in
    stays all zero, and a cell holds the row of the last claiming box landing in it.
   */
  lemma EncodeCellsContents(g: Grid, boxes: seq<LabelBox>)
    requires ValidGrid(g)
    ensures var st := EncodeCells(g, boxes);
      && (forall c :: 0 <= c < |st.cells| && Untouched(g, Pairs(g, boxes), c) ==> st.cells[c] == Zeros(6))
      && (forall i :: 0 <= i < |boxes| && LastWriter(g, Pairs(g, boxes), i) ==>
            st.cells[WrappedCell(g, GridPair(g, boxes[i]))] == LabelRow(g, boxes[i]))
  {
    WriteCellsContents(g, Pairs(g, boxes), Rows(g, boxes));
  }

  /** The first box of an image is always written. */
  lemma FirstBoxClaims(g: Grid, boxes: seq<LabelBox>)
    requires ValidGrid(g) && |boxes| > 0
    ensures Claims(Pairs(g, boxes), 0)
  {
  }

  /** The cell rows laid end to end: the flat vector the source builds. */
  function Flatten(cells: seq<seq<real>>, w: nat): (r: seq<real>)
    requires forall c :: 0 <= c < |cells| ==> |cells[c]| == w
    ensures |r| == |cells| * w
    decreases |cells|
  {
    if |cells| == 0 then []
    else Flatten(cells[..|cells| - 1], w) + cells[|cells| - 1]
  }

  lemma {:induction false} FlattenConcat(a: seq<seq<real>>, b: seq<seq<real>>, w: nat)
    requires forall c :: 0 <= c < |a| ==> |a[c]| == w
    requires forall c :: 0 <= c < |b| ==> |b[c]| == w
    ensures Flatten(a + b, w) == Flatten(a, w) + Flatten(b, w)
    decreases |b|
  {
    if |b| == 0 {
      assert a + b == a;
    } else {
      var m := |b| - 1;
      assert (a + b)[..|a + b| - 1] == a + b[..m];
      FlattenConcat(a, b[..m], w);
    }
  }

  /** Cell `c`'s row occupies the slice [c * w, (c + 1) * w) of the flat vector. */
  lemma FlattenSplit(cells: seq<seq<real>>, w: nat, c: nat)
    requires forall k :: 0 <= k < |cells| ==> |cells[k]| == w
    requires c < |cells|
    ensures |Flatten(cells[..c], w)| == c * w
    ensures Flatten(cells, w) == Flatten(cells[..c], w) + cells[c] + Flatten(cells[c + 1..], w)
  {
    assert cells == cells[..c] + ([cells[c]] + cells[c + 1..]);
    FlattenConcat(cells[..c], [cells[c]] + cells[c + 1..], w);
    FlattenConcat([cells[c]], cells[c + 1..], w);
    assert Flatten([cells[c]], w) == cells[c] by {
      assert [cells[c]][..0] == [];
    }
  }

  /** Entry k of cell c sits at flat index c * w + k. */
  lemma FlattenIndex(cells: seq<seq<real>>, w: nat, c: nat, k: nat)
    requires forall j :: 0 <= j < |cells| ==> |cells[j]| == w
    requires c < |cells| && k < w
    ensures c * w + k < |Flatten(cells, w)|
    ensures Flatten(cells, w)[c * w + k] == cells[c][k]
  {
    FlattenSplit(cells, w, c);
  }

  /** NumPy's normalisation of a slice bound: negative counts from the end, then clamp to [0, len]. */
  function SliceBound(i: int, len: nat): (r: nat)
    ensures r <= len
    ensures 0 <= i <= len ==> r == i
    ensures -(len as int) <= i < 0 ==> r == len + i
  {
    if i < 0 then (if i + len < 0 then 0 else i + len)
    else if i > len then len
    else i
  }

  /** `a[start:stop] = vals`: the selected slice must have exactly as many entries as `vals`. */
  function SliceAssign(a: seq<real>, start: int, stop: int, vals: seq<real>): (r: Result<seq<real>, EncodeError>)
    ensures r.Success? ==> |r.value| == |a|
  {
    var lo, hi := SliceBound(start, |a|), SliceBound(stop, |a|);
    var len := if hi < lo then 0 else hi - lo;
    if len != |vals| then Failure(ShapeMismatch)
    else if hi <= lo then Success(a)
    else Success(a[..lo] + vals + a[hi..])
  }

  /**
    Writing a full-width row into cell `c` of the rows is the slice assignment
    `flat[c * w:(c + 1) * w] = row` on the flat vector.
   */
  lemma FlattenUpdate(cells: seq<seq<real>>, w: nat, c: nat, row: seq<real>)
    requires forall k :: 0 <= k < |cells| ==> |cells[k]| == w
    requires c < |cells| && |row| == w
    ensures SliceAssign(Flatten(cells, w), c * w, (c + 1) * w, row) == Success(Flatten(cells[c := row], w))
  {
    var updated := cells[c := row];
    FlattenSplit(cells, w, c);
    FlattenSplit(updated, w, c);
    assert updated[..c] == cells[..c];
    assert updated[c + 1..] == cells[c + 1..];
    var flat := Flatten(cells, w);
    var pre := Flatten(cells[..c], w);
    assert (c + 1) * w == c * w + w;
    assert flat[..c * w] == pre;
    assert flat[(c + 1) * w..] == Flatten(cells[c + 1..], w);
  }

  /**
    One image: no boxes leaves the all-zero vector; otherwise the first box is always
    written, and its six values fit the cell slice only when there is exactly one class.
   */
  function EncodeImage(g: Grid, numClasses: nat, boxes: seq<LabelBox>): (r: Result<seq<real>, EncodeError>)
    requires ValidGrid(g)
    ensures r.Failure? <==> |boxes| > 0 && numClasses != 1
    ensures r.Success? ==> |r.value| == g.gridW * g.gridH * CellSize(numClasses)
  {
    if |boxes| == 0 then Success(Zeros(g.gridW * g.gridH * CellSize(numClasses)))
    else if CellSize(numClasses) != 6 then Failure(ShapeMismatch)
    else Success(Flatten(EncodeCells(g, boxes).cells, 6))
  }

  /** Every image's boxes, in order; the conversion stops at the first image that fails. */
  function ConvertLabels(g: Grid, numClasses: nat, images: seq<seq<LabelBox>>): (r: Result<seq<seq<real>>, EncodeError>)
    requires ValidGrid(g)
    ensures r.Failure? <==> numClasses != 1 && exists i :: 0 <= i < |images| && |images[i]| > 0
    ensures r.Success? ==> |r.value| == |images|
    ensures r.Success? ==> forall i :: 0 <= i < |images| ==> EncodeImage(g, numClasses, images[i]) == Success(r.value[i])
    decreases |images|
  {
    if |images| == 0 then Success([])
    else
      var m := |images| - 1;
      var front := ConvertLabels(g, numClasses, images[..m]);
      var last := EncodeImage(g, numClasses, images[m]);
      if front.Failure? then
        assert exists i :: 0 <= i < |images| && |images[i]| > 0 by {
          var i :| 0 <= i < m && |images[..m][i]| > 0;
          assert images[i] == images[..m][i];
        }
        front
      else if last.Failure? then Failure(last.error)
      else
        assert forall i :: 0 <= i < m ==> images[i] == images[..m][i];
        Success(front.value + [last.value])
  }

  /** A centre strictly inside the image lies strictly inside the grid. */
  lemma CenterInGrid(g: Grid, b: LabelBox)
    requires ValidGrid(g)
    requires 0.0 <= CenterX(b) < g.imageW as real && 0.0 <= CenterY(b) < g.imageH as real
    ensures 0 <= Trunc(GridX(g, b)) < g.gridW
    ensures 0 <= Trunc(GridY(g, b)) < g.gridH
  {
    assert 0.0 <= GridX(g, b) < g.gridW as real by {
      var s := g.gridW as real / g.imageW as real;
      ScaleInterval(CenterX(b), g.imageW as real, s);
      assert g.imageW as real * s == g.gridW as real;
    }
    assert 0.0 <= GridY(g, b) < g.gridH as real by {
      var s := g.gridH as real / g.imageH as real;
      ScaleInterval(CenterY(b), g.imageH as real, s);
      assert g.imageH as real * s == g.gridH as real;
    }
    TruncBelow(GridX(g, b), g.gridW);
    TruncBelow(GridY(g, b), g.gridH);
  }

  /**
    For a centre inside the image the offsets lie in [0, 1) and the size is the pixel size
    scaled by grid over image.
   */
  lemma LabelRowValues(g: Grid, b: LabelBox)
    requires ValidGrid(g)
    requires 0.0 <= CenterX(b) < g.imageW as real && 0.0 <= CenterY(b) < g.imageH as real
    ensures var r := LabelRow(g, b);
      && 0.0 <= r[2] < 1.0 && 0.0 <= r[3] < 1.0
      && r[4] == (b.xMax - b.xMin) * g.gridW as real / g.imageW as real
      && r[5] == (b.yMax - b.yMin) * g.gridH as real / g.imageH as real
  {
    CenterInGrid(g, b);
    ScaleInterval(CenterX(b), g.imageW as real, g.gridW as real / g.imageW as real);
    ScaleInterval(CenterY(b), g.imageH as real, g.gridH as real / g.imageH as real);
  }

  /** Inside the grid the wrap is the identity and the cell's column and row are the pair. */
  lemma CellOfPairInGrid(g: Grid, p: (int, int))
    requires ValidGrid(g)
    requires 0 <= p.0 < g.gridW && 0 <= p.1 < g.gridH
    ensures WrappedCell(g, p) == p.1 * g.gridW + p.0
    ensures Col(g, WrappedCell(g, p)) == p.0 && RowOf(g, WrappedCell(g, p)) == p.1
  {
    var n := g.gridW * g.gridH;
    var a := p.1 * g.gridW + p.0;
    MulSign(g.gridH - 1 - p.1, g.gridW);
    assert a < n by {
      assert n - a == (g.gridH - 1 - p.1) * g.gridW + (g.gridW - p.0);
    }
    DivModUnique(a, n, 0, a);
    DivModUnique(a, g.gridW, p.1, p.0);
  }

  /** Distinct pairs inside the grid land in distinct cells. */
  lemma CellsDistinctInGrid(g: Grid, p: (int, int), q: (int, int))
    requires ValidGrid(g)
    requires 0 <= p.0 < g.gridW && 0 <= p.1 < g.gridH
    requires 0 <= q.0 < g.gridW && 0 <= q.1 < g.gridH
    requires p != q
    ensures WrappedCell(g, p) != WrappedCell(g, q)
  {
    CellOfPairInGrid(g, p);
    CellOfPairInGrid(g, q);
  }

  /**
    Round trip with the label path of the coordinate converter: the row written for a box
    whose centre lies inside the image decodes back to [1, 1, x_min, y_min, x_max, y_max].
   */
  lemma LabelRoundTrip(g: Grid, b: LabelBox)
    requires ValidGrid(g)
    requires 0.0 <= CenterX(b) < g.imageW as real && 0.0 <= CenterY(b) < g.imageH as real
    ensures DecodeLabelRow(g, WrappedCell(g, GridPair(g, b)), LabelRow(g, b)) == [1.0, 1.0, b.xMin, b.yMin, b.xMax, b.yMax]
  {
    var row := LabelRow(g, b);
    var c := WrappedCell(g, GridPair(g, b));
    LabelCorners(g, b);
    assert CellToCorners(g, c, row[2], row[3], row[4], row[5]) == Box(b.xMin, b.yMin, b.xMax, b.yMax);
    assert row[..2] == [1.0, 1.0];
  }

  /** The corners decoded from a label row are the box's corners. */
  lemma LabelCorners(g: Grid, b: LabelBox)
    requires ValidGrid(g)
    requires 0.0 <= CenterX(b) < g.imageW as real && 0.0 <= CenterY(b) < g.imageH as real
    ensures var row := LabelRow(g, b);
      CellToCorners(g, WrappedCell(g, GridPair(g, b)), row[2], row[3], row[4], row[5]) == Box(b.xMin, b.yMin, b.xMax, b.yMax)
  {
    CenterInGrid(g, b);
    CellOfPairInGrid(g, GridPair(g, b));
    LabelCornersX(g, b, WrappedCell(g, GridPair(g, b)));
    LabelCornersY(g, b, WrappedCell(g, GridPair(g, b)));
  }

  /** Along x: in a cell whose column is the integral part of the centre, the corners are x_min, x_max. */
  lemma LabelCornersX(g: Grid, b: LabelBox, c: nat)
    requires ValidGrid(g)
    requires Col(g, c) == GridPair(g, b).0
    ensures var row := LabelRow(g, b);
      var box := CellToCorners(g, c, row[2], row[3], row[4], row[5]);
      box.x1 == b.xMin && box.x2 == b.xMax
  {
    var row := LabelRow(g, b);
    assert row[2] + Col(g, c) as real == GridX(g, b);
    LabelAxisX(g, b);
    CornersFromCentreX(g, c, row[2], row[3], row[4], row[5], GridX(g, b), b.xMin, b.xMax);
  }

  /** Along y: in a cell whose row is the integral part of the centre, the corners are y_min, y_max. */
  lemma LabelCornersY(g: Grid, b: LabelBox, c: nat)
    requires ValidGrid(g)
    requires RowOf(g, c) == GridPair(g, b).1
    ensures var row := LabelRow(g, b);
      var box := CellToCorners(g, c, row[2], row[3], row[4], row[5]);
      box.y1 == b.yMin && box.y2 == b.yMax
  {
    var row := LabelRow(g, b);
    assert row[3] + RowOf(g, c) as real == GridY(g, b);
    LabelAxisY(g, b);
    CornersFromCentreY(g, c, row[2], row[3], row[4], row[5], GridY(g, b), b.yMin, b.yMax);
  }

  /** Along x the corners are fixed by the centre and the width, both in grid units. */
  lemma CornersFromCentreX(g: Grid, c: nat, x: real, y: real, w: real, h: real, mid: real, lo: real, hi: real)
    requires ValidGrid(g)
    requires x + Col(g, c) as real == mid
    requires mid * CellWidth(g) == (hi - lo) / 2.0 + lo && w * CellWidth(g) == hi - lo
    ensures CellToCorners(g, c, x, y, w, h).x1 == lo && CellToCorners(g, c, x, y, w, h).x2 == hi
  {
    CornersMeaning(g, c, x, y, w, h);
  }

  /** Along y the corners are fixed by the centre and the height, both in grid units. */
  lemma CornersFromCentreY(g: Grid, c: nat, x: real, y: real, w: real, h: real, mid: real, lo: real, hi: real)
    requires ValidGrid(g)
    requires y + RowOf(g, c) as real == mid
    requires mid * CellHeight(g) == (hi - lo) / 2.0 + lo && h * CellHeight(g) == hi - lo
    ensures CellToCorners(g, c, x, y, w, h).y1 == lo && CellToCorners(g, c, x, y, w, h).y2 == hi
  {
    CornersMeaning(g, c, x, y, w, h);
  }

  /** Along x, grid units scaled back by the cell width are pixels again. */
  lemma LabelAxisX(g: Grid, b: LabelBox)
    requires ValidGrid(g)
    ensures GridX(g, b) * CellWidth(g) == CenterX(b)
    ensures LabelRow(g, b)[4] * CellWidth(g) == b.xMax - b.xMin
  {
    ScaleBack(CenterX(b), g.gridW as real, g.imageW as real);
    ScaleBack(b.xMax - b.xMin, g.gridW as real, g.imageW as real);
  }

  /** Along y, grid units scaled back by the cell height are pixels again. */
  lemma LabelAxisY(g: Grid, b: LabelBox)
    requires ValidGrid(g)
    ensures GridY(g, b) * CellHeight(g) == CenterY(b)
    ensures LabelRow(g, b)[5] * CellHeight(g) == b.yMax - b.yMin
  {
    ScaleBack(CenterY(b), g.gridH as real, g.imageH as real);
    ScaleBack(b.yMax - b.yMin, g.gridH as real, g.imageH as real);
  }

  /**
    When every centre lies inside the image, every claiming box's row survives in its own
    cell and decodes back to the box.
   */
  lemma EncodeDecodeImage(g: Grid, boxes: seq<LabelBox>, i: nat)
    requires ValidGrid(g) && i < |boxes|
    requires forall j :: 0 <= j < |boxes| ==>
      0.0 <= CenterX(boxes[j]) < g.imageW as real && 0.0 <= CenterY(boxes[j]) < g.imageH as real
    requires Claims(Pairs(g, boxes), i)
    ensures var c := WrappedCell(g, GridPair(g, boxes[i]));
      DecodeLabels(g, EncodeCells(g, boxes).cells)[c] == [1.0, 1.0, boxes[i].xMin, boxes[i].yMin, boxes[i].xMax, boxes[i].yMax]
  {
    var pairs := Pairs(g, boxes);
    forall j | i < j < |pairs| && Claims(pairs, j)
      ensures WrappedCell(g, pairs[j]) != WrappedCell(g, pairs[i])
    {
      assert pairs[i] in pairs[..j];
      CenterInGrid(g, boxes[i]);
      CenterInGrid(g, boxes[j]);
      CellsDistinctInGrid(g, pairs[i], pairs[j]);
    }
    assert LastWriter(g, pairs, i);
    EncodeCellsContents(g, boxes);
    LabelRoundTrip(g, boxes[i]);
  }

  /**
    A centre exactly on the right edge (column grid_w) goes to column 0 of the next row,
    and on the bottom-right corner to cell 0 rather than to the last cell.
   */
  lemma RightEdgeWraps(g: Grid, y: int)
    requires ValidGrid(g) && 0 <= y < g.gridH
    ensures WrappedCell(g, (g.gridW, y)) == (if y + 1 < g.gridH then (y + 1) * g.gridW else 0)
    ensures g.gridW * g.gridH > 1 && y == g.gridH - 1 ==> WrappedCell(g, (g.gridW, y)) != g.gridW * g.gridH - 1
  {
    var n := g.gridW * g.gridH;
    var a := y * g.gridW + g.gridW;
    assert a == (y + 1) * g.gridW;
    if y + 1 < g.gridH {
      MulSign(g.gridH - (y + 1), g.gridW);
      assert n - a == (g.gridH - (y + 1)) * g.gridW;
      DivModUnique(a, n, 0, a);
    } else {
      DivModUnique(a, n, 1, 0);
    }
  }

  /** The 2x2 grid over a 2x2 pixel image used by the collision example. */
  const Tiny: Grid := Grid(2, 2, 2, 2)

  /**
    Two boxes with different grid pairs can share a cell after the wrap, and the later one
    overwrites the earlier: A sits in column 0, row 1 (cell 2); B's centre is on the right
    edge of row 0, pair (2, 0), which also wraps to cell 2.
   */
  lemma WrapOverwrites()
    ensures var a, b := LabelBox(0.0, 1.0, 1.0, 2.0), LabelBox(1.5, 2.5, 0.0, 1.0);
      && GridPair(Tiny, a) == (0, 1) && GridPair(Tiny, b) == (2, 0)
      && Claims(Pairs(Tiny, [a, b]), 1)
      && WrappedCell(Tiny, GridPair(Tiny, a)) == 2 && WrappedCell(Tiny, GridPair(Tiny, b)) == 2
      && EncodeCells(Tiny, [a, b]).cells[2] == LabelRow(Tiny, b)
      && EncodeCells(Tiny, [a, b]).cells[2] != LabelRow(Tiny, a)
  {
    var a, b := LabelBox(0.0, 1.0, 1.0, 2.0), LabelBox(1.5, 2.5, 0.0, 1.0);
    assert GridX(Tiny, a) == 0.5 && GridY(Tiny, a) == 1.5;
    assert GridX(Tiny, b) == 2.0 && GridY(Tiny, b) == 0.5;
    var pairs := Pairs(Tiny, [a, b]);
    assert pairs == [(0, 1), (2, 0)];
    assert pairs[..1] == [(0, 1)];
    assert LastWriter(Tiny, pairs, 1);
    EncodeCellsContents(Tiny, [a, b]);
    assert LabelRow(Tiny, a)[2] == 0.5 && LabelRow(Tiny, b)[2] == 0.0;
  }

  /**
    The older single-box encoder: the cell index is y * grid_w + x without the wrap, and the
    row goes in with a NumPy slice assignment, which accepts some indices outside the grid.
   */
  function EncodeSingle(g: Grid, numClasses: nat, b: LabelBox): (r: Result<seq<real>, EncodeError>)
    requires ValidGrid(g)
    ensures r.Success? ==> |r.value| == g.gridW * g.gridH * CellSize(numClasses)
  {
    var p := GridPair(g, b);
    var k := p.1 * g.gridW + p.0;
    var v := CellSize(numClasses);
    SliceAssign(Zeros(g.gridW * g.gridH * v), k * v, (k + 1) * v, LabelRow(g, b))
  }

  /**
    The single-box encoder succeeds exactly when there is one class and the unwrapped
    index k is a cell (0 <= k < n) or a negative index at least two from the end
    (-n <= k <= -2); every other index selects a slice of the wrong width and fails.
   */
  lemma EncodeSingleSucceeds(g: Grid, numClasses: nat, b: LabelBox)
    requires ValidGrid(g)
    ensures var n := g.gridW * g.gridH;
      var k := GridPair(g, b).1 * g.gridW + GridPair(g, b).0;
      EncodeSingle(g, numClasses, b).Success? <==> numClasses == 1 && (0 <= k < n || -n <= k <= -2)
  {
    var n := g.gridW * g.gridH;
    var p := GridPair(g, b);
    var k := p.1 * g.gridW + p.0;
    SliceSelects(k, CellSize(numClasses), n);
  }

  /**
    When the single-box encoder succeeds, its label is the empty grid with the box's row
    in cell k mod n, so a negative index lands counted from the end of the grid.
   */
  lemma EncodeSinglePlacement(g: Grid, numClasses: nat, b: LabelBox)
    requires ValidGrid(g)
    ensures var n := g.gridW * g.gridH;
      var k := GridPair(g, b).1 * g.gridW + GridPair(g, b).0;
      EncodeSingle(g, numClasses, b).Success? ==>
        EncodeSingle(g, numClasses, b).value == Flatten(seq(n, _ => Zeros(6))[k % n := LabelRow(g, b)], 6)
  {
    var n := g.gridW * g.gridH;
    var p := GridPair(g, b);
    var k := p.1 * g.gridW + p.0;
    EncodeSingleSucceeds(g, numClasses, b);
    if EncodeSingle(g, numClasses, b).Success? {
      var row := LabelRow(g, b);
      var c := if k >= 0 then k else n + k;
      DivModUnique(k, n, if k >= 0 then 0 else -1, c);
      SliceSelects(k, 6, n);
      SliceSelects(c, 6, n);
      var empty := seq(n, _ => Zeros(6));
      EmptyFlatten(n);
      SliceAssignBounds(Zeros(n * 6), k * 6, (k + 1) * 6, c * 6, (c + 1) * 6, row);
      FlattenUpdate(empty, 6, c, row);
    }
  }

  /** A slice assignment depends on its bounds only through where they land in the vector. */
  lemma SliceAssignBounds(a: seq<real>, start: int, stop: int, start': int, stop': int, vals: seq<real>)
    requires SliceBound(start, |a|) == SliceBound(start', |a|)
    requires SliceBound(stop, |a|) == SliceBound(stop', |a|)
    ensures SliceAssign(a, start, stop, vals) == SliceAssign(a, start', stop', vals)
  {
  }

  /**
    On a vector of n cells of width v, the slice [k * v, (k + 1) * v) selects cell k mod n
    when 0 <= k < n or -n <= k <= -2, and nothing for every other k.
   */
  lemma SliceSelects(k: int, v: nat, n: nat)
    requires v > 0 && n > 0
    ensures var len := n * v;
      var lo, hi := SliceBound(k * v, len), SliceBound((k + 1) * v, len);
      && (0 <= k < n ==> lo == k * v && hi == lo + v)
      && (-(n as int) <= k <= -2 ==> lo == (n + k) * v && hi == lo + v)
      && (!(0 <= k < n || -(n as int) <= k <= -2) ==> hi <= lo)
  {
    var len := n * v;
    assert (k + 1) * v == k * v + v;
    assert (n + k) * v == len + k * v;
    if 0 <= k < n {
      MulSign(n - k, v);
      assert len - k * v == (n - k) * v;
    } else if -(n as int) <= k <= -2 {
      MulSign(-(k + 1), v);
      MulSign(n + k + 1, v);
      assert len + (k + 1) * v == (n + k + 1) * v;
      assert -(k + 1) * v == -((k + 1) * v);
    } else if k >= n {
      MulSign(k - n + 1, v);
      assert k * v - len + v == (k - n + 1) * v;
    } else if k == -1 {
      MulSign(n, v);
    } else {
      MulSign(-(k + n + 1), v);
      assert -(k + n + 1) * v == -(k * v) - len - v;
    }
  }

  /** The all-zero grid flattens to the all-zero vector. */
  lemma {:induction false} EmptyFlatten(n: nat)
    ensures Flatten(seq(n, _ => Zeros(6)), 6) == Zeros(n * 6)
  {
    if n > 0 {
      var cells := seq(n, _ => Zeros(6));
      assert cells[..n - 1] == seq(n - 1, _ => Zeros(6));
      EmptyFlatten(n - 1);
    }
  }
}
