/**
  Detection filtering (`__yolo_filter_predictions`): each grid cell keeps only its most
  confident anchor, cells at or below the significance threshold are dropped, and greedy
  non-maximal suppression keeps the most confident box and every box that does not
  overlap it, repeatedly.
 */
module Filter {
  import opened Wrappers
  import opened Seqs
  import opened Geometry
  import opened Decoder

  /** A detection row [x1, y1, x2, y2, conf, classes...] as a record. */
  datatype Detection = Detection(box: Box, conf: real, classes: seq<real>)

  /** The confidences of a cell's candidates. */
  function Confs(cands: seq<Candidate>): (r: seq<real>)
    ensures |r| == |cands|
    ensures forall k :: 0 <= k < |cands| ==> r[k] == cands[k].conf
  {
    seq(|cands|, k requires 0 <= k < |cands| => cands[k].conf)
  }

  /**
    The cell's responsible detection: the candidate with the highest confidence (the first
    one on ties), together with the cell's class logits.
   */
  function ResponsibleAnchor(cell: DecodedCell): (k: nat)
    requires |cell.candidates| > 0
    ensures k < |cell.candidates|
    ensures forall j :: 0 <= j < |cell.candidates| ==> cell.candidates[j].conf <= cell.candidates[k].conf
    ensures forall j :: 0 <= j < k ==> cell.candidates[j].conf < cell.candidates[k].conf
  {
    var confs := Confs(cell.candidates);
    var k := ArgMax(confs);
    assert forall j :: 0 <= j < |confs| ==> confs[j] <= confs[k];
    assert forall j :: 0 <= j < k ==> confs[j] < confs[k];
    k
  }

  /** The detection a cell reports: its responsible anchor's box and confidence, and its class logits. */
  function Responsible(cell: DecodedCell): (d: Detection)
    requires |cell.candidates| > 0
    ensures forall j :: 0 <= j < |cell.candidates| ==> cell.candidates[j].conf <= d.conf
  {
    var k := ResponsibleAnchor(cell);
    Detection(cell.candidates[k].box, cell.candidates[k].conf, cell.classes)
  }

  /**
    Boxes `a` and `b` may both survive suppression: their IoU is below `t`. A zero union
    makes the source's IoU NaN or infinite, and neither compares below `t`.
   */
  predicate Separated(a: Box, b: Box, t: real) {
    UnionArea(a, b) != 0.0 && Iou(a, b) < t
  }

  /** `Separated` at threshold `t`, as a relation (pick, box). */
  function SeparatedAt(t: real): (Box, Box) -> bool {
    (a: Box, b: Box) => Separated(a, b, t)
  }

  /** Applying the relation is the predicate. */
  lemma SeparatedAtMeans(t: real, a: Box, b: Box)
    ensures SeparatedAt(t)(a, b) == Separated(a, b, t)
  {
  }

  /** With a threshold of at most 1 no well-formed box is separated from itself. */
  lemma SelfNotSeparated(b: Box, t: real)
    requires WellFormed(b) && t <= 1.0
    ensures !Separated(b, b, t)
  {
    assert Intersection(b, b) == Area(b);
    if UnionArea(b, b) != 0.0 {
      assert HasArea(b);
      IouSelf(b);
    }
  }

  /** Every index of `order` names a well-formed box of `boxes`. */
  predicate ValidOrder(boxes: seq<Box>, order: seq<nat>) {
    forall i :: 0 <= i < |order| ==> order[i] < |boxes| && WellFormed(boxes[order[i]])
  }

  /** Every index of `order` names a box that `sep` does not separate from itself. */
  predicate SelfSuppressing(boxes: seq<Box>, order: seq<nat>, sep: (Box, Box) -> bool) {
    forall i :: 0 <= i < |order| ==> order[i] < |boxes| && !sep(boxes[order[i]], boxes[order[i]])
  }

  /** Well-formed boxes are not separated from themselves at thresholds up to 1. */
  lemma ValidOrderSelfSuppressing(boxes: seq<Box>, order: seq<nat>, t: real)
    requires ValidOrder(boxes, order) && t <= 1.0
    ensures SelfSuppressing(boxes, order, SeparatedAt(t))
  {
    forall i | 0 <= i < |order| ensures !SeparatedAt(t)(boxes[order[i]], boxes[order[i]]) {
      SelfNotSeparated(boxes[order[i]], t);
    }
  }

  /** Some pick does not clear box `x`: the pick suppressed it. */
  predicate Suppressed(boxes: seq<Box>, picks: seq<nat>, x: nat, sep: (Box, Box) -> bool)
    requires forall i :: 0 <= i < |picks| ==> picks[i] < |boxes|
    requires x < |boxes|
  {
    exists i :: 0 <= i < |picks| && !sep(boxes[picks[i]], boxes[x])
  }

  /** The indices in `order` whose boxes are separated from box `cur`. */
  function Survivors(boxes: seq<Box>, order: seq<nat>, cur: nat, sep: (Box, Box) -> bool): (r: seq<nat>)
    requires cur < |boxes|
    ensures forall x :: x in r <==> x in order && x < |boxes| && sep(boxes[cur], boxes[x])
  {
    Filter(order, (x: nat) => x < |boxes| && sep(boxes[cur], boxes[x]))
  }

  /** The survivors of a round are self-suppressing again, and the pick is not among them. */
  lemma SurvivorsValid(boxes: seq<Box>, order: seq<nat>, cur: nat, sep: (Box, Box) -> bool)
    requires SelfSuppressing(boxes, order, sep) && cur in order
    ensures SelfSuppressing(boxes, Survivors(boxes, order, cur, sep), sep)
    ensures cur !in Survivors(boxes, order, cur, sep)
    ensures |Survivors(boxes, order, cur, sep)| < |order|
  {
    var rest := Survivors(boxes, order, cur, sep);
    forall i | 0 <= i < |rest| ensures rest[i] < |boxes| && !sep(boxes[rest[i]], boxes[rest[i]]) {
      assert rest[i] in rest;
      var j :| 0 <= j < |order| && order[j] == rest[i];
    }
    var j :| 0 <= j < |order| && order[j] == cur;
    FilterShrinks(order, (x: nat) => x < |boxes| && sep(boxes[cur], boxes[x]), cur);
  }

  /**
    Greedy suppression over `order` (indices into `boxes`, least confident first) under
    the relation `sep` (pick, box): pick the last index, keep only the indices separated
    from it, repeat until nothing is left. A pick is never separated from itself, so each
    round removes it. The picks come from `order` without repetition, the first being the
    last of `order`.
   */
  function Sweep(boxes: seq<Box>, order: seq<nat>, sep: (Box, Box) -> bool): (picks: seq<nat>)
    requires SelfSuppressing(boxes, order, sep)
    ensures |picks| <= |order|
    ensures |order| > 0 ==> |picks| > 0 && picks[0] == order[|order| - 1]
    ensures forall i :: 0 <= i < |picks| ==> picks[i] in order
    ensures Distinct(picks)
    decreases |order|
  {
    if |order| == 0 then []
    else
      var cur := order[|order| - 1];
      var rest := Survivors(boxes, order, cur, sep);
      SurvivorsValid(boxes, order, cur, sep);
      [cur] + Sweep(boxes, rest, sep)
  }

  /** One round of suppression: the first pick, then suppression over the survivors. */
  lemma SweepUnfold(boxes: seq<Box>, order: seq<nat>, sep: (Box, Box) -> bool)
    requires SelfSuppressing(boxes, order, sep) && |order| > 0
    ensures var cur := order[|order| - 1];
      var rest := Survivors(boxes, order, cur, sep);
      && SelfSuppressing(boxes, rest, sep)
      && |rest| < |order|
      && Sweep(boxes, order, sep) == [cur] + Sweep(boxes, rest, sep)
  {
    SurvivorsValid(boxes, order, order[|order| - 1], sep);
  }

  /** Every two picks are separated: neither suppresses the other. */
  lemma {:induction false} SweepSeparated(boxes: seq<Box>, order: seq<nat>, sep: (Box, Box) -> bool)
    requires SelfSuppressing(boxes, order, sep)
    ensures var picks := Sweep(boxes, order, sep);
      forall i, j :: 0 <= i < j < |picks| ==> sep(boxes[picks[i]], boxes[picks[j]])
    decreases |order|
  {
    if |order| > 0 {
      var cur := order[|order| - 1];
      var rest := Survivors(boxes, order, cur, sep);
      SweepUnfold(boxes, order, sep);
      SweepSeparated(boxes, rest, sep);
      var sub := Sweep(boxes, rest, sep);
      var picks := [cur] + sub;
      forall i, j | 0 <= i < j < |picks| ensures sep(boxes[picks[i]], boxes[picks[j]]) {
        assert picks[j] == sub[j - 1];
        if i > 0 {
          assert picks[i] == sub[i - 1];
        } else {
          assert sub[j - 1] in rest;
        }
      }
    }
  }

  /**
    Completeness survives a round: an index the pick does not clear, or one the later picks
    cover, is covered by the pick followed by the later picks.
   */
  lemma PrependCovers(boxes: seq<Box>, order: seq<nat>, rest: seq<nat>, cur: nat, sub: seq<nat>, sep: (Box, Box) -> bool)
    requires cur < |boxes| && forall i :: 0 <= i < |sub| ==> sub[i] < |boxes|
    requires forall x :: x in order ==> x < |boxes|
    requires forall x :: x in order && x !in rest ==> x == cur || !sep(boxes[cur], boxes[x])
    requires forall x :: x in rest ==> x < |boxes| && (x in sub || Suppressed(boxes, sub, x, sep))
    ensures forall x :: x in order ==> x in [cur] + sub || Suppressed(boxes, [cur] + sub, x, sep)
  {
    var picks := [cur] + sub;
    forall x | x in order && x !in picks ensures Suppressed(boxes, picks, x, sep) {
      if x in rest {
        var i :| 0 <= i < |sub| && !sep(boxes[sub[i]], boxes[x]);
        assert picks[i + 1] == sub[i];
      } else {
        assert !sep(boxes[picks[0]], boxes[x]);
      }
    }
  }

  /** Some pick ranked at least as high as box `x` under `key` does not clear it. */
  predicate SuppressedAbove(boxes: seq<Box>, picks: seq<nat>, x: nat, sep: (Box, Box) -> bool, key: nat -> real)
    requires forall i :: 0 <= i < |picks| ==> picks[i] < |boxes|
    requires x < |boxes|
  {
    exists i :: 0 <= i < |picks| && !sep(boxes[picks[i]], boxes[x]) && key(x) <= key(picks[i])
  }

  /**
    Ranked completeness survives a round when the pick ranks highest: an index the pick
    does not clear ranks no higher than the pick.
   */
  lemma PrependCoversAbove(boxes: seq<Box>, order: seq<nat>, rest: seq<nat>, cur: nat, sub: seq<nat>, sep: (Box, Box) -> bool, key: nat -> real)
    requires cur < |boxes| && forall i :: 0 <= i < |sub| ==> sub[i] < |boxes|
    requires forall x :: x in order ==> x < |boxes| && key(x) <= key(cur)
    requires forall x :: x in order && x !in rest ==> x == cur || !sep(boxes[cur], boxes[x])
    requires forall x :: x in rest ==> x < |boxes| && (x in sub || SuppressedAbove(boxes, sub, x, sep, key))
    ensures forall x :: x in order ==> x in [cur] + sub || SuppressedAbove(boxes, [cur] + sub, x, sep, key)
  {
    var picks := [cur] + sub;
    forall x | x in order && x !in picks ensures SuppressedAbove(boxes, picks, x, sep, key) {
      if x in rest {
        var i :| 0 <= i < |sub| && !sep(boxes[sub[i]], boxes[x]) && key(x) <= key(sub[i]);
        assert picks[i + 1] == sub[i];
      } else {
        assert !sep(boxes[picks[0]], boxes[x]);
      }
    }
  }

  /**
    Every index of `order` is picked or suppressed by a pick; when `order` ascends under
    `key`, by a pick that ranks at least as high.
   */
  lemma {:induction false} SweepComplete(boxes: seq<Box>, order: seq<nat>, sep: (Box, Box) -> bool, key: nat -> real)
    requires SelfSuppressing(boxes, order, sep)
    ensures var picks := Sweep(boxes, order, sep);
      forall x :: x in order ==> x in picks || Suppressed(boxes, picks, x, sep)
    ensures var picks := Sweep(boxes, order, sep);
      SortedBy(order, key) ==> forall x :: x in order ==> x in picks || SuppressedAbove(boxes, picks, x, sep, key)
    decreases |order|
  {
    if |order| > 0 {
      var cur := order[|order| - 1];
      var rest := Survivors(boxes, order, cur, sep);
      SweepUnfold(boxes, order, sep);
      var sub := Sweep(boxes, rest, sep);
      SweepComplete(boxes, rest, sep, key);
      PrependCovers(boxes, order, rest, cur, sub, sep);
      if SortedBy(order, key) {
        FilterSorted(order, (x: nat) => x < |boxes| && sep(boxes[cur], boxes[x]), key);
        SortedLast(order, key);
        PrependCoversAbove(boxes, order, rest, cur, sub, sep, key);
      }
    }
  }

  /** A pick at least as confident as every later pick keeps the picks non-increasing. */
  lemma PrependDescending(cur: nat, sub: seq<nat>, key: nat -> real)
    requires forall i, j :: 0 <= i < j < |sub| ==> key(sub[j]) <= key(sub[i])
    requires forall i :: 0 <= i < |sub| ==> key(sub[i]) <= key(cur)
    ensures var picks := [cur] + sub;
      forall i, j :: 0 <= i < j < |picks| ==> key(picks[j]) <= key(picks[i])
  {
    var picks := [cur] + sub;
    forall i, j | 0 <= i < j < |picks| ensures key(picks[j]) <= key(picks[i]) {
      assert picks[j] == sub[j - 1];
      if i > 0 {
        assert picks[i] == sub[i - 1];
      }
    }
  }

  /** When `order` ascends in confidence the picks come out in non-increasing confidence. */
  lemma {:induction false} SweepDescending(boxes: seq<Box>, order: seq<nat>, sep: (Box, Box) -> bool, key: nat -> real)
    requires SelfSuppressing(boxes, order, sep) && SortedBy(order, key)
    ensures var picks := Sweep(boxes, order, sep);
      forall i, j :: 0 <= i < j < |picks| ==> key(picks[j]) <= key(picks[i])
    decreases |order|
  {
    if |order| > 0 {
      var cur := order[|order| - 1];
      var rest := Survivors(boxes, order, cur, sep);
      SweepUnfold(boxes, order, sep);
      FilterSorted(order, (x: nat) => x < |boxes| && sep(boxes[cur], boxes[x]), key);
      SweepDescending(boxes, rest, sep, key);
      var sub := Sweep(boxes, rest, sep);
      assert forall i :: 0 <= i < |sub| ==> key(sub[i]) <= key(cur) by {
        SortedLast(order, key);
        assert forall i :: 0 <= i < |sub| ==> sub[i] in rest;
      }
      PrependDescending(cur, sub, key);
    }
  }

  /** When `order` ascends in confidence the first pick is the most confident index of `order`. */
  lemma SweepFirstIsMax(boxes: seq<Box>, order: seq<nat>, sep: (Box, Box) -> bool, key: nat -> real)
    requires SelfSuppressing(boxes, order, sep)
    requires SortedBy(order, key) && |order| > 0
    ensures forall x :: x in order ==> key(x) <= key(Sweep(boxes, order, sep)[0])
  {
    SortedLast(order, key);
  }

  /** The filter's suppression: greedy, keeping boxes whose IoU with the pick is below `t`. */
  function Nms(boxes: seq<Box>, order: seq<nat>, t: real): (picks: seq<nat>)
    requires ValidOrder(boxes, order) && t <= 1.0
    ensures |order| > 0 ==> |picks| > 0
    ensures forall i :: 0 <= i < |picks| ==> picks[i] in order
    ensures Distinct(picks)
  {
    ValidOrderSelfSuppressing(boxes, order, t);
    Sweep(boxes, order, SeparatedAt(t))
  }

  /**
    With an overlap threshold above 1 a box with area is separated from itself, so it
    survives its own round: the source's loop picks it again and never ends.
   */
  lemma NmsStallsAboveOne(boxes: seq<Box>, order: seq<nat>, t: real)
    requires forall i :: 0 <= i < |order| ==> order[i] < |boxes|
    requires |order| > 0 && t > 1.0
    requires HasArea(boxes[order[|order| - 1]])
    ensures var cur := order[|order| - 1];
      cur in Survivors(boxes, order, cur, SeparatedAt(t))
  {
    var cur := order[|order| - 1];
    IouSelf(boxes[cur]);
    assert cur in order;
  }

  /** The responsible detection of every cell. */
  function ResponsibleAll(cells: seq<DecodedCell>): (r: seq<Detection>)
    requires forall i :: 0 <= i < |cells| ==> |cells[i].candidates| > 0
    ensures |r| == |cells|
    ensures forall i :: 0 <= i < |cells| ==> r[i] == Responsible(cells[i])
  {
    seq(|cells|, i requires 0 <= i < |cells| => Responsible(cells[i]))
  }

  /** The cells whose responsible confidence is strictly above `threshSig`, in cell order. */
  function SignificantCells(dets: seq<Detection>, threshSig: real): (r: seq<nat>)
    ensures forall i :: 0 <= i < |r| ==> r[i] < |dets|
    ensures forall i :: 0 <= i < |dets| ==> (i in r <==> dets[i].conf > threshSig)
    ensures Distinct(r)
  {
    var range := Range(|dets|);
    var r := Filter(range, (i: nat) => i < |dets| && dets[i].conf > threshSig);
    forall i | 0 <= i < |dets| ensures i in range {
      assert range[i] == i;
    }
    assert forall i :: 0 <= i < |r| ==> r[i] in r;
    FilterDistinct(range, (i: nat) => i < |dets| && dets[i].conf > threshSig);
    r
  }

  /** The boxes of some detections. */
  function Boxes(dets: seq<Detection>): (r: seq<Box>)
    ensures |r| == |dets|
    ensures forall i :: 0 <= i < |dets| ==> r[i] == dets[i].box
  {
    seq(|dets|, i requires 0 <= i < |dets| => dets[i].box)
  }

  /** The confidences of some detections. */
  function DetConfs(dets: seq<Detection>): (r: seq<real>)
    ensures |r| == |dets|
    ensures forall i :: 0 <= i < |dets| ==> r[i] == dets[i].conf
  {
    seq(|dets|, i requires 0 <= i < |dets| => dets[i].conf)
  }

  /** Every cell has a candidate and every candidate box is well formed. */
  predicate Decodable(cells: seq<DecodedCell>) {
    forall i :: 0 <= i < |cells| ==>
      |cells[i].candidates| > 0 &&
      forall k :: 0 <= k < |cells[i].candidates| ==> WellFormed(cells[i].candidates[k].box)
  }

  /** The responsible detection of a decodable cell has a well-formed box. */
  lemma ResponsibleWellFormed(cells: seq<DecodedCell>, i: nat)
    requires Decodable(cells) && i < |cells|
    ensures WellFormed(Responsible(cells[i]).box)
  {
  }

  /** Detections whose boxes are all well formed. */
  predicate Boxed(dets: seq<Detection>) {
    forall i :: 0 <= i < |dets| ==> WellFormed(dets[i].box)
  }

  /** The responsible detections of decodable cells have well-formed boxes. */
  lemma DecodableBoxed(cells: seq<DecodedCell>)
    requires Decodable(cells)
    ensures Boxed(ResponsibleAll(cells))
  {
    forall i | 0 <= i < |cells| ensures WellFormed(ResponsibleAll(cells)[i].box) {
      ResponsibleWellFormed(cells, i);
    }
  }

  /** The significant detections, in cell order. */
  function SigDets(dets: seq<Detection>, threshSig: real): (sig: seq<Detection>)
    ensures |sig| == |SignificantCells(dets, threshSig)|
    ensures forall k :: 0 <= k < |sig| ==> sig[k] == dets[SignificantCells(dets, threshSig)[k]]
    ensures Boxed(dets) ==> Boxed(sig)
  {
    Select(dets, SignificantCells(dets, threshSig))
  }

  /** The order suppression visits the significant detections in: ascending confidence. */
  function SigOrder(dets: seq<Detection>, threshSig: real): (order: seq<nat>)
    ensures IsArgsort(order, DetConfs(SigDets(dets, threshSig)))
    ensures SortedBy(order, KeyAt(DetConfs(SigDets(dets, threshSig))))
  {
    var confs := DetConfs(SigDets(dets, threshSig));
    var order := ArgsortAsc(confs);
    assert forall i, j :: 0 <= i < j < |order| ==> KeyAt(confs)(order[i]) <= KeyAt(confs)(order[j]);
    order
  }

  /** Positions in the significant detections that suppression keeps. */
  function KeptPicks(dets: seq<Detection>, threshSig: real, threshOverlap: real): (picks: seq<nat>)
    requires Boxed(dets) && threshOverlap <= 1.0
    ensures forall k :: 0 <= k < |picks| ==> picks[k] < |SignificantCells(dets, threshSig)|
    ensures Distinct(picks)
    ensures |picks| == 0 <==> |SignificantCells(dets, threshSig)| == 0
  {
    var sig := SigDets(dets, threshSig);
    var order := SigOrder(dets, threshSig);
    SigOrderValid(dets, threshSig);
    Nms(Boxes(sig), order, threshOverlap)
  }

  /** The visiting order lists every significant position once, each naming a well-formed box. */
  lemma SigOrderValid(dets: seq<Detection>, threshSig: real)
    requires Boxed(dets)
    ensures var sig, order := SigDets(dets, threshSig), SigOrder(dets, threshSig);
      && ValidOrder(Boxes(sig), order)
      && |order| == |SignificantCells(dets, threshSig)|
      && forall x :: x in order ==> x < |SignificantCells(dets, threshSig)|
  {
    var sig, order := SigDets(dets, threshSig), SigOrder(dets, threshSig);
    assert IsArgsort(order, DetConfs(sig));
  }

  /**
    The cells whose detections the filter keeps, most confident first: the significant
    detections go through suppression in ascending confidence order.
   */
  function Kept(dets: seq<Detection>, threshSig: real, threshOverlap: real): (kept: seq<nat>)
    requires Boxed(dets) && threshOverlap <= 1.0
    ensures Distinct(kept)
    ensures forall k :: 0 <= k < |kept| ==> kept[k] < |dets| && dets[kept[k]].conf > threshSig
  {
    var idx := SignificantCells(dets, threshSig);
    var picks := KeptPicks(dets, threshSig, threshOverlap);
    var kept := Select(idx, picks);
    SelectDistinct(idx, picks);
    forall k | 0 <= k < |kept| ensures kept[k] < |dets| && dets[kept[k]].conf > threshSig {
      assert kept[k] == idx[picks[k]];
      assert kept[k] in idx;
    }
    kept
  }

  /** The filter keeps nothing exactly when no detection is significant. */
  lemma KeptNone(dets: seq<Detection>, threshSig: real, threshOverlap: real)
    requires Boxed(dets) && threshOverlap <= 1.0
    ensures |Kept(dets, threshSig, threshOverlap)| == 0 <==> forall i :: 0 <= i < |dets| ==> dets[i].conf <= threshSig
  {
    var idx := SignificantCells(dets, threshSig);
    var picks := KeptPicks(dets, threshSig, threshOverlap);
    assert |Kept(dets, threshSig, threshOverlap)| == |picks|;
    if |idx| > 0 {
      assert idx[0] in idx;
    }
  }

  /**
    The filter on one image's decoded cells: None when no cell's responsible confidence
    exceeds the significance threshold, otherwise the kept cells' responsible detections.
   */
  function FilterPredictions(cells: seq<DecodedCell>, threshSig: real, threshOverlap: real): (r: Option<seq<Detection>>)
    requires Decodable(cells) && threshOverlap <= 1.0
    ensures r.None? <==> forall i :: 0 <= i < |cells| ==> Responsible(cells[i]).conf <= threshSig
    ensures r.Some? ==> |r.value| > 0
    ensures r.Some? ==> forall k :: 0 <= k < |r.value| ==> r.value[k].conf > threshSig
  {
    var dets := ResponsibleAll(cells);
    DecodableBoxed(cells);
    var kept := Kept(dets, threshSig, threshOverlap);
    KeptNone(dets, threshSig, threshOverlap);
    if |kept| == 0 then None else Some(Select(dets, kept))
  }

  /** Each detection the filter reports is the responsible detection of some cell. */
  lemma FilterFromCells(cells: seq<DecodedCell>, threshSig: real, threshOverlap: real)
    requires Decodable(cells) && threshOverlap <= 1.0
    ensures var r := FilterPredictions(cells, threshSig, threshOverlap);
      r.Some? ==> forall k :: 0 <= k < |r.value| ==> exists c :: 0 <= c < |cells| && r.value[k] == Responsible(cells[c])
  {
    var dets := ResponsibleAll(cells);
    DecodableBoxed(cells);
    var kept := Kept(dets, threshSig, threshOverlap);
    var r := FilterPredictions(cells, threshSig, threshOverlap);
    if r.Some? {
      forall k | 0 <= k < |r.value| ensures exists c :: 0 <= c < |cells| && r.value[k] == Responsible(cells[c]) {
        var c := kept[k];
        assert r.value[k] == dets[c];
      }
    }
  }

  /** When every candidate box has area, so does every detection the filter reports. */
  lemma FilterKeepsArea(cells: seq<DecodedCell>, threshSig: real, threshOverlap: real)
    requires Decodable(cells) && BoxesHaveArea(cells) && threshOverlap <= 1.0
    ensures var r := FilterPredictions(cells, threshSig, threshOverlap);
      r.Some? ==> forall k :: 0 <= k < |r.value| ==> HasArea(r.value[k].box)
  {
    var dets := ResponsibleAll(cells);
    DecodableBoxed(cells);
    var kept := Kept(dets, threshSig, threshOverlap);
    var r := FilterPredictions(cells, threshSig, threshOverlap);
    if r.Some? {
      forall k | 0 <= k < |r.value| ensures HasArea(r.value[k].box) {
        var c := kept[k];
        assert r.value[k] == dets[c];
        ResponsibleHasArea(cells[c]);
      }
    }
  }

  lemma ResponsibleHasArea(cell: DecodedCell)
    requires |cell.candidates| > 0
    requires forall k :: 0 <= k < |cell.candidates| ==> HasArea(cell.candidates[k].box)
    ensures HasArea(Responsible(cell).box)
  {
  }

  /** A kept detection is the significant detection at the corresponding pick. */
  lemma KeptAreSignificant(dets: seq<Detection>, threshSig: real, threshOverlap: real)
    requires Boxed(dets) && threshOverlap <= 1.0
    ensures var kept, picks := Kept(dets, threshSig, threshOverlap), KeptPicks(dets, threshSig, threshOverlap);
      var sig := SigDets(dets, threshSig);
      && |kept| == |picks|
      && forall k :: 0 <= k < |kept| ==> dets[kept[k]] == sig[picks[k]]
  {
  }

  /** Every two kept detections are separated at the overlap threshold. */
  lemma KeptSeparated(dets: seq<Detection>, threshSig: real, threshOverlap: real)
    requires Boxed(dets) && threshOverlap <= 1.0
    ensures var kept := Kept(dets, threshSig, threshOverlap);
      forall i, j :: 0 <= i < j < |kept| ==> Separated(dets[kept[i]].box, dets[kept[j]].box, threshOverlap)
  {
    var sig := SigDets(dets, threshSig);
    var boxes := Boxes(sig);
    var picks := KeptPicks(dets, threshSig, threshOverlap);
    var order := SigOrder(dets, threshSig);
    var sep := SeparatedAt(threshOverlap);
    ValidOrderSelfSuppressing(boxes, order, threshOverlap);
    assert picks == Sweep(boxes, order, sep);
    SweepSeparated(boxes, order, sep);
    KeptAreSignificant(dets, threshSig, threshOverlap);
    var kept := Kept(dets, threshSig, threshOverlap);
    forall i, j | 0 <= i < j < |kept| ensures Separated(dets[kept[i]].box, dets[kept[j]].box, threshOverlap) {
      var x, y := boxes[picks[i]], boxes[picks[j]];
      assert sep(x, y);
      SeparatedAtMeans(threshOverlap, x, y);
      assert x == dets[kept[i]].box && y == dets[kept[j]].box;
    }
  }

  /** Kept detections come out in non-increasing confidence. */
  lemma KeptDescending(dets: seq<Detection>, threshSig: real, threshOverlap: real)
    requires Boxed(dets) && threshOverlap <= 1.0
    ensures var kept := Kept(dets, threshSig, threshOverlap);
      forall i, j :: 0 <= i < j < |kept| ==> dets[kept[j]].conf <= dets[kept[i]].conf
  {
    var sig := SigDets(dets, threshSig);
    var picks := KeptPicks(dets, threshSig, threshOverlap);
    var key := KeyAt(DetConfs(sig));
    var order := SigOrder(dets, threshSig);
    var sep := SeparatedAt(threshOverlap);
    ValidOrderSelfSuppressing(Boxes(sig), order, threshOverlap);
    assert picks == Sweep(Boxes(sig), order, sep);
    SweepDescending(Boxes(sig), order, sep, key);
    KeptAreSignificant(dets, threshSig, threshOverlap);
    var kept := Kept(dets, threshSig, threshOverlap);
    forall i, j | 0 <= i < j < |kept| ensures dets[kept[j]].conf <= dets[kept[i]].conf {
      assert key(picks[j]) <= key(picks[i]);
      assert key(picks[i]) == sig[picks[i]].conf;
      assert key(picks[j]) == sig[picks[j]].conf;
    }
  }

  /** The first pick is a most confident significant detection. */
  lemma PicksFirstIsMax(dets: seq<Detection>, threshSig: real, threshOverlap: real)
    requires Boxed(dets) && threshOverlap <= 1.0
    ensures var picks, sig := KeptPicks(dets, threshSig, threshOverlap), SigDets(dets, threshSig);
      |picks| > 0 ==> forall m :: 0 <= m < |sig| ==> sig[m].conf <= sig[picks[0]].conf
  {
    var sig := SigDets(dets, threshSig);
    var picks := KeptPicks(dets, threshSig, threshOverlap);
    if |picks| > 0 {
      var order := SigOrder(dets, threshSig);
      var confs := DetConfs(sig);
      var key := KeyAt(confs);
      var sep := SeparatedAt(threshOverlap);
      ValidOrderSelfSuppressing(Boxes(sig), order, threshOverlap);
      assert picks == Sweep(Boxes(sig), order, sep);
      SweepFirstIsMax(Boxes(sig), order, sep, key);
      forall m | 0 <= m < |sig| ensures sig[m].conf <= sig[picks[0]].conf {
        assert m in order;
        assert key(m) == confs[m];
        assert key(picks[0]) == confs[picks[0]];
      }
    }
  }

  /** The first kept detection has the highest confidence of all detections. */
  lemma KeptFirstIsMax(dets: seq<Detection>, threshSig: real, threshOverlap: real)
    requires Boxed(dets) && threshOverlap <= 1.0
    ensures var kept := Kept(dets, threshSig, threshOverlap);
      |kept| > 0 ==> forall c :: 0 <= c < |dets| ==> dets[c].conf <= dets[kept[0]].conf
  {
    var idx, sig := SignificantCells(dets, threshSig), SigDets(dets, threshSig);
    var kept := Kept(dets, threshSig, threshOverlap);
    if |kept| > 0 {
      var picks := KeptPicks(dets, threshSig, threshOverlap);
      KeptAreSignificant(dets, threshSig, threshOverlap);
      PicksFirstIsMax(dets, threshSig, threshOverlap);
      var top := dets[kept[0]].conf;
      assert top == sig[picks[0]].conf;
      forall c | 0 <= c < |dets| ensures dets[c].conf <= top {
        if c in idx {
          var m :| 0 <= m < |idx| && idx[m] == c;
          assert sig[m].conf <= top;
        }
      }
    }
  }

  /**
    Completeness read through an index map: when box `p` is the box of detection `idx[p]`
    and the order ascends in their confidence, every position the sweep does not pick
    holds a detection that a picked one at least as confident overlaps.
   */
  lemma SweepCoversDetections(dets: seq<Detection>, idx: seq<nat>, boxes: seq<Box>, order: seq<nat>, t: real, key: nat -> real)
    requires |boxes| == |idx|
    requires forall p :: 0 <= p < |idx| ==> idx[p] < |dets| && boxes[p] == dets[idx[p]].box && key(p) == dets[idx[p]].conf
    requires SelfSuppressing(boxes, order, SeparatedAt(t)) && SortedBy(order, key)
    requires forall m :: 0 <= m < |idx| ==> m in order
    ensures var picks := Sweep(boxes, order, SeparatedAt(t));
      forall m :: 0 <= m < |idx| && m !in picks ==>
        exists i :: 0 <= i < |picks| && !Separated(dets[idx[picks[i]]].box, dets[idx[m]].box, t) && dets[idx[m]].conf <= dets[idx[picks[i]]].conf
  {
    var sep := SeparatedAt(t);
    var picks := Sweep(boxes, order, sep);
    SweepComplete(boxes, order, sep, key);
    forall m | 0 <= m < |idx| && m !in picks
      ensures exists i :: 0 <= i < |picks| && !Separated(dets[idx[picks[i]]].box, dets[idx[m]].box, t) && dets[idx[m]].conf <= dets[idx[picks[i]]].conf
    {
      assert m in order;
      PickCovers(dets, idx, boxes, picks, m, t, key);
    }
  }

  /** A pick that ranks above position `m` and does not clear it is a detection at least as confident that overlaps detection `idx[m]`. */
  lemma PickCovers(dets: seq<Detection>, idx: seq<nat>, boxes: seq<Box>, picks: seq<nat>, m: nat, t: real, key: nat -> real)
    requires |boxes| == |idx| && m < |idx|
    requires forall p :: 0 <= p < |idx| ==> idx[p] < |dets| && boxes[p] == dets[idx[p]].box && key(p) == dets[idx[p]].conf
    requires forall i :: 0 <= i < |picks| ==> picks[i] < |idx|
    requires SuppressedAbove(boxes, picks, m, SeparatedAt(t), key)
    ensures exists i :: 0 <= i < |picks| && !Separated(dets[idx[picks[i]]].box, dets[idx[m]].box, t) && dets[idx[m]].conf <= dets[idx[picks[i]]].conf
  {
    var i :| 0 <= i < |picks| && !SeparatedAt(t)(boxes[picks[i]], boxes[m]) && key(m) <= key(picks[i]);
    SeparatedAtMeans(t, boxes[picks[i]], boxes[m]);
  }

  /**
    The suppression inside the filter: a sweep over the significant boxes in ascending
    confidence, where box `p` is the box of detection `idx[p]` and every position is visited.
   */
  lemma SigSweep(dets: seq<Detection>, threshSig: real, threshOverlap: real)
    requires Boxed(dets) && threshOverlap <= 1.0
    ensures var idx, sig := SignificantCells(dets, threshSig), SigDets(dets, threshSig);
      var boxes, order := Boxes(sig), SigOrder(dets, threshSig);
      && |boxes| == |idx|
      && (forall p :: 0 <= p < |idx| ==> idx[p] < |dets| && boxes[p] == dets[idx[p]].box)
      && SelfSuppressing(boxes, order, SeparatedAt(threshOverlap))
      && (forall m :: 0 <= m < |idx| ==> m in order)
      && KeptPicks(dets, threshSig, threshOverlap) == Sweep(boxes, order, SeparatedAt(threshOverlap))
  {
    var sig := SigDets(dets, threshSig);
    var order := SigOrder(dets, threshSig);
    ValidOrderSelfSuppressing(Boxes(sig), order, threshOverlap);
    assert IsArgsort(order, DetConfs(sig));
  }

  /** Every significant detection that is not picked is not separated from some pick at least as confident. */
  lemma PicksComplete(dets: seq<Detection>, threshSig: real, threshOverlap: real)
    requires Boxed(dets) && threshOverlap <= 1.0
    ensures var picks, idx := KeptPicks(dets, threshSig, threshOverlap), SignificantCells(dets, threshSig);
      forall m :: 0 <= m < |idx| && m !in picks ==>
        exists i :: 0 <= i < |picks| && !Separated(dets[idx[picks[i]]].box, dets[idx[m]].box, threshOverlap) && dets[idx[m]].conf <= dets[idx[picks[i]]].conf
  {
    var idx, sig := SignificantCells(dets, threshSig), SigDets(dets, threshSig);
    var key := KeyAt(DetConfs(sig));
    SigSweep(dets, threshSig, threshOverlap);
    forall p | 0 <= p < |idx| ensures key(p) == dets[idx[p]].conf {
      assert key(p) == DetConfs(sig)[p];
    }
    SweepCoversDetections(dets, idx, Boxes(sig), SigOrder(dets, threshSig), threshOverlap, key);
  }

  /**
    Coverage carries over from positions in `idx` to the indices they hold: an index of
    `idx` that the selection leaves out is covered by a selected one.
   */
  lemma SelectCovers(dets: seq<Detection>, idx: seq<nat>, picks: seq<nat>, t: real)
    requires forall k :: 0 <= k < |idx| ==> idx[k] < |dets|
    requires forall k :: 0 <= k < |picks| ==> picks[k] < |idx|
    requires forall m :: 0 <= m < |idx| && m !in picks ==>
      exists i :: 0 <= i < |picks| && !Separated(dets[idx[picks[i]]].box, dets[idx[m]].box, t) && dets[idx[m]].conf <= dets[idx[picks[i]]].conf
    ensures var kept := Select(idx, picks);
      forall c :: c in idx && c !in kept ==>
        exists k :: 0 <= k < |kept| && !Separated(dets[kept[k]].box, dets[c].box, t) && dets[c].conf <= dets[kept[k]].conf
  {
    var kept := Select(idx, picks);
    forall c | c in idx && c !in kept
      ensures exists k :: 0 <= k < |kept| && !Separated(dets[kept[k]].box, dets[c].box, t) && dets[c].conf <= dets[kept[k]].conf
    {
      var m :| 0 <= m < |idx| && idx[m] == c;
      assert m !in picks by {
        forall k | 0 <= k < |picks| ensures picks[k] != m {
          assert kept[k] in kept;
        }
      }
      var i :| 0 <= i < |picks| && !Separated(dets[idx[picks[i]]].box, dets[idx[m]].box, t)
        && dets[idx[m]].conf <= dets[idx[picks[i]]].conf;
      assert kept[i] == idx[picks[i]];
    }
  }

  /** Every significant detection that is not kept overlaps a kept one at least as confident. */
  lemma KeptComplete(dets: seq<Detection>, threshSig: real, threshOverlap: real)
    requires Boxed(dets) && threshOverlap <= 1.0
    ensures var kept := Kept(dets, threshSig, threshOverlap);
      forall c :: 0 <= c < |dets| && dets[c].conf > threshSig && c !in kept ==>
        exists k :: 0 <= k < |kept| && !Separated(dets[kept[k]].box, dets[c].box, threshOverlap) && dets[c].conf <= dets[kept[k]].conf
  {
    var idx := SignificantCells(dets, threshSig);
    var picks := KeptPicks(dets, threshSig, threshOverlap);
    PicksComplete(dets, threshSig, threshOverlap);
    SelectCovers(dets, idx, picks, threshOverlap);
    assert Kept(dets, threshSig, threshOverlap) == Select(idx, picks);
  }

  /** The reported detections of an image are its responsible detections at the kept cells. */
  lemma FilterReportsKept(cells: seq<DecodedCell>, threshSig: real, threshOverlap: real)
    requires Decodable(cells) && threshOverlap <= 1.0
    ensures Boxed(ResponsibleAll(cells))
    ensures var r, dets := FilterPredictions(cells, threshSig, threshOverlap), ResponsibleAll(cells);
      var kept := Kept(dets, threshSig, threshOverlap);
      r.Some? ==> |r.value| == |kept| && forall k :: 0 <= k < |kept| ==> r.value[k] == dets[kept[k]]
  {
    DecodableBoxed(cells);
  }

  /** No two reported detections overlap: every pair is separated at the overlap threshold. */
  lemma FilterSeparated(cells: seq<DecodedCell>, threshSig: real, threshOverlap: real)
    requires Decodable(cells) && threshOverlap <= 1.0
    ensures var r := FilterPredictions(cells, threshSig, threshOverlap);
      r.Some? ==> forall i, j :: 0 <= i < j < |r.value| ==> Separated(r.value[i].box, r.value[j].box, threshOverlap)
  {
    var dets := ResponsibleAll(cells);
    FilterReportsKept(cells, threshSig, threshOverlap);
    KeptSeparated(dets, threshSig, threshOverlap);
  }

  /** The reported detections come most confident first, led by the image's most confident cell. */
  lemma FilterDescending(cells: seq<DecodedCell>, threshSig: real, threshOverlap: real)
    requires Decodable(cells) && threshOverlap <= 1.0
    ensures var r := FilterPredictions(cells, threshSig, threshOverlap);
      r.Some? ==>
        && (forall i, j :: 0 <= i < j < |r.value| ==> r.value[j].conf <= r.value[i].conf)
        && (forall c :: 0 <= c < |cells| ==> Responsible(cells[c]).conf <= r.value[0].conf)
  {
    var dets := ResponsibleAll(cells);
    FilterReportsKept(cells, threshSig, threshOverlap);
    KeptDescending(dets, threshSig, threshOverlap);
    KeptFirstIsMax(dets, threshSig, threshOverlap);
  }

  /**
    Nothing significant is lost silently: each cell whose responsible confidence exceeds
    the threshold is reported, or overlaps a reported detection at least as confident.
   */
  lemma FilterComplete(cells: seq<DecodedCell>, threshSig: real, threshOverlap: real)
    requires Decodable(cells) && threshOverlap <= 1.0
    ensures var r := FilterPredictions(cells, threshSig, threshOverlap);
      r.Some? ==> forall c :: 0 <= c < |cells| && Responsible(cells[c]).conf > threshSig ==>
        Responsible(cells[c]) in r.value ||
        exists k :: 0 <= k < |r.value| && !Separated(r.value[k].box, Responsible(cells[c]).box, threshOverlap) && Responsible(cells[c]).conf <= r.value[k].conf
  {
    var dets := ResponsibleAll(cells);
    var r := FilterPredictions(cells, threshSig, threshOverlap);
    FilterReportsKept(cells, threshSig, threshOverlap);
    var kept := Kept(dets, threshSig, threshOverlap);
    KeptComplete(dets, threshSig, threshOverlap);
    if r.Some? {
      ReportedComplete(dets, kept, r.value, threshSig, threshOverlap);
    }
  }

  /**
    A significant detection left out of the report is covered by a reported one at least
    as confident, once the report is the selection of the kept indices and every unkept
    significant index is so covered.
   */
  lemma ReportedComplete(dets: seq<Detection>, kept: seq<nat>, out: seq<Detection>, threshSig: real, threshOverlap: real)
    requires |out| == |kept|
    requires forall k :: 0 <= k < |kept| ==> kept[k] < |dets| && out[k] == dets[kept[k]]
    requires forall c :: 0 <= c < |dets| && dets[c].conf > threshSig && c !in kept ==>
      exists k :: 0 <= k < |kept| && !Separated(dets[kept[k]].box, dets[c].box, threshOverlap) && dets[c].conf <= dets[kept[k]].conf
    ensures forall c :: 0 <= c < |dets| && dets[c].conf > threshSig ==>
      dets[c] in out ||
      exists k :: 0 <= k < |out| && !Separated(out[k].box, dets[c].box, threshOverlap) && dets[c].conf <= out[k].conf
  {
    forall c | 0 <= c < |dets| && dets[c].conf > threshSig && dets[c] !in out
      ensures exists k :: 0 <= k < |out| && !Separated(out[k].box, dets[c].box, threshOverlap) && dets[c].conf <= out[k].conf
    {
      assert c !in kept by {
        forall k | 0 <= k < |kept| ensures kept[k] != c {
          assert out[k] in out;
        }
      }
      var k :| 0 <= k < |kept| && !Separated(dets[kept[k]].box, dets[c].box, threshOverlap)
        && dets[c].conf <= dets[kept[k]].conf;
      assert out[k] == dets[kept[k]];
    }
  }
}
