/**
  Mean average precision of filtered detections against ground truth (`__yolo_map`):
  each prediction is marked a true or false positive by comparing it with the truth it
  overlaps most, the marks of all images are pooled and sorted by descending
  confidence, and the area under the precision-recall curve is summed.
 */
module Evaluator {
  import opened Wrappers
  import opened Seqs
  import opened Geometry
  import opened Settings
  import opened Decoder
  import opened Filter

  /** A detection's confidence and whether it counted as a true positive. */
  datatype Hit = Hit(conf: real, tp: bool)

  predicate IsTp(h: Hit) {
    h.tp
  }

  predicate Holds(b: bool) {
    b
  }

  /**
    Truths and predictions whose every pairing has a defined IoU: the truths are
    well-formed and the predictions have positive area.
   */
  predicate Comparable(preds: seq<Detection>, truths: seq<Box>) {
    && (forall i :: 0 <= i < |preds| ==> HasArea(preds[i].box))
    && (forall j :: 0 <= j < |truths| ==> WellFormed(truths[j]))
  }

  /** The IoU of box `p` with each truth. */
  function Ious(p: Box, truths: seq<Box>): (r: seq<real>)
    requires HasArea(p) && forall j :: 0 <= j < |truths| ==> WellFormed(truths[j])
    ensures |r| == |truths|
    ensures forall j :: 0 <= j < |truths| ==> UnionArea(p, truths[j]) > 0.0 && r[j] == Iou(p, truths[j])
  {
    forall j | 0 <= j < |truths| ensures UnionArea(p, truths[j]) > 0.0 {
      UnionPositive(p, truths[j]);
    }
    seq(|truths|, j requires 0 <= j < |truths| => Iou(p, truths[j]))
  }

  /** The truth prediction `i` is compared with: the first one of highest IoU (`np.argmax`). */
  function Best(preds: seq<Detection>, truths: seq<Box>, i: nat): (j: nat)
    requires Comparable(preds, truths) && |truths| > 0 && i < |preds|
    ensures j < |truths|
    ensures forall k :: 0 <= k < |truths| ==> Ious(preds[i].box, truths)[k] <= Ious(preds[i].box, truths)[j]
    ensures forall k :: 0 <= k < j ==> Ious(preds[i].box, truths)[k] < Ious(preds[i].box, truths)[j]
  {
    ArgMax(Ious(preds[i].box, truths))
  }

  /** Some prediction before `i` has truth `j` as its best truth, with an IoU of at least `tc`. */
  predicate ClaimedBefore(preds: seq<Detection>, truths: seq<Box>, tc: real, i: nat, j: nat)
    requires Comparable(preds, truths) && |truths| > 0 && i <= |preds| && j < |truths|
  {
    && i > 0
    && (|| (Best(preds, truths, i - 1) == j && Iou(preds[i - 1].box, truths[j]) >= tc)
        || ClaimedBefore(preds, truths, tc, i - 1, j))
  }

  /**
    Which truths are matched once the first `i` predictions have been examined: the
    seventh column the source appends to the labels.
   */
  function Matched(preds: seq<Detection>, truths: seq<Box>, tc: real, i: nat): (m: seq<bool>)
    requires Comparable(preds, truths) && |truths| > 0 && i <= |preds|
    ensures |m| == |truths|
    ensures forall j :: 0 <= j < |truths| && m[j] ==> ClaimedBefore(preds, truths, tc, i, j)
    decreases i, 0
  {
    if i == 0 then seq(|truths|, _ => false)
    else
      var m := Matched(preds, truths, tc, i - 1);
      if Decide(preds, truths, tc, i - 1) then m[Best(preds, truths, i - 1) := true] else m
  }

  /**
    Prediction `i` is a true positive when its best truth overlaps it by at least `tc`
    and has not been matched by an earlier prediction.
   */
  predicate Decide(preds: seq<Detection>, truths: seq<Box>, tc: real, i: nat)
    requires Comparable(preds, truths) && |truths| > 0 && i < |preds|
    decreases i, 1
  {
    var j := Best(preds, truths, i);
    Ious(preds[i].box, truths)[j] >= tc && !Matched(preds, truths, tc, i)[j]
  }

  /** The marked detections of one image with at least one truth, in prediction order. */
  function MatchHits(preds: seq<Detection>, truths: seq<Box>, tc: real): (r: seq<Hit>)
    requires Comparable(preds, truths) && |truths| > 0
    ensures |r| == |preds|
    ensures forall i :: 0 <= i < |preds| ==> r[i] == Hit(preds[i].conf, Decide(preds, truths, tc, i))
  {
    seq(|preds|, i requires 0 <= i < |preds| => Hit(preds[i].conf, Decide(preds, truths, tc, i)))
  }

  /** One more prediction matches its best truth when it is a true positive, and nothing else. */
  lemma MatchedStep(preds: seq<Detection>, truths: seq<Box>, tc: real, i: nat, j: nat)
    requires Comparable(preds, truths) && |truths| > 0 && i < |preds| && j < |truths|
    ensures Matched(preds, truths, tc, i + 1)[j] <==>
      Matched(preds, truths, tc, i)[j] || (Decide(preds, truths, tc, i) && Best(preds, truths, i) == j)
  {
  }

  /** One step of the matching loop: a true positive flags its best truth, which was clear. */
  lemma MatchedShape(preds: seq<Detection>, truths: seq<Box>, tc: real, i: nat)
    requires Comparable(preds, truths) && |truths| > 0 && i < |preds|
    ensures var prev, j := Matched(preds, truths, tc, i), Best(preds, truths, i);
      && (Decide(preds, truths, tc, i) ==> !prev[j] && Matched(preds, truths, tc, i + 1) == prev[j := true])
      && (!Decide(preds, truths, tc, i) ==> Matched(preds, truths, tc, i + 1) == prev)
  {
  }

  /**
    A flag that starts clear and is set at step `k` exactly when `fire[k]` holds and
    step `k` aims at `j`: after `i` steps it is set exactly when some earlier step fired at `j`.
   */
  lemma {:induction false} FlagMeans(flag: seq<bool>, fire: seq<bool>, aim: seq<nat>, i: nat, j: nat)
    requires |flag| == |fire| + 1 && |aim| == |fire| && i <= |fire|
    requires !flag[0]
    requires forall k :: 0 <= k < |fire| ==> flag[k + 1] == (flag[k] || (fire[k] && aim[k] == j))
    ensures flag[i] <==> exists k :: 0 <= k < i && fire[k] && aim[k] == j
  {
    if i > 0 {
      FlagMeans(flag, fire, aim, i - 1, j);
      if flag[i - 1] {
        var k :| 0 <= k < i - 1 && fire[k] && aim[k] == j;
        assert 0 <= k < i;
      } else if fire[i - 1] && aim[i - 1] == j {
        assert 0 <= i - 1 < i;
      } else {
        forall k | 0 <= k < i && fire[k] ensures aim[k] != j {
          if k == i - 1 {
            assert !(fire[i - 1] && aim[i - 1] == j);
          }
        }
      }
    }
  }

  /** Whether truth `j` is matched after each of the first `i` predictions, from none examined on. */
  function MatchedFlags(preds: seq<Detection>, truths: seq<Box>, tc: real, i: nat, j: nat): (r: seq<bool>)
    requires Comparable(preds, truths) && |truths| > 0 && i <= |preds| && j < |truths|
    ensures |r| == i + 1
    ensures forall k :: 0 <= k <= i ==> r[k] == Matched(preds, truths, tc, k)[j]
  {
    seq(i + 1, k requires 0 <= k <= i => Matched(preds, truths, tc, k)[j])
  }

  /** The true-positive decisions of the first `i` predictions. */
  function Decisions(preds: seq<Detection>, truths: seq<Box>, tc: real, i: nat): (r: seq<bool>)
    requires Comparable(preds, truths) && |truths| > 0 && i <= |preds|
    ensures |r| == i
    ensures forall k :: 0 <= k < i ==> r[k] == Decide(preds, truths, tc, k)
  {
    seq(i, k requires 0 <= k < i => Decide(preds, truths, tc, k))
  }

  /** The best truths of the first `i` predictions. */
  function BestTruths(preds: seq<Detection>, truths: seq<Box>, i: nat): (r: seq<nat>)
    requires Comparable(preds, truths) && |truths| > 0 && i <= |preds|
    ensures |r| == i
    ensures forall k :: 0 <= k < i ==> r[k] == Best(preds, truths, k)
  {
    seq(i, k requires 0 <= k < i => Best(preds, truths, k))
  }

  /** Truth `j`'s match flag follows the flag rule along the predictions. */
  lemma MatchedFlagsStep(preds: seq<Detection>, truths: seq<Box>, tc: real, i: nat, j: nat)
    requires Comparable(preds, truths) && |truths| > 0 && i <= |preds| && j < |truths|
    ensures var flag, fire, aim := MatchedFlags(preds, truths, tc, i, j), Decisions(preds, truths, tc, i), BestTruths(preds, truths, i);
      && !flag[0]
      && forall k :: 0 <= k < i ==> flag[k + 1] == (flag[k] || (fire[k] && aim[k] == j))
  {
    var flag, fire, aim := MatchedFlags(preds, truths, tc, i, j), Decisions(preds, truths, tc, i), BestTruths(preds, truths, i);
    forall k | 0 <= k < i ensures flag[k + 1] == (flag[k] || (fire[k] && aim[k] == j)) {
      MatchedStep(preds, truths, tc, k, j);
    }
  }

  /** A truth is matched exactly when some earlier prediction was a true positive against it. */
  lemma MatchedMeans(preds: seq<Detection>, truths: seq<Box>, tc: real, i: nat, j: nat)
    requires Comparable(preds, truths) && |truths| > 0 && i <= |preds| && j < |truths|
    ensures Matched(preds, truths, tc, i)[j] <==>
      exists k :: 0 <= k < i && Decide(preds, truths, tc, k) && Best(preds, truths, k) == j
  {
    var flag, fire, aim := MatchedFlags(preds, truths, tc, i, j), Decisions(preds, truths, tc, i), BestTruths(preds, truths, i);
    MatchedFlagsStep(preds, truths, tc, i, j);
    FlagMeans(flag, fire, aim, i, j);
  }

  /**
    The matching rule as a property of the whole sequence: prediction `i` is a true
    positive exactly when its best truth overlaps it by at least `tc` and no earlier
    true positive had the same best truth. So no truth is matched twice.
   */
  lemma MatchCharacterised(preds: seq<Detection>, truths: seq<Box>, tc: real, i: nat)
    requires Comparable(preds, truths) && |truths| > 0 && i < |preds|
    ensures var j := Best(preds, truths, i);
      Decide(preds, truths, tc, i) <==>
        && Iou(preds[i].box, truths[j]) >= tc
        && forall k :: 0 <= k < i && Decide(preds, truths, tc, k) ==> Best(preds, truths, k) != j
  {
    MatchedMeans(preds, truths, tc, i, Best(preds, truths, i));
  }

  /** Every matched truth accounts for exactly one true positive so far. */
  lemma {:induction false} MatchedCount(preds: seq<Detection>, truths: seq<Box>, tc: real, i: nat)
    requires Comparable(preds, truths) && |truths| > 0 && i <= |preds|
    ensures Count(Matched(preds, truths, tc, i), Holds) == Count(MatchHits(preds, truths, tc)[..i], IsTp)
  {
    var hits := MatchHits(preds, truths, tc);
    if i == 0 {
      CountNone(Matched(preds, truths, tc, 0), Holds);
    } else {
      MatchedCount(preds, truths, tc, i - 1);
      var prev := Matched(preds, truths, tc, i - 1);
      var d := Decide(preds, truths, tc, i - 1);
      assert Count(hits[..i], IsTp) == Count(hits[..i - 1], IsTp) + (if d then 1 else 0) by {
        assert hits[..i][..i - 1] == hits[..i - 1];
        assert hits[..i][i - 1] == Hit(preds[i - 1].conf, d);
      }
      MatchedShape(preds, truths, tc, i - 1);
      if d {
        CountUpdate(prev, Best(preds, truths, i - 1), true, Holds);
      }
    }
  }

  /** An image never has more true positives than truths. */
  lemma MatchTpBound(preds: seq<Detection>, truths: seq<Box>, tc: real)
    requires Comparable(preds, truths) && |truths| > 0
    ensures Count(MatchHits(preds, truths, tc), IsTp) <= |truths|
  {
    var hits := MatchHits(preds, truths, tc);
    MatchedCount(preds, truths, tc, |preds|);
    assert hits[..|preds|] == hits;
  }

  /**
    Matching looks only at the best truth: a second copy of a prediction is a false
    positive although another, unmatched truth overlaps it by 0.75.
   */
  lemma BestTruthOnly()
    ensures var p := Box(0.0, 0.0, 4.0, 4.0);
      var preds := [Detection(p, 0.9, []), Detection(p, 0.8, [])];
      var truths := [Box(0.0, 0.0, 4.0, 4.0), Box(0.0, 0.0, 3.0, 4.0)];
      && Comparable(preds, truths)
      && UnionArea(p, truths[1]) > 0.0 && Iou(p, truths[1]) == 0.75
      && MatchHits(preds, truths, 0.5) == [Hit(0.9, true), Hit(0.8, false)]
  {
    var p := Box(0.0, 0.0, 4.0, 4.0);
    var preds := [Detection(p, 0.9, []), Detection(p, 0.8, [])];
    var truths := [Box(0.0, 0.0, 4.0, 4.0), Box(0.0, 0.0, 3.0, 4.0)];
    assert Intersection(p, truths[0]) == 16.0;
    assert Intersection(p, truths[1]) == 12.0;
    var ious := Ious(p, truths);
    assert ious[0] == 1.0 && ious[1] == 0.75;
    assert Best(preds, truths, 0) == 0 && Best(preds, truths, 1) == 0;
    assert Decide(preds, truths, 0.5, 0);
    assert Matched(preds, truths, 0.5, 1)[0];
    assert !Decide(preds, truths, 0.5, 1);
  }

  /** The number of truth rows of an image (`None` when it has none). */
  function TruthCount(truths: Option<seq<Box>>): nat {
    if truths.Some? then |truths.value| else 0
  }

  /**
    The comparisons of one image are defined: truths, when present, are nonempty
    (the glue turns an empty set into `None`) and well-formed, and predicted boxes
    have positive area.
   */
  predicate ImageValid(truths: Option<seq<Box>>, preds: Option<seq<Detection>>) {
    && (truths.Some? ==> |truths.value| > 0 && forall j :: 0 <= j < |truths.value| ==> WellFormed(truths.value[j]))
    && (preds.Some? ==> forall i :: 0 <= i < |preds.value| ==> HasArea(preds.value[i].box))
  }

  /**
    The marked detections of one image: none without predictions, all false without
    truths, matched otherwise.
   */
  function ImageHits(truths: Option<seq<Box>>, preds: Option<seq<Detection>>, tc: real): (r: seq<Hit>)
    requires ImageValid(truths, preds)
    ensures preds.None? ==> r == []
    ensures preds.Some? ==> |r| == |preds.value| && forall i :: 0 <= i < |r| ==> r[i].conf == preds.value[i].conf
    ensures truths.None? ==> forall i :: 0 <= i < |r| ==> !r[i].tp
    ensures Count(r, IsTp) <= TruthCount(truths)
  {
    match preds
    case None => []
    case Some(ps) =>
      match truths
      case None =>
        var r := seq(|ps|, i requires 0 <= i < |ps| => Hit(ps[i].conf, false));
        CountNone(r, IsTp);
        r
      case Some(ts) =>
        MatchTpBound(ps, ts, tc);
        MatchHits(ps, ts, tc)
  }

  /** Every image's comparisons are defined, over the images the two lists share. */
  predicate ImagesValid(labels: seq<Option<seq<Box>>>, preds: seq<Option<seq<Detection>>>) {
    forall i :: 0 <= i < |labels| && i < |preds| ==> ImageValid(labels[i], preds[i])
  }

  /** Truth rows over all images, including images without a matching prediction list. */
  function TruthTotal(labels: seq<Option<seq<Box>>>): nat {
    if |labels| == 0 then 0 else TruthCount(labels[0]) + TruthTotal(labels[1..])
  }

  /**
    The detections of all images, image by image, as Python's `zip` pairs them: the
    shorter list decides how many images are looked at.
   */
  function Pool(labels: seq<Option<seq<Box>>>, preds: seq<Option<seq<Detection>>>, tc: real): (r: seq<Hit>)
    requires ImagesValid(labels, preds)
    ensures (forall i :: 0 <= i < |preds| ==> preds[i].None?) ==> r == []
    ensures Count(r, IsTp) <= TruthTotal(labels)
    decreases |labels|
  {
    if |labels| == 0 || |preds| == 0 then []
    else
      var first := ImageHits(labels[0], preds[0], tc);
      var rest := Pool(labels[1..], preds[1..], tc);
      CountConcat(first, rest, IsTp);
      first + rest
  }

  /** The running true-positive count after the first `i + 1` detections. */
  function CumTp(hits: seq<Hit>, i: nat): nat
    requires i < |hits|
  {
    Count(hits[..i + 1], IsTp)
  }

  /** Precision after each detection: true positives so far over detections so far. */
  function Precision(hits: seq<Hit>): (p: seq<real>)
    ensures |p| == |hits|
    ensures forall i :: 0 <= i < |hits| ==> 0.0 <= p[i] <= 1.0
  {
    forall i | 0 <= i < |hits| ensures 0.0 <= CumTp(hits, i) as real / (i + 1) as real <= 1.0 {
      RatioMono(CumTp(hits, i) as real, (i + 1) as real, (i + 1) as real);
      RatioSelf((i + 1) as real);
    }
    seq(|hits|, i requires 0 <= i < |hits| => CumTp(hits, i) as real / (i + 1) as real)
  }

  /** Recall after each detection: true positives so far over all truths. */
  function Recall(hits: seq<Hit>, nTruths: nat): (r: seq<real>)
    requires nTruths > 0
    ensures |r| == |hits|
  {
    seq(|hits|, i requires 0 <= i < |hits| => CumTp(hits, i) as real / nTruths as real)
  }

  /**
    The precision envelope: walking backwards, each precision is raised to the one
    after it. The result is the running maximum from the right.
   */
  function Envelope(p: seq<real>): (e: seq<real>)
    ensures |e| == |p|
    ensures forall i, j :: 0 <= i <= j < |p| ==> p[j] <= e[i]
    ensures forall i :: 0 <= i < |p| ==> exists j :: i <= j < |p| && e[i] == p[j]
  {
    if |p| == 0 then []
    else
      var rest := Envelope(p[1..]);
      var e := [if |rest| == 0 then p[0] else Max(p[0], rest[0])] + rest;
      forall i, j | 0 <= i <= j < |p| ensures p[j] <= e[i] {
        if 0 < i {
          assert p[j] == p[1..][j - 1];
        } else if 0 < j {
          assert p[j] == p[1..][j - 1];
          assert p[1..][j - 1] <= rest[0];
        }
      }
      forall i | 0 <= i < |p| ensures exists j :: i <= j < |p| && e[i] == p[j] {
        if 0 < i {
          var j :| i - 1 <= j < |rest| && rest[i - 1] == p[1..][j];
          assert e[i] == p[j + 1];
        } else if |rest| > 0 && p[0] < rest[0] {
          var j :| 0 <= j < |rest| && rest[0] == p[1..][j];
          assert e[0] == p[j + 1];
        }
      }
      e
  }

  /** After the envelope, precision never increases along the detections. */
  lemma EnvelopeNonIncreasing(p: seq<real>)
    ensures forall i, j :: 0 <= i <= j < |p| ==> Envelope(p)[j] <= Envelope(p)[i]
  {
    var e := Envelope(p);
    forall i, j | 0 <= i <= j < |p| ensures e[j] <= e[i] {
      var k :| j <= k < |p| && e[j] == p[k];
    }
  }

  /** The sum of p[k] * (r[k] - r[k - 1]) for k from 1 below `n`: the first recall step is skipped. */
  function AreaSum(p: seq<real>, r: seq<real>, n: nat): real
    requires |p| == |r| && n <= |p|
  {
    if n <= 1 then 0.0
    else AreaSum(p, r, n - 1) + p[n - 1] * (r[n - 1] - r[n - 2])
  }

  /** A fraction of a non-negative amount lies between zero and the amount. */
  lemma FractionOf(f: real, d: real, t: real)
    requires 0.0 <= f <= 1.0 && 0.0 <= d && t == f * d
    ensures 0.0 <= t <= d
  {
    assert f * d <= 1.0 * d;
  }

  /** With precisions in [0, 1] and growing recall, the area lies between 0 and the recall gained after the first step. */
  lemma {:induction false} AreaSumBounds(p: seq<real>, r: seq<real>, n: nat)
    requires |p| == |r| && 0 < n <= |p|
    requires forall k :: 0 <= k < |p| ==> 0.0 <= p[k] <= 1.0
    requires forall k, l :: 0 <= k <= l < |r| ==> r[k] <= r[l]
    ensures 0.0 <= AreaSum(p, r, n) <= r[n - 1] - r[0]
  {
    if n > 1 {
      AreaSumBounds(p, r, n - 1);
      var d := r[n - 1] - r[n - 2];
      var prev, t := AreaSum(p, r, n - 1), p[n - 1] * d;
      FractionOf(p[n - 1], d, t);
      assert AreaSum(p, r, n) == prev + t;
    }
  }

  /** With every precision 1 the area telescopes to the recall gained after the first step. */
  lemma {:induction false} AreaSumOnes(p: seq<real>, r: seq<real>, n: nat)
    requires |p| == |r| && 0 < n <= |p|
    requires forall k :: 0 <= k < |p| ==> p[k] == 1.0
    ensures AreaSum(p, r, n) == r[n - 1] - r[0]
  {
    if n > 1 {
      AreaSumOnes(p, r, n - 1);
    }
  }

  /** The mean average precision, or NumPy's NaN. */
  datatype MeanAp = Value(ap: real) | NotANumber

  /**
    Average precision of detections already sorted by descending confidence. Without
    truths every recall is 0 / 0, a NaN that any recall difference carries into the
    sum; only a single detection, whose sum is empty, escapes it.
   */
  function AveragePrecision(hits: seq<Hit>, nTruths: nat): (r: MeanAp)
    ensures r.NotANumber? <==> nTruths == 0 && |hits| > 1
    ensures nTruths == 0 && |hits| == 1 ==> r == Value(0.0)
  {
    if nTruths == 0 then
      if |hits| <= 1 then Value(0.0) else NotANumber
    else
      Value(AreaSum(Envelope(Precision(hits)), Recall(hits, nTruths), |hits|))
  }

  /** Cumulative true positives never decrease and never exceed the total. */
  lemma CumTpGrows(hits: seq<Hit>, i: nat, j: nat)
    requires i <= j < |hits|
    ensures CumTp(hits, i) <= CumTp(hits, j) <= Count(hits, IsTp)
  {
    CountPrefix(hits, i + 1, j + 1, IsTp);
    CountPrefix(hits, j + 1, |hits|, IsTp);
    assert hits[..|hits|] == hits;
  }

  /** Dividing by a positive number keeps order and sign. */
  lemma RatioMono(a: real, b: real, d: real)
    requires 0.0 <= a <= b && 0.0 < d
    ensures 0.0 <= a / d <= b / d
  {
  }

  /** An envelope of values in [0, 1] stays in [0, 1]. */
  lemma EnvelopeUnit(p: seq<real>)
    requires forall k :: 0 <= k < |p| ==> 0.0 <= p[k] <= 1.0
    ensures forall k :: 0 <= k < |p| ==> 0.0 <= Envelope(p)[k] <= 1.0
  {
    var e := Envelope(p);
    forall k | 0 <= k < |p| ensures 0.0 <= e[k] <= 1.0 {
      var j :| k <= j < |p| && e[k] == p[j];
    }
  }

  /** Recall never decreases. */
  lemma RecallAscending(hits: seq<Hit>, nTruths: nat)
    requires nTruths > 0
    ensures var r := Recall(hits, nTruths);
      forall k, l :: 0 <= k <= l < |r| ==> r[k] <= r[l]
  {
    var r := Recall(hits, nTruths);
    forall k, l | 0 <= k <= l < |r| ensures r[k] <= r[l] {
      CumTpGrows(hits, k, l);
      RatioMono(CumTp(hits, k) as real, CumTp(hits, l) as real, nTruths as real);
    }
  }

  /** Recall starts at 0 or more and, with no more true positives than truths, ends at most at 1. */
  lemma RecallEnds(hits: seq<Hit>, nTruths: nat)
    requires |hits| > 0 && nTruths > 0 && Count(hits, IsTp) <= nTruths
    ensures var r := Recall(hits, nTruths);
      0.0 <= r[0] && r[|r| - 1] <= 1.0
  {
    var n := |hits|;
    CumTpGrows(hits, 0, n - 1);
    RatioMono(CumTp(hits, 0) as real, CumTp(hits, n - 1) as real, nTruths as real);
    RatioMono(CumTp(hits, n - 1) as real, nTruths as real, nTruths as real);
    RatioSelf(nTruths as real);
  }

  /** A positive number divided by itself is 1. */
  lemma RatioSelf(a: real)
    requires a > 0.0
    ensures a / a == 1.0
  {
  }

  /** Fractions over the same denominator subtract by their numerators. */
  lemma RatioDiff(a: real, b: real, d: real)
    requires d > 0.0
    ensures a / d - b / d == (a - b) / d
  {
  }

  /** With at most as many true positives as truths, the average precision lies in [0, 1]. */
  lemma AveragePrecisionBounds(hits: seq<Hit>, nTruths: nat)
    requires |hits| > 0 && nTruths > 0 && Count(hits, IsTp) <= nTruths
    ensures AveragePrecision(hits, nTruths).Value?
    ensures 0.0 <= AveragePrecision(hits, nTruths).ap <= 1.0
  {
    var e := Envelope(Precision(hits));
    var r := Recall(hits, nTruths);
    EnvelopeUnit(Precision(hits));
    RecallAscending(hits, nTruths);
    RecallEnds(hits, nTruths);
    AreaSumBounds(e, r, |hits|);
  }

  /** One detection scores 0, correct or not: the sum starts at the second detection. */
  lemma SingleDetectionScoresZero(h: Hit, nTruths: nat)
    ensures AveragePrecision([h], nTruths) == Value(0.0)
  {
  }

  /** When every detection is correct, precision is 1 throughout and recall climbs by one truth per detection. */
  lemma AllCorrectCurve(hits: seq<Hit>, nTruths: nat)
    requires nTruths > 0
    requires forall k :: 0 <= k < |hits| ==> hits[k].tp
    ensures forall k :: 0 <= k < |hits| ==> Precision(hits)[k] == 1.0
    ensures forall k :: 0 <= k < |hits| ==> Recall(hits, nTruths)[k] == (k + 1) as real / nTruths as real
  {
    var p, r := Precision(hits), Recall(hits, nTruths);
    forall k | 0 <= k < |hits| ensures p[k] == 1.0 && r[k] == (k + 1) as real / nTruths as real {
      CountAll(hits[..k + 1], IsTp);
      assert CumTp(hits, k) == k + 1;
      RatioSelf((k + 1) as real);
      assert p[k] == CumTp(hits, k) as real / (k + 1) as real;
      assert r[k] == CumTp(hits, k) as real / nTruths as real;
    }
  }

  /**
    `n` correct detections against `m` truths score (n - 1) / m, so `n` perfect
    detections of `n` truths score (n - 1) / n rather than 1.
   */
  lemma AllCorrectScore(hits: seq<Hit>, nTruths: nat)
    requires |hits| > 0 && nTruths > 0
    requires forall k :: 0 <= k < |hits| ==> hits[k].tp
    ensures AveragePrecision(hits, nTruths) == Value((|hits| - 1) as real / nTruths as real)
  {
    var n := |hits|;
    var p := Precision(hits);
    AllCorrectCurve(hits, nTruths);
    var e := Envelope(p);
    forall k | 0 <= k < n ensures e[k] == 1.0 {
      var j :| k <= j < n && e[k] == p[j];
    }
    var r := Recall(hits, nTruths);
    AreaSumOnes(e, r, n);
    RatioDiff(n as real, 1.0, nTruths as real);
  }

  function NegConf(h: Hit): real {
    -h.conf
  }

  /**
    The mean average precision of per-image truths and filtered predictions: 0 without
    any detection, otherwise the average precision of all detections pooled and sorted
    by descending confidence (Python's stable `sorted`), against every truth row.
   */
  function MeanAveragePrecision(labels: seq<Option<seq<Box>>>, preds: seq<Option<seq<Detection>>>, tc: real): (r: MeanAp)
    requires ImagesValid(labels, preds)
    ensures (forall i :: 0 <= i < |preds| ==> preds[i].None?) ==> r == Value(0.0)
  {
    var hits := Pool(labels, preds, tc);
    if |hits| == 0 then Value(0.0)
    else AveragePrecision(SortByKey(hits, NegConf), TruthTotal(labels))
  }

  /** With at least one truth row the mean average precision is a number in [0, 1]. */
  lemma MeanAveragePrecisionBounds(labels: seq<Option<seq<Box>>>, preds: seq<Option<seq<Detection>>>, tc: real)
    requires ImagesValid(labels, preds) && TruthTotal(labels) > 0
    ensures MeanAveragePrecision(labels, preds, tc).Value?
    ensures 0.0 <= MeanAveragePrecision(labels, preds, tc).ap <= 1.0
  {
    var hits := Pool(labels, preds, tc);
    if |hits| > 0 {
      SortCount(hits, NegConf, IsTp);
      AveragePrecisionBounds(SortByKey(hits, NegConf), TruthTotal(labels));
    }
  }

  /** Without truth rows, two or more detections make the result NaN. */
  lemma NoTruthsIsNan(labels: seq<Option<seq<Box>>>, preds: seq<Option<seq<Detection>>>, tc: real)
    requires ImagesValid(labels, preds) && TruthTotal(labels) == 0
    requires |Pool(labels, preds, tc)| >= 2
    ensures MeanAveragePrecision(labels, preds, tc) == NotANumber
  {
  }

  /** The corners a decoded label row keeps in its columns 2 to 5 (`im_lab[j, 2:6]`). */
  function RowBox(row: seq<real>): Box
    requires |row| >= 6
  {
    Box(row[2], row[3], row[4], row[5])
  }

  /** A decoded label row marked as an object: its objectness is exactly 1. */
  predicate Marked(row: seq<real>) {
    |row| > 0 && row[0] == 1.0
  }

  /** The boxes of the marked rows, one per marked row and in row order (`conv_label[truth_mask, :]`). */
  function MarkedBoxes(rows: seq<seq<real>>): (r: seq<Box>)
    requires forall i :: 0 <= i < |rows| ==> |rows[i]| >= 6
    ensures |r| == Count(rows, Marked)
  {
    if |rows| == 0 then []
    else
      var n := |rows| - 1;
      MarkedBoxes(rows[..n]) + (if Marked(rows[n]) then [RowBox(rows[n])] else [])
  }

  /** The marked row preceded by `k` marked rows gives the `k`-th box. */
  lemma {:induction false} MarkedBoxesAt(rows: seq<seq<real>>, i: nat)
    requires forall j :: 0 <= j < |rows| ==> |rows[j]| >= 6
    requires i < |rows| && Marked(rows[i])
    ensures Count(rows[..i], Marked) < |MarkedBoxes(rows)|
    ensures MarkedBoxes(rows)[Count(rows[..i], Marked)] == RowBox(rows[i])
  {
    var n := |rows| - 1;
    var init := rows[..n];
    if i < n {
      assert init[..i] == rows[..i] && init[i] == rows[i];
      MarkedBoxesAt(init, i);
    } else {
      assert rows[..i] == init;
    }
  }

  /** Every box comes from a marked row. */
  lemma {:induction false} MarkedBoxesFrom(rows: seq<seq<real>>, k: nat)
    requires forall j :: 0 <= j < |rows| ==> |rows[j]| >= 6
    requires k < |MarkedBoxes(rows)|
    ensures exists i :: 0 <= i < |rows| && Marked(rows[i]) && MarkedBoxes(rows)[k] == RowBox(rows[i])
  {
    var n := |rows| - 1;
    var init := rows[..n];
    if k < |MarkedBoxes(init)| {
      MarkedBoxesFrom(init, k);
      var i :| 0 <= i < |init| && Marked(init[i]) && MarkedBoxes(init)[k] == RowBox(init[i]);
      assert rows[i] == init[i];
    } else {
      assert MarkedBoxes(rows)[k] == RowBox(rows[n]);
    }
  }

  /**
    The truth boxes of one image: the boxes of the rows whose objectness is exactly 1, or
    `None` when there is no such row.
   */
  function TruthBoxes(rows: seq<seq<real>>): (r: Option<seq<Box>>)
    requires forall i :: 0 <= i < |rows| ==> |rows[i]| >= 6
    ensures r.None? <==> forall i :: 0 <= i < |rows| ==> !Marked(rows[i])
    ensures r.Some? ==> r.value == MarkedBoxes(rows) && |r.value| == Count(rows, Marked)
  {
    var boxes := MarkedBoxes(rows);
    if |boxes| == 0 then
      forall i | 0 <= i < |rows| ensures !Marked(rows[i]) {
        if Marked(rows[i]) {
          MarkedBoxesAt(rows, i);
        }
      }
      None
    else
      MarkedBoxesFrom(rows, 0);
      Some(boxes)
  }

  /** Raw label rows of one image, six values each (one class), with non-negative sizes where an object is marked. */
  predicate LabelImageValid(g: Grid, rows: seq<seq<real>>) {
    && |rows| == g.gridW * g.gridH
    && (forall i :: 0 <= i < |rows| ==> |rows[i]| == 6)
    && (forall i :: 0 <= i < |rows| && rows[i][0] == 1.0 ==> rows[i][4] >= 0.0 && rows[i][5] >= 0.0)
  }

  /** Raw prediction rows of one image, each holding a block of five logits per anchor. */
  predicate PredImageValid(g: Grid, anchors: seq<Anchor>, rows: seq<seq<real>>) {
    && |rows| == g.gridW * g.gridH
    && (forall i :: 0 <= i < |rows| ==> 5 * |anchors| <= |rows[i]|)
  }

  /** The truth boxes of one image of raw label rows. */
  function ImageTruths(g: Grid, rows: seq<seq<real>>): Option<seq<Box>>
    requires ValidGrid(g) && LabelImageValid(g, rows)
  {
    TruthBoxes(DecodeLabels(g, rows))
  }

  /** The filtered predictions of one image of raw prediction rows. */
  function ImagePredictions(g: Grid, act: Activations, anchors: seq<Anchor>, rows: seq<seq<real>>, threshSig: real, threshOverlap: real): Option<seq<Detection>>
    requires ValidGrid(g) && ValidActivations(act) && |anchors| > 0 && PositiveAnchors(anchors)
    requires PredImageValid(g, anchors, rows) && threshOverlap <= 1.0
  {
    var cells := DecodePredictions(g, act, anchors, rows);
    DecodedBoxesHaveArea(g, act, anchors, rows);
    FilterPredictions(cells, threshSig, threshOverlap)
  }

  /** A decoded label row marked as an object has a well-formed box. */
  lemma TruthWellFormed(g: Grid, rows: seq<seq<real>>, i: nat)
    requires ValidGrid(g) && LabelImageValid(g, rows) && i < |rows| && rows[i][0] == 1.0
    ensures var d := DecodeLabels(g, rows)[i];
      |d| == 6 && d[0] == 1.0 && WellFormed(RowBox(d))
  {
    var row := rows[i];
    var d := DecodeLabels(g, rows)[i];
    assert d[..2] == row[..2];
    CornersMeaning(g, i, row[2], row[3], row[4], row[5]);
    assert RowBox(d) == LabelBox(d);
    assert row[4] * CellWidth(g) >= 0.0;
    assert row[5] * CellHeight(g) >= 0.0;
  }

  /** The truths of an image are well-formed, and some image row marked as an object makes them present. */
  lemma ImageTruthsValid(g: Grid, rows: seq<seq<real>>)
    requires ValidGrid(g) && LabelImageValid(g, rows)
    ensures ImageValid(ImageTruths(g, rows), None)
    ensures (exists i :: 0 <= i < |rows| && rows[i][0] == 1.0) ==> ImageTruths(g, rows).Some?
  {
    var d := DecodeLabels(g, rows);
    var t := ImageTruths(g, rows);
    if t.Some? {
      forall k | 0 <= k < |t.value| ensures WellFormed(t.value[k]) {
        MarkedBoxesFrom(d, k);
        var i :| 0 <= i < |d| && Marked(d[i]) && t.value[k] == RowBox(d[i]);
        assert d[i][..2] == rows[i][..2];
        TruthWellFormed(g, rows, i);
      }
    }
    if exists i :: 0 <= i < |rows| && rows[i][0] == 1.0 {
      var i :| 0 <= i < |rows| && rows[i][0] == 1.0;
      TruthWellFormed(g, rows, i);
      assert Marked(d[i]);
    }
  }

  /** Every filtered prediction has a box with positive area. */
  lemma ImagePredictionsValid(g: Grid, act: Activations, anchors: seq<Anchor>, rows: seq<seq<real>>, threshSig: real, threshOverlap: real)
    requires ValidGrid(g) && ValidActivations(act) && |anchors| > 0 && PositiveAnchors(anchors)
    requires PredImageValid(g, anchors, rows) && threshOverlap <= 1.0
    ensures ImageValid(None, ImagePredictions(g, act, anchors, rows, threshSig, threshOverlap))
  {
    var cells := DecodePredictions(g, act, anchors, rows);
    DecodedBoxesHaveArea(g, act, anchors, rows);
    FilterKeepsArea(cells, threshSig, threshOverlap);
  }

  /** Inputs of a whole test pass: a valid grid, activations and anchors, and valid rows for every image. */
  ghost predicate TestValid(g: Grid, act: Activations, anchors: seq<Anchor>, labels: seq<seq<seq<real>>>, preds: seq<seq<seq<real>>>, threshOverlap: real)
    requires ValidGrid(g)
  {
    && ValidActivations(act) && |anchors| > 0 && PositiveAnchors(anchors) && threshOverlap <= 1.0
    && (forall i :: 0 <= i < |labels| ==> LabelImageValid(g, labels[i]))
    && (forall i :: 0 <= i < |preds| ==> PredImageValid(g, anchors, preds[i]))
  }

  /** The truths of every image. */
  function AllTruths(g: Grid, labels: seq<seq<seq<real>>>): (r: seq<Option<seq<Box>>>)
    requires ValidGrid(g) && forall i :: 0 <= i < |labels| ==> LabelImageValid(g, labels[i])
    ensures |r| == |labels|
    ensures forall i :: 0 <= i < |labels| ==> r[i] == ImageTruths(g, labels[i])
  {
    seq(|labels|, i requires 0 <= i < |labels| => ImageTruths(g, labels[i]))
  }

  /** The filtered predictions of every image. */
  function AllPredictions(g: Grid, act: Activations, anchors: seq<Anchor>, preds: seq<seq<seq<real>>>,
                          threshSig: real, threshOverlap: real): (r: seq<Option<seq<Detection>>>)
    requires ValidGrid(g) && ValidActivations(act) && |anchors| > 0 && PositiveAnchors(anchors) && threshOverlap <= 1.0
    requires forall i :: 0 <= i < |preds| ==> PredImageValid(g, anchors, preds[i])
    ensures |r| == |preds|
    ensures forall i :: 0 <= i < |preds| ==> r[i] == ImagePredictions(g, act, anchors, preds[i], threshSig, threshOverlap)
  {
    seq(|preds|, i requires 0 <= i < |preds| => ImagePredictions(g, act, anchors, preds[i], threshSig, threshOverlap))
  }

  /**
    The object-detection branch of a full test pass: decode every image's labels and
    predictions, keep the marked truths and the filtered predictions, and score them.
   */
  function EvaluateTest(g: Grid, act: Activations, anchors: seq<Anchor>, labels: seq<seq<seq<real>>>, preds: seq<seq<seq<real>>>,
                        threshSig: real, threshOverlap: real, threshCorrect: real): (r: MeanAp)
    requires ValidGrid(g) && TestValid(g, act, anchors, labels, preds, threshOverlap)
    ensures TruthTotal(AllTruths(g, labels)) > 0 ==> r.Value? && 0.0 <= r.ap <= 1.0
  {
    var truths := AllTruths(g, labels);
    var found := AllPredictions(g, act, anchors, preds, threshSig, threshOverlap);
    forall i | 0 <= i < |truths| && i < |found| ensures ImageValid(truths[i], found[i]) {
      ImageTruthsValid(g, labels[i]);
      ImagePredictionsValid(g, act, anchors, preds[i], threshSig, threshOverlap);
    }
    if TruthTotal(truths) > 0 then
      MeanAveragePrecisionBounds(truths, found, threshCorrect);
      MeanAveragePrecision(truths, found, threshCorrect)
    else
      MeanAveragePrecision(truths, found, threshCorrect)
  }

  /** A test pass with at least one label row marked as an object scores a number in [0, 1]. */
  lemma EvaluateTestBounds(g: Grid, act: Activations, anchors: seq<Anchor>, labels: seq<seq<seq<real>>>, preds: seq<seq<seq<real>>>,
                           threshSig: real, threshOverlap: real, threshCorrect: real, i: nat, j: nat)
    requires ValidGrid(g) && TestValid(g, act, anchors, labels, preds, threshOverlap)
    requires i < |labels| && j < |labels[i]| && labels[i][j][0] == 1.0
    ensures var r := EvaluateTest(g, act, anchors, labels, preds, threshSig, threshOverlap, threshCorrect);
      r.Value? && 0.0 <= r.ap <= 1.0
  {
    var truths := AllTruths(g, labels);
    ImageTruthsValid(g, labels[i]);
    TruthTotalPositive(truths, i);
  }

  /** One image with truths makes the total positive. */
  lemma {:induction false} TruthTotalPositive(labels: seq<Option<seq<Box>>>, i: nat)
    requires i < |labels| && labels[i].Some? && |labels[i].value| > 0
    ensures TruthTotal(labels) > 0
  {
    if i > 0 {
      TruthTotalPositive(labels[1..], i - 1);
    }
  }
}
