/**
  Corner-form boxes and their intersection over union, as computed by the model's
  private `__compute_iou` helper, plus the integer truncation that NumPy's `modf`
  and Python's `int()` apply to coordinates.
 */
module Geometry {

  /** An axis-aligned box in corner form: left, top, right, bottom. */
  datatype Box = Box(x1: real, y1: real, x2: real, y2: real)

  function Max(a: real, b: real): real {
    if a >= b then a else b
  }

  function Min(a: real, b: real): real {
    if a <= b then a else b
  }

  /** Right edge not left of the left edge, bottom not above the top. */
  predicate WellFormed(b: Box) {
    b.x1 <= b.x2 && b.y1 <= b.y2
  }

  /** A box with strictly positive width and height. */
  predicate HasArea(b: Box) {
    b.x1 < b.x2 && b.y1 < b.y2
  }

  function Area(b: Box): real {
    (b.x2 - b.x1) * (b.y2 - b.y1)
  }

  /** The length two intervals share, zero when they are apart. */
  function Overlap(lo1: real, hi1: real, lo2: real, hi2: real): (d: real)
    ensures 0.0 <= d
    ensures lo1 <= hi1 && lo2 <= hi2 ==> d <= hi1 - lo1 && d <= hi2 - lo2
  {
    Max(0.0, Min(hi1, hi2) - Max(lo1, lo2))
  }

  /** Overlap area; an empty overlap on either axis contributes a zero factor. */
  function Intersection(a: Box, b: Box): (r: real)
    ensures 0.0 <= r
  {
    Overlap(a.x1, a.x2, b.x1, b.x2) * Overlap(a.y1, a.y2, b.y1, b.y2)
  }

  function UnionArea(a: Box, b: Box): real {
    Area(a) + Area(b) - Intersection(a, b)
  }

  lemma MulMono(x: real, y: real, w: real, h: real)
    requires 0.0 <= x <= w && 0.0 <= y <= h
    ensures x * y <= w * h
  {
    assert x * y <= w * y;
    assert w * y <= w * h;
  }

  lemma MulPositive(x: real, y: real)
    requires 0.0 < x && 0.0 < y
    ensures 0.0 < x * y
  {
  }

  /** A box with area has a positive area. */
  lemma AreaPositive(b: Box)
    requires HasArea(b)
    ensures Area(b) > 0.0
  {
    MulPositive(b.x2 - b.x1, b.y2 - b.y1);
  }

  /** The overlap of two well-formed boxes is no larger than the first. */
  lemma WithinFirst(a: Box, b: Box)
    requires WellFormed(a) && WellFormed(b)
    ensures Intersection(a, b) <= Area(a)
  {
    MulMono(Overlap(a.x1, a.x2, b.x1, b.x2), Overlap(a.y1, a.y2, b.y1, b.y2), a.x2 - a.x1, a.y2 - a.y1);
  }

  /** The overlap of two well-formed boxes is no larger than the second. */
  lemma WithinSecond(a: Box, b: Box)
    requires WellFormed(a) && WellFormed(b)
    ensures Intersection(a, b) <= Area(b)
  {
    MulMono(Overlap(a.x1, a.x2, b.x1, b.x2), Overlap(a.y1, a.y2, b.y1, b.y2), b.x2 - b.x1, b.y2 - b.y1);
  }

  /** Two well-formed boxes with a zero union share no area: the IoU is 0 / 0, not x / 0. */
  lemma ZeroUnionEmpty(a: Box, b: Box)
    ensures WellFormed(a) && WellFormed(b) && UnionArea(a, b) == 0.0 ==> Intersection(a, b) == 0.0
  {
    if WellFormed(a) && WellFormed(b) {
      IntersectionWithin(a, b);
    }
  }

  /** The overlap of two well-formed boxes is no larger than either box. */
  lemma IntersectionWithin(a: Box, b: Box)
    requires WellFormed(a) && WellFormed(b)
    ensures Intersection(a, b) <= Area(a)
    ensures Intersection(a, b) <= Area(b)
  {
    WithinFirst(a, b);
    WithinSecond(a, b);
  }

  /**
    Intersection over union. The source divides without a guard, so a zero union
    (two zero-area boxes) is excluded here; callers that can meet it test it first.
   */
  function Iou(a: Box, b: Box): (r: real)
    requires UnionArea(a, b) != 0.0
    ensures WellFormed(a) && WellFormed(b) ==> 0.0 <= r <= 1.0
  {
    if WellFormed(a) && WellFormed(b) then
      IntersectionWithin(a, b);
      assert 0.0 <= Intersection(a, b) <= UnionArea(a, b);
      Intersection(a, b) / UnionArea(a, b)
    else
      Intersection(a, b) / UnionArea(a, b)
  }

  /** Well-formed boxes, at least one with area, have a positive union, so their IoU is defined. */
  lemma UnionPositive(a: Box, b: Box)
    requires WellFormed(a) && WellFormed(b)
    requires HasArea(a) || HasArea(b)
    ensures UnionArea(a, b) > 0.0
  {
    if HasArea(a) {
      WithinSecond(a, b);
      AreaPositive(a);
    } else {
      WithinFirst(a, b);
      AreaPositive(b);
    }
  }

  /** IoU does not depend on the order of its arguments. */
  lemma IouSymmetric(a: Box, b: Box)
    requires UnionArea(a, b) != 0.0
    ensures UnionArea(b, a) == UnionArea(a, b)
    ensures Iou(a, b) == Iou(b, a)
  {
    assert Intersection(a, b) == Intersection(b, a);
  }

  /** A box with area overlaps itself completely. */
  lemma IouSelf(a: Box)
    requires HasArea(a)
    ensures UnionArea(a, a) > 0.0
    ensures Iou(a, a) == 1.0
  {
    assert Intersection(a, a) == Area(a);
  }

  /** Boxes that do not overlap on the x axis or on the y axis have IoU 0. */
  lemma IouDisjoint(a: Box, b: Box)
    requires UnionArea(a, b) != 0.0
    requires a.x2 <= b.x1 || b.x2 <= a.x1 || a.y2 <= b.y1 || b.y2 <= a.y1
    ensures Iou(a, b) == 0.0
  {
    assert Intersection(a, b) == 0.0;
  }

  /** Truncation toward zero: the integral part of `np.modf` and Python's `int()` on a float. */
  function Trunc(x: real): (r: int)
    ensures 0.0 <= x ==> r as real <= x < r as real + 1.0
    ensures x < 0.0 ==> r as real - 1.0 < x <= r as real
  {
    if x >= 0.0 then x.Floor else -((-x).Floor)
  }

  /** A value in `[0, n)` truncates to an index below `n`. */
  lemma TruncBelow(x: real, n: int)
    requires 0.0 <= x < n as real
    ensures 0 <= Trunc(x) < n
  {
  }

  /** Truncation never reverses order. */
  lemma TruncMonotone(x: real, y: real)
    requires x <= y
    ensures Trunc(x) <= Trunc(y)
  {
  }
}
