/** Small arithmetic facts the grid arithmetic needs and the solver does not find alone. */
module Arith {

  lemma MulSign(d: int, w: int)
    requires w > 0
    ensures d >= 1 ==> d * w >= w
    ensures d <= -1 ==> d * w <= -w
  {
  }

  /** Quotient and remainder are determined by any decomposition with remainder in [0, w). */
  lemma DivModUnique(a: int, w: int, q: int, r: int)
    requires w > 0 && 0 <= r < w && a == q * w + r
    ensures a / w == q && a % w == r
  {
    var qa, ra := a / w, a % w;
    assert a == qa * w + ra;
    MulSign(q - qa, w);
    assert (q - qa) * w == ra - r;
  }

  /** Scaling by p/q and back by q/p is the identity. */
  lemma ScaleBack(a: real, p: real, q: real)
    requires p > 0.0 && q > 0.0
    ensures (a * (p / q)) * (q / p) == a
  {
    assert (p / q) * (q / p) == 1.0;
    assert (a * (p / q)) * (q / p) == a * ((p / q) * (q / p));
  }

  /** Multiplying by a positive factor keeps a value inside a scaled half-open interval. */
  lemma ScaleInterval(x: real, bound: real, s: real)
    requires s > 0.0 && 0.0 <= x < bound
    ensures 0.0 <= x * s < bound * s
  {
  }
}
