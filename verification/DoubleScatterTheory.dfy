/** The cumulative area under the magnitude of a tabulated function, and the points that divide it equally. */
module DoubleScatterTheory {
  import opened RealArithmetic
  import opened LinearAlgebra

  /** The area under the magnitude between neighbouring angles, by the trapezoidal rule. */
  function Area(m0: real, m1: real, p0: real, p1: real): real { (m1 - m0) * 0.5 * (Abs(p1) + Abs(p0)) }

  /** The area up to angle k. */
  ghost function Cumulative(mu: Vec, p: Vec, k: int): real
    decreases k
  {
    if k <= 1 then 0.0 else Cumulative(mu, p, k - 1) + Area(mu(k - 1), mu(k), p(k - 1), p(k))
  }

  ghost predicate Rising(mu: Vec, n: int) { forall k :: 1 <= k < n ==> mu(k) < mu(k + 1) }

  lemma AreaNonnegative(m0: real, m1: real, p0: real, p1: real)
    requires m0 <= m1
    ensures Area(m0, m1, p0, p1) >= 0.0
  {
    var d, s := m1 - m0, Abs(p1) + Abs(p0);
    assert d >= 0.0 && s >= 0.0;
    NonnegativeProduct(0.5 * d, s);
    assert d * 0.5 * s == (0.5 * d) * s;
  }

  lemma {:induction false} RisingOrder(mu: Vec, n: int, j: int, k: int)
    requires Rising(mu, n) && 1 <= j < k <= n
    ensures mu(j) < mu(k)
    decreases k - j
  {
    assert mu(k - 1) < mu(k - 1 + 1);
    if j < k - 1 { RisingOrder(mu, n, j, k - 1); }
  }

  lemma {:induction false} CumulativeOrder(mu: Vec, p: Vec, n: int, j: int, k: int)
    requires Rising(mu, n) && 1 <= j <= k <= n
    ensures Cumulative(mu, p, j) <= Cumulative(mu, p, k)
    decreases k - j
  {
    if j < k {
      CumulativeOrder(mu, p, n, j, k - 1);
      assert mu(k - 1) < mu(k - 1 + 1);
      AreaNonnegative(mu(k - 1), mu(k), p(k - 1), p(k));
    }
  }

  /** The line through the values a and b at the ends of an interval, at the fraction w of it. */
  function Mix(a: real, b: real, w: real): real { a + w * (b - a) }

  /** x lies at the fraction w of interval k, above its lower end. */
  ghost predicate Placed(mu: Vec, k: int, w: real, x: real) { 0.0 < w <= 1.0 && x == Mix(mu(k), mu(k + 1), w) }

  /**
   * At x, the piecewise linear cumulative area is f, and neg says whether the piecewise linear function is not
   * positive.
   */
  ghost predicate Divides(mu: Vec, p: Vec, n: int, k: int, w: real, f: real, x: real, neg: bool) {
    && 1 <= k < n && Placed(mu, k, w, x)
    && Mix(Cumulative(mu, p, k), Cumulative(mu, p, k + 1), w) == f
    && (neg <==> Mix(p(k), p(k + 1), w) <= 0.0)
  }

  lemma MixBetween(a: real, b: real, w: real)
    requires 0.0 < w <= 1.0
    ensures a < b ==> a < Mix(a, b, w) <= b
    ensures a > 0.0 && b > 0.0 ==> Mix(a, b, w) > 0.0
    ensures a < 0.0 && b < 0.0 ==> Mix(a, b, w) < 0.0
  {
    var m := w * (b - a);
    if a < b {
      PositiveProduct(w, b - a, m);
      FractionOfPositive(w, b - a, m);
    }
    if b < a {
      PositiveProduct(w, a - b, -m);
      FractionOfPositive(w, a - b, -m);
    }
  }

  lemma FractionOfPositive(w: real, d: real, m: real)
    requires w <= 1.0 && d > 0.0 && m == w * d
    ensures m <= d
  {
    assert (1.0 - w) * d >= 0.0;
  }

  lemma MixStrict(a: real, b: real, v: real, w: real)
    requires a < b && v < w
    ensures Mix(a, b, v) < Mix(a, b, w)
  {
    PositiveProduct(w - v, b - a, (w - v) * (b - a));
    assert (w - v) * (b - a) == w * (b - a) - v * (b - a);
  }

  /** Larger areas are reached at larger angles. */
  lemma DividesInOrder(mu: Vec, p: Vec, n: int, k: int, v: real, f: real, x: real, s: bool, l: int, w: real, g: real,
      y: real, r: bool)
    requires Rising(mu, n) && Divides(mu, p, n, k, v, f, x, s) && Divides(mu, p, n, l, w, g, y, r)
    requires f < g && Cumulative(mu, p, l) < Cumulative(mu, p, l + 1)
    ensures x < y
  {
    hide Cumulative, Mix;
    IntervalsInOrder(mu, p, n, k, v, f, x, s, l, w, g, y, r);
    assert mu(k) < mu(k + 1) && mu(l) < mu(l + 1);
    MixBetween(mu(k), mu(k + 1), v);
    MixBetween(mu(l), mu(l + 1), w);
    if k == l {
      SameInterval(Cumulative(mu, p, l), Cumulative(mu, p, l + 1), v, w);
      MixStrict(mu(l), mu(l + 1), v, w);
    } else if k + 1 < l {
      RisingOrder(mu, n, k + 1, l);
    }
  }

  /** The larger area lies in the same or a later interval. */
  lemma IntervalsInOrder(mu: Vec, p: Vec, n: int, k: int, v: real, f: real, x: real, s: bool, l: int, w: real, g: real,
      y: real, r: bool)
    requires Rising(mu, n) && Divides(mu, p, n, k, v, f, x, s) && Divides(mu, p, n, l, w, g, y, r)
    requires f < g && Cumulative(mu, p, l) < Cumulative(mu, p, l + 1)
    ensures k <= l
  {
    hide Cumulative, Mix;
    if l < k {
      var a, b := Cumulative(mu, p, k), Cumulative(mu, p, k + 1);
      CumulativeOrder(mu, p, n, l + 1, k);
      CumulativeOrder(mu, p, n, k, k + 1);
      MixBetween(Cumulative(mu, p, l), Cumulative(mu, p, l + 1), w);
      MixAtLeast(a, b, v);
    }
  }

  lemma MixAtLeast(a: real, b: real, w: real)
    requires 0.0 < w <= 1.0 && a <= b
    ensures a <= Mix(a, b, w)
  {
    NonnegativeProduct(w, b - a);
  }

  lemma SameInterval(a: real, b: real, v: real, w: real)
    requires a < b && Mix(a, b, v) < Mix(a, b, w)
    ensures v < w
  {
    if v > w { MixStrict(a, b, w, v); }
  }

  /** The fraction that the code computes. */
  lemma FractionFound(a: real, b: real, f: real, w: real)
    requires a < f <= b && w == (f - a) / (b - a)
    ensures 0.0 < w <= 1.0 && Mix(a, b, w) == f
  {
    var d := b - a;
    assert w * d == f - a;
    if w < 0.0 { PositiveProduct(-w, d, -(w * d)); }
    if w > 1.0 { PositiveProduct(w - 1.0, d, (w - 1.0) * d); }
  }
}
