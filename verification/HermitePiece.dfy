/** c_splint_pchip: one cubic piece in Hermite form, and when it is monotone. */
module HermitePiece {
  import opened RealArithmetic

  /** A table entry: abscissa, ordinate, slope. */
  datatype Triplet = Triplet(x: real, y: real, z: real)

  /** The cubic through two entries a distance h apart, with their slopes, evaluated at xx. */
  function Splint(xx: real, left: Triplet, right: Triplet, h: real): real
    requires h != 0.0
  {
    var delta := (right.y - left.y) / h;
    var del1 := (left.z - delta) / h;
    var del2 := (right.z - delta) / h;
    var c3 := (del1 + del2) / h;
    var c2 := -(del1 + del1 + del2);
    NestedCubic(left.y, left.z, c2, c3, xx - left.x)
  }

  function NestedCubic(y: real, z: real, c2: real, c3: real, x: real): real { y + x * (z + x * (c2 + x * c3)) }

  /** The extreme shapes: slopes zero or three times the secant at either end. */
  ghost function Flat(s: real): real { 3.0 * (s * s) - 2.0 * Cube(s) }

  ghost function Cube(s: real): real { s * s * s }

  ghost function SteepLeft(s: real): real { 1.0 - Cube(1.0 - s) }

  ghost function SteepBoth(s: real): real { (1.0 + Cube(2.0 * s - 1.0)) / 2.0 }

  /** The rise over h at the fraction s of the interval, for secant delta and end slopes z0 and z1. */
  ghost function Rise(delta: real, z0: real, z1: real, s: real): real {
    s * z0 - s * s * (2.0 * z0 + z1 - 3.0 * delta) + Cube(s) * (z0 + z1 - 2.0 * delta)
  }

  /** The value at height r above y, in units of h. */
  ghost function Lifted(y: real, h: real, r: real): real { y + h * r }

  lemma ProductMonotone(c: real, x: real, y: real)
    requires c >= 0.0 && x <= y
    ensures c * x <= c * y
  {
    NonnegativeProduct(c, y - x);
    assert c * (y - x) == c * y - c * x;
  }

  lemma CubeMonotone(s: real, t: real)
    requires s <= t
    ensures Cube(s) <= Cube(t)
  {
    var d, m := t - s, s + t;
    var q := m * m + d * d / 3.0;
    Square(m, m * m);
    Square(d, d * d);
    NonnegativeProduct(d, q);
    assert Cube(t) - Cube(s) == 0.75 * (d * q);
  }

  lemma FlatMonotone(s: real, t: real)
    requires 0.0 <= s <= t <= 1.0
    ensures Flat(s) <= Flat(t)
  {
    NonnegativeProduct(t, 1.0 - t);
    NonnegativeProduct(t, 1.0 - s);
    NonnegativeProduct(s, 3.0 - t - 2.0 * s);
    var q := 2.0 * (t * (1.0 - t)) + t * (1.0 - s) + s * (3.0 - t - 2.0 * s);
    NonnegativeProduct(t - s, q);
    assert Flat(t) - Flat(s) == (t - s) * q;
  }

  lemma SteepLeftMonotone(s: real, t: real)
    requires s <= t
    ensures SteepLeft(s) <= SteepLeft(t)
  {
    hide Cube;
    CubeMonotone(1.0 - t, 1.0 - s);
  }

  lemma SteepBothMonotone(s: real, t: real)
    requires s <= t
    ensures SteepBoth(s) <= SteepBoth(t)
  {
    hide Cube;
    CubeMonotone(2.0 * s - 1.0, 2.0 * t - 1.0);
  }

  lemma Shapes(s: real)
    ensures SteepLeft(s) == 3.0 * s - 3.0 * (s * s) + Cube(s)
    ensures SteepBoth(s) == SteepLeft(s) + Cube(s) - Flat(s)
  {
    assert Cube(1.0 - s) == 1.0 - 3.0 * s + 3.0 * (s * s) - Cube(s);
    assert Cube(2.0 * s - 1.0) == 8.0 * Cube(s) - 12.0 * (s * s) + 6.0 * s - 1.0;
  }

  /** Three shapes with their weights. */
  ghost function Mixture(c: real, x: real, a: real, y: real, b: real, z: real): real { c * x + a * y + b * z }

  lemma MixtureMonotone(c: real, x: real, x': real, a: real, y: real, y': real, b: real, z: real, z': real)
    requires c >= 0.0 && a >= 0.0 && b >= 0.0 && x <= x' && y <= y' && z <= z'
    ensures Mixture(c, x, a, y, b, z) <= Mixture(c, x', a, y', b, z')
  {
    ProductMonotone(c, x, x');
    ProductMonotone(a, y, y');
    ProductMonotone(b, z, z');
  }

  /** The rise as a combination of shapes. */
  lemma GentleRise(delta: real, a: real, b: real, c: real, s: real)
    requires c == delta - a - b
    ensures Rise(delta, 3.0 * a, 3.0 * b, s) == Mixture(c, Flat(s), a, SteepLeft(s), b, Cube(s))
  {
    Shapes(s);
    GentleSum(delta, a, b, c, s, s * s, Cube(s), Flat(s), SteepLeft(s));
    hide Cube, SteepLeft, Flat;
  }

  lemma GentleSum(d: real, a: real, b: real, c: real, s: real, s2: real, s3: real, f: real, l: real)
    requires f == 3.0 * s2 - 2.0 * s3 && l == 3.0 * s - 3.0 * s2 + s3 && c == d - a - b
    ensures s * (3.0 * a) - s2 * (2.0 * (3.0 * a) + 3.0 * b - 3.0 * d) + s3 * (3.0 * a + 3.0 * b - 2.0 * d)
      == c * f + a * l + b * s3
  {
    assert c * f == 3.0 * (c * s2) - 2.0 * (c * s3);
    assert c * s2 == (d - a - b) * s2 && c * s3 == (d - a - b) * s3;
    assert a * l == 3.0 * (a * s) - 3.0 * (a * s2) + a * s3;
  }

  /** The same when the end slopes outweigh the secant. */
  lemma SteepRise(delta: real, a: real, b: real, c: real, s: real)
    requires c == a + b - delta
    ensures Rise(delta, 3.0 * a, 3.0 * b, s) == Mixture(c, SteepBoth(s), delta - b, SteepLeft(s), delta - a, Cube(s))
  {
    hide Rise, Flat, SteepLeft, SteepBoth, Cube;
    Shapes(s);
    GentleRise(delta, a, b, -c, s);
    RegroupRise(delta, a, b, c, Flat(s), SteepLeft(s), Cube(s), SteepBoth(s));
  }

  lemma RegroupRise(d: real, a: real, b: real, c: real, f: real, l: real, u: real, e: real)
    requires c == a + b - d && e == l + u - f
    ensures Mixture(-c, f, a, l, b, u) == Mixture(c, e, d - b, l, d - a, u)
  {
    assert c * e == c * l + c * u - c * f;
    assert c * l == (a + b - d) * l && c * u == (a + b - d) * u;
  }

  /** With end slopes between zero and three times a nonnegative secant, the piece rises all the way. */
  lemma RiseMonotone(delta: real, z0: real, z1: real, s: real, t: real)
    requires 0.0 <= s <= t <= 1.0 && 0.0 <= z0 <= 3.0 * delta && 0.0 <= z1 <= 3.0 * delta
    ensures Rise(delta, z0, z1, s) <= Rise(delta, z0, z1, t)
  {
    hide *;
    var a, b := z0 / 3.0, z1 / 3.0;
    assert 3.0 * a == z0 && 3.0 * b == z1;
    ThirdsMonotone(delta, a, b, s, t);
  }

  lemma ThirdsMonotone(delta: real, a: real, b: real, s: real, t: real)
    requires 0.0 <= s <= t <= 1.0 && 0.0 <= a <= delta && 0.0 <= b <= delta
    ensures Rise(delta, 3.0 * a, 3.0 * b, s) <= Rise(delta, 3.0 * a, 3.0 * b, t)
  {
    hide *;
    FlatMonotone(s, t);
    SteepLeftMonotone(s, t);
    SteepBothMonotone(s, t);
    CubeMonotone(s, t);
    var c := delta - a - b;
    if c >= 0.0 {
      GentleRise(delta, a, b, c, s);
      GentleRise(delta, a, b, c, t);
      MixtureMonotone(c, Flat(s), Flat(t), a, SteepLeft(s), SteepLeft(t), b, Cube(s), Cube(t));
    } else {
      SteepRise(delta, a, b, -c, s);
      SteepRise(delta, a, b, -c, t);
      MixtureMonotone(-c, SteepBoth(s), SteepBoth(t), delta - b, SteepLeft(s), SteepLeft(t), delta - a, Cube(s),
        Cube(t));
    }
  }

  lemma RiseNegated(delta: real, z0: real, z1: real, s: real)
    ensures Rise(-delta, -z0, -z1, s) == -Rise(delta, z0, z1, s)
  {
    hide Cube;
    var s2, s3 := s * s, Cube(s);
    assert s2 * (2.0 * -z0 + -z1 - 3.0 * -delta) == -(s2 * (2.0 * z0 + z1 - 3.0 * delta));
    assert s3 * (-z0 + -z1 - 2.0 * -delta) == -(s3 * (z0 + z1 - 2.0 * delta));
  }

  /** A slope has the sign of the secant, or is zero, and is at most three times as steep. */
  predicate Within(z: real, delta: real) {
    if delta >= 0.0 then 0.0 <= z <= 3.0 * delta else 3.0 * delta <= z <= 0.0
  }

  /** The code's nested evaluation is the rise at the fraction s of the interval. */
  lemma SplintIsRise(xx: real, left: Triplet, right: Triplet, h: real, s: real)
    requires h != 0.0 && xx - left.x == s * h
    ensures Splint(xx, left, right, h) == Lifted(left.y, h, Rise((right.y - left.y) / h, left.z, right.z, s))
  {
    hide NestedCubic, Rise, Lifted;
    var delta := (right.y - left.y) / h;
    var del1, del2 := (left.z - delta) / h, (right.z - delta) / h;
    var c3, c2 := (del1 + del2) / h, -(del1 + del1 + del2);
    CubicIsRise(left.y, left.z, right.z, delta, h, s, xx - left.x, del1, del2, c2, c3);
  }

  lemma CubicIsRise(y: real, z0: real, z1: real, delta: real, h: real, s: real, x: real,
        del1: real, del2: real, c2: real, c3: real)
    requires h != 0.0 && x == s * h && del1 == (z0 - delta) / h && del2 == (z1 - delta) / h
    requires c3 == (del1 + del2) / h && c2 == -(del1 + del1 + del2)
    ensures NestedCubic(y, z0, c2, c3, x) == Lifted(y, h, Rise(delta, z0, z1, s))
  {
    hide Rise;
    var p, q, r := z0 - delta, z1 - delta, Rise(delta, z0, z1, s);
    RiseExpanded(delta, z0, z1, s, p, q);
    Cancel(h, p);
    Cancel(h, q);
    Cancel(h, del1 + del2);
    NestedIsLifted(h, s, p, q, del1, del2, c2, c3, z0, x, r);
  }

  lemma NestedIsLifted(h: real, s: real, p: real, q: real, del1: real, del2: real, c2: real, c3: real, z: real, x: real,
        r: real)
    requires h * del1 == p && h * del2 == q && h * c3 == del1 + del2 && c2 == -(del1 + del1 + del2) && x == s * h
    requires r == s * (z + s * (-(p + p + q) + s * (p + q)))
    ensures x * (z + x * (c2 + x * c3)) == h * r
  {
    assert x * c3 == s * (h * c3);
    var inner := c2 + x * c3;
    assert h * inner == h * c2 + s * (h * del1 + h * del2);
    assert h * c2 == -(p + p + q);
    assert x * inner == s * (h * inner);
    var outer := z + x * inner;
    assert x * outer == h * (s * outer);
  }

  lemma RiseExpanded(delta: real, z0: real, z1: real, s: real, p: real, q: real)
    requires p == z0 - delta && q == z1 - delta
    ensures Rise(delta, z0, z1, s) == s * (z0 + s * (-(p + p + q) + s * (p + q)))
  {
    assert s * (s * (s * (p + q))) == Cube(s) * (p + q);
    assert s * (s * (-(p + p + q))) == -(s * s * (p + p + q));
  }
}
