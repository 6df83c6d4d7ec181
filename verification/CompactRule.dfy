/** The interior rule of c_compact_integration is exact for cubics, by Lagrange's basis and root counting. */
module CompactRule {
  import opened LinearAlgebra
  import opened Polynomials

  function Horner3(a0: real, a1: real, a2: real, a3: real, x: real): real { a0 + x * (a1 + x * (a2 + x * a3)) }

  /** A polynomial of degree three, lowest coefficient first, and its integral from zero. */
  datatype Cubic = Cubic(c0: real, c1: real, c2: real, c3: real) {
    function At(x: real): real { Horner3(c0, c1, c2, c3, x) }

    function Integral(x: real): real { x * Horner3(c0, c1 / 2.0, c2 / 3.0, c3 / 4.0, x) }

    /** The same polynomial with its origin moved to x. */
    function Shifted(x: real): Cubic {
      Cubic(At(x), c1 + 2.0 * c2 * x + 3.0 * c3 * x * x, c2 + 3.0 * c3 * x, c3)
    }
  }

  lemma ShiftedAt(q: Cubic, x: real, t: real)
    ensures q.Shifted(x).At(t) == q.At(x + t)
  {
  }

  ghost function Expanded(q: Cubic, x: real): real {
    q.c0 * x + q.c1 * x * x / 2.0 + q.c2 * x * x * x / 3.0 + q.c3 * x * x * x * x / 4.0
  }

  lemma IntegralIsExpanded(q: Cubic, x: real)
    ensures q.Integral(x) == Expanded(q, x)
  {
  }

  lemma ExpandedShifted(q: Cubic, x: real, t: real)
    ensures Expanded(q.Shifted(x), t) == Expanded(q, x + t) - Expanded(q, x)
  {
  }

  lemma ShiftedIntegral(q: Cubic, x: real, t: real)
    ensures q.Shifted(x).Integral(t) == q.Integral(x + t) - q.Integral(x)
  {
    hide Cubic.Integral, Cubic.Shifted, Expanded;
    ExpandedShifted(q, x, t);
    IntegralIsExpanded(q.Shifted(x), t);
    IntegralIsExpanded(q, x);
    IntegralIsExpanded(q, x + t);
  }

  /** The cubic with leading coefficient one and the given roots. */
  function WithRoots(r: real, s: real, t: real): Cubic { Cubic(-(r * s * t), r * s + r * t + s * t, -(r + s + t), 1.0) }

  lemma WithRootsAt(r: real, s: real, t: real, x: real)
    ensures WithRoots(r, s, t).At(x) == (x - r) * (x - s) * (x - t)
  {
  }

  function Sum(p: Cubic, q: Cubic): Cubic { Cubic(p.c0 + q.c0, p.c1 + q.c1, p.c2 + q.c2, p.c3 + q.c3) }

  function Multiple(l: real, p: Cubic): Cubic { Cubic(l * p.c0, l * p.c1, l * p.c2, l * p.c3) }

  lemma SumAt(p: Cubic, q: Cubic, x: real)
    ensures Sum(p, q).At(x) == p.At(x) + q.At(x) && Sum(p, q).Integral(x) == p.Integral(x) + q.Integral(x)
  {
    hide Horner3;
    Horner3Sum(p.c0, p.c1, p.c2, p.c3, q.c0, q.c1, q.c2, q.c3, x);
    Horner3Sum(p.c0, p.c1 / 2.0, p.c2 / 3.0, p.c3 / 4.0, q.c0, q.c1 / 2.0, q.c2 / 3.0, q.c3 / 4.0, x);
  }

  lemma Horner3Sum(a0: real, a1: real, a2: real, a3: real, b0: real, b1: real, b2: real, b3: real, x: real)
    ensures Horner3(a0 + b0, a1 + b1, a2 + b2, a3 + b3, x) == Horner3(a0, a1, a2, a3, x) + Horner3(b0, b1, b2, b3, x)
  {
    var u, v := a2 + x * a3, b2 + x * b3;
    var w, z := a1 + x * u, b1 + x * v;
    assert (a2 + b2) + x * (a3 + b3) == u + v;
    assert (a1 + b1) + x * (u + v) == w + z;
    assert (a0 + b0) + x * (w + z) == (a0 + x * w) + (b0 + x * z);
  }

  lemma MultipleAt(l: real, p: Cubic, x: real)
    ensures Multiple(l, p).At(x) == l * p.At(x) && Multiple(l, p).Integral(x) == l * p.Integral(x)
  {
    hide Horner3;
    var q := Multiple(l, p);
    Horner3Multiple(l, p.c0, p.c1, p.c2, p.c3, q.c0, q.c1, q.c2, q.c3, x);
    Horner3Multiple(l, p.c0, p.c1 / 2.0, p.c2 / 3.0, p.c3 / 4.0, q.c0, q.c1 / 2.0, q.c2 / 3.0, q.c3 / 4.0, x);
    var y := Horner3(p.c0, p.c1 / 2.0, p.c2 / 3.0, p.c3 / 4.0, x);
    ScaledProduct(l, x, y, l * y);
  }

  lemma Horner3Multiple(l: real, a0: real, a1: real, a2: real, a3: real, b0: real, b1: real, b2: real, b3: real,
      x: real)
    requires b0 == l * a0 && b1 == l * a1 && b2 == l * a2 && b3 == l * a3
    ensures Horner3(b0, b1, b2, b3, x) == l * Horner3(a0, a1, a2, a3, x)
  {
    var u := a2 + x * a3;
    var v := a1 + x * u;
    ScaledProduct(l, x, a3, b3);
    ScaledProduct(l, x, u, b2 + x * b3);
    ScaledProduct(l, x, v, b1 + x * (b2 + x * b3));
  }

  lemma ScaledProduct(l: real, x: real, y: real, z: real)
    requires z == l * y
    ensures x * z == l * (x * y)
  {
  }

  ghost function DifferenceCoefficients(p: Cubic, q: Cubic): Vec {
    i => if i == 1 then p.c0 - q.c0 else if i == 2 then p.c1 - q.c1 else if i == 3 then p.c2 - q.c2 else p.c3 - q.c3
  }

  lemma DifferenceHorner(p: Cubic, q: Cubic, x: real)
    ensures Horner(DifferenceCoefficients(p, q), 4, 1, x) == p.At(x) - q.At(x)
  {
    var v := DifferenceCoefficients(p, q);
    assert Horner(v, 4, 5, x) == 0.0;
    assert Horner(v, 4, 4, x) == p.c3 - q.c3;
    assert Horner(v, 4, 3, x) == (p.c2 - q.c2) + x * (p.c3 - q.c3);
    assert Horner(v, 4, 2, x) == (p.c1 - q.c1) + x * ((p.c2 - q.c2) + x * (p.c3 - q.c3));
  }

  predicate Distinct(x0: real, x1: real, x2: real, x3: real) {
    x0 != x1 && x0 != x2 && x0 != x3 && x1 != x2 && x1 != x3 && x2 != x3
  }

  /** Cubics that agree at four places are the same. */
  lemma CubicsAgree(p: Cubic, q: Cubic, x0: real, x1: real, x2: real, x3: real)
    requires Distinct(x0, x1, x2, x3)
    requires p.At(x0) == q.At(x0) && p.At(x1) == q.At(x1) && p.At(x2) == q.At(x2) && p.At(x3) == q.At(x3)
    ensures p == q
  {
    hide Cubic.At, Horner;
    var node: Vec := k => if k == 0 then x0 else if k == 1 then x1 else if k == 2 then x2 else x3;
    var v := DifferenceCoefficients(p, q);
    forall k | 0 <= k < 4 ensures Root(v, 4, node(k)) { DifferenceHorner(p, q, node(k)); }
    RootCount(v, 4, node, 0);
    assert v(1) == 0.0 && v(2) == 0.0 && v(3) == 0.0 && v(4) == 0.0;
  }

  /** The combination of the four basis cubics of the nodes. */
  function Lagrange(x0: real, x1: real, x2: real, x3: real, l0: real, l1: real, l2: real, l3: real): Cubic {
    Sum(Sum(Multiple(l0, WithRoots(x1, x2, x3)), Multiple(l1, WithRoots(x0, x2, x3))),
        Sum(Multiple(l2, WithRoots(x0, x1, x3)), Multiple(l3, WithRoots(x0, x1, x2))))
  }

  lemma LagrangeAt(x0: real, x1: real, x2: real, x3: real, l0: real, l1: real, l2: real, l3: real, x: real)
    ensures var p := Lagrange(x0, x1, x2, x3, l0, l1, l2, l3);
      && p.At(x) == (l0 * WithRoots(x1, x2, x3).At(x) + l1 * WithRoots(x0, x2, x3).At(x))
        + (l2 * WithRoots(x0, x1, x3).At(x) + l3 * WithRoots(x0, x1, x2).At(x))
      && p.Integral(x) == (l0 * WithRoots(x1, x2, x3).Integral(x) + l1 * WithRoots(x0, x2, x3).Integral(x))
        + (l2 * WithRoots(x0, x1, x3).Integral(x) + l3 * WithRoots(x0, x1, x2).Integral(x))
  {
    hide Cubic.At, Cubic.Integral, WithRoots, Multiple, Sum;
    var n0, n1, n2, n3 := WithRoots(x1, x2, x3), WithRoots(x0, x2, x3), WithRoots(x0, x1, x3), WithRoots(x0, x1, x2);
    MultipleAt(l0, n0, x);
    MultipleAt(l1, n1, x);
    MultipleAt(l2, n2, x);
    MultipleAt(l3, n3, x);
    SumAt(Multiple(l0, n0), Multiple(l1, n1), x);
    SumAt(Multiple(l2, n2), Multiple(l3, n3), x);
    SumAt(Sum(Multiple(l0, n0), Multiple(l1, n1)), Sum(Multiple(l2, n2), Multiple(l3, n3)), x);
  }

  function OuterWeight(b: real, p: real, q: real, r: real, s: real): real
    requires p != 0.0 && q != 0.0 && r != 0.0
  {
    (b / p) * (b / q) * (b / r) * s
  }

  function InnerWeight(b: real, p: real, q: real, s: real): real
    requires p != 0.0 && q != 0.0
  {
    (b / p) * ((b / q) * s - 6.0 * p)
  }

  predicate Spread(a: real, b: real, c: real) {
    a != 0.0 && b != 0.0 && c != 0.0 && b + a != 0.0 && c + b != 0.0 && c + (b + a) != 0.0
  }

  /** The step of the rule from the second to the third of four points, by their ordinates and distances. */
  function CompactStep(y0: real, y1: real, y2: real, y3: real, dx10: real, dx21: real, dx32: real): real
    requires Spread(dx10, dx21, dx32)
  {
    var dx20 := dx21 + dx10;
    var dx30 := dx32 + dx20;
    var dx31 := dx32 + dx21;
    -(y0 * OuterWeight(dx21, dx10, dx20, dx30, dx31 + dx32)
      + y1 * InnerWeight(dx21, dx10, dx31, dx21 + 2.0 * (dx10 - dx31))
      + y2 * InnerWeight(dx21, dx20, dx32, dx21 + 2.0 * (dx32 - dx20))
      + y3 * OuterWeight(dx21, dx30, dx31, dx32, dx10 + dx20)) / 12.0
  }

  /** The integrals of the basis cubics over the middle interval. */
  lemma FirstBasis(b: real, c: real)
    ensures 12.0 * WithRoots(0.0, b, c + b).Integral(b) == b * b * b * ((c + b) + c)
  {
  }

  lemma SecondBasis(a: real, b: real, d: real)
    ensures 12.0 * WithRoots(-a, b, d).Integral(b) == b * b * (6.0 * a * d - b * (b + 2.0 * (a - d)))
  {
  }

  lemma ThirdBasis(e: real, b: real, c: real)
    ensures 12.0 * WithRoots(b - e, 0.0, b + c).Integral(b) == b * b * (b * (b + 2.0 * (c - e)) - 6.0 * c * e)
  {
  }

  lemma FourthBasis(a: real, b: real)
    ensures 12.0 * WithRoots(-a, 0.0, b).Integral(b) == -(b * b * b * (a + (b + a)))
  {
  }

  lemma OuterWeightValue(b: real, p: real, q: real, r: real, s: real)
    requires p != 0.0 && q != 0.0 && r != 0.0
    ensures OuterWeight(b, p, q, r, s) * (p * q * r) == b * b * b * s
  {
    var u, v, w := b / p, b / q, b / r;
    assert u * p == b && v * q == b && w * r == b;
    assert (u * v * w * s) * (p * q * r) == (u * p) * (v * q) * (w * r) * s;
  }

  lemma InnerWeightValue(b: real, p: real, q: real, s: real)
    requires p != 0.0 && q != 0.0
    ensures InnerWeight(b, p, q, s) * (p * q) == b * (b * s - 6.0 * p * q)
  {
    var u, v := b / p, b / q;
    assert u * p == b && v * q == b;
    assert (u * (v * s - 6.0 * p)) * (p * q) == (u * p) * ((v * q) * s - 6.0 * p * q);
  }

  /** One ordinate's share: weight times ordinate is minus twelve integrals of its basis cubic. */
  lemma WeightedShare(y: real, d: real, l: real, w: real, i: real)
    requires d != 0.0 && l == y / d && w * d == -12.0 * i
    ensures y * w == -12.0 * (l * i)
  {
    assert l * d == y;
    assert (l * d) * w == l * (w * d);
  }

  lemma FirstShare(a: real, b: real, c: real, y: real)
    requires Spread(a, b, c)
    ensures var e, f, d := b + a, c + (b + a), c + b; var n := WithRoots(0.0, b, d);
      n.At(-a) != 0.0 && y * OuterWeight(b, a, e, f, d + c) == -12.0 * (y / n.At(-a) * n.Integral(b))
  {
    hide Cubic.At, Cubic.Integral, WithRoots, OuterWeight;
    var e, f, d := b + a, c + (b + a), c + b;
    var n, k := WithRoots(0.0, b, d), a * e * f;
    WithRootsAt(0.0, b, d, -a);
    assert n.At(-a) == -k && k != 0.0;
    FirstBasis(b, c);
    OuterWeightValue(b, a, e, f, d + c);
    WeightedShare(y, n.At(-a), y / n.At(-a), OuterWeight(b, a, e, f, d + c), n.Integral(b));
  }

  lemma SecondShare(a: real, b: real, c: real, y: real)
    requires Spread(a, b, c)
    ensures var d := c + b; var n := WithRoots(-a, b, d);
      n.At(0.0) != 0.0 && y * InnerWeight(b, a, d, b + 2.0 * (a - d)) == -12.0 * (y / n.At(0.0) * n.Integral(b))
  {
    hide Cubic.At, Cubic.Integral, WithRoots, InnerWeight;
    var d := c + b;
    var n, k, s := WithRoots(-a, b, d), a * d, b + 2.0 * (a - d);
    WithRootsAt(-a, b, d, 0.0);
    assert n.At(0.0) == k * b && k != 0.0;
    SecondBasis(a, b, d);
    InnerWeightValue(b, a, d, s);
    var w := InnerWeight(b, a, d, s);
    assert w * (k * b) == (w * k) * b;
    WeightedShare(y, n.At(0.0), y / n.At(0.0), w, n.Integral(b));
  }

  lemma ThirdShare(a: real, b: real, c: real, y: real)
    requires Spread(a, b, c)
    ensures var e, d := b + a, c + b; var n := WithRoots(-a, 0.0, d);
      n.At(b) != 0.0 && y * InnerWeight(b, e, c, b + 2.0 * (c - e)) == -12.0 * (y / n.At(b) * n.Integral(b))
  {
    hide Cubic.At, Cubic.Integral, WithRoots, InnerWeight;
    var e, d := b + a, c + b;
    var n, k, s := WithRoots(-a, 0.0, d), e * c, b + 2.0 * (c - e);
    WithRootsAt(-a, 0.0, d, b);
    assert n.At(b) == -(k * b) && k != 0.0;
    ThirdBasis(e, b, c);
    assert n == WithRoots(b - e, 0.0, b + c);
    InnerWeightValue(b, e, c, s);
    var w := InnerWeight(b, e, c, s);
    assert w * (k * b) == (w * k) * b;
    WeightedShare(y, n.At(b), y / n.At(b), w, n.Integral(b));
  }

  lemma FourthShare(a: real, b: real, c: real, y: real)
    requires Spread(a, b, c)
    ensures var e, f, d := b + a, c + (b + a), c + b; var n := WithRoots(-a, 0.0, b);
      n.At(d) != 0.0 && y * OuterWeight(b, f, d, c, a + e) == -12.0 * (y / n.At(d) * n.Integral(b))
  {
    hide Cubic.At, Cubic.Integral, WithRoots, OuterWeight;
    var e, f, d := b + a, c + (b + a), c + b;
    var n, k := WithRoots(-a, 0.0, b), f * d * c;
    WithRootsAt(-a, 0.0, b, d);
    assert n.At(d) == k && k != 0.0;
    FourthBasis(a, b);
    OuterWeightValue(b, f, d, c, a + e);
    WeightedShare(y, n.At(d), y / n.At(d), OuterWeight(b, f, d, c, a + e), n.Integral(b));
  }
}
