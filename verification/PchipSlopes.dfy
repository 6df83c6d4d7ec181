/** c_pchst and the slope formulas of c_spline_pchip. */
module PchipSlopes {
  import opened RealArithmetic
  import opened HermitePiece

  /** The sign of the product, without forming it. */
  function Pchst(arg1: real, arg2: real): (value: real)
    ensures value == 0.0 <==> arg1 == 0.0 || arg2 == 0.0
    ensures value == 1.0 <==> (arg1 > 0.0 && arg2 > 0.0) || (arg1 < 0.0 && arg2 < 0.0)
    ensures value == -1.0 <==> (arg1 > 0.0 && arg2 < 0.0) || (arg1 < 0.0 && arg2 > 0.0)
  {
    if arg1 == 0.0 then 0.0
    else if arg1 < 0.0 then (if arg2 < 0.0 then 1.0 else if arg2 == 0.0 then 0.0 else -1.0)
    else if arg2 < 0.0 then -1.0 else if arg2 == 0.0 then 0.0 else 1.0
  }

  /** The three-point end formula: the near secant extrapolated by the far one. */
  function ThreePoint(h1: real, h2: real, del1: real, del2: real): real
    requires h1 > 0.0 && h2 > 0.0
  {
    (h1 + (h1 + h2)) / (h1 + h2) * del1 + -h1 / (h1 + h2) * del2
  }

  /** The end formula, made shape preserving. */
  function EndSlope(h1: real, h2: real, del1: real, del2: real): real
    requires h1 > 0.0 && h2 > 0.0
  {
    var z := ThreePoint(h1, h2, del1, del2);
    if Pchst(z, del1) <= 0.0 then 0.0
    else if Pchst(del1, del2) < 0.0 && Abs(3.0 * del1) < Abs(z) then 3.0 * del1
    else z
  }

  /** The weights of the two secants at an interior point sum to one and are at least one third each. */
  function SecantWeight(h: real, other: real): (w: real)
    requires h > 0.0 && other > 0.0
    ensures 1.0 / 3.0 < w < 2.0 / 3.0
  {
    ThirdsBound(h, other);
    (h + other + h) / (3.0 * (h + other))
  }

  lemma ThirdsBound(h: real, other: real)
    requires h > 0.0 && other > 0.0
    ensures 1.0 / 3.0 < (h + other + h) / (3.0 * (h + other)) < 2.0 / 3.0
  {
    var s, w := h + other, (h + other + h) / (3.0 * (h + other));
    Cancel(3.0 * s, s + h);
    assert 3.0 * (s * w) == s + h;
    if w <= 1.0 / 3.0 {
      ProductMonotone(s, w, 1.0 / 3.0);
    }
    if w >= 2.0 / 3.0 {
      ProductMonotone(s, 2.0 / 3.0, w);
    }
  }

  lemma WeightValue(h: real, other: real, s: real)
    requires h > 0.0 && other > 0.0 && s == h + other
    ensures (3.0 * s) * SecantWeight(h, other) == s + h
  {
    Cancel(3.0 * (h + other), h + other + h);
  }

  lemma WeightsSumToOne(h1: real, h2: real)
    requires h1 > 0.0 && h2 > 0.0
    ensures SecantWeight(h1, h2) + SecantWeight(h2, h1) == 1.0
  {
    var s, w1, w2 := h1 + h2, SecantWeight(h1, h2), SecantWeight(h2, h1);
    WeightValue(h1, h2, s);
    WeightValue(h2, h1, s);
    UnitFactor(s, w1, w2, h1, h2);
  }

  lemma UnitFactor(s: real, w1: real, w2: real, h1: real, h2: real)
    requires s > 0.0 && s == h1 + h2 && (3.0 * s) * w1 == s + h1 && (3.0 * s) * w2 == s + h2
    ensures w1 + w2 == 1.0
  {
    assert (3.0 * s) * (w1 + w2) == 3.0 * s;
  }

  /** The larger magnitude as unit, the weighted mean of the two secants. */
  function Blend(h1: real, h2: real, del1: real, del2: real): real
    requires h1 > 0.0 && h2 > 0.0 && del1 != 0.0
  {
    var dmax := Greater(Abs(del1), Abs(del2));
    SecantWeight(h1, h2) * (del1 / dmax) + SecantWeight(h2, h1) * (del2 / dmax)
  }

  /** The slope at an interior point: zero unless the secants agree in sign. */
  function InteriorSlope(h1: real, h2: real, del1: real, del2: real): real
    requires h1 > 0.0 && h2 > 0.0
  {
    if Pchst(del1, del2) > 0.0 then
      BlendHasSign(h1, h2, del1, del2);
      Lesser(Abs(del1), Abs(del2)) / Blend(h1, h2, del1, del2)
    else 0.0
  }

  lemma BlendHasSign(h1: real, h2: real, del1: real, del2: real)
    requires h1 > 0.0 && h2 > 0.0 && Pchst(del1, del2) > 0.0
    ensures Blend(h1, h2, del1, del2) != 0.0
    ensures Blend(h1, h2, del1, del2) > 0.0 <==> del1 > 0.0
    ensures Abs(Blend(h1, h2, del1, del2)) > 1.0 / 3.0
  {
    var m := Greater(Abs(del1), Abs(del2));
    var w1, w2 := SecantWeight(h1, h2), SecantWeight(h2, h1);
    BlendBound(w1, w2, del1, del2, m);
  }

  lemma BlendBound(w1: real, w2: real, del1: real, del2: real, m: real)
    requires w1 > 1.0 / 3.0 && w2 > 1.0 / 3.0 && Pchst(del1, del2) > 0.0 && m == Greater(Abs(del1), Abs(del2))
    ensures var b := w1 * (del1 / m) + w2 * (del2 / m); Abs(b) > 1.0 / 3.0 && (b > 0.0 <==> del1 > 0.0)
  {
    var r1, r2 := del1 / m, del2 / m;
    Cancel(m, del1);
    Cancel(m, del2);
    RatioSign(del1, m, r1);
    RatioSign(del2, m, r2);
    if del1 > 0.0 {
      WeightedSum(w1, w2, r1, r2);
    } else {
      WeightedSum(w1, w2, -r1, -r2);
    }
  }

  lemma RatioSign(d: real, m: real, r: real)
    requires d != 0.0 && m >= Abs(d) && m * r == d
    ensures (r > 0.0 <==> d > 0.0) && (r < 0.0 <==> d < 0.0) && (m == Abs(d) ==> Abs(r) == 1.0)
  {
    if d > 0.0 {
      if r <= 0.0 { NonnegativeProduct(m, -r); }
      if m == d { ZeroFactor(m, r - 1.0); }
    } else {
      if r >= 0.0 { NonnegativeProduct(m, r); }
      if m == -d { ZeroFactor(m, r + 1.0); }
    }
  }

  lemma WeightedSum(w1: real, w2: real, r1: real, r2: real)
    requires w1 > 1.0 / 3.0 && w2 > 1.0 / 3.0 && r1 > 0.0 && r2 > 0.0 && (r1 == 1.0 || r2 == 1.0)
    ensures w1 * r1 + w2 * r2 > 1.0 / 3.0
  {
    var p1, p2 := w1 * r1, w2 * r2;
    PositivePart(w1, r1, p1);
    PositivePart(w2, r2, p2);
  }

  lemma PositivePart(w: real, r: real, p: real)
    requires w > 1.0 / 3.0 && r > 0.0 && p == w * r
    ensures p >= 0.0 && (r == 1.0 ==> p > 1.0 / 3.0)
  {
  }

  /** The interior slope has the sign of both secants and is at most three times as steep as either. */
  lemma InteriorWithin(h1: real, h2: real, del1: real, del2: real)
    requires h1 > 0.0 && h2 > 0.0
    ensures Within(InteriorSlope(h1, h2, del1, del2), del1) && Within(InteriorSlope(h1, h2, del1, del2), del2)
  {
    if Pchst(del1, del2) > 0.0 {
      BlendHasSign(h1, h2, del1, del2);
      SlopeBound(Lesser(Abs(del1), Abs(del2)), Blend(h1, h2, del1, del2), InteriorSlope(h1, h2, del1, del2));
      hide Blend, InteriorSlope;
    }
  }

  lemma SlopeBound(d: real, b: real, z: real)
    requires d > 0.0 && Abs(b) > 1.0 / 3.0 && z == d / b
    ensures Abs(z) <= 3.0 * d && (z > 0.0 <==> b > 0.0) && z != 0.0
  {
    Cancel(b, d);
    if b > 0.0 {
      PositiveQuotient(d, b, z);
    } else {
      assert (-b) * (-z) == d;
      PositiveQuotient(d, -b, -z);
    }
  }

  lemma PositiveQuotient(d: real, b: real, z: real)
    requires d > 0.0 && b > 1.0 / 3.0 && b * z == d
    ensures 0.0 < z <= 3.0 * d
  {
    if z <= 0.0 { NonnegativeProduct(b, -z); }
    if z > 0.0 { NonnegativeProduct(3.0 * b - 1.0, z); }
  }

  /** The interior slope is the weighted harmonic mean of the secants. */
  lemma InteriorIsHarmonicMean(h1: real, h2: real, del1: real, del2: real)
    requires h1 > 0.0 && h2 > 0.0 && Pchst(del1, del2) > 0.0
    ensures InteriorSlope(h1, h2, del1, del2) * (SecantWeight(h1, h2) * del1 + SecantWeight(h2, h1) * del2)
      == del1 * del2
  {
    BlendHasSign(h1, h2, del1, del2);
    var w1, w2, m, d := SecantWeight(h1, h2), SecantWeight(h2, h1), Greater(Abs(del1), Abs(del2)), Lesser(Abs(del1),
        Abs(del2));
    Cancel(m, del1);
    Cancel(m, del2);
    Cancel(Blend(h1, h2, del1, del2), d);
    Harmonic(w1, w2, m, d, del1, del2, del1 / m, del2 / m, Blend(h1, h2, del1, del2),
      InteriorSlope(h1, h2, del1, del2));
    hide *;
  }

  lemma Harmonic(w1: real, w2: real, m: real, d: real, del1: real, del2: real, r1: real, r2: real, b: real, z: real)
    requires m * r1 == del1 && m * r2 == del2 && b == w1 * r1 + w2 * r2 && b * z == d && Pchst(del1, del2) > 0.0
    requires m == Greater(Abs(del1), Abs(del2)) && d == Lesser(Abs(del1), Abs(del2))
    ensures z * (w1 * del1 + w2 * del2) == del1 * del2
  {
    var s := w1 * del1 + w2 * del2;
    assert w1 * del1 == m * (w1 * r1) && w2 * del2 == m * (w2 * r2);
    assert s == m * b;
    assert z * (m * b) == m * (b * z);
    assert m * d == del1 * del2;
  }

  /** On a straight line both formulas return its slope. */
  lemma SlopesOnLine(h1: real, h2: real, d: real)
    requires h1 > 0.0 && h2 > 0.0
    ensures InteriorSlope(h1, h2, d, d) == d && EndSlope(h1, h2, d, d) == d
  {
    LineEnd(h1, h2, d);
    if d != 0.0 {
      InteriorIsHarmonicMean(h1, h2, d, d);
      WeightsSumToOne(h1, h2);
      LineInterior(SecantWeight(h1, h2), SecantWeight(h2, h1), d, InteriorSlope(h1, h2, d, d));
    }
    hide InteriorSlope, ThreePoint;
  }

  lemma LineInterior(w1: real, w2: real, d: real, z: real)
    requires d != 0.0 && w1 + w2 == 1.0 && z * (w1 * d + w2 * d) == d * d
    ensures z == d
  {
    assert w1 * d + w2 * d == (w1 + w2) * d;
    assert (z - d) * d == 0.0;
  }

  lemma LineEnd(h1: real, h2: real, d: real)
    requires h1 > 0.0 && h2 > 0.0
    ensures ThreePoint(h1, h2, d, d) == d
  {
    ParabolaEnd(h1, h2, d, 0.0);
  }

  /** Without the limiter, the end formula is the end derivative of the parabola through three points. */
  lemma ParabolaEnd(h1: real, h2: real, b: real, c: real)
    requires h1 > 0.0 && h2 > 0.0
    ensures ThreePoint(h1, h2, b + c * h1, b + c * (h1 + h1 + h2)) == b
  {
    var s := h1 + h2;
    var w1, w2 := (h1 + s) / s, -h1 / s;
    var del1, del2 := b + c * h1, b + c * (h1 + h1 + h2);
    Cancel(s, h1 + s);
    Cancel(s, -h1);
    ThreePointScaled(h1, s, w1, w2, b, c, del1, del2);
  }

  lemma ThreePointScaled(h1: real, s: real, w1: real, w2: real, b: real, c: real, del1: real, del2: real)
    requires s > 0.0 && s * w1 == h1 + s && s * w2 == -h1
    requires del1 == b + c * h1 && del2 == b + c * (h1 + s)
    ensures w1 * del1 + w2 * del2 == b
  {
    var v := w1 * del1 + w2 * del2;
    assert s * v == (s * w1) * del1 + (s * w2) * del2;
    assert (h1 + s) * del1 + (-h1) * del2 == s * b;
    assert s * (v - b) == 0.0;
  }

  /** The end slope has the sign of the near secant, or is zero, and is at most three times as steep. */
  lemma EndWithin(h1: real, h2: real, del1: real, del2: real)
    requires h1 > 0.0 && h2 > 0.0
    ensures Within(EndSlope(h1, h2, del1, del2), del1)
  {
    var s := h1 + h2;
    var w1, w2 := (h1 + s) / s, -h1 / s;
    Cancel(s, h1 + s);
    Cancel(s, -h1);
    EndWeights(h1, s, w1, w2);
    var z := ThreePoint(h1, h2, del1, del2);
    if Pchst(z, del1) > 0.0 && Pchst(del1, del2) >= 0.0 {
      EndBound(w1, w2, del1, del2, z);
    }
    hide ThreePoint;
  }

  lemma EndWeights(h1: real, s: real, w1: real, w2: real)
    requires 0.0 < h1 < s && s * w1 == h1 + s && s * w2 == -h1
    ensures 1.0 < w1 < 2.0 && -1.0 < w2 < 0.0
  {
    assert s * (w1 - 1.0) == h1 && s * (-w2) == h1;
    UnitRatio(s, w1 - 1.0, h1);
    UnitRatio(s, -w2, h1);
  }

  lemma UnitRatio(s: real, r: real, h: real)
    requires 0.0 < h < s && s * r == h
    ensures 0.0 < r < 1.0
  {
    if r <= 0.0 { NonnegativeProduct(s, -r); }
    if r >= 1.0 { NonnegativeProduct(s, r - 1.0); }
  }

  lemma EndBound(w1: real, w2: real, del1: real, del2: real, z: real)
    requires 1.0 < w1 < 2.0 && -1.0 < w2 < 0.0 && z == w1 * del1 + w2 * del2
    requires Pchst(z, del1) > 0.0 && Pchst(del1, del2) >= 0.0
    ensures Within(z, del1)
  {
    if del1 > 0.0 {
      NonnegativeProduct(2.0 - w1, del1);
      NonnegativeProduct(-w2, del2);
    } else {
      NonnegativeProduct(2.0 - w1, -del1);
      NonnegativeProduct(-w2, -del2);
    }
  }
}
