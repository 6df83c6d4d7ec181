/** The eigenvalue and the reflectance of a layer in c_twostr_solns. */
module TwoStreamEigen {
  import opened RealArithmetic

  /** The share of scattered light that goes to the other hemisphere. */
  function Backscatter(g: real, cmu: real): real { 0.5 * (1.0 - 3.0 * g * cmu * cmu) }

  /** The two factors under the roots, for a layer of single-scattering albedo o. */
  function Loss(o: real): real { 1.0 - o }
  function LossAndExchange(o: real, g: real, cmu: real): real { 1.0 - o + 2.0 * o * Backscatter(g, cmu) }

  /**
   * Upward intensity exp(k t) and downward intensity r exp(k t) solve the two-stream equations of the layer at every
   * depth t: the change of each is its extinction less what is scattered into it.
   */
  predicate IsMode(k: real, r: real, o: real, g: real, cmu: real) {
    var beta := Backscatter(g, cmu);
    && cmu * k == 1.0 - o * ((1.0 - beta) + beta * r)
    && -(cmu * k) * r == r - o * ((1.0 - beta) * r + beta)
  }

  /** RR of c_twostr_solns, from the roots of the two factors. */
  function Reflectance(s1: real, s2: real): real
    requires s1 + s2 != 0.0
  {
    (s2 - s1) / (s2 + s1)
  }

  /** The layer absorbs something and its factors are not negative. */
  predicate Absorbing(o: real, g: real, cmu: real) { 0.0 <= o < 1.0 && 0.0 < LossAndExchange(o, g, cmu) }

  /**
   * RR always lies strictly between -1 and 1, and from 0 on exactly if the layer scatters none of its light or not too
   * much of it forward.
   */
  lemma ReflectanceRange(o: real, g: real, cmu: real, s1: real, s2: real)
    requires Absorbing(o, g, cmu) && RootOf(s1, Loss(o)) && RootOf(s2, LossAndExchange(o, g, cmu))
    ensures 0.0 < s1 + s2 && -1.0 < Reflectance(s1, s2) < 1.0
    ensures 0.0 <= Reflectance(s1, s2) <==> o == 0.0 || 3.0 * g * cmu * cmu <= 1.0
  {
    PositiveRoot(s1, Loss(o));
    PositiveRoot(s2, LossAndExchange(o, g, cmu));
    var r := Reflectance(s1, s2);
    Cancel(s2 + s1, s2 - s1);
    assert (1.0 - r) * (s2 + s1) == 2.0 * s1 && (1.0 + r) * (s2 + s1) == 2.0 * s2;
    SignOfFactor(1.0 - r, s2 + s1, 2.0 * s1);
    SignOfFactor(1.0 + r, s2 + s1, 2.0 * s2);
    SignOfFactor(r, s2 + s1, s2 - s1);
    RootOrder(s1, s2, Loss(o), LossAndExchange(o, g, cmu));
    ExchangeOrder(o, Backscatter(g, cmu));
  }

  lemma SignOfFactor(x: real, d: real, p: real)
    requires 0.0 < d && p == x * d
    ensures (0.0 < x <==> 0.0 < p) && (0.0 <= x <==> 0.0 <= p)
  {
    if x > 0.0 { PositiveProduct(x, d, p); }
    if x < 0.0 { PositiveProduct(-x, d, -p); }
  }

  lemma RootOrder(s1: real, s2: real, x1: real, x2: real)
    requires RootOf(s1, x1) && RootOf(s2, x2) && 0.0 < s1 + s2
    ensures s1 <= s2 <==> x1 <= x2
  {
    assert (s2 - s1) * (s2 + s1) == x2 - x1;
    SignOfFactor(s2 - s1, s2 + s1, x2 - x1);
  }

  lemma ExchangeOrder(o: real, beta: real)
    requires 0.0 <= o
    ensures 0.0 <= 2.0 * o * beta <==> o == 0.0 || 0.0 <= beta
  {
    if o > 0.0 { SignOfFactor(beta, 2.0 * o, 2.0 * o * beta); }
  }

  /** The root of the product is the product of the roots. */
  lemma RootOfProduct(s: real, s1: real, s2: real, x1: real, x2: real)
    requires RootOf(s, x1 * x2) && RootOf(s1, x1) && RootOf(s2, x2)
    ensures s == s1 * s2
  {
    NonnegativeProduct(s1, s2);
    var t := s1 * s2;
    assert t * t == (s1 * s1) * (s2 * s2);
    SameProduct(s1 * s1, x1, s2 * s2, x2);
    SameRoot(s, t, x1 * x2);
  }

  lemma SameRoot(s: real, t: real, x: real)
    requires RootOf(s, x) && RootOf(t, x)
    ensures s == t
  {
    assert (s - t) * (s + t) == 0.0;
    if s != t {
      ZeroFactor(s - t, s + t);
    }
  }

  /** KK and RR describe a solution of the two-stream equations. */
  lemma ModeOfRoots(o: real, g: real, cmu: real, s: real, s1: real, s2: real, k: real)
    requires Absorbing(o, g, cmu) && RootOf(s1, Loss(o)) && RootOf(s2, LossAndExchange(o, g, cmu))
    requires RootOf(s, Loss(o) * LossAndExchange(o, g, cmu)) && cmu > 0.0 && k == 1.0 / cmu * s
    ensures s1 + s2 != 0.0 && IsMode(k, Reflectance(s1, s2), o, g, cmu) && 0.0 <= k
  {
    ReflectanceRange(o, g, cmu, s1, s2);
    RootOfProduct(s, s1, s2, Loss(o), LossAndExchange(o, g, cmu));
    var beta, r := Backscatter(g, cmu), Reflectance(s1, s2);
    Cancel(s2 + s1, s2 - s1);
    Cancel(cmu, 1.0);
    assert cmu * k == s by { assert cmu * (1.0 / cmu * s) == (cmu * (1.0 / cmu)) * s; }
    ModeScalars(o, beta, s1, s2, r);
    if k < 0.0 { PositiveProduct(cmu, -k, -s); }
    SameProduct(-(cmu * k), -(s1 * s2), r, r);
  }

  lemma ModeScalars(o: real, beta: real, s1: real, s2: real, r: real)
    requires s1 * s1 == 1.0 - o && s2 * s2 == 1.0 - o + 2.0 * o * beta && r * (s2 + s1) == s2 - s1 && 0.0 < s1 + s2
    ensures s1 * s2 == 1.0 - o * ((1.0 - beta) + beta * r)
    ensures -(s1 * s2) * r == r - o * ((1.0 - beta) * r + beta)
  {
    var b := o * beta;
    var a, t, d := 1.0 - o + b, s1 * s2, s2 + s1;
    assert 2.0 * a == s1 * s1 + s2 * s2 && 2.0 * b == (s2 - s1) * d;
    assert b * r + b * r == (s2 - s1) * (r * d) == (s2 - s1) * (s2 - s1);
    assert (s2 - s1) * (s2 - s1) == 2.0 * a - 2.0 * t;
    assert t == a - b * r;
    assert d * d == 2.0 * a + 2.0 * t;
    assert r * (d * d) == (r * d) * d == 2.0 * b;
    assert r * (a + t) == b;
    assert o * ((1.0 - beta) + beta * r) == o - b + b * r;
    assert o * ((1.0 - beta) * r + beta) == o * r - b * r + b;
  }

  /** The layers of the medium absorb, and none scatters more forward than the quadrature can represent. */
  predicate Representable(o: real, g: real, cmu: real) { 0.0 <= o < 1.0 && 3.0 * g * cmu * cmu <= 1.0 }

  lemma RepresentableAbsorbs(o: real, g: real, cmu: real)
    requires Representable(o, g, cmu)
    ensures Absorbing(o, g, cmu)
  {
    NonnegativeProduct(o, Backscatter(g, cmu));
  }

  /** The homogeneous part of c_twostr_solns. */
  method HomogeneousSolutions(oprim: array<real>, ggprim: array<real>, cmu: real, ncut: nat, sqrt: real -> real,
      kk: array<real>, rr: array<real>)
    requires ncut <= oprim.Length && ncut <= ggprim.Length && ncut <= kk.Length && ncut <= rr.Length
    requires kk != rr && oprim !in {kk, rr} && ggprim !in {kk, rr} && cmu > 0.0 && IsSqrt(sqrt)
    requires forall lc :: 0 <= lc < ncut ==> Representable(oprim[lc], ggprim[lc], cmu)
    modifies kk, rr
    ensures forall lc :: 0 <= lc < ncut ==> IsMode(kk[lc], rr[lc], oprim[lc], ggprim[lc], cmu)
    ensures forall lc :: 0 <= lc < ncut ==> 0.0 <= kk[lc] && 0.0 <= rr[lc] < 1.0
  {
    hide IsMode, Representable, IsSqrt;
    for lc := 0 to ncut
      invariant forall l :: 0 <= l < lc ==> IsMode(kk[l], rr[l], oprim[l], ggprim[l], cmu)
      invariant forall l :: 0 <= l < lc ==> 0.0 <= kk[l] && 0.0 <= rr[l] < 1.0
    {
      kk[lc], rr[lc] := LayerMode(oprim[lc], ggprim[lc], cmu, sqrt);
    }
  }

  method LayerMode(o: real, g: real, cmu: real, sqrt: real -> real) returns (k: real, r: real)
    requires Representable(o, g, cmu) && cmu > 0.0 && IsSqrt(sqrt)
    ensures IsMode(k, r, o, g, cmu) && 0.0 <= k && 0.0 <= r < 1.0
  {
    hide IsMode;
    RepresentableAbsorbs(o, g, cmu);
    var beta := 0.5 * (1.0 - 3.0 * g * cmu * cmu);
    var fact1 := 1.0 - o;
    var fact2 := 1.0 - o + 2.0 * o * beta;
    NonnegativeProduct(fact1, fact2);
    assert RootOf(sqrt(fact1), fact1) && RootOf(sqrt(fact2), fact2) && RootOf(sqrt(fact1 * fact2), fact1 * fact2);
    ReflectanceRange(o, g, cmu, sqrt(fact1), sqrt(fact2));
    k := 1.0 / cmu * sqrt(fact1 * fact2);
    r := (sqrt(fact2) - sqrt(fact1)) / (sqrt(fact2) + sqrt(fact1));
    ModeOfRoots(o, g, cmu, sqrt(fact1 * fact2), sqrt(fact1), sqrt(fact2), k);
  }
}
