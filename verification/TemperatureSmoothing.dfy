/** The smoothing loop over the temperature profile, with windows that are skewed near the ends. */
module TemperatureSmoothing {
  import opened LinearAlgebra
  import opened Polynomials
  import opened SavitzkyGolay
  import opened CroutTheory
  import opened CroutSolve
  import opened SavitzkyGolayFilter

  const NHW := 15
  const NP := 31

  /** How many of the points in the window of level k lie to its left. */
  function Left(ntp: int, k: int): (nl: int)
    requires NP <= ntp && 0 <= k < ntp
    ensures 0 <= nl < NP && 0 <= k - nl && k + (NP - nl - 1) < ntp
    ensures NHW <= k <= ntp - 1 - NHW ==> nl == NP - nl - 1
  {
    if k < NHW then k else if k > ntp - 1 - NHW then NP - (ntp - 1 - k) - 1 else NHW
  }

  /** The profile as seen from level k. */
  ghost function Seen(t: Vec, k: int): Vec { q => t(k + q + 1) }

  ghost predicate IsSmoothed(s: real, t: Vec, ntp: int, k: int)
    requires NP <= ntp && 0 <= k < ntp
  {
    exists w: Vec :: SmoothedBy(w, s, t, ntp, k)
  }

  ghost predicate SmoothedBy(w: Vec, s: real, t: Vec, ntp: int, k: int)
    requires NP <= ntp && 0 <= k < ntp
  {
    var nl := Left(ntp, k);
    IsFilter(w, nl, NP - nl - 1, 2, 0) && s == Dot(w, Seen(t, k), -nl, NP - nl)
  }

  /** The smoothed value is the value at the level of the quadratic fitted to its window. */
  lemma SmoothedIsLocalFit(s: real, t: Vec, ntp: int, k: int, a: Vec)
    requires NP <= ntp && 0 <= k < ntp && IsSmoothed(s, t, ntp, k)
    requires Fits(a, Seen(t, k), Left(ntp, k), NP - Left(ntp, k) - 1, 3)
    ensures s == a(1)
  {
    hide IsFilter, Dot, Seen, Fits;
    var w :| SmoothedBy(w, s, t, ntp, k);
    FilterFits(w, Left(ntp, k), NP - Left(ntp, k) - 1, 2, 0, a, Seen(t, k));
  }

  /** A combination of the first three power columns. */
  ghost function Quadratic(a0: real, a1: real, a2: real): Vec {
    q => a0 * Col(Vandermonde(), 1)(q) + a1 * Col(Vandermonde(), 2)(q) + a2 * Col(Vandermonde(), 3)(q)
  }

  /** A profile that is quadratic in the level number passes through unchanged, at the ends too. */
  lemma QuadraticsPassThrough(s: real, t: Vec, ntp: int, k: int, c0: real, c1: real, c2: real)
    requires NP <= ntp && 0 <= k < ntp && IsSmoothed(s, t, ntp, k)
    requires forall i: int :: 1 <= i <= ntp ==> t(i) == c0 + c1 * i as real + c2 * (i as real * i as real)
    ensures s == t(k + 1)
  {
    hide IsFilter, Dot, Vandermonde, Quadratic, Seen;
    var w :| SmoothedBy(w, s, t, ntp, k);
    var nl := Left(ntp, k);
    var a1 := c1 + 2.0 * c2 * (k + 1) as real;
    var f, g := Seen(t, k), Quadratic(t(k + 1), a1, c2);
    forall q | -nl <= q < NP - nl ensures f(q) == g(q) { SeenQuadratic(t, ntp, k, q, c0, c1, c2, a1); }
    DotCongruence(w, f, w, g, -nl, NP - nl);
    QuadraticFiltered(w, t(k + 1), a1, c2, nl, NP - nl - 1);
  }

  /** Around level k, the quadratic in the offset. */
  lemma SeenQuadratic(t: Vec, ntp: int, k: int, q: int, c0: real, c1: real, c2: real, a1: real)
    requires 1 <= k + 1 <= ntp && 1 <= k + q + 1 <= ntp && a1 == c1 + 2.0 * c2 * (k + 1) as real
    requires forall i: int :: 1 <= i <= ntp ==> t(i) == c0 + c1 * i as real + c2 * (i as real * i as real)
    ensures Seen(t, k)(q) == Quadratic(t(k + 1), a1, c2)(q)
  {
    var v, x, y := Vandermonde(), (k + 1) as real, q as real;
    assert Col(v, 1)(q) == 1.0 && Col(v, 2)(q) == y;
    assert Col(v, 3)(q) == Pow(y, 2) == (1.0 * y) * y;
    assert Seen(t, k)(q) == t(k + q + 1) && (k + q + 1) as real == x + y;
    Expand(c0, c1, c2, x, y);
  }

  lemma Expand(c0: real, c1: real, c2: real, x: real, y: real)
    ensures c0 + c1 * (x + y) + c2 * ((x + y) * (x + y)) ==
      (c0 + c1 * x + c2 * (x * x)) + (c1 + 2.0 * c2 * x) * y + c2 * (y * y)
  {
    assert (x + y) * (x + y) == x * x + 2.0 * (x * y) + y * y;
  }

  /** Only the constant part of a quadratic survives the moment conditions. */
  lemma QuadraticFiltered(w: Vec, a0: real, a1: real, a2: real, nl: int, nr: int)
    requires IsFilter(w, nl, nr, 2, 0)
    ensures Dot(w, Quadratic(a0, a1, a2), -nl, nr + 1) == a0
  {
    hide IsFilter, Dot, Vandermonde;
    var lo, hi, v := -nl, nr + 1, Vandermonde();
    var f, g, h, zero := Quadratic(a0, a1, a2), Quadratic(a0, a1, 0.0), Quadratic(a0, 0.0, 0.0), Quadratic(0.0, 0.0,
      0.0);
    DotCommutes(w, f, lo, hi);
    DotLinear(f, g, Col(v, 3), a2, w, lo, hi);
    DotLinear(g, h, Col(v, 2), a1, w, lo, hi);
    DotLinear(h, zero, Col(v, 1), a0, w, lo, hi);
    DotZero(zero, w, lo, hi);
    FilterMoments(w, nl, nr, 2, 0, 0);
    FilterMoments(w, nl, nr, 2, 0, 1);
    FilterMoments(w, nl, nr, 2, 0, 2);
  }

  /** The weighted sum at level k, centre first, then to the left, then to the right. */
  method Convolve(c: array2<real>, nl: int, tdat: array<real>, ntp: int, k: int, smooth: array<real>, ghost w: Vec,
      ghost t: Vec)
    requires c.Length0 == NP && c.Length1 == NP && smooth != tdat && VecHolds(tdat, t, ntp) && ntp <= smooth.Length
    requires 0 <= nl < NP && 0 <= k - nl && k + (NP - nl - 1) < ntp
    requires WeightsStored(c, nl, w, NP, nl, NP - nl - 1)
    modifies smooth
    ensures smooth[k] == Dot(w, Seen(t, k), -nl, NP - nl)
    ensures forall r :: 0 <= r < smooth.Length && r != k ==> smooth[r] == old(smooth[r])
  {
    hide Dot;
    ghost var f := Seen(t, k);
    var nr := NP - nl - 1;
    smooth[k] := c[nl, 0] * tdat[k];
    CentreTerm(w, f, c[nl, 0], tdat[k]);
    for kk := 1 to nl + 1
      invariant smooth[k] == Dot(w, f, 1 - kk, 1)
      invariant forall r :: 0 <= r < smooth.Length && r != k ==> smooth[r] == old(smooth[r])
    {
      TermOnTheLeft(w, f, -kk, 1, c[nl, kk], tdat[k - kk]);
      smooth[k] := smooth[k] + c[nl, kk] * tdat[k - kk];
    }
    for kk := 1 to nr + 1
      invariant smooth[k] == Dot(w, f, -nl, kk)
      invariant forall r :: 0 <= r < smooth.Length && r != k ==> smooth[r] == old(smooth[r])
    {
      assert c[nl, NP - kk] == w(kk);
      TermOnTheRight(w, f, -nl, kk, c[nl, NP - kk], tdat[k + kk]);
      smooth[k] := smooth[k] + c[nl, NP - kk] * tdat[k + kk];
    }
  }

  lemma CentreTerm(w: Vec, f: Vec, x: real, y: real)
    requires x == w(0) && y == f(0)
    ensures Dot(w, f, 0, 1) == x * y
  {
    OneTerm(w, f, 0);
  }

  lemma TermOnTheLeft(w: Vec, f: Vec, lo: int, hi: int, x: real, y: real)
    requires lo < hi && x == w(lo) && y == f(lo)
    ensures Dot(w, f, lo, hi) == Dot(w, f, lo + 1, hi) + x * y
  {
    hide Dot;
    DotSplit(w, f, lo, lo + 1, hi);
    OneTerm(w, f, lo);
  }

  lemma TermOnTheRight(w: Vec, f: Vec, lo: int, hi: int, x: real, y: real)
    requires lo <= hi && x == w(hi) && y == f(hi)
    ensures Dot(w, f, lo, hi + 1) == Dot(w, f, lo, hi) + x * y
  {
  }

  /** One row of weights for each way of splitting the window. */
  method AllCoefficients(c: array2<real>) returns (ghost ws: int -> Vec)
    requires c.Length0 == NP && c.Length1 == NP
    modifies c
    ensures forall r :: 0 <= r < NP ==>
      IsFilter(ws(r), r, NP - r - 1, 2, 0) && WeightsStored(c, r, ws(r), NP, r, NP - r - 1)
  {
    hide IsFilter;
    ws := r => Unit(1);
    for nl := 0 to NP
      invariant forall r :: 0 <= r < nl ==>
        IsFilter(ws(r), r, NP - r - 1, 2, 0) && WeightsStored(c, r, ws(r), NP, r, NP - r - 1)
    {
      var nr := NP - nl - 1;
      var status;
      ghost var w;
      status, w := Coefficients(c, nl, NP, nl, nr, 0, 2);
      ghost var ws' := ws;
      ws := r => if r == nl then w else ws'(r);
    }
  }

  /** Every level of the profile is replaced by the value of the quadratic fitted to its window of 31 levels. */
  method Smooth(tdat: array<real>, ntp: int, ghost t: Vec) returns (smooth: array<real>)
    requires NP <= ntp && VecHolds(tdat, t, ntp)
    ensures fresh(smooth) && smooth.Length == ntp
    ensures forall k :: 0 <= k < ntp ==> IsSmoothed(smooth[k], t, ntp, k)
  {
    hide IsFilter, Dot, Seen, WeightsStored;
    smooth := new real[ntp];
    var c := new real[NP, NP];
    ghost var ws := AllCoefficients(c);
    for k := 0 to ntp
      invariant VecHolds(tdat, t, ntp)
      invariant forall r :: 0 <= r < NP ==>
        IsFilter(ws(r), r, NP - r - 1, 2, 0) && WeightsStored(c, r, ws(r), NP, r, NP - r - 1)
      invariant forall r :: 0 <= r < k ==> IsSmoothed(smooth[r], t, ntp, r)
    {
      var nl, nr;
      if k < NHW {
        nl := k;
        nr := NP - nl - 1;
      } else if k > ntp - 1 - NHW {
        nr := ntp - 1 - k;
        nl := NP - nr - 1;
      } else {
        nl := NHW;
        nr := NHW;
      }
      Convolve(c, nl, tdat, ntp, k, smooth, ws(nl), t);
      assert SmoothedBy(ws(nl), smooth[k], t, ntp, k);
    }
  }
}
