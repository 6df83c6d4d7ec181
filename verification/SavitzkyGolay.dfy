/** Least-squares polynomial smoothing: the normal equations, why they are solvable, and what their solution filters. */
module SavitzkyGolay {
  import opened LinearAlgebra
  import opened Polynomials

  /** Row k holds the powers of the sample position k. */
  ghost function Vandermonde(): Mat { (k, i) => if i >= 1 then Pow(k as real, i - 1) else 0.0 }

  /** The values at the sample positions of the polynomial with coefficients v. */
  ghost function Samples(v: Vec, n: int): Vec { RightProduct(Vandermonde(), v, 1, n + 1) }

  ghost function Ones(): Vec { k => 1.0 }

  /** The sum of k to the power e over the window -nl..nr. */
  ghost function PowerSum(nl: int, nr: int, e: nat): real { Dot(Col(Vandermonde(), e + 1), Ones(), -nl, nr + 1) }

  /** The normal matrix of the fit: inner products of the power columns over the window. */
  ghost function NormalMatrix(nl: int, nr: int): Mat {
    (i, j) => Dot(Col(Vandermonde(), i), Col(Vandermonde(), j), -nl, nr + 1)
  }

  lemma {:induction false} NormalEntry(i: int, j: int, lo: int, hi: int)
    requires i >= 1 && j >= 1
    ensures var v := Vandermonde(); Dot(Col(v, i), Col(v, j), lo, hi) == Dot(Col(v, i + j - 1), Ones(), lo, hi)
    decreases hi - lo
  {
    if lo < hi {
      NormalEntry(i, j, lo, hi - 1);
      PowSum((hi - 1) as real, i - 1, j - 1);
      hide Pow;
    }
  }

  lemma SamplesAreValues(v: Vec, n: int, k: int)
    ensures Samples(v, n)(k) == Poly(v, n, k as real)
  {
    DotCommutes(v, Powers(k as real), 1, n + 1);
    DotCongruence(Powers(k as real), v, Row(Vandermonde(), k), v, 1, n + 1);
  }

  /** A row of the normal matrix takes coefficients to a moment of their polynomial. */
  lemma NormalApply(nl: int, nr: int, n: int, v: Vec, i: int)
    ensures Apply(NormalMatrix(nl, nr), i, v, n) == Dot(Col(Vandermonde(), i), Samples(v, n), -nl, nr + 1)
  {
    hide Dot, Vandermonde;
    var m, c := Vandermonde(), Col(Vandermonde(), i);
    SumExchange(c, m, v, -nl, nr + 1, 1, n + 1);
    DotCongruence(Row(NormalMatrix(nl, nr), i), v, LeftProduct(c, m, -nl, nr + 1), v, 1, n + 1);
  }

  /** Inner products with a polynomial's samples, moment by moment. */
  lemma SamplesProduct(u: Vec, v: Vec, n: int, lo: int, hi: int)
    ensures Dot(u, Samples(v, n), lo, hi) == Dot(LeftProduct(u, Vandermonde(), lo, hi), v, 1, n + 1)
  {
    SumExchange(u, Vandermonde(), v, lo, hi, 1, n + 1);
  }

  /** With at least as many samples as coefficients, the normal equations are nonsingular. */
  lemma NormalNonsingular(nl: int, nr: int, n: int)
    requires 0 <= nl && 0 <= nr && 1 <= n <= nl + nr + 1
    ensures Nonsingular(NormalMatrix(nl, nr), n)
  {
    hide NormalMatrix, Apply;
    forall v: Vec | InKernel(NormalMatrix(nl, nr), v, n) ensures IsZero(v, n) {
      KernelSquares(nl, nr, n, v);
      var node: Vec := k => k as real;
      forall k | -nl <= k < -nl + n ensures Root(v, n, node(k)) {
        SquaresZero(Samples(v, n), -nl, nr + 1, k);
        SampleRoot(v, n, k);
      }
      RootCount(v, n, node, -nl);
    }
  }

  lemma SampleRoot(v: Vec, n: int, k: int)
    requires n >= 1 && Samples(v, n)(k) == 0.0
    ensures Root(v, n, k as real)
  {
    hide Dot, Horner;
    SamplesAreValues(v, n, k);
    HornerIsSum(v, n, 0, k as real);
  }

  lemma KernelSquares(nl: int, nr: int, n: int, v: Vec)
    requires InKernel(NormalMatrix(nl, nr), v, n)
    ensures Dot(Samples(v, n), Samples(v, n), -nl, nr + 1) == 0.0
  {
    hide Dot, Vandermonde, NormalMatrix;
    var p := Samples(v, n);
    SamplesProduct(p, v, n, -nl, nr + 1);
    var moments := LeftProduct(p, Vandermonde(), -nl, nr + 1);
    forall i | 1 <= i <= n ensures moments(i) == 0.0 {
      NormalApply(nl, nr, n, v, i);
      DotCommutes(p, Col(Vandermonde(), i), -nl, nr + 1);
      assert Apply(NormalMatrix(nl, nr), i, v, n) == 0.0;
    }
    DotZero(moments, v, 1, n + 1);
  }

  /** Coefficients a fit the data f: the residual is orthogonal to every power. */
  ghost predicate Fits(a: Vec, f: Vec, nl: int, nr: int, n: int) {
    Solves(NormalMatrix(nl, nr), a, LeftProduct(f, Vandermonde(), -nl, nr + 1), n)
  }

  ghost function Unit(p: int): Vec { i => if i == p then 1.0 else 0.0 }

  lemma UnitPicks(a: Vec, p: int, n: int)
    requires 1 <= p <= n
    ensures Dot(Unit(p), a, 1, n + 1) == a(p)
  {
    DotSingle(Unit(p), a, p, 1, n + 1);
  }

  /** The moment conditions of the filter whose weights are the samples of the solution for a unit vector. */
  lemma MomentConditions(b: Vec, nl: int, nr: int, n: int, p: int, i: int)
    requires Solves(NormalMatrix(nl, nr), b, Unit(p), n) && 1 <= i <= n
    ensures Dot(Col(Vandermonde(), i), Samples(b, n), -nl, nr + 1) == if i == p then 1.0 else 0.0
  {
    hide Dot, NormalMatrix, Vandermonde, Samples;
    NormalApply(nl, nr, n, b, i);
    assert Apply(NormalMatrix(nl, nr), i, b, n) == Unit(p)(i);
  }

  /** On any data, the filter computes the coefficient of the fitted polynomial. */
  lemma FilterIsFittedCoefficient(b: Vec, a: Vec, f: Vec, nl: int, nr: int, n: int, p: int)
    requires 1 <= p <= n && Solves(NormalMatrix(nl, nr), b, Unit(p), n) && Fits(a, f, nl, nr, n)
    ensures Dot(Samples(b, n), f, -nl, nr + 1) == a(p)
  {
    hide Dot, NormalMatrix, Vandermonde, Samples;
    var w, q, m := Samples(b, n), Samples(a, n), Vandermonde();
    var fm, qm, wm := LeftProduct(f, m, -nl, nr + 1), LeftProduct(q, m, -nl, nr + 1), LeftProduct(w, m, -nl, nr + 1);
    DotCommutes(w, f, -nl, nr + 1);
    SamplesProduct(f, b, n, -nl, nr + 1);
    forall i | 1 <= i < n + 1 ensures fm(i) == qm(i) && wm(i) == Unit(p)(i) {
      FitMoment(a, f, nl, nr, n, i);
      WeightMoment(b, nl, nr, n, p, i);
    }
    DotCongruence(fm, b, qm, b, 1, n + 1);
    SamplesProduct(q, b, n, -nl, nr + 1);
    DotCommutes(q, w, -nl, nr + 1);
    SamplesProduct(w, a, n, -nl, nr + 1);
    DotCongruence(wm, a, Unit(p), a, 1, n + 1);
    UnitPicks(a, p, n);
  }

  lemma FitMoment(a: Vec, f: Vec, nl: int, nr: int, n: int, i: int)
    requires Fits(a, f, nl, nr, n) && 1 <= i <= n
    ensures var m := Vandermonde();
      LeftProduct(f, m, -nl, nr + 1)(i) == LeftProduct(Samples(a, n), m, -nl, nr + 1)(i)
  {
    hide Dot, NormalMatrix, Vandermonde, Samples;
    NormalApply(nl, nr, n, a, i);
    DotCommutes(Samples(a, n), Col(Vandermonde(), i), -nl, nr + 1);
    assert Apply(NormalMatrix(nl, nr), i, a, n) == LeftProduct(f, Vandermonde(), -nl, nr + 1)(i);
  }

  lemma WeightMoment(b: Vec, nl: int, nr: int, n: int, p: int, i: int)
    requires Solves(NormalMatrix(nl, nr), b, Unit(p), n) && 1 <= i <= n
    ensures LeftProduct(Samples(b, n), Vandermonde(), -nl, nr + 1)(i) == Unit(p)(i)
  {
    hide Dot, NormalMatrix, Vandermonde, Samples;
    MomentConditions(b, nl, nr, n, p, i);
    DotCommutes(Samples(b, n), Col(Vandermonde(), i), -nl, nr + 1);
  }

  /** A polynomial fits its own samples, so the filter returns its coefficient. */
  lemma FilterReproduces(b: Vec, v: Vec, nl: int, nr: int, n: int, p: int)
    requires 1 <= p <= n && Solves(NormalMatrix(nl, nr), b, Unit(p), n)
    ensures Dot(Samples(b, n), Samples(v, n), -nl, nr + 1) == v(p)
  {
    hide Dot, NormalMatrix, Vandermonde, Samples;
    forall i | 1 <= i <= n
      ensures Apply(NormalMatrix(nl, nr), i, v, n) == LeftProduct(Samples(v, n), Vandermonde(), -nl, nr + 1)(i)
    {
      NormalApply(nl, nr, n, v, i);
      DotCommutes(Samples(v, n), Col(Vandermonde(), i), -nl, nr + 1);
    }
    FilterIsFittedCoefficient(b, v, Samples(v, n), nl, nr, n, p);
  }

  ghost function Difference(f: Vec, g: Vec): Vec { k => f(k) - g(k) }

  /** The fitted polynomial has the least sum of squared residuals. */
  lemma FitIsLeastSquares(a: Vec, c: Vec, f: Vec, nl: int, nr: int, n: int)
    requires Fits(a, f, nl, nr, n)
    ensures var r, s := Difference(f, Samples(a, n)), Difference(f, Samples(c, n));
      Dot(r, r, -nl, nr + 1) <= Dot(s, s, -nl, nr + 1)
  {
    hide Dot, Fits, Samples;
    var lo, hi, pa, pc := -nl, nr + 1, Samples(a, n), Samples(c, n);
    var r, s, q := Difference(f, pa), Difference(f, pc), Difference(pa, pc);
    ResidualOrthogonal(a, a, f, nl, nr, n);
    ResidualOrthogonal(a, c, f, nl, nr, n);
    assert forall k {:trigger q(k)} :: q(k) == pa(k) + (-1.0) * pc(k);
    DotLinear(q, pa, pc, -1.0, r, lo, hi);
    SquareOfSum(r, q, s, lo, hi);
    SquaresNonnegative(q, lo, hi);
  }

  lemma ResidualOrthogonal(a: Vec, c: Vec, f: Vec, nl: int, nr: int, n: int)
    requires Fits(a, f, nl, nr, n)
    ensures Dot(Samples(c, n), Difference(f, Samples(a, n)), -nl, nr + 1) == 0.0
  {
    hide Dot, Fits, Samples, Vandermonde;
    var lo, hi, q, m := -nl, nr + 1, Samples(a, n), Vandermonde();
    var r := Difference(f, q);
    DotCommutes(Samples(c, n), r, lo, hi);
    SamplesProduct(r, c, n, lo, hi);
    forall i | 1 <= i < n + 1 ensures LeftProduct(r, m, lo, hi)(i) == 0.0 {
      FitMoment(a, f, nl, nr, n, i);
      assert forall k {:trigger r(k)} :: r(k) == f(k) + (-1.0) * q(k);
      DotLinear(r, f, q, -1.0, Col(m, i), lo, hi);
    }
    DotZero(LeftProduct(r, m, lo, hi), c, 1, n + 1);
  }

  lemma {:induction false} SquareOfSum(r: Vec, q: Vec, s: Vec, lo: int, hi: int)
    requires forall k :: lo <= k < hi ==> s(k) == r(k) + q(k)
    ensures Dot(s, s, lo, hi) == Dot(r, r, lo, hi) + 2.0 * Dot(q, r, lo, hi) + Dot(q, q, lo, hi)
    decreases hi - lo
  {
    if lo < hi { SquareOfSum(r, q, s, lo, hi - 1); }
  }
}
