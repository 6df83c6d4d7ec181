/** The reduction of the 2 nn stream eigenvalue problem to half its size, and the lift back. */
module EigenTheory {
  import opened RealArithmetic
  import opened LinearAlgebra

  /** up and down are the upward and downward halves of an eigenvector of the full problem, with eigenvalue k. */
  ghost predicate FullPair(alpha: Mat, beta: Mat, up: Vec, down: Vec, k: real, n: int) {
    forall i :: 1 <= i <= n ==> FullRow(alpha, beta, up, down, k, n, i)
  }

  ghost predicate FullRow(alpha: Mat, beta: Mat, up: Vec, down: Vec, k: real, n: int, i: int) {
    && Apply(alpha, i, up, n) + Apply(beta, i, down, n) == k * up(i)
    && Apply(alpha, i, down, n) + Apply(beta, i, up, n) == -(k * down(i))
  }

  /** v is an eigenvector of the product of apb and amb. */
  ghost predicate ReducedPair(apb: Mat, amb: Mat, v: Vec, lambda: real, n: int) {
    forall i :: 1 <= i <= n ==> Dot(LeftProduct(Row(apb, i), amb, 1, n + 1), v, 1, n + 1) == lambda * v(i)
  }

  ghost predicate SumAndDifference(alpha: Mat, beta: Mat, apb: Mat, amb: Mat, n: int) {
    forall i, j :: 1 <= i <= n && 1 <= j <= n ==>
      apb(i, j) == alpha(i, j) + beta(i, j) && amb(i, j) == alpha(i, j) - beta(i, j)
  }

  /** The sum of the halves, from their difference v. */
  ghost function SumOfHalves(amb: Mat, v: Vec, k: real, n: int): Vec
    requires k != 0.0
  {
    i => Apply(amb, i, v, n) / k
  }

  ghost function UpHalf(s: Vec, v: Vec): Vec { i => 0.5 * (s(i) + v(i)) }

  ghost function DownHalf(s: Vec, v: Vec): Vec { i => 0.5 * (s(i) - v(i)) }

  lemma MixedTerm(a: real, b: real, s: real, v: real, g: real, h: real, p: real, m: real)
    requires g == 0.5 * (s + v) && h == 0.5 * (s - v) && p == a + b && m == a - b
    ensures a * g + b * h == 0.5 * (p * s + m * v) && a * h + b * g == 0.5 * (p * s - m * v)
  {
    assert a * g == 0.5 * (a * s + a * v) && b * h == 0.5 * (b * s - b * v);
    assert a * h == 0.5 * (a * s - a * v) && b * g == 0.5 * (b * s + b * v);
  }

  lemma {:induction false} MixedSums(a: Vec, b: Vec, p: Vec, m: Vec, s: Vec, v: Vec, n: int)
    requires forall j :: 1 <= j <= n ==> p(j) == a(j) + b(j) && m(j) == a(j) - b(j)
    ensures Dot(a, UpHalf(s, v), 1, n + 1) + Dot(b, DownHalf(s, v), 1, n + 1)
      == 0.5 * (Dot(p, s, 1, n + 1) + Dot(m, v, 1, n + 1))
    ensures Dot(a, DownHalf(s, v), 1, n + 1) + Dot(b, UpHalf(s, v), 1, n + 1)
      == 0.5 * (Dot(p, s, 1, n + 1) - Dot(m, v, 1, n + 1))
    decreases n
  {
    if n >= 1 {
      MixedSums(a, b, p, m, s, v, n - 1);
      MixedTerm(a(n), b(n), s(n), v(n), UpHalf(s, v)(n), DownHalf(s, v)(n), p(n), m(n));
    }
  }

  /** Applied to the sum of the halves, the sum matrix gives k times their difference. */
  lemma SumApplied(apb: Mat, amb: Mat, v: Vec, lambda: real, k: real, n: int, i: int)
    requires ReducedPair(apb, amb, v, lambda, n) && 1 <= i <= n && k != 0.0 && k * k == lambda
    ensures Apply(apb, i, SumOfHalves(amb, v, k, n), n) == k * v(i)
  {
    hide Dot;
    var s, w, r := SumOfHalves(amb, v, k, n), RightProduct(amb, v, 1, n + 1), Row(apb, i);
    SumExchange(r, amb, v, 1, n + 1, 1, n + 1);
    var zero: Vec := j => 0.0;
    forall j | 1 <= j < n + 1 ensures w(j) == zero(j) + k * s(j) { QuotientTerm(w(j), k, s(j)); }
    DotCommutes(r, w, 1, n + 1);
    DotLinear(w, zero, s, k, r, 1, n + 1);
    DotZero(zero, r, 1, n + 1);
    DotCommutes(r, s, 1, n + 1);
    EqualEigenTerm(k, lambda, Dot(r, s, 1, n + 1), v(i));
  }

  lemma QuotientTerm(w: real, k: real, s: real)
    requires k != 0.0 && s == w / k
    ensures k * s == w
  {
  }

  lemma EqualEigenTerm(k: real, lambda: real, x: real, v: real)
    requires k != 0.0 && k * k == lambda && k * x == lambda * v
    ensures x == k * v
  {
    assert lambda * v == k * (k * v);
    assert k * (x - k * v) == 0.0;
    ZeroFactor(k, x - k * v);
  }

  /** Either root of the reduced eigenvalue lifts to an eigenpair of the full problem. */
  lemma LiftPair(alpha: Mat, beta: Mat, apb: Mat, amb: Mat, v: Vec, lambda: real, k: real, n: int)
    requires SumAndDifference(alpha, beta, apb, amb, n) && ReducedPair(apb, amb, v, lambda, n)
    requires k != 0.0 && k * k == lambda
    ensures var s := SumOfHalves(amb, v, k, n); FullPair(alpha, beta, UpHalf(s, v), DownHalf(s, v), k, n)
  {
    hide Dot, ReducedPair;
    var s := SumOfHalves(amb, v, k, n);
    forall i | 1 <= i <= n ensures FullRow(alpha, beta, UpHalf(s, v), DownHalf(s, v), k, n, i) {
      MixedSums(Row(alpha, i), Row(beta, i), Row(apb, i), Row(amb, i), s, v, n);
      SumApplied(apb, amb, v, lambda, k, n, i);
      QuotientTerm(Apply(amb, i, v, n), k, s(i));
      LiftedRow(k, s(i), v(i), UpHalf(s, v)(i), DownHalf(s, v)(i));
    }
  }

  lemma LiftedRow(k: real, s: real, v: real, g: real, h: real)
    requires g == 0.5 * (s + v) && h == 0.5 * (s - v)
    ensures 0.5 * (k * v + k * s) == k * g && 0.5 * (k * v - k * s) == -(k * h)
  {
  }
}
