/** Vectors, matrices and finite sums over exact reals, indexed from 1 as in the LINPACK index macros. */
module LinearAlgebra {
  import opened RealArithmetic

  function Min(x: int, y: int): int { if x <= y then x else y }

  function Max(x: int, y: int): int { if x >= y then x else y }

  type Vec = int -> real
  type Mat = (int, int) -> real

  ghost function Row(a: Mat, i: int): Vec { j => a(i, j) }

  ghost function Col(a: Mat, j: int): Vec { i => a(i, j) }

  /** The sum of u(j) * v(j) for lo <= j < hi. */
  ghost function Dot(u: Vec, v: Vec, lo: int, hi: int): real
    decreases hi - lo
  {
    if hi <= lo then 0.0 else Dot(u, v, lo, hi - 1) + u(hi - 1) * v(hi - 1)
  }

  /** Row i of a applied to x, over columns 1..n. */
  ghost function Apply(a: Mat, i: int, x: Vec, n: int): real { Dot(Row(a, i), x, 1, n + 1) }

  ghost predicate Solves(a: Mat, x: Vec, y: Vec, n: int) {
    forall i :: 1 <= i <= n ==> Apply(a, i, x, n) == y(i)
  }

  /** x solves the transposed system: column j of a applied to x is y(j). */
  ghost predicate SolvesTransposed(a: Mat, x: Vec, y: Vec, n: int) {
    forall j :: 1 <= j <= n ==> Dot(x, Col(a, j), 1, n + 1) == y(j)
  }

  ghost predicate IsZero(x: Vec, n: int) { forall j :: 1 <= j <= n ==> x(j) == 0.0 }

  ghost predicate InKernel(a: Mat, x: Vec, n: int) {
    forall i :: 1 <= i <= n ==> Apply(a, i, x, n) == 0.0
  }

  ghost predicate Nonsingular(a: Mat, n: int) {
    forall x: Vec :: InKernel(a, x, n) ==> IsZero(x, n)
  }

  lemma {:induction false} DotCongruence(u: Vec, v: Vec, u': Vec, v': Vec, lo: int, hi: int)
    requires forall j :: lo <= j < hi ==> u(j) == u'(j) && v(j) == v'(j)
    ensures Dot(u, v, lo, hi) == Dot(u', v', lo, hi)
    decreases hi - lo
  {
    if lo < hi { DotCongruence(u, v, u', v', lo, hi - 1); }
  }

  lemma {:induction false} DotZero(u: Vec, v: Vec, lo: int, hi: int)
    requires forall j :: lo <= j < hi ==> u(j) == 0.0 || v(j) == 0.0
    ensures Dot(u, v, lo, hi) == 0.0
    decreases hi - lo
  {
    if lo < hi { DotZero(u, v, lo, hi - 1); }
  }

  lemma {:induction false} DotCommutes(u: Vec, v: Vec, lo: int, hi: int)
    ensures Dot(u, v, lo, hi) == Dot(v, u, lo, hi)
    decreases hi - lo
  {
    if lo < hi { DotCommutes(u, v, lo, hi - 1); }
  }

  lemma {:induction false} DotSplit(u: Vec, v: Vec, lo: int, mid: int, hi: int)
    requires lo <= mid <= hi
    ensures Dot(u, v, lo, hi) == Dot(u, v, lo, mid) + Dot(u, v, mid, hi)
    decreases hi - mid
  {
    if mid < hi { DotSplit(u, v, lo, mid, hi - 1); }
  }

  lemma {:induction false} DotLinear(u: Vec, v: Vec, w: Vec, c: real, x: Vec, lo: int, hi: int)
    requires forall j :: lo <= j < hi ==> u(j) == v(j) + c * w(j)
    ensures Dot(u, x, lo, hi) == Dot(v, x, lo, hi) + c * Dot(w, x, lo, hi)
    decreases hi - lo
  {
    if lo < hi {
      DotLinear(u, v, w, c, x, lo, hi - 1);
      assert u(hi - 1) * x(hi - 1) == v(hi - 1) * x(hi - 1) + c * (w(hi - 1) * x(hi - 1));
    }
  }

  /** A sum concentrated on one index. */
  lemma DotSingle(u: Vec, v: Vec, k: int, lo: int, hi: int)
    requires lo <= k < hi
    requires forall j :: lo <= j < hi && j != k ==> u(j) == 0.0 || v(j) == 0.0
    ensures Dot(u, v, lo, hi) == u(k) * v(k)
  {
    DotSplit(u, v, lo, k, hi);
    DotSplit(u, v, k, k + 1, hi);
    DotZero(u, v, lo, k);
    DotZero(u, v, k + 1, hi);
    assert Dot(u, v, k, k) == 0.0;
  }

  /** The transposition of k and l. */
  function Swap(k: int, l: int, i: int): int { if i == k then l else if i == l then k else i }

  /** Exchanging positions k and l of both factors leaves the sum unchanged. */
  lemma DotSwapped(u: Vec, v: Vec, u': Vec, v': Vec, k: int, l: int, lo: int, hi: int)
    requires lo <= k <= l < hi
    requires u'(k) == u(l) && v'(k) == v(l) && u'(l) == u(k) && v'(l) == v(k)
    requires forall i :: lo <= i < hi && i != k && i != l ==> u'(i) == u(i) && v'(i) == v(i)
    ensures Dot(u', v', lo, hi) == Dot(u, v, lo, hi)
  {
    assert Dot(u', v', lo, k) == Dot(u, v, lo, k) by { DotCongruence(u, v, u', v', lo, k); }
    assert Dot(u', v', l + 1, hi) == Dot(u, v, l + 1, hi) by { DotCongruence(u, v, u', v', l + 1, hi); }
    if k < l {
      assert Dot(u', v', k + 1, l) == Dot(u, v, k + 1, l) by { DotCongruence(u, v, u', v', k + 1, l); }
      var p, q := u(k) * v(k), u(l) * v(l);
      assert u'(k) * v'(k) == q && u'(l) * v'(l) == p;
      SplitAroundTwo(u, v, k, l, lo, hi);
      SplitAroundTwo(u', v', k, l, lo, hi);
    } else {
      DotCongruence(u, v, u', v', lo, hi);
    }
  }

  lemma SplitAroundTwo(u: Vec, v: Vec, k: int, l: int, lo: int, hi: int)
    requires lo <= k < l < hi
    ensures Dot(u, v, lo, hi) ==
      Dot(u, v, lo, k) + u(k) * v(k) + Dot(u, v, k + 1, l) + u(l) * v(l) + Dot(u, v, l + 1, hi)
  {
    hide Dot;
    DotSplit(u, v, lo, k + 1, hi);
    DotSplit(u, v, k + 1, l + 1, hi);
    LastTerm(u, v, lo, k);
    LastTerm(u, v, k + 1, l);
  }

  lemma LastTerm(u: Vec, v: Vec, lo: int, q: int)
    requires lo <= q
    ensures Dot(u, v, lo, q + 1) == Dot(u, v, lo, q) + u(q) * v(q)
  {
  }

  /** One more term of the sum. */
  lemma NextTerm(u: Vec, v: Vec, lo: int, q: int, x: real, y: real, term: real)
    requires lo <= q && x == u(q) && y == v(q) && term == x * y
    ensures Dot(u, v, lo, q) + term == Dot(u, v, lo, q + 1)
  {
  }

  lemma {:induction false} DotNegated(u: Vec, u': Vec, v: Vec, lo: int, hi: int)
    requires forall j :: lo <= j < hi ==> u'(j) == -u(j)
    ensures Dot(u', v, lo, hi) == -Dot(u, v, lo, hi)
    decreases hi - lo
  {
    if lo < hi {
      DotNegated(u, u', v, lo, hi - 1);
      assert u'(hi - 1) * v(hi - 1) == -(u(hi - 1) * v(hi - 1));
    }
  }

  /** The sums of w(k) * m(k, q) over k, as q varies. */
  ghost function LeftProduct(w: Vec, m: Mat, lo: int, hi: int): Vec { q => Dot(w, Col(m, q), lo, hi) }

  /** The sums of m(k, q) * c(q) over q, as k varies. */
  ghost function RightProduct(m: Mat, c: Vec, lo: int, hi: int): Vec { k => Dot(Row(m, k), c, lo, hi) }

  /** A double sum may be taken in either order. */
  lemma {:induction false} SumExchange(w: Vec, m: Mat, c: Vec, lo: int, hi: int, lo': int, hi': int)
    ensures Dot(LeftProduct(w, m, lo, hi), c, lo', hi') == Dot(w, RightProduct(m, c, lo', hi'), lo, hi)
    decreases hi' - lo'
  {
    if hi' <= lo' {
      DotZero(w, RightProduct(m, c, lo', hi'), lo, hi);
    } else {
      SumExchange(w, m, c, lo, hi, lo', hi' - 1);
      SumExchangeStep(w, m, c, lo, hi, lo', hi' - 1);
    }
  }

  lemma SumExchangeStep(w: Vec, m: Mat, c: Vec, lo: int, hi: int, lo': int, q: int)
    requires lo' <= q && Dot(LeftProduct(w, m, lo, hi), c, lo', q) == Dot(w, RightProduct(m, c, lo', q), lo, hi)
    ensures Dot(LeftProduct(w, m, lo, hi), c, lo', q + 1) == Dot(w, RightProduct(m, c, lo', q + 1), lo, hi)
  {
    hide Dot;
    var r, r' := RightProduct(m, c, lo', q), RightProduct(m, c, lo', q + 1);
    forall k | lo <= k < hi ensures r'(k) == r(k) + c(q) * Col(m, q)(k) { LastTerm(Row(m, k), c, lo', q); }
    DotLinear(r', r, Col(m, q), c(q), w, lo, hi);
    DotCommutes(r', w, lo, hi);
    DotCommutes(r, w, lo, hi);
    DotCommutes(Col(m, q), w, lo, hi);
    LastTerm(LeftProduct(w, m, lo, hi), c, lo', q);
    SameProduct(LeftProduct(w, m, lo, hi)(q), Dot(Col(m, q), w, lo, hi), c(q), c(q));
  }
}
