/** Powers, polynomials by their coefficients, and the bound on the number of roots. */
module Polynomials {
  import opened RealArithmetic
  import opened LinearAlgebra

  function Pow(x: real, e: nat): real { if e == 0 then 1.0 else Pow(x, e - 1) * x }

  /** The powers of x, the constant in position 1. */
  ghost function Powers(x: real): Vec { i => if i >= 1 then Pow(x, i - 1) else 0.0 }

  /** The polynomial with coefficients v(1)..v(n), lowest degree first. */
  ghost function Poly(v: Vec, n: int, x: real): real { Dot(v, Powers(x), 1, n + 1) }

  lemma {:induction false} PowSum(x: real, d: nat, e: nat)
    ensures Pow(x, d) * Pow(x, e) == Pow(x, d + e)
  {
    if e == 0 {
    } else {
      PowSum(x, d, e - 1);
      Reassociate(Pow(x, d), Pow(x, e - 1), x);
    }
  }

  lemma Reassociate(p: real, q: real, x: real)
    ensures p * (q * x) == (p * q) * x
  {
  }

  /** The coefficients from position i on, evaluated by Horner's rule. */
  ghost function Horner(v: Vec, n: int, i: int, x: real): real
    decreases n - i
  {
    if i > n then 0.0 else v(i) + x * Horner(v, n, i + 1, x)
  }

  lemma {:induction false} HornerIsSum(v: Vec, n: int, d: nat, x: real)
    requires d <= n
    ensures Dot(v, Powers(x), d + 1, n + 1) == Pow(x, d) * Horner(v, n, d + 1, x)
    decreases n - d
  {
    hide Powers;
    if d == n {
    } else {
      HornerIsSum(v, n, d + 1, x);
      HornerTerm(v, n, d, x, Pow(x, d), Pow(x, d + 1), Horner(v, n, d + 2, x));
    }
  }

  lemma HornerTerm(v: Vec, n: int, d: nat, x: real, p: real, q: real, h: real)
    requires d < n && p == Pow(x, d) && q == p * x && h == Horner(v, n, d + 2, x)
    requires Dot(v, Powers(x), d + 2, n + 1) == q * h
    ensures Dot(v, Powers(x), d + 1, n + 1) == p * Horner(v, n, d + 1, x)
  {
    hide Dot, Pow;
    DotSplit(v, Powers(x), d + 1, d + 2, n + 1);
    DotSingle(v, Powers(x), d + 1, d + 1, d + 2);
    assert p * (v(d + 1) + x * h) == v(d + 1) * p + (p * x) * h;
    assert q * h == (p * x) * h;
  }

  /** The quotient of division by x - r: its coefficients are the Horner values at r. */
  ghost function Quotient(v: Vec, n: int, r: real): Vec { i => Horner(v, n, i + 1, r) }

  lemma {:induction false} SyntheticDivision(v: Vec, n: int, i: int, r: real, x: real)
    requires i <= n + 1
    ensures Horner(v, n, i, x) - Horner(v, n, i, r) == (x - r) * Horner(Quotient(v, n, r), n - 1, i, x)
    decreases n - i
  {
    if i > n {
    } else {
      SyntheticDivision(v, n, i + 1, r, x);
      QuotientHorner(v, n, i, r, x);
      DivisionStep(v(i), x, r, Horner(v, n, i + 1, x), Horner(v, n, i + 1, r),
        Horner(Quotient(v, n, r), n - 1, i + 1, x));
      hide Quotient;
    }
  }

  lemma QuotientHorner(v: Vec, n: int, i: int, r: real, x: real)
    requires i <= n
    ensures var q := Quotient(v, n, r);
      Horner(q, n - 1, i, x) == Horner(v, n, i + 1, r) + x * Horner(q, n - 1, i + 1, x)
  {
    if i == n { assert Horner(v, n, i + 1, r) == 0.0; }
  }

  lemma DivisionStep(c: real, x: real, r: real, hx: real, hr: real, q: real)
    requires hx - hr == (x - r) * q
    ensures (c + x * hx) - (c + r * hr) == (x - r) * (hr + x * q)
  {
    assert x * (hx - hr) == x * ((x - r) * q) == (x - r) * (x * q);
  }

  ghost predicate Root(v: Vec, n: int, x: real) { Horner(v, n, 1, x) == 0.0 }

  lemma QuotientRoot(v: Vec, n: int, r: real, x: real)
    requires n > 0 && Root(v, n, r) && Root(v, n, x) && r != x
    ensures Root(Quotient(v, n, r), n - 1, x)
  {
    hide Horner;
    SyntheticDivision(v, n, 1, r, x);
    ZeroFactor(x - r, Horner(Quotient(v, n, r), n - 1, 1, x));
  }

  /** A polynomial with n coefficients that vanishes at n distinct nodes is zero. */
  lemma {:induction false} RootCount(v: Vec, n: int, node: Vec, lo: int)
    requires n >= 0 && forall k :: lo <= k < lo + n ==> Root(v, n, node(k))
    requires forall j, k :: lo <= j < k < lo + n ==> node(j) != node(k)
    ensures forall i :: 1 <= i <= n ==> v(i) == 0.0
    decreases n
  {
    if n > 0 {
      hide Horner;
      var r := node(lo);
      var q := Quotient(v, n, r);
      var n' := n - 1;
      forall k | lo + 1 <= k < lo + n ensures Root(q, n', node(k)) {
        QuotientRoot(v, n, r, node(k));
      }
      RootCount(q, n', node, lo + 1);
      assert Root(v, n, r);
      forall i | 1 <= i <= n ensures v(i) == 0.0 { CoefficientZero(v, n, r, i); }
    }
  }

  lemma CoefficientZero(v: Vec, n: int, r: real, i: int)
    requires 1 <= i <= n && Horner(v, n, 1, r) == 0.0
    requires forall i :: 1 <= i <= n - 1 ==> Quotient(v, n, r)(i) == 0.0
    ensures v(i) == 0.0
  {
    assert Horner(v, n, i, r) == v(i) + r * Horner(v, n, i + 1, r);
    assert i > 1 ==> Quotient(v, n, r)(i - 1) == Horner(v, n, i, r);
    if i < n { assert Quotient(v, n, r)(i) == Horner(v, n, i + 1, r); }
  }

  lemma {:induction false} SquaresNonnegative(u: Vec, lo: int, hi: int)
    ensures Dot(u, u, lo, hi) >= 0.0
    decreases hi - lo
  {
    if lo < hi { SquaresNonnegative(u, lo, hi - 1); }
  }

  lemma SquareAdded(s: real, x: real, y: real)
    requires s >= 0.0 && y == x * x && s + y == 0.0
    ensures s == 0.0 && x == 0.0
  {
    Square(x, y);
  }

  /** A sum of squares vanishes only if every term does. */
  lemma {:induction false} SquaresZero(u: Vec, lo: int, hi: int, k: int)
    requires lo <= k < hi && Dot(u, u, lo, hi) == 0.0
    ensures u(k) == 0.0
    decreases hi - lo
  {
    SquaresNonnegative(u, lo, hi - 1);
    SquareAdded(Dot(u, u, lo, hi - 1), u(hi - 1), u(hi - 1) * u(hi - 1));
    if k < hi - 1 { SquaresZero(u, lo, hi - 1, k); }
  }
}
