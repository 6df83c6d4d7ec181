/** What choosing the largest pivot buys: bounded multipliers and bounded growth. */
module Growth {
  import opened RealArithmetic
  import opened LinearAlgebra
  import opened Elimination
  import opened Factorization

  /** 2^k times b. */
  ghost function GrowthFactor(b: real, k: nat): real { if k == 0 then b else 2.0 * GrowthFactor(b, k - 1) }

  /** Every entry in rows 1..n, columns lo..n is at most b in magnitude. */
  ghost predicate BoundedFrom(s: Mat, n: int, lo: int, b: real) {
    forall i, j :: 1 <= i <= n && lo <= j <= n ==> Abs(s(i, j)) <= b
  }

  lemma QuotientBound(x: real, p: real)
    requires p != 0.0 && Abs(x) <= Abs(p)
    ensures Abs(x * (-1.0 / p)) <= 1.0
  {
    var q := x * (-1.0 / p);
    assert q * p == -x by { assert q * p == x * ((-1.0 / p) * p); }
    if q > 1.0 || q < -1.0 {
      if p > 0.0 { MulGrows(q, p); } else { MulGrows(q, -p); }
    }
  }

  lemma MulGrows(q: real, p: real)
    requires p > 0.0 && (q > 1.0 || q < -1.0)
    ensures Abs(q * p) > p
  {
    if q > 1.0 { assert (q - 1.0) * p > 0.0; } else { assert (-1.0 - q) * p > 0.0; }
  }

  lemma StepMultiplierBound(s: Mat, k: int, l: int, n: int, i: int)
    requires 1 <= k <= l <= n && s(l, k) != 0.0 && k < i <= n
    requires forall p :: k <= p <= n ==> Abs(s(p, k)) <= Abs(s(l, k))
    ensures Abs(Multiplier(s, k, l, i)) <= 1.0
  {
    QuotientBound(s(Swap(k, l, i), k), s(l, k));
  }

  /** Every stored multiplier has magnitude at most 1. */
  lemma MultiplierBound(a: Mat, n: int, k: nat, m: nat, i: int)
    requires 1 <= k <= m < n && k < i <= n && PivotAt(a, n, k) >= k
    ensures Abs(Stage(a, n, m)(i, k)) <= 1.0
  {
    ColumnSettled(a, n, k, m, i, k);
    PivotFound(a, n, k);
    StepMultiplierBound(Stage(a, n, k - 1), k, PivotAt(a, n, k), n, i);
  }

  lemma CombinationBound(x: real, y: real, c: real, b: real)
    requires Abs(x) <= b && Abs(y) <= b && Abs(c) <= 1.0
    ensures Abs(x + y * c) <= 2.0 * b
  {
    var p := y * c;
    if c >= 0.0 {
      NonnegativeProduct(b - y, c);
      NonnegativeProduct(b + y, c);
      NonnegativeProduct(b, 1.0 - c);
    } else {
      NonnegativeProduct(b - y, -c);
      NonnegativeProduct(b + y, -c);
      NonnegativeProduct(b, 1.0 + c);
    }
    assert -b <= p <= b;
  }

  lemma StepGrowth(s: Mat, k: int, l: int, n: int, b: real, i: int, j: int)
    requires 1 <= k <= l <= n && s(l, k) != 0.0 && BoundedFrom(s, n, k, b)
    requires forall p :: k <= p <= n ==> Abs(s(p, k)) <= Abs(s(l, k))
    requires 1 <= i <= n && k < j <= n
    ensures Abs(Eliminate(s, k, l)(i, j)) <= 2.0 * b
  {
    hide Eliminate;
    var x, y := s(Swap(k, l, i), j), s(l, j);
    assert Abs(x) <= b && Abs(y) <= b;
    var e, c := ReducedValue(s, k, l, n, i, j, x, y);
    CombinationBound(x, y, c, b);
  }

  lemma ReducedValue(s: Mat, k: int, l: int, n: int, i: int, j: int, x: real, y: real) returns (e: real, c: real)
    requires 1 <= k <= l <= n && s(l, k) != 0.0 && 1 <= i <= n && k < j
    requires forall p :: k <= p <= n ==> Abs(s(p, k)) <= Abs(s(l, k))
    requires x == s(Swap(k, l, i), j) && y == s(l, j)
    ensures Eliminate(s, k, l)(i, j) == e == x + y * c && Abs(c) <= 1.0
  {
    if i <= k {
      e, c := x, 0.0;
      assert Reduced(s, k, l)(i, j) == x by { hide Multiplier; }
    } else {
      c := Multiplier(s, k, l, i);
      e := x + y * c;
      assert Reduced(s, k, l)(i, j) == e by { hide Multiplier; }
      hide Multiplier, Reduced;
      StepMultiplierBound(s, k, l, n, i);
    }
  }

  lemma StageGrowth(a: Mat, n: int, k: nat, d: real)
    requires 1 <= k <= n && PivotAt(a, n, k) >= k && BoundedFrom(Stage(a, n, k - 1), n, k, d)
    ensures BoundedFrom(Stage(a, n, k), n, k + 1, 2.0 * d)
  {
    PivotFound(a, n, k);
    forall i, j | 1 <= i <= n && k + 1 <= j <= n ensures Abs(Stage(a, n, k)(i, j)) <= 2.0 * d {
      StepGrowth(Stage(a, n, k - 1), k, PivotAt(a, n, k), n, d, i, j);
    }
  }

  /** After k steps the columns still to be reduced have grown at most 2^k-fold. */
  lemma {:induction false} GrowthBound(a: Mat, n: int, k: nat, b: real)
    requires k <= n && Regular(a, n, k) && BoundedFrom(a, n, 1, b)
    ensures BoundedFrom(Stage(a, n, k), n, k + 1, GrowthFactor(b, k))
  {
    if k > 0 {
      GrowthBound(a, n, k - 1, b);
      StageGrowth(a, n, k, GrowthFactor(b, k - 1));
    }
  }
}
