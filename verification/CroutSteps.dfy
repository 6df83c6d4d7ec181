/** One column of the in-place LU factorization with row exchanges, as a transformation of matrices. */
module CroutSteps {
  import opened LinearAlgebra
  import opened Elimination
  import opened Triangular
  import opened CroutTheory

  /** The value that replaces a zero pivot. */
  const TINY: real := 0.00000000000000000001

  ghost function Put(t: Mat, r: int, c: int, v: real): Mat { (i, k) => if i == r && k == c then v else t(i, k) }

  ghost function SwapRows(t: Mat, j: int, l: int): Mat { (i, c) => t(Swap(j, l, i), c) }

  /** Entry (i, j) before any division by the pivot: what is left of the target after the inner products. */
  ghost predicate ResidualRow(t: Mat, goal: Mat, i: int, j: int) {
    t(i, j) + Dot(Row(t, i), Col(t, j), 1, Min(i, j)) == goal(i, j)
  }

  ghost predicate Residual(t: Mat, goal: Mat, n: int, j: int) {
    forall i :: 1 <= i <= n ==> ResidualRow(t, goal, i, j)
  }

  /** The columns from j on have not been touched yet. */
  ghost predicate Untouched(t: Mat, goal: Mat, n: int, j: int) {
    forall i, c :: 1 <= i <= n && j <= c <= n ==> t(i, c) == goal(i, c)
  }

  /** The factored columns depend on nothing else. */
  lemma FactoredKept(t: Mat, t': Mat, goal: Mat, goal': Mat, n: int, j: int)
    requires Factored(t, goal, n, j)
    requires forall i, c :: 1 <= i <= n && 1 <= c <= j ==> t'(i, c) == t(i, c) && goal'(i, c) == goal(i, c)
    ensures Factored(t', goal', n, j)
  {
    hide Dot;
    forall i, c | 1 <= i <= n && 1 <= c <= j ensures ProductAt(t', i, c) == goal'(i, c) {
      ProductKept(t, t', i, c);
      if i > c { assert t'(c, c) == t(c, c); }
      assert ProductAt(t, i, c) == goal(i, c);
    }
  }

  lemma ProductKept(t: Mat, t': Mat, i: int, c: int)
    requires forall k :: 1 <= k < Min(i, c) ==> t'(i, k) == t(i, k) && t'(k, c) == t(k, c)
    ensures Dot(Row(t', i), Col(t', c), 1, Min(i, c)) == Dot(Row(t, i), Col(t, c), 1, Min(i, c))
  {
    DotCongruence(Row(t', i), Col(t', c), Row(t, i), Col(t, c), 1, Min(i, c));
  }

  /** Writing row r of column j keeps the rows above it done. */
  lemma ResidualKept(t: Mat, goal: Mat, r: int, j: int, v: real, i: int)
    requires 1 <= i < r && ResidualRow(t, goal, i, j)
    ensures ResidualRow(Put(t, r, j, v), goal, i, j)
  {
    hide Dot;
    ProductKept(t, Put(t, r, j, v), i, j);
  }

  lemma ResidualWritten(t: Mat, goal: Mat, r: int, j: int, v: real)
    requires v == goal(r, j) - Dot(Row(t, r), Col(t, j), 1, Min(r, j))
    ensures ResidualRow(Put(t, r, j, v), goal, r, j)
  {
    hide Dot;
    ProductKept(t, Put(t, r, j, v), r, j);
  }

  /** The inner product of rows and columns, after rows j and l have been exchanged. */
  lemma SwappedProduct(t: Mat, j: int, l: int, i: int, c: int)
    requires 1 <= j <= l && 1 <= i && 1 <= c <= j && (c == j ==> i != j)
    ensures var i' := Swap(j, l, i);
      Dot(Row(SwapRows(t, j, l), i), Col(SwapRows(t, j, l), c), 1, Min(i, c))
        == Dot(Row(t, i'), Col(t, c), 1, Min(i', c))
  {
    var t', i' := SwapRows(t, j, l), Swap(j, l, i);
    assert Min(i, c) == Min(i', c);
    forall k | 1 <= k < Min(i, c) ensures Col(t', c)(k) == Col(t, c)(k) { assert t'(k, c) == t(Swap(j, l, k), c); }
    DotCongruence(Row(t', i), Col(t', c), Row(t, i'), Col(t, c), 1, Min(i, c));
  }

  lemma SwappedPivotProduct(t: Mat, j: int, l: int)
    requires 1 <= j <= l
    ensures Dot(Row(SwapRows(t, j, l), j), Col(SwapRows(t, j, l), j), 1, j) == Dot(Row(t, l), Col(t, j), 1, j)
  {
    var t' := SwapRows(t, j, l);
    forall k | 1 <= k < j ensures Col(t', j)(k) == Col(t, j)(k) && Row(t', j)(k) == Row(t, l)(k) {
      assert t'(k, j) == t(Swap(j, l, k), j) && t'(j, k) == t(Swap(j, l, j), k);
    }
    DotCongruence(Row(t', j), Col(t', j), Row(t, l), Col(t, j), 1, j);
  }

  lemma SwapKeepsFactored(t: Mat, goal: Mat, n: int, j: int, l: int)
    requires 1 <= j <= l <= n && Factored(t, goal, n, j - 1)
    ensures Factored(SwapRows(t, j, l), SwapRows(goal, j, l), n, j - 1)
  {
    hide Dot;
    var t', goal' := SwapRows(t, j, l), SwapRows(goal, j, l);
    forall i, c | 1 <= i <= n && 1 <= c <= j - 1 ensures ProductAt(t', i, c) == goal'(i, c) {
      var i' := Swap(j, l, i);
      SwappedProduct(t, j, l, i, c);
      assert ProductAt(t, i', c) == goal(i', c);
      assert t'(c, c) == t(Swap(j, l, c), c);
    }
  }

  lemma SwapKeepsResidual(t: Mat, goal: Mat, n: int, j: int, l: int)
    requires 1 <= j <= l <= n && Residual(t, goal, n, j)
    ensures Residual(SwapRows(t, j, l), SwapRows(goal, j, l), n, j)
  {
    hide Dot;
    forall i | 1 <= i <= n ensures ResidualRow(SwapRows(t, j, l), SwapRows(goal, j, l), i, j) {
      assert ResidualRow(t, goal, Swap(j, l, i), j);
      if i == j { SwappedPivotProduct(t, j, l); } else { SwappedProduct(t, j, l, i, j); }
    }
  }

  /** Replacing a zero pivot by v moves the target by v, in that entry alone. */
  lemma BumpKeepsResidual(t: Mat, goal: Mat, n: int, j: int, v: real)
    requires 1 <= j <= n && Residual(t, goal, n, j) && t(j, j) == 0.0
    ensures Residual(Put(t, j, j, v), Put(goal, j, j, goal(j, j) + v), n, j)
  {
    hide Dot;
    var t', goal' := Put(t, j, j, v), Put(goal, j, j, goal(j, j) + v);
    forall i | 1 <= i <= n ensures ResidualRow(t', goal', i, j) {
      assert ResidualRow(t, goal, i, j);
      ProductKept(t, t', i, j);
    }
  }

  lemma BumpKeepsFactored(t: Mat, goal: Mat, n: int, j: int, v: real)
    requires 1 <= j <= n && Factored(t, goal, n, j - 1)
    ensures Factored(Put(t, j, j, v), Put(goal, j, j, goal(j, j) + v), n, j - 1)
  {
    FactoredKept(t, Put(t, j, j, v), goal, Put(goal, j, j, goal(j, j) + v), n, j - 1);
  }

  ghost function ScaleBelow(t: Mat, j: int): Mat
    requires t(j, j) != 0.0
  {
    (i, c) => if c == j && i > j then t(i, c) * (1.0 / t(j, j)) else t(i, c)
  }

  /** Dividing by the pivot turns the residual column into a factored one. */
  lemma ScaleFactors(t: Mat, goal: Mat, n: int, j: int)
    requires 1 <= j <= n && Factored(t, goal, n, j - 1) && Residual(t, goal, n, j) && t(j, j) != 0.0
    ensures Factored(ScaleBelow(t, j), goal, n, j)
  {
    hide Dot;
    var t' := ScaleBelow(t, j);
    FactoredKept(t, t', goal, goal, n, j - 1);
    forall i | 1 <= i <= n ensures ProductAt(t', i, j) == goal(i, j) {
      assert ResidualRow(t, goal, i, j);
      ProductKept(t, t', i, j);
      if i > j { Undivided(t(i, j), t(j, j)); }
    }
    assert forall i, c :: 1 <= i <= n && 1 <= c <= j - 1 ==> ProductAt(t', i, c) == goal(i, c);
  }

  lemma Undivided(x: real, p: real)
    requires p != 0.0
    ensures (x * (1.0 / p)) * p == x
  {
    assert (x * (1.0 / p)) * p == x * ((1.0 / p) * p);
  }

  /** A residual column with nothing on or below the diagonal belongs to a singular matrix. */
  lemma EmptyResidualIsSingular(t: Mat, goal: Mat, n: int, j: int)
    requires 1 <= j <= n && Factored(t, goal, n, j - 1) && NonzeroDiagonal(t, j - 1)
    requires Residual(t, goal, n, j) && forall i :: j <= i <= n ==> t(i, j) == 0.0
    ensures !Nonsingular(goal, n)
  {
    hide Dot, Nonsingular;
    forall i | 1 <= i <= n ensures ProductAt(t, i, j) == goal(i, j) { assert ResidualRow(t, goal, i, j); }
    assert Factored(t, goal, n, j) by {
      assert forall i, c :: 1 <= i <= n && 1 <= c <= j - 1 ==> ProductAt(t, i, c) == goal(i, c);
    }
    EmptyColumnIsSingular(t, goal, n, j);
  }

  lemma NonsingularCongruence(a: Mat, b: Mat, n: int)
    requires forall i, c :: 1 <= i <= n && 1 <= c <= n ==> a(i, c) == b(i, c)
    ensures Nonsingular(a, n) <==> Nonsingular(b, n)
  {
    hide Dot, IsZero;
    forall x: Vec ensures InKernel(a, x, n) <==> InKernel(b, x, n) {
      forall i | 1 <= i <= n ensures Apply(a, i, x, n) == Apply(b, i, x, n) {
        DotCongruence(Row(a, i), x, Row(b, i), x, 1, n + 1);
      }
    }
  }

  /** A matrix that is the product of a unit lower triangle and an upper one with nonzero diagonal is nonsingular. */
  lemma FactoredNonsingular(t: Mat, a: Mat, n: int)
    requires 0 <= n && Factored(t, a, n, n) && NonzeroDiagonal(t, n)
    ensures Nonsingular(a, n)
  {
    hide Factored, NonzeroDiagonal, Upper, Dot;
    forall x: Vec | InKernel(a, x, n) ensures IsZero(x, n) {
      var y := RightProduct(Upper(t, n), x, 1, n + 1);
      forall k | 1 <= k <= n ensures Apply(Upper(t, n), k, x, n) == 0.0 { UnitLowerTrivial(t, a, n, x, y, k); }
      forall j | 1 <= j <= n ensures x(j) == 0.0 { UpperKernelTrivial(t, x, n, j); }
    }
  }

  lemma {:induction false} UnitLowerTrivial(t: Mat, a: Mat, n: int, x: Vec, y: Vec, k: int)
    requires 1 <= k <= n && Factored(t, a, n, n) && InKernel(a, x, n)
    requires y == RightProduct(Upper(t, n), x, 1, n + 1)
    ensures Apply(Upper(t, n), k, x, n) == 0.0
  {
    hide Factored, Upper, Dot;
    forall p | 1 <= p < k ensures y(p) == 0.0 { UnitLowerTrivial(t, a, n, x, y, p); }
    FactoredApply(t, a, n, n, x, y, k);
    assert Apply(a, k, x, n) == 0.0;
    DotSingle(Row(UnitLower(t), k), y, k, 1, n + 1);
  }
}
