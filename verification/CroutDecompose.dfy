/** lu_decompose as a whole: every column in turn, the recorded exchanges, the sign, and the warning. */
module CroutDecompose {
  import opened LinearAlgebra
  import opened Triangular
  import opened CroutTheory
  import opened CroutSteps
  import opened DenseSolver
  import opened CroutSolver

  method ExchangeRows(a: array2<real>, n: int, j: int, l: int, ghost t: Mat)
    requires Holds(a, t, n) && 0 <= j < l < n
    modifies a
    ensures Holds(a, SwapRows(t, j + 1, l + 1), n)
  {
    for k := 0 to n
      invariant forall c :: k <= c < n ==> a[l, c] == t(l + 1, c + 1)
      invariant forall c :: k <= c < n ==> a[j, c] == t(j + 1, c + 1)
      invariant forall c :: 0 <= c < k ==> a[l, c] == t(j + 1, c + 1)
      invariant forall c :: 0 <= c < k ==> a[j, c] == t(l + 1, c + 1)
      invariant forall r, c :: 0 <= r < n && 0 <= c < n && r != l && r != j ==> a[r, c] == t(r + 1, c + 1)
    {
      var dum := a[l, k];
      a[l, k] := a[j, k];
      a[j, k] := dum;
    }
    forall r, c | 0 <= r < n && 0 <= c < n ensures a[r, c] == SwapRows(t, j + 1, l + 1)(r + 1, c + 1) {
      assert SwapRows(t, j + 1, l + 1)(r + 1, c + 1) == t(Swap(j + 1, l + 1, r + 1), c + 1);
    }
  }

  lemma DividedEntry(t: Mat, j: int, i: int, x: real, dum: real, e: real)
    requires t(j, j) != 0.0 && dum == 1.0 / t(j, j) && i > j && x == t(i, j) && e == x * dum
    ensures ScaleBelow(t, j)(i, j) == e
  {
  }

  lemma OthersUndivided(t: Mat, j: int)
    requires t(j, j) != 0.0
    ensures forall i, c :: c != j || i <= j ==> ScaleBelow(t, j)(i, c) == t(i, c)
  {
  }

  /** Column j + 1 divided by its pivot, below the diagonal; nothing is left to divide in the last column. */
  method DivideColumn(a: array2<real>, n: int, j: int, ghost t: Mat)
    requires Holds(a, t, n) && 0 <= j < n && t(j + 1, j + 1) != 0.0
    modifies a
    ensures Holds(a, ScaleBelow(t, j + 1), n)
  {
    hide ScaleBelow;
    OthersUndivided(t, j + 1);
    if j != n - 1 {
      var dum := 1.0 / a[j, j];
      for i := j + 1 to n
        invariant forall r, c :: 0 <= r < n && 0 <= c < n && (c != j || r <= j || i <= r) ==> a[r, c] == t(r + 1, c + 1)
        invariant forall r :: j < r < i ==> a[r, j] == ScaleBelow(t, j + 1)(r + 1, j + 1)
      {
        var x := a[i, j];
        a[i, j] := x * dum;
        DividedEntry(t, j + 1, i + 1, x, dum, a[i, j]);
      }
    }
  }

  /** Residual and untouched columns, from the finished column. */
  lemma ColumnFinished(t: Mat, t0: Mat, goal: Mat, n: int, j: int)
    requires 1 <= j <= n && ColumnDone(t, t0, goal, n, j, n) && Factored(t0, goal, n, j - 1)
    requires Untouched(t0, goal, n, j)
    requires NonzeroDiagonal(t0, j - 1)
    ensures Residual(t, goal, n, j) && Factored(t, goal, n, j - 1) && Untouched(t, goal, n, j + 1)
    ensures NonzeroDiagonal(t, j - 1)
  {
    FactoredKept(t0, t, goal, goal, n, j - 1);
  }

  lemma SwapKeepsRest(t: Mat, goal: Mat, n: int, j: int, l: int)
    requires 1 <= j <= l <= n && Untouched(t, goal, n, j + 1) && NonzeroDiagonal(t, j - 1)
    ensures Untouched(SwapRows(t, j, l), SwapRows(goal, j, l), n, j + 1) && NonzeroDiagonal(SwapRows(t, j, l), j - 1)
  {
    var t', goal' := SwapRows(t, j, l), SwapRows(goal, j, l);
    forall i, c | 1 <= i <= n && j + 1 <= c <= n ensures t'(i, c) == goal'(i, c) {
      assert t'(i, c) == t(Swap(j, l, i), c) && goal'(i, c) == goal(Swap(j, l, i), c);
    }
    forall k | 1 <= k <= j - 1 ensures t'(k, k) != 0.0 { assert t'(k, k) == t(Swap(j, l, k), k); }
  }

  /** What the state of the array means before column j + 1 is factored. */
  ghost predicate BetweenColumns(t: Mat, goal: Mat, n: int, j: int) {
    Factored(t, goal, n, j) && Untouched(t, goal, n, j + 1) && NonzeroDiagonal(t, j)
  }

  ghost predicate BeforeDivision(t: Mat, goal: Mat, n: int, j: int) {
    && Residual(t, goal, n, j) && Factored(t, goal, n, j - 1)
    && Untouched(t, goal, n, j + 1) && NonzeroDiagonal(t, j - 1)
  }

  lemma SwapKeepsState(t: Mat, goal: Mat, n: int, j: int, l: int)
    requires 1 <= j <= l <= n && BeforeDivision(t, goal, n, j)
    ensures BeforeDivision(SwapRows(t, j, l), SwapRows(goal, j, l), n, j)
  {
    hide Residual, Factored, Untouched, NonzeroDiagonal;
    SwapKeepsResidual(t, goal, n, j, l);
    SwapKeepsFactored(t, goal, n, j, l);
    SwapKeepsRest(t, goal, n, j, l);
  }

  lemma BumpKeepsState(t: Mat, goal: Mat, n: int, j: int)
    requires 1 <= j <= n && BeforeDivision(t, goal, n, j) && t(j, j) == 0.0
    ensures BeforeDivision(Put(t, j, j, TINY), Put(goal, j, j, goal(j, j) + TINY), n, j)
  {
    BumpKeepsResidual(t, goal, n, j, TINY);
    BumpKeepsFactored(t, goal, n, j, TINY);
    hide Residual, Factored;
  }

  lemma DivisionFinishes(t: Mat, goal: Mat, n: int, j: int)
    requires 1 <= j <= n && BeforeDivision(t, goal, n, j) && t(j, j) != 0.0
    ensures BetweenColumns(ScaleBelow(t, j), goal, n, j)
  {
    ScaleFactors(t, goal, n, j);
    hide Residual, Factored;
  }

  /** The exchange of rows j and l, when they differ: the array, the sign and the scale that moves down. */
  method Exchange(a: array2<real>, n: int, vv: array<real>, j: int, l: int, d: real, ghost t: Mat, ghost goal: Mat)
    returns (d': real)
    requires Holds(a, t, n) && 0 <= j <= l < n <= vv.Length && PositiveScales(vv, n)
    requires BeforeDivision(t, goal, n, j + 1)
    modifies a, vv
    ensures Holds(a, SwapRows(t, j + 1, l + 1), n) && PositiveScales(vv, n)
    ensures BeforeDivision(SwapRows(t, j + 1, l + 1), SwapRows(goal, j + 1, l + 1), n, j + 1)
    ensures d' == if j != l then -d else d
  {
    hide BeforeDivision;
    d' := d;
    if j != l {
      ExchangeRows(a, n, j, l, t);
      d' := -d;
      vv[l] := vv[j];
    } else {
      forall r, c | 0 <= r < n && 0 <= c < n ensures a[r, c] == SwapRows(t, j + 1, l + 1)(r + 1, c + 1) {
        assert SwapRows(t, j + 1, l + 1)(r + 1, c + 1) == t(Swap(j + 1, l + 1, r + 1), c + 1);
      }
    }
    SwapKeepsState(t, goal, n, j + 1, l + 1);
  }

  /** The warning branch: a zero pivot is replaced. It is taken only if the matrix factored so far is singular. */
  method CheckPivot(a: array2<real>, n: int, j: int, ghost t: Mat, ghost goal: Mat)
    returns (zero: bool, ghost t': Mat, ghost goal': Mat)
    requires Holds(a, t, n) && 0 <= j < n && BeforeDivision(t, goal, n, j + 1)
    modifies a
    ensures Holds(a, t', n) && BeforeDivision(t', goal', n, j + 1) && t'(j + 1, j + 1) != 0.0
    ensures zero <==> t(j + 1, j + 1) == 0.0
    ensures goal' == if zero then Put(goal, j + 1, j + 1, goal(j + 1, j + 1) + TINY) else goal
  {
    hide BeforeDivision;
    t', goal' := t, goal;
    zero := a[j, j] == 0.0;
    if zero {
      a[j, j] := TINY;
      BumpKeepsState(t, goal, n, j + 1);
      t', goal' := Put(t, j + 1, j + 1, TINY), Put(goal, j + 1, j + 1, goal(j + 1, j + 1) + TINY);
    }
  }

  /** A zero pivot after the choice of the largest weight leaves nothing on or below the diagonal. */
  lemma ZeroPivotEmptiesColumn(a: array2<real>, n: int, vv: array<real>, j: int, l: int, t: Mat, c: int)
    requires Holds(a, t, n) && 0 <= j <= l < n <= vv.Length && PositiveScales(vv, n) && c == j + 1
    requires forall r :: j <= r < n ==> Weight(vv[r], a[r, j]) <= Weight(vv[l], a[l, j])
    requires t(l + 1, c) == 0.0
    ensures forall i :: c <= i <= n ==> t(i, c) == 0.0
  {
    forall i | c <= i <= n ensures t(i, c) == 0.0 {
      assert Weight(vv[l], a[l, j]) == 0.0;
      NoWeight(vv[i - 1], a[i - 1, j]);
    }
  }

  /** Column j + 1 up to the choice of the pivot row; a zero pivot shows that the matrix is singular. */
  method ReduceAndChoose(a: array2<real>, n: int, vv: array<real>, j: int, ghost t0: Mat, ghost goal: Mat)
    returns (imax: int, ghost t: Mat)
    requires Holds(a, t0, n) && 0 <= j < n <= vv.Length && PositiveScales(vv, n) && BetweenColumns(t0, goal, n, j)
    modifies a
    ensures j <= imax < n && Holds(a, t, n) && BeforeDivision(t, goal, n, j + 1)
    ensures t(imax + 1, j + 1) == 0.0 ==> !Nonsingular(goal, n)
  {
    hide Residual, Factored, Untouched, NonzeroDiagonal, ColumnDone, Nonsingular, Weight;
    ghost var t1 := UpperPart(a, n, j, t0, goal);
    imax, t := LowerPart(a, n, j, vv, t0, t1, goal);
    ColumnFinished(t, t0, goal, n, j + 1);
    if t(imax + 1, j + 1) == 0.0 {
      ZeroPivotEmptiesColumn(a, n, vv, j, imax, t, j + 1);
      EmptyResidualIsSingular(t, goal, n, j + 1);
    }
  }

  /** Column j + 1: reduce it, bring up the row of the largest weight, guard the pivot, divide. */
  method FactorColumn(a: array2<real>, n: int, vv: array<real>, j: int, d: real, ghost t0: Mat, ghost goal: Mat)
    returns (imax: int, d': real, zero: bool, ghost t: Mat, ghost goal': Mat)
    requires Holds(a, t0, n) && 0 <= j < n <= vv.Length && PositiveScales(vv, n) && BetweenColumns(t0, goal, n, j)
    modifies a, vv
    ensures j <= imax < n && PositiveScales(vv, n) && d' == if j != imax then -d else d
    ensures Holds(a, t, n) && BetweenColumns(t, goal', n, j + 1)
    ensures var g := SwapRows(goal, j + 1, imax + 1);
      goal' == if zero then Put(g, j + 1, j + 1, g(j + 1, j + 1) + TINY) else g
    ensures zero ==> !Nonsingular(goal, n)
  {
    hide Holds, BeforeDivision, BetweenColumns, Nonsingular, SwapRows, ScaleBelow;
    ghost var t2;
    imax, t2 := ReduceAndChoose(a, n, vv, j, t0, goal);
    d' := Exchange(a, n, vv, j, imax, d, t2, goal);
    PivotBroughtUp(t2, j + 1, imax + 1);
    zero, t, goal' := CheckPivot(a, n, j, SwapRows(t2, j + 1, imax + 1), SwapRows(goal, j + 1, imax + 1));
    DivisionFinishes(t, goal', n, j + 1);
    DivideColumn(a, n, j, t);
    t := ScaleBelow(t, j + 1);
  }

  lemma PivotBroughtUp(t: Mat, j: int, l: int)
    ensures SwapRows(t, j, l)(j, j) == t(l, j)
  {
    assert SwapRows(t, j, l)(j, j) == t(Swap(j, l, j), j);
  }
}
