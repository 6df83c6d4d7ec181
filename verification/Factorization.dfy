/** Whole eliminations: when they succeed, what the factors solve, and how large the entries can grow. */
module Factorization {
  import opened LinearAlgebra
  import opened Kernels
  import opened Elimination
  import opened Triangular

  /** The pivot vector: entry k for the steps k < n, and n for the last. */
  ghost function Pivots(a: Mat, n: int): int -> int {
    k => if 1 <= k < n then PivotAt(a, n, k) else n
  }

  /** The stored factors. */
  ghost function Factors(a: Mat, n: int): Mat
    requires n >= 1
  {
    Stage(a, n, n - 1)
  }

  lemma {:induction false} ColumnSettled(a: Mat, n: int, p: nat, k: nat, i: int, j: int)
    requires j <= p <= k
    ensures Stage(a, n, k)(i, j) == Stage(a, n, p)(i, j)
    decreases k - p
  {
    if p < k { ColumnSettled(a, n, p, k - 1, i, j); }
  }

  lemma {:induction false} RowSettled(a: Mat, n: int, p: nat, k: nat, i: int, j: int)
    requires 1 <= i <= p <= k <= n && Regular(a, n, k)
    ensures Stage(a, n, k)(i, j) == Stage(a, n, p)(i, j)
    decreases k - p
  {
    if p < k {
      RowSettled(a, n, p, k - 1, i, j);
      PivotFound(a, n, k);
      StepKeepsRow(Stage(a, n, k - 1), k, PivotAt(a, n, k), i, j);
      hide Eliminate, PivotRow;
    }
  }

  lemma StepKeepsRow(s: Mat, k: int, l: int, i: int, j: int)
    requires i < k <= l
    ensures Eliminate(s, k, l)(i, j) == s(i, j)
  {
    if s(l, k) != 0.0 {
      assert Swap(k, l, i) == i;
      assert Reduced(s, k, l)(i, j) == if j < k then s(i, j) else s(Swap(k, l, i), j);
    }
  }

  /** Once chosen, a pivot stays on the diagonal. */
  lemma PivotOnDiagonal(a: Mat, n: int, p: int, k: nat)
    requires 1 <= p <= k <= n && Regular(a, n, k)
    ensures Stage(a, n, k)(p, p) != 0.0
    ensures Stage(a, n, k)(p, p) == Stage(a, n, p - 1)(PivotAt(a, n, p), p)
  {
    RowSettled(a, n, p, k, p, p);
    PivotFound(a, n, p);
    PivotMoves(Stage(a, n, p - 1), p, PivotAt(a, n, p));
    assert Stage(a, n, p) == Eliminate(Stage(a, n, p - 1), p, PivotAt(a, n, p)) by { hide Eliminate; }
    hide *;
  }

  lemma PivotMoves(s: Mat, k: int, l: int)
    requires s(l, k) != 0.0
    ensures Eliminate(s, k, l)(k, k) == s(l, k)
  {
    assert Reduced(s, k, l)(k, k) == s(Swap(k, l, k), k);
  }

  lemma FactorDiagonal(a: Mat, n: int)
    requires n >= 1 && Regular(a, n, n)
    ensures NonzeroDiagonal(Factors(a, n), n)
  {
    forall p | 1 <= p <= n ensures Factors(a, n)(p, p) != 0.0 {
      if p < n {
        PivotOnDiagonal(a, n, p, n - 1);
      } else {
        PivotFound(a, n, n);
      }
    }
  }

  lemma {:induction false} KernelChain(a: Mat, n: int, k: nat, x: Vec)
    requires k <= n && Regular(a, n, k)
    ensures InKernel(a, x, n) <==> InKernel(Upper(Stage(a, n, k), k + 1), x, n)
  {
    if k == 0 {
      UpperStart(a, n, x);
    } else {
      hide Upper, Eliminate, PivotRow, InKernel;
      KernelChain(a, n, k - 1, x);
      PivotFound(a, n, k);
      StepKernel(Stage(a, n, k - 1), k, PivotAt(a, n, k), n, x);
    }
  }

  lemma UpperStart(a: Mat, n: int, x: Vec)
    ensures forall i :: Apply(Upper(a, 1), i, x, n) == Apply(a, i, x, n)
  {
    forall i ensures Apply(Upper(a, 1), i, x, n) == Apply(a, i, x, n) {
      DotCongruence(Row(Upper(a, 1), i), x, Row(a, i), x, 1, n + 1);
    }
  }

  lemma EmptyPivotColumn(s: Mat, k: int, n: int)
    requires 1 <= k <= n && PivotRow(s, k, n) < k && NonzeroDiagonal(s, k - 1)
    ensures InKernel(Upper(s, k), KernelVector(s, k), n) && !IsZero(KernelVector(s, k), n)
  {
    FirstMaxIsFirstMaximum(Col(s, k), k, n + 1);
    forall i | k <= i <= n ensures s(i, k) == 0.0 { assert Col(s, k)(i) == 0.0; }
    KernelVectorInKernel(s, k, n);
    assert KernelVector(s, k)(k) == 1.0;
  }

  lemma DiagonalSoFar(a: Mat, n: int, k: nat)
    requires k <= n && Regular(a, n, k)
    ensures NonzeroDiagonal(Stage(a, n, k), k)
  {
    forall p | 1 <= p <= k ensures Stage(a, n, k)(p, p) != 0.0 { PivotOnDiagonal(a, n, p, k); }
  }

  /** No nontrivial combination of the first k columns vanishes. */
  ghost predicate ColumnsIndependent(a: Mat, n: int, k: int) {
    forall x: Vec :: InKernel(a, x, n) && Supported(x, n, k) ==> IsZero(x, n)
  }

  ghost predicate Supported(x: Vec, n: int, k: int) { forall j :: k < j <= n ==> x(j) == 0.0 }

  /** A failed pivot search exhibits a vanishing combination of the first k columns of the original matrix. */
  lemma FailedSearchIsSingular(a: Mat, n: int, k: int)
    requires 1 <= k <= n && Regular(a, n, k - 1) && PivotAt(a, n, k) < k
    ensures !ColumnsIndependent(a, n, k) && !Nonsingular(a, n)
  {
    hide Upper, InKernel, IsZero, Stage;
    DiagonalSoFar(a, n, k - 1);
    var s := Stage(a, n, k - 1);
    EmptyPivotColumn(s, k, n);
    KernelChain(a, n, k - 1, KernelVector(s, k));
    assert Supported(KernelVector(s, k), n, k);
  }

  /** The first k pivot searches succeed exactly for the matrices whose first k columns are independent. */
  lemma RegularIffIndependent(a: Mat, n: int, k: nat)
    requires k <= n
    ensures Regular(a, n, k) <==> ColumnsIndependent(a, n, k)
  {
    hide InKernel, Supported, IsZero;
    if Regular(a, n, k) {
      forall x: Vec | InKernel(a, x, n) && Supported(x, n, k) ensures IsZero(x, n) { OnlyTrivial(a, n, k, x); }
    }
    if ColumnsIndependent(a, n, k) { IndependentSearches(a, n, k); }
  }

  lemma OnlyTrivial(a: Mat, n: int, k: nat, x: Vec)
    requires k <= n && Regular(a, n, k) && InKernel(a, x, n) && Supported(x, n, k)
    ensures IsZero(x, n)
  {
    hide Stage, PivotAt;
    KernelChain(a, n, k, x);
    DiagonalSoFar(a, n, k);
    var s := Stage(a, n, k);
    forall i | 1 <= i <= k ensures Apply(Upper(s, k), i, x, k) == 0.0 {
      assert Apply(Upper(s, k + 1), i, x, n) == 0.0;
      DotSplit(Row(Upper(s, k + 1), i), x, 1, k + 1, n + 1);
      DotZero(Row(Upper(s, k + 1), i), x, k + 1, n + 1);
      DotCongruence(Row(Upper(s, k + 1), i), x, Row(Upper(s, k), i), x, 1, k + 1);
    }
    forall j | 1 <= j <= k ensures x(j) == 0.0 { UpperKernelTrivial(s, x, k, j); }
  }

  lemma {:induction false} IndependentSearches(a: Mat, n: int, k: nat)
    requires k <= n && ColumnsIndependent(a, n, k)
    ensures Regular(a, n, k)
  {
    if k > 0 {
      hide InKernel, IsZero, Stage;
      assert forall x: Vec :: Supported(x, n, k - 1) ==> Supported(x, n, k);
      IndependentSearches(a, n, k - 1);
      if PivotAt(a, n, k) < k { FailedSearchIsSingular(a, n, k); }
    }
  }

  /** Every pivot search succeeds exactly for the nonsingular matrices. */
  lemma RegularIffNonsingular(a: Mat, n: int)
    requires n >= 1
    ensures Regular(a, n, n) <==> Nonsingular(a, n)
  {
    RegularIffIndependent(a, n, n);
    assert forall x: Vec :: Supported(x, n, n);
  }

  /** Once the first n - 1 searches have succeeded, the last diagonal entry decides. */
  lemma LastPivotDecides(a: Mat, n: int)
    requires 1 <= n && Regular(a, n, n - 1)
    ensures Nonsingular(a, n) <==> Factors(a, n)(n, n) != 0.0
  {
    hide Stage, Nonsingular, PivotRow;
    RegularIffNonsingular(a, n);
    SearchRange(Factors(a, n), n, n);
    assert PivotAt(a, n, n) == PivotRow(Factors(a, n), n, n);
  }

  /** The right-hand side after the first k forward steps. */
  ghost function Forward(y: Vec, f: Mat, piv: int -> int, k: nat): Vec {
    if k == 0 then y else ForwardStep(Forward(y, f, piv, k - 1), f, k, piv(k))
  }

  lemma {:induction false} SolutionChain(a: Mat, n: int, k: nat, f: Mat, x: Vec, y: Vec)
    requires k < n && Regular(a, n, k) && f == Factors(a, n)
    requires Solves(Upper(Stage(a, n, k), k + 1), x, Forward(y, f, Pivots(a, n), k), n)
    ensures Solves(a, x, y, n)
  {
    hide Upper, ForwardStep, Apply, PivotAt;
    if k == 0 {
      UpperStart(a, n, x);
    } else {
      hide Stage, Solves;
      var y' := Forward(y, f, Pivots(a, n), k - 1);
      SolutionStep(a, n, k, x, y');
      SolutionChain(a, n, k - 1, f, x, y);
    }
  }

  lemma SolutionStep(a: Mat, n: int, k: int, x: Vec, y: Vec)
    requires 1 <= k < n && PivotAt(a, n, k) >= k
    requires Solves(Upper(Stage(a, n, k), k + 1), x, ForwardStep(y, Factors(a, n), k, PivotAt(a, n, k)), n)
    ensures Solves(Upper(Stage(a, n, k - 1), k), x, y, n)
  {
    hide Upper, Eliminate, PivotRow, Apply;
    var s, l := Stage(a, n, k - 1), PivotAt(a, n, k);
    PivotFound(a, n, k);
    assert Stage(a, n, k) == Eliminate(s, k, l);
    hide Stage;
    forall i ensures ForwardStep(y, Stage(a, n, k), k, l)(i) == ForwardStep(y, Factors(a, n), k, l)(i) {
      ColumnSettled(a, n, k, n - 1, i, k);
    }
    StepSolves(s, k, l, n, x, y);
  }

  /** What forward elimination and back substitution leave in place of the right-hand side. */
  ghost function Solution(a: Mat, n: int, y: Vec): Vec
    requires n >= 1 && NonzeroDiagonal(Factors(a, n), n)
  {
    BackSub(Factors(a, n), Forward(y, Factors(a, n), Pivots(a, n), n - 1), n)
  }

  /** The factors of a nonsingular matrix solve its systems. */
  lemma SolutionSolves(a: Mat, n: int, y: Vec)
    requires n >= 1 && Nonsingular(a, n)
    ensures NonzeroDiagonal(Factors(a, n), n) && Solves(a, Solution(a, n, y), y, n)
  {
    hide Upper, Solves, Forward, BackSub, Stage;
    RegularIffNonsingular(a, n);
    FactorDiagonal(a, n);
    var f := Factors(a, n);
    BackSubSolvesUpper(f, Forward(y, f, Pivots(a, n), n - 1), n);
    SolutionChain(a, n, n - 1, f, Solution(a, n, y), y);
  }
}
