/** The transposed system from the same factors, and the size of the entries elimination produces. */
module TransposedSolve {
  import opened RealArithmetic
  import opened LinearAlgebra
  import opened Elimination
  import opened Triangular
  import opened Factorization

  /** Component k collects the multiples of the components below, then trades places with l. */
  ghost function BackwardStep(z: Vec, f: Mat, k: int, l: int, n: int): Vec {
    i => Collected(z, f, k, n)(Swap(k, l, i))
  }

  ghost function Collected(z: Vec, f: Mat, k: int, n: int): Vec {
    i => if i == k then z(k) + Dot(Col(f, k), z, k + 1, n + 1) else z(i)
  }

  /** Steps k, k - 1, ..., 1. */
  ghost function Backward(z: Vec, f: Mat, piv: int -> int, n: int, k: nat): Vec {
    if k == 0 then z else Backward(BackwardStep(z, f, k, piv(k), n), f, piv, n, k - 1)
  }

  /** The sum of a column against z, taken over rows whose exchange and reduction are undone on the z side. */
  lemma ReducedColumn(w: Vec, c: Vec, w': Vec, z: Vec, z': Vec, k: int, n: int)
    requires 1 <= k <= n
    requires forall i :: 1 <= i <= k ==> w'(i) == w(i)
    requires forall i :: k < i <= n ==> w'(i) == w(i) + w(k) * c(i)
    requires z'(k) == z(k) + Dot(c, z, k + 1, n + 1)
    requires forall i :: 1 <= i <= n && i != k ==> z'(i) == z(i)
    ensures Dot(w', z, 1, n + 1) == Dot(w, z', 1, n + 1)
  {
    hide Dot;
    var x, d := w(k), Dot(c, z, k + 1, n + 1);
    var p, p', e := x * z(k), x * z'(k), x * d;
    DotLinear(w', w, c, x, z, k + 1, n + 1);
    SameProduct(x, x, d, Dot(c, z, k + 1, n + 1));
    DotCongruence(w', z, w, z', 1, k);
    DotCongruence(w, z, w, z', k + 1, n + 1);
    SameProduct(w'(k), x, z(k), z(k));
    SplitAt(w', z, k, n, p);
    SplitAt(w, z', k, n, p');
    FactorOut(x, z(k), d, z'(k), p, p', e);
  }

  lemma FactorOut(w: real, z: real, d: real, z': real, p: real, p': real, e: real)
    requires z' == z + d && p == w * z && p' == w * z' && e == w * d
    ensures p' == p + e
  {
  }

  lemma SplitAt(u: Vec, v: Vec, k: int, n: int, p: real)
    requires 1 <= k <= n && p == u(k) * v(k)
    ensures Dot(u, v, 1, n + 1) == Dot(u, v, 1, k) + p + Dot(u, v, k + 1, n + 1)
  {
    DotSplit(u, v, 1, k + 1, n + 1);
  }

  lemma ExchangedColumn(u: Vec, c: Vec, u': Vec, z: Vec, z'': Vec, z': Vec, k: int, l: int, n: int)
    requires 1 <= k <= l <= n
    requires forall i :: 1 <= i <= k ==> u'(i) == u(Swap(k, l, i))
    requires forall i :: k < i <= n ==> u'(i) == u(Swap(k, l, i)) + u(l) * c(i)
    requires z''(k) == z(k) + Dot(c, z, k + 1, n + 1)
    requires forall i :: 1 <= i <= n && i != k ==> z''(i) == z(i)
    requires forall i :: z'(i) == z''(Swap(k, l, i))
    ensures Dot(u', z, 1, n + 1) == Dot(u, z', 1, n + 1)
  {
    hide Dot;
    var w: Vec := i => u(Swap(k, l, i));
    ReducedColumn(w, c, u', z, z'', k, n);
    assert z'(k) == z''(l) && z'(l) == z''(k);
    DotSwapped(u, z', w, z'', k, l, 1, n + 1);
  }

  /** Entry (i, j) of t comes from s by exchanging rows k and l and, below k, adding a multiple of row k. */
  ghost predicate StepAt(s: Mat, t: Mat, k: int, l: int, i: int, j: int) {
    Upper(t, k + 1)(i, j) ==
      if i <= k then Upper(s, k)(Swap(k, l, i), j)
      else Upper(s, k)(Swap(k, l, i), j) + Upper(s, k)(l, j) * t(i, k)
  }

  lemma EliminateStepAt(s: Mat, k: int, l: int, i: int, j: int)
    requires k <= l && s(l, k) != 0.0
    ensures StepAt(s, Eliminate(s, k, l), k, l, i, j)
  {
    if i <= k {
      assert j >= k ==> Reduced(s, k, l)(i, j) == s(Swap(k, l, i), j);
    } else {
      var c := Eliminate(s, k, l)(i, k);
      assert c == Multiplier(s, k, l, i);
      StepEntry(s, k, l, i, j, c);
    }
  }

  ghost predicate ColumnStep(s: Mat, t: Mat, k: int, l: int, n: int, j: int) {
    var u, u' := Col(Upper(s, k), j), Col(Upper(t, k + 1), j);
    && (forall i :: 1 <= i <= k ==> u'(i) == u(Swap(k, l, i)))
    && (forall i :: k < i <= n ==> u'(i) == u(Swap(k, l, i)) + u(l) * Col(t, k)(i))
  }

  lemma EntriesGiveColumnStep(s: Mat, t: Mat, k: int, l: int, n: int, j: int)
    requires forall i :: StepAt(s, t, k, l, i, j)
    ensures ColumnStep(s, t, k, l, n, j)
  {
    hide Upper, Swap;
    var u, u' := Col(Upper(s, k), j), Col(Upper(t, k + 1), j);
    forall i | 1 <= i <= k ensures u'(i) == u(Swap(k, l, i)) { assert StepAt(s, t, k, l, i, j); }
    forall i | k < i <= n ensures u'(i) == u(Swap(k, l, i)) + u(l) * Col(t, k)(i) {
      assert StepAt(s, t, k, l, i, j);
    }
  }

  lemma StepColumn(s: Mat, t: Mat, k: int, l: int, n: int, j: int, z: Vec)
    requires 1 <= k <= l <= n && ColumnStep(s, t, k, l, n, j)
    ensures Dot(BackwardStep(z, t, k, l, n), Col(Upper(s, k), j), 1, n + 1) == Dot(z, Col(Upper(t, k + 1), j), 1, n + 1)
  {
    hide Upper, Dot, Swap;
    var u, u', z' := Col(Upper(s, k), j), Col(Upper(t, k + 1), j), BackwardStep(z, t, k, l, n);
    ExchangedColumn(u, Col(t, k), u', z, Collected(z, t, k, n), z', k, l, n);
    DotCommutes(u, z', 1, n + 1);
    DotCommutes(u', z, 1, n + 1);
  }

  lemma StepSolvesTransposed(s: Mat, k: int, l: int, n: int, z: Vec, y: Vec)
    requires 1 <= k <= l <= n && s(l, k) != 0.0
    requires SolvesTransposed(Upper(Eliminate(s, k, l), k + 1), z, y, n)
    ensures SolvesTransposed(Upper(s, k), BackwardStep(z, Eliminate(s, k, l), k, l, n), y, n)
  {
    forall j | 1 <= j <= n
      ensures Dot(BackwardStep(z, Eliminate(s, k, l), k, l, n), Col(Upper(s, k), j), 1, n + 1) == y(j)
    {
      forall i ensures StepAt(s, Eliminate(s, k, l), k, l, i, j) { EliminateStepAt(s, k, l, i, j); }
      EntriesGiveColumnStep(s, Eliminate(s, k, l), k, l, n, j);
      StepColumn(s, Eliminate(s, k, l), k, l, n, j, z);
    }
  }

  lemma BackwardStepSettled(a: Mat, n: int, k: int, l: int, z: Vec)
    requires 1 <= k < n
    ensures forall i :: BackwardStep(z, Stage(a, n, k), k, l, n)(i) == BackwardStep(z, Factors(a, n), k, l, n)(i)
  {
    var s, f := Stage(a, n, k), Factors(a, n);
    forall i ensures Col(s, k)(i) == Col(f, k)(i) { ColumnSettled(a, n, k, n - 1, i, k); }
    DotCongruence(Col(s, k), z, Col(f, k), z, k + 1, n + 1);
    assert forall i :: Collected(z, s, k, n)(i) == Collected(z, f, k, n)(i);
  }

  lemma TransposedCongruence(a: Mat, a': Mat, z: Vec, z': Vec, y: Vec, n: int)
    requires SolvesTransposed(a, z, y, n)
    requires forall i, j :: 1 <= i <= n && 1 <= j <= n ==> a'(i, j) == a(i, j)
    requires forall i :: 1 <= i <= n ==> z'(i) == z(i)
    ensures SolvesTransposed(a', z', y, n)
  {
    forall j | 1 <= j <= n ensures Dot(z', Col(a', j), 1, n + 1) == y(j) {
      DotCongruence(z, Col(a, j), z', Col(a', j), 1, n + 1);
    }
  }

  lemma TransposedStage(a: Mat, n: int, k: int, z: Vec, y: Vec)
    requires 1 <= k < n && PivotAt(a, n, k) >= k
    requires SolvesTransposed(Upper(Stage(a, n, k), k + 1), z, y, n)
    ensures SolvesTransposed(Upper(Stage(a, n, k - 1), k), BackwardStep(z, Factors(a, n), k, PivotAt(a, n, k), n), y, n)
  {
    var s, l := Stage(a, n, k - 1), PivotAt(a, n, k);
    PivotFound(a, n, k);
    assert Stage(a, n, k) == Eliminate(s, k, l);
    StepSolvesTransposed(s, k, l, n, z, y);
    BackwardStepSettled(a, n, k, l, z);
    TransposedCongruence(Upper(s, k), Upper(s, k), BackwardStep(z, Stage(a, n, k), k, l, n),
                         BackwardStep(z, Factors(a, n), k, l, n), y, n);
  }

  lemma {:induction false} TransposedChain(a: Mat, n: int, k: nat, z: Vec, y: Vec)
    requires k < n && Regular(a, n, k)
    requires SolvesTransposed(Upper(Stage(a, n, k), k + 1), z, y, n)
    ensures SolvesTransposed(a, Backward(z, Factors(a, n), Pivots(a, n), n, k), y, n)
  {
    if k == 0 {
      TransposedCongruence(Upper(a, 1), a, z, z, y, n);
    } else {
      TransposedStage(a, n, k, z, y);
      TransposedChain(a, n, k - 1, BackwardStep(z, Factors(a, n), k, PivotAt(a, n, k), n), y);
    }
  }

  /** What the transposed solve leaves in place of the right-hand side. */
  ghost function TransposedSolution(a: Mat, n: int, y: Vec): Vec
    requires n >= 1 && NonzeroDiagonal(Factors(a, n), n)
  {
    Backward(TransposedFront(Factors(a, n), y, n), Factors(a, n), Pivots(a, n), n, n - 1)
  }

  /** The same factors solve the transposed systems of a nonsingular matrix. */
  lemma TransposedSolutionSolves(a: Mat, n: int, y: Vec)
    requires n >= 1 && Nonsingular(a, n)
    ensures NonzeroDiagonal(Factors(a, n), n) && SolvesTransposed(a, TransposedSolution(a, n, y), y, n)
  {
    RegularIffNonsingular(a, n);
    FactorDiagonal(a, n);
    TransposedFrontSolves(Factors(a, n), y, n);
    TransposedChain(a, n, n - 1, TransposedFront(Factors(a, n), y, n), y);
  }
}
