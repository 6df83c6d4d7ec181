/**
 * Substitution with the stored factors, and the kernel vector of a triangular matrix whose next column is dependent.
 */
module Triangular {
  import opened LinearAlgebra
  import opened Elimination

  ghost predicate NonzeroDiagonal(f: Mat, n: int) { forall k :: 1 <= k <= n ==> f(k, k) != 0.0 }

  /** Divide component n by the diagonal and eliminate it from the components above. */
  ghost function BackStep(f: Mat, y: Vec, n: int): Vec
    requires f(n, n) != 0.0
  {
    i => if i == n then y(n) / f(n, n) else if i < n then y(i) + (-(y(n) / f(n, n))) * f(i, n) else y(i)
  }

  /** The vector left by column-oriented back substitution from component n upwards. */
  ghost function BackSub(f: Mat, y: Vec, n: int): Vec
    requires NonzeroDiagonal(f, n)
    decreases n
  {
    if n <= 0 then y else BackSub(f, BackStep(f, y, n), n - 1)
  }

  lemma {:induction false} BackSubKeepsBelow(f: Mat, y: Vec, n: int, j: int)
    requires NonzeroDiagonal(f, n) && j > n
    ensures BackSub(f, y, n)(j) == y(j)
    decreases n
  {
    if n > 0 { BackSubKeepsBelow(f, BackStep(f, y, n), n - 1, j); }
  }

  lemma {:induction false} BackSubSolves(f: Mat, y: Vec, n: int, i: int)
    requires NonzeroDiagonal(f, n) && 1 <= i <= n
    ensures Dot(Row(f, i), BackSub(f, y, n), i, n + 1) == y(i)
    decreases n
  {
    var y', x := BackStep(f, y, n), BackSub(f, y, n);
    BackSubKeepsBelow(f, y', n - 1, n);
    var q := y(n) / f(n, n);
    assert x(n) == q;
    assert Dot(Row(f, i), x, i, n + 1) == Dot(Row(f, i), x, i, n) + f(i, n) * q;
    if i < n {
      BackSubSolves(f, y', n - 1, i);
      assert y'(i) == y(i) + (-q) * f(i, n);
    } else {
      assert Dot(Row(f, i), x, i, n) == 0.0;
    }
  }

  /** A row of the upper triangle only sees the columns from the diagonal on. */
  lemma UpperRow(f: Mat, x: Vec, n: int, i: int)
    requires 1 <= i <= n
    ensures Apply(Upper(f, n), i, x, n) == Dot(Row(f, i), x, i, n + 1)
  {
    var u := Row(Upper(f, n), i);
    DotSplit(u, x, 1, i, n + 1);
    DotZero(u, x, 1, i);
    DotCongruence(u, x, Row(f, i), x, i, n + 1);
  }

  lemma BackSubSolvesUpper(f: Mat, y: Vec, n: int)
    requires NonzeroDiagonal(f, n)
    ensures Solves(Upper(f, n), BackSub(f, y, n), y, n)
  {
    forall i | 1 <= i <= n ensures Apply(Upper(f, n), i, BackSub(f, y, n), n) == y(i) {
      BackSubSolves(f, y, n, i);
      UpperRow(f, BackSub(f, y, n), n, i);
    }
  }

  /** A triangular matrix with nonzero diagonal has a trivial kernel. */
  lemma {:induction false} UpperKernelTrivial(f: Mat, x: Vec, n: int, k: int)
    requires NonzeroDiagonal(f, n) && InKernel(Upper(f, n), x, n) && 1 <= k <= n
    ensures x(k) == 0.0
    decreases n - k
  {
    forall j | k < j <= n ensures x(j) == 0.0 { UpperKernelTrivial(f, x, n, j); }
    UpperRow(f, x, n, k);
    DotSingle(Row(f, k), x, k, k, n + 1);
    assert Apply(Upper(f, n), k, x, n) == 0.0;
    assert f(k, k) * x(k) == 0.0;
  }

  /** If column k has nothing on or below the diagonal, some combination of columns 1..k vanishes. */
  ghost function KernelVector(s: Mat, k: int): Vec
    requires NonzeroDiagonal(s, k - 1)
  {
    j => if j < k then BackSub(s, i => -s(i, k), k - 1)(j) else if j == k then 1.0 else 0.0
  }

  lemma KernelVectorInKernel(s: Mat, k: int, n: int)
    requires 1 <= k <= n && NonzeroDiagonal(s, k - 1)
    requires forall i :: k <= i <= n ==> s(i, k) == 0.0
    ensures InKernel(Upper(s, k), KernelVector(s, k), n)
  {
    var u, x := Upper(s, k), KernelVector(s, k);
    forall i | 1 <= i <= n ensures Apply(u, i, x, n) == 0.0 {
      if i < k {
        KernelVectorRow(s, k, n, i);
      } else {
        DotZero(Row(u, i), x, 1, n + 1);
      }
    }
  }

  lemma KernelVectorRow(s: Mat, k: int, n: int, i: int)
    requires 1 <= i < k <= n && NonzeroDiagonal(s, k - 1)
    ensures Apply(Upper(s, k), i, KernelVector(s, k), n) == 0.0
  {
    var u, x, y := Row(Upper(s, k), i), KernelVector(s, k), (i: int) => -s(i, k);
    DotSplit(u, x, 1, i, n + 1);
    DotZero(u, x, 1, i);
    DotSplit(u, x, i, k, n + 1);
    DotCongruence(u, x, Row(s, i), BackSub(s, y, k - 1), i, k);
    BackSubSolves(s, y, k - 1, i);
    DotSingle(u, x, k, k, n + 1);
    assert u(k) == s(i, k) && x(k) == 1.0;
  }

  /** Components 1..k of the solution of the transposed triangular system, the rest still right-hand side. */
  ghost function TransposedFront(f: Mat, y: Vec, k: int): Vec
    requires NonzeroDiagonal(f, k)
    decreases k
  {
    if k <= 0 then y else
      var z := TransposedFront(f, y, k - 1);
      i => if i == k then (z(k) - Dot(Col(f, k), z, 1, k)) / f(k, k) else z(i)
  }

  lemma {:induction false} TransposedFrontAbove(f: Mat, y: Vec, k: int, i: int)
    requires NonzeroDiagonal(f, k) && k < i
    ensures TransposedFront(f, y, k)(i) == y(i)
    decreases k
  {
    if 0 < k { TransposedFrontAbove(f, y, k - 1, i); }
  }

  lemma {:induction false} TransposedFrontSettled(f: Mat, y: Vec, k: int, k': int, i: int)
    requires i <= k' <= k && NonzeroDiagonal(f, k)
    ensures NonzeroDiagonal(f, k') && TransposedFront(f, y, k)(i) == TransposedFront(f, y, k')(i)
    decreases k - k'
  {
    if k' < k { TransposedFrontSettled(f, y, k - 1, k', i); }
  }

  lemma TransposedFrontSolves(f: Mat, y: Vec, n: int)
    requires NonzeroDiagonal(f, n)
    ensures SolvesTransposed(Upper(f, n), TransposedFront(f, y, n), y, n)
  {
    var z := TransposedFront(f, y, n);
    forall k | 1 <= k <= n ensures Dot(z, Col(Upper(f, n), k), 1, n + 1) == y(k) {
      var u := Col(Upper(f, n), k);
      DotSplit(z, u, 1, k + 1, n + 1);
      DotZero(z, u, k + 1, n + 1);
      DotCongruence(z, u, z, Col(f, k), 1, k + 1);
      TransposedFrontColumn(f, y, n, k);
    }
  }

  lemma TransposedFrontColumn(f: Mat, y: Vec, n: int, k: int)
    requires NonzeroDiagonal(f, n) && 1 <= k <= n
    ensures Dot(TransposedFront(f, y, n), Col(f, k), 1, k + 1) == y(k)
  {
    var z, w := TransposedFront(f, y, n), TransposedFront(f, y, k - 1);
    forall i | 1 <= i < k ensures z(i) == w(i) { TransposedFrontSettled(f, y, n, k - 1, i); }
    TransposedFrontSettled(f, y, n, k, k);
    TransposedFrontAbove(f, y, k - 1, k);
    DotCongruence(z, Col(f, k), w, Col(f, k), 1, k);
    DotCommutes(w, Col(f, k), 1, k);
    FrontComponent(z(k), y(k), Dot(Col(f, k), w, 1, k), f(k, k), Dot(z, Col(f, k), 1, k));
  }

  lemma FrontComponent(z: real, y: real, d: real, f: real, d': real)
    requires f != 0.0 && z == (y - d) / f && d' == d
    ensures d' + z * f == y
  {
  }
}
