/** In-place LU factors with a unit lower triangle, rows permuted: what they multiply to and what they solve. */
module CroutTheory {
  import opened LinearAlgebra
  import opened Elimination
  import opened Triangular
  import opened Factorization

  /** Entry (i, c) of the product of the stored unit lower and upper triangles. */
  ghost function ProductAt(s: Mat, i: int, c: int): real {
    Dot(Row(s, i), Col(s, c), 1, Min(i, c)) + if i <= c then s(i, c) else s(i, c) * s(c, c)
  }

  /** The stored lower triangle with ones on the diagonal. */
  ghost function UnitLower(s: Mat): Mat { (i, k) => if k < i then s(i, k) else if k == i then 1.0 else 0.0 }

  /** The first j columns of a are the product of the factors in s. */
  ghost predicate Factored(s: Mat, a: Mat, n: int, j: int) {
    forall i, c :: 1 <= i <= n && 1 <= c <= j ==> ProductAt(s, i, c) == a(i, c)
  }

  lemma ProductIsSum(s: Mat, n: int, i: int, c: int)
    requires 1 <= i <= n && 1 <= c <= n
    ensures Dot(Row(UnitLower(s), i), Col(Upper(s, n), c), 1, n + 1) == ProductAt(s, i, c)
  {
    hide Dot;
    var l, u, m := Row(UnitLower(s), i), Col(Upper(s, n), c), Min(i, c);
    DotSplit(l, u, 1, m, n + 1);
    DotSplit(l, u, m, m + 1, n + 1);
    DotCongruence(l, u, Row(s, i), Col(s, c), 1, m);
    DotZero(l, u, m + 1, n + 1);
    OneTerm(l, u, m);
  }

  lemma OneTerm(u: Vec, v: Vec, k: int)
    ensures Dot(u, v, k, k + 1) == u(k) * v(k)
  {
    assert Dot(u, v, k, k) == 0.0;
  }

  /** Where the upper triangle takes x to y, the factored matrix takes it to the lower triangle's image of y. */
  lemma FactoredApply(s: Mat, a: Mat, n: int, j: int, x: Vec, y: Vec, i: int)
    requires 1 <= i <= n && 0 <= j <= n && Factored(s, a, n, j)
    requires forall c :: j < c <= n ==> x(c) == 0.0
    requires forall k :: 1 <= k <= n ==> Apply(Upper(s, n), k, x, n) == y(k)
    ensures Apply(a, i, x, n) == Dot(Row(UnitLower(s), i), y, 1, n + 1)
  {
    hide Dot, Upper, UnitLower, ProductAt;
    var l, u := Row(UnitLower(s), i), Upper(s, n);
    SumExchange(l, u, x, 1, n + 1, 1, n + 1);
    DotCongruence(l, RightProduct(u, x, 1, n + 1), l, y, 1, n + 1);
    FactoredColumns(s, a, n, j, x, i);
  }

  lemma FactoredColumns(s: Mat, a: Mat, n: int, j: int, x: Vec, i: int)
    requires 1 <= i <= n && 0 <= j <= n && Factored(s, a, n, j)
    requires forall c :: j < c <= n ==> x(c) == 0.0
    ensures Dot(LeftProduct(Row(UnitLower(s), i), Upper(s, n), 1, n + 1), x, 1, n + 1) == Apply(a, i, x, n)
  {
    hide Dot, Upper, UnitLower, ProductAt;
    var p := LeftProduct(Row(UnitLower(s), i), Upper(s, n), 1, n + 1);
    forall c | 1 <= c < j + 1 ensures p(c) == Row(a, i)(c) { ProductIsSum(s, n, i, c); }
    DotSplit(p, x, 1, j + 1, n + 1);
    DotSplit(Row(a, i), x, 1, j + 1, n + 1);
    DotCongruence(p, x, Row(a, i), x, 1, j + 1);
    DotZero(p, x, j + 1, n + 1);
    DotZero(Row(a, i), x, j + 1, n + 1);
  }

  /** If column j came out with nothing on or below the diagonal, the matrix is singular. */
  lemma EmptyColumnIsSingular(s: Mat, a: Mat, n: int, j: int)
    requires 1 <= j <= n && Factored(s, a, n, j) && NonzeroDiagonal(s, j - 1)
    requires forall i :: j <= i <= n ==> s(i, j) == 0.0
    ensures !Nonsingular(a, n)
  {
    hide Dot, Upper, KernelVector, ProductAt, Factored;
    var x := KernelVector(s, j);
    KernelVectorInKernel(s, j, n);
    KernelVectorValues(s, j);
    var zero: Vec := _ => 0.0;
    forall k | 1 <= k <= n ensures Apply(Upper(s, n), k, x, n) == zero(k) { SameUpper(s, n, j, x, k); }
    forall i | 1 <= i <= n ensures Apply(a, i, x, n) == 0.0 {
      FactoredApply(s, a, n, j, x, zero, i);
      DotZero(Row(UnitLower(s), i), zero, 1, n + 1);
    }
    assert InKernel(a, x, n);
  }

  lemma KernelVectorValues(s: Mat, j: int)
    requires NonzeroDiagonal(s, j - 1)
    ensures KernelVector(s, j)(j) == 1.0 && forall c :: c > j ==> KernelVector(s, j)(c) == 0.0
  {
  }

  lemma SameUpper(s: Mat, n: int, j: int, x: Vec, k: int)
    requires 1 <= j <= n && 1 <= k <= n && InKernel(Upper(s, j), x, n)
    requires forall i :: j <= i <= n ==> s(i, j) == 0.0
    requires forall c :: c > j ==> x(c) == 0.0
    ensures Apply(Upper(s, n), k, x, n) == 0.0
  {
    hide Dot;
    var u, v := Row(Upper(s, n), k), Row(Upper(s, j), k);
    assert Apply(Upper(s, j), k, x, n) == 0.0;
    DotSplit(u, x, 1, j + 1, n + 1);
    DotSplit(v, x, 1, j + 1, n + 1);
    DotCongruence(u, x, v, x, 1, j + 1);
    DotZero(u, x, j + 1, n + 1);
    DotZero(v, x, j + 1, n + 1);
  }

  lemma ZeroRowApplied(a: Mat, n: int, i: int, x: Vec)
    requires forall c :: 1 <= c <= n ==> a(i, c) == 0.0
    ensures Apply(a, i, x, n) == 0.0
  {
    DotZero(Row(a, i), x, 1, n + 1);
  }

  lemma ZeroRowIsSingular(a: Mat, n: int, i: int)
    requires 1 <= i <= n && forall c :: 1 <= c <= n ==> a(i, c) == 0.0
    ensures !Nonsingular(a, n)
  {
    hide Nonsingular, Solution, Apply;
    if Nonsingular(a, n) {
      var e: Vec := k => if k == i then 1.0 else 0.0;
      SolutionSolves(a, n, e);
      ZeroRowApplied(a, n, i, Solution(a, n, e));
    }
  }

  /** The interchanges recorded in index, read as a permutation of the rows: row i of the result is row Permuted(i). */
  ghost function Permuted(index: int -> int, k: nat): int -> int {
    if k == 0 then i => i else i => Permuted(index, k - 1)(Swap(k, index(k), i))
  }

  ghost function PermutedRows(a: Mat, index: int -> int, k: nat): Mat { (i, c) => a(Permuted(index, k)(i), c) }

  ghost function Unpermuted(index: int -> int, k: nat): int -> int {
    if k == 0 then i => i else i => Swap(k, index(k), Unpermuted(index, k - 1)(i))
  }

  /** Each interchange of the first k steps brings up a row from below. */
  ghost predicate IsInterchange(index: int -> int, n: int, k: nat) { forall p :: 1 <= p <= k ==> p <= index(p) <= n }

  lemma PermutationStep(index: int -> int, k: nat, i: int)
    requires k > 0
    ensures Permuted(index, k)(i) == Permuted(index, k - 1)(Swap(k, index(k), i))
    ensures Unpermuted(index, k)(i) == Swap(k, index(k), Unpermuted(index, k - 1)(i))
  {
  }

  lemma {:induction false} PermutationInverse(index: int -> int, n: int, k: nat, i: int)
    requires k <= n && IsInterchange(index, n, k) && 1 <= i <= n
    ensures 1 <= Permuted(index, k)(i) <= n && 1 <= Unpermuted(index, k)(i) <= n
    ensures Permuted(index, k)(Unpermuted(index, k)(i)) == i && Unpermuted(index, k)(Permuted(index, k)(i)) == i
    decreases k, 1
  {
    if k == 0 {
    } else {
      PermutationInverseStep(index, n, k, i);
    }
  }

  lemma {:induction false} PermutationInverseStep(index: int -> int, n: int, k: nat, i: int)
    requires 0 < k <= n && IsInterchange(index, n, k) && 1 <= i <= n
    ensures 1 <= Permuted(index, k)(i) <= n && 1 <= Unpermuted(index, k)(i) <= n
    ensures Permuted(index, k)(Unpermuted(index, k)(i)) == i && Unpermuted(index, k)(Permuted(index, k)(i)) == i
    decreases k, 0
  {
    hide Permuted, Unpermuted;
    PermutationInverse(index, n, k - 1, i);
    PermutationInverse(index, n, k - 1, Swap(k, index(k), i));
    PermutationStep(index, k, i);
    PermutationStep(index, k, Unpermuted(index, k)(i));
    PermutationStep(index, k, Permuted(index, k)(i));
  }

  /** Permuting rows does not change whether a matrix is singular. */
  lemma PermutedNonsingular(a: Mat, index: int -> int, n: int, k: nat)
    requires k <= n && IsInterchange(index, n, k)
    ensures Nonsingular(PermutedRows(a, index, k), n) <==> Nonsingular(a, n)
  {
    hide Dot, Permuted, Unpermuted, IsZero;
    var pa := PermutedRows(a, index, k);
    forall x: Vec ensures InKernel(pa, x, n) <==> InKernel(a, x, n) { PermutedKernel(a, index, n, k, x); }
  }

  lemma PermutedKernel(a: Mat, index: int -> int, n: int, k: nat, x: Vec)
    requires k <= n && IsInterchange(index, n, k)
    ensures InKernel(PermutedRows(a, index, k), x, n) <==> InKernel(a, x, n)
  {
    hide Dot, Permuted, Unpermuted;
    var pa := PermutedRows(a, index, k);
    if InKernel(a, x, n) {
      forall i | 1 <= i <= n ensures Apply(pa, i, x, n) == 0.0 {
        PermutationInverse(index, n, k, i);
        PermutedApply(a, index, k, x, n, i);
      }
    }
    if InKernel(pa, x, n) {
      forall r | 1 <= r <= n ensures Apply(a, r, x, n) == 0.0 {
        PermutationInverse(index, n, k, r);
        PermutedApply(a, index, k, x, n, Unpermuted(index, k)(r));
        assert Apply(pa, Unpermuted(index, k)(r), x, n) == 0.0;
      }
    }
  }

  lemma PermutedApply(a: Mat, index: int -> int, k: nat, x: Vec, n: int, i: int)
    ensures Apply(PermutedRows(a, index, k), i, x, n) == Apply(a, Permuted(index, k)(i), x, n)
  {
    DotCongruence(Row(PermutedRows(a, index, k), i), x, Row(a, Permuted(index, k)(i)), x, 1, n + 1);
  }
}
