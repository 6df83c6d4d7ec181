/**
 * Gaussian elimination with partial pivoting as a transformation of matrices: one step, the state
 * after k steps, and what a step preserves. The state keeps the negated multipliers below the
 * diagonal, in the row order of the step that made them.
 */
module Elimination {
  import opened RealArithmetic
  import opened LinearAlgebra
  import opened Kernels

  /** The pivot row of step k: the first largest entry of column k on or below the diagonal, k - 1 if there is none. */
  ghost function PivotRow(s: Mat, k: int, n: int): int { FirstMax(Col(s, k), k, n + 1) }

  ghost function Multiplier(s: Mat, k: int, l: int, i: int): real
    requires s(l, k) != 0.0
  {
    s(Swap(k, l, i), k) * (-1.0 / s(l, k))
  }

  /** One step: rows k and l exchanged in columns k.., multipliers stored in column k, the block behind reduced. */
  ghost function Eliminate(s: Mat, k: int, l: int): Mat {
    if s(l, k) == 0.0 then s else Reduced(s, k, l)
  }

  ghost function Reduced(s: Mat, k: int, l: int): Mat
    requires s(l, k) != 0.0
  {
    (i, j) =>
      if j < k then s(i, j)
      else if i <= k then s(Swap(k, l, i), j)
      else if j == k then Multiplier(s, k, l, i)
      else s(Swap(k, l, i), j) + s(l, j) * Multiplier(s, k, l, i)
  }

  /** The stored matrix after k steps on a. */
  ghost function Stage(a: Mat, n: int, k: nat): Mat {
    if k == 0 then a else Eliminate(Stage(a, n, k - 1), k, PivotRow(Stage(a, n, k - 1), k, n))
  }

  ghost function PivotAt(a: Mat, n: int, k: int): int
    requires k >= 1
  {
    PivotRow(Stage(a, n, k - 1), k, n)
  }

  /** The first m pivot searches all find a nonzero entry. */
  ghost predicate Regular(a: Mat, n: int, m: int) {
    forall p :: 1 <= p <= m ==> PivotAt(a, n, p) >= p
  }

  ghost predicate FirstColumnNonzero(m: Mat, n: int) { exists i :: 1 <= i <= n && m(i, 1) != 0.0 }

  /** The matrix that elimination has reached before step k: stored multipliers read as zeros. */
  ghost function Upper(s: Mat, k: int): Mat { (i, j) => if j < k && i > j then 0.0 else s(i, j) }

  lemma PivotRowOfColumn(s: Mat, k: int, n: int)
    ensures PivotRow(s, k, n) == FirstMax(Col(s, k), k, n + 1)
  {
  }

  lemma SearchRange(s: Mat, k: int, n: int)
    requires 1 <= k <= n
    ensures k - 1 <= PivotRow(s, k, n) <= n
    ensures PivotRow(s, k, n) == k - 1 <==> forall i :: k <= i <= n ==> s(i, k) == 0.0
  {
    FirstMaxIsFirstMaximum(Col(s, k), k, n + 1);
    if PivotRow(s, k, n) == k - 1 {
      forall i | k <= i <= n ensures s(i, k) == 0.0 { assert Col(s, k)(i) == 0.0; }
    }
  }

  lemma PivotFound(a: Mat, n: int, k: int)
    requires 1 <= k <= n && PivotAt(a, n, k) >= k
    ensures var s, l := Stage(a, n, k - 1), PivotAt(a, n, k);
      k <= l <= n && s(l, k) != 0.0 && (forall i :: k <= i <= n ==> Abs(s(i, k)) <= Abs(s(l, k)))
  {
    var s := Stage(a, n, k - 1);
    FirstMaxIsFirstMaximum(Col(s, k), k, n + 1);
    assert forall i :: Col(s, k)(i) == s(i, k);
  }

  /** Entry (i, k) of a step, computed as the code does: exchange, then scale by t. */
  lemma MultiplierEntry(s: Mat, k: int, l: int, i: int, x: real, t: real, e: real)
    requires s(l, k) != 0.0 && t == -1.0 / s(l, k)
    requires x == s(Swap(k, l, i), k) && e == if i <= k then x else x * t
    ensures Eliminate(s, k, l)(i, k) == e
  {
  }

  /** Entry (i, j) right of the pivot column, computed as the code does: exchange, then add t times the multiplier. */
  lemma ReducedColumnEntry(s: Mat, k: int, l: int, i: int, j: int, x: real, t: real, c: real, e: real)
    requires s(l, k) != 0.0 && k < j
    requires x == s(Swap(k, l, i), j) && t == s(l, j) && c == Eliminate(s, k, l)(i, k)
    requires e == if i <= k then x else x + t * c
    ensures Eliminate(s, k, l)(i, j) == e
  {
    hide Multiplier;
  }

  lemma EarlierColumnsKept(s: Mat, k: int, l: int)
    ensures forall i, j :: j < k ==> Eliminate(s, k, l)(i, j) == s(i, j)
  {
  }

  lemma ReducedEntry(x: real, p: real)
    requires p != 0.0
    ensures x + (x * (-1.0 / p)) * p == 0.0
  {
    assert (x * (-1.0 / p)) * p == x * ((-1.0 / p) * p);
  }

  /** Row by row, a step is an exchange followed by adding a multiple of the pivot row. */
  lemma StepRow(s: Mat, k: int, l: int, n: int, i: int, x: Vec)
    requires 1 <= k <= l <= n && s(l, k) != 0.0 && 1 <= i <= n
    ensures Apply(Upper(Eliminate(s, k, l), k + 1), i, x, n) ==
      Apply(Upper(s, k), Swap(k, l, i), x, n)
      + (if i <= k then 0.0 else Multiplier(s, k, l, i) * Apply(Upper(s, k), l, x, n))
  {
    hide *;
    if i <= k {
      StepRowAbove(s, k, l, n, i, x);
    } else {
      StepRowBelow(s, k, l, n, i, x, Multiplier(s, k, l, i));
    }
  }

  lemma StepRowAbove(s: Mat, k: int, l: int, n: int, i: int, x: Vec)
    requires 1 <= k <= l <= n && s(l, k) != 0.0 && 1 <= i <= k
    ensures Apply(Upper(Eliminate(s, k, l), k + 1), i, x, n) == Apply(Upper(s, k), Swap(k, l, i), x, n)
  {
    hide Upper, Eliminate, Swap, Dot;
    var u, u' := Upper(s, k), Upper(Eliminate(s, k, l), k + 1);
    forall j | 1 <= j <= n ensures Row(u', i)(j) == Row(u, Swap(k, l, i))(j) { StepEntryAbove(s, k, l, i, j); }
    DotCongruence(Row(u', i), x, Row(u, Swap(k, l, i)), x, 1, n + 1);
  }

  lemma StepRowBelow(s: Mat, k: int, l: int, n: int, i: int, x: Vec, c: real)
    requires 1 <= k <= l <= n && s(l, k) != 0.0 && k < i <= n && c == Multiplier(s, k, l, i)
    ensures Apply(Upper(Eliminate(s, k, l), k + 1), i, x, n) ==
      Apply(Upper(s, k), Swap(k, l, i), x, n) + c * Apply(Upper(s, k), l, x, n)
  {
    hide Upper, Eliminate, Multiplier, Swap, Dot;
    StepEntryBelow(s, k, l, n, i, c);
    var u, u' := Upper(s, k), Upper(Eliminate(s, k, l), k + 1);
    ApplyLinear(u', i, u, Swap(k, l, i), l, c, x, n);
  }

  /** If row i of a is row i' of b plus c times its row l, so are the sums of the rows over x. */
  lemma ApplyLinear(a: Mat, i: int, b: Mat, i': int, l: int, c: real, x: Vec, n: int)
    requires forall j :: 1 <= j <= n ==> Row(a, i)(j) == Row(b, i')(j) + c * Row(b, l)(j)
    ensures Apply(a, i, x, n) == Apply(b, i', x, n) + c * Apply(b, l, x, n)
  {
    hide Dot, Row;
    DotLinear(Row(a, i), Row(b, i'), Row(b, l), c, x, 1, n + 1);
    var d := Dot(Row(b, l), x, 1, n + 1);
    assert Apply(b, l, x, n) == d && Apply(b, i', x, n) == Dot(Row(b, i'), x, 1, n + 1);
    SameProduct(c, c, Apply(b, l, x, n), d);
    assert Apply(a, i, x, n) == Dot(Row(a, i), x, 1, n + 1);
  }

  lemma StepEntryAbove(s: Mat, k: int, l: int, i: int, j: int)
    requires k <= l && s(l, k) != 0.0 && i <= k
    ensures Upper(Eliminate(s, k, l), k + 1)(i, j) == Upper(s, k)(Swap(k, l, i), j)
  {
    hide Multiplier;
    if j < k {
      assert Upper(Eliminate(s, k, l), k + 1)(i, j) == if i > j then 0.0 else s(i, j);
    } else {
      assert Reduced(s, k, l)(i, j) == s(Swap(k, l, i), j);
    }
  }

  lemma StepEntryBelow(s: Mat, k: int, l: int, n: int, i: int, c: real)
    requires 1 <= k <= l <= n && s(l, k) != 0.0 && k < i <= n && c == Multiplier(s, k, l, i)
    ensures var u, u' := Row(Upper(s, k), Swap(k, l, i)), Row(Upper(Eliminate(s, k, l), k + 1), i);
      forall j :: 1 <= j <= n ==> u'(j) == u(j) + c * Row(Upper(s, k), l)(j)
  {
    hide Upper, Eliminate, Multiplier, Swap;
    forall j | 1 <= j <= n
      ensures Row(Upper(Eliminate(s, k, l), k + 1), i)(j)
        == Row(Upper(s, k), Swap(k, l, i))(j) + c * Row(Upper(s, k), l)(j)
    {
      StepEntry(s, k, l, i, j, c);
    }
  }

  lemma StepEntry(s: Mat, k: int, l: int, i: int, j: int, c: real)
    requires k <= l && s(l, k) != 0.0 && k < i && c == Multiplier(s, k, l, i)
    ensures Upper(Eliminate(s, k, l), k + 1)(i, j) == Upper(s, k)(Swap(k, l, i), j) + c * Upper(s, k)(l, j)
  {
    var si := Swap(k, l, i);
    var e, u := Upper(Eliminate(s, k, l), k + 1)(i, j), Upper(s, k);
    if j < k {
      assert e == 0.0 && u(si, j) == 0.0 && u(l, j) == 0.0;
    } else if j == k {
      ReducedEntry(s(si, k), s(l, k));
      assert e == 0.0 && u(si, k) == s(si, k) && u(l, k) == s(l, k);
    } else {
      assert u(si, j) == s(si, j) && u(l, j) == s(l, j);
      SameProduct(s(l, j), s(l, j), c, Multiplier(s, k, l, i));
      assert e == s(si, j) + s(l, j) * c;
    }
  }

  /** A step neither gains nor loses kernel vectors. */
  lemma StepKernel(s: Mat, k: int, l: int, n: int, x: Vec)
    requires 1 <= k <= l <= n && s(l, k) != 0.0
    ensures InKernel(Upper(s, k), x, n) <==> InKernel(Upper(Eliminate(s, k, l), k + 1), x, n)
  {
    var u, u' := Upper(s, k), Upper(Eliminate(s, k, l), k + 1);
    if InKernel(u, x, n) {
      forall i | 1 <= i <= n ensures Apply(u', i, x, n) == 0.0 {
        StepRow(s, k, l, n, i, x);
      }
    }
    if InKernel(u', x, n) {
      StepRow(s, k, l, n, k, x);
      forall i | 1 <= i <= n ensures Apply(u, i, x, n) == 0.0 {
        StepRow(s, k, l, n, Swap(k, l, i), x);
      }
    }
  }

  /** What step k does to a right-hand side, given the multipliers stored in column k of f. */
  ghost function ForwardStep(y: Vec, f: Mat, k: int, l: int): Vec {
    i => if i <= k then y(Swap(k, l, i)) else y(Swap(k, l, i)) + y(l) * f(i, k)
  }

  lemma StepSolves(s: Mat, k: int, l: int, n: int, x: Vec, y: Vec)
    requires 1 <= k <= l <= n && s(l, k) != 0.0
    requires Solves(Upper(Eliminate(s, k, l), k + 1), x, ForwardStep(y, Eliminate(s, k, l), k, l), n)
    ensures Solves(Upper(s, k), x, y, n)
  {
    var u, u', y' := Upper(s, k), Upper(Eliminate(s, k, l), k + 1), ForwardStep(y, Eliminate(s, k, l), k, l);
    StepRow(s, k, l, n, k, x);
    assert Apply(u', k, x, n) == y'(k);
    assert Apply(u, l, x, n) == y(l);
    forall i | 1 <= i <= n ensures Apply(u, i, x, n) == y(i) {
      var i' := Swap(k, l, i);
      StepRow(s, k, l, n, i', x);
      assert Apply(u', i', x, n) == y'(i');
    }
  }
}
