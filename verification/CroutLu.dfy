/** The specification and the driver of lu_decompose. */
module CroutLu {
  import opened LinearAlgebra
  import opened Triangular
  import opened CroutTheory
  import opened CroutSteps
  import opened Parity
  import opened DenseSolver
  import opened CroutSolver
  import opened CroutDecompose

  /** The error exit on a row of zeros, or the sign of the exchanges and whether a zero pivot was replaced. */
  datatype Outcome = ZeroRowError(row: nat) | Decomposed(d: real, warned: bool)

  /** g with the small value added on the diagonal where a zero pivot was replaced. */
  ghost function Bumped(g: Mat, marks: set<int>): Mat {
    (i, c) => g(i, c) + if i == c && i in marks then TINY else 0.0
  }

  ghost predicate Agree(a: Mat, b: Mat, n: int) {
    forall i, c :: 1 <= i <= n && 1 <= c <= n ==> a(i, c) == b(i, c)
  }

  /** Only the recorded interchanges matter. */
  lemma {:induction false} PermutedCongruence(index: int -> int, index': int -> int, k: nat, i: int)
    requires forall p :: 1 <= p <= k ==> index'(p) == index(p)
    ensures Permuted(index', k)(i) == Permuted(index, k)(i)
    decreases k, 1
  {
    if k == 0 {
    } else {
      PermutedCongruenceStep(index, index', k, i);
    }
  }

  lemma {:induction false} PermutedCongruenceStep(index: int -> int, index': int -> int, k: nat, i: int)
    requires k > 0 && forall p :: 1 <= p <= k ==> index'(p) == index(p)
    ensures Permuted(index', k)(i) == Permuted(index, k)(i)
    decreases k, 0
  {
    hide Permuted, Unpermuted;
    PermutationStep(index, k, i);
    PermutationStep(index', k, i);
    PermutedCongruence(index, index', k - 1, Swap(k, index(k), i));
  }

  lemma NextPermuted(pv: int -> int, pv': int -> int, j: int, i: int)
    requires 1 <= j && forall p :: 1 <= p <= j - 1 ==> pv'(p) == pv(p)
    ensures Permuted(pv', j)(i) == Permuted(pv, j - 1)(Swap(j, pv'(j), i))
  {
    hide Permuted, Unpermuted;
    PermutationStep(pv', j, i);
    PermutedCongruence(pv, pv', j - 1, Swap(j, pv'(j), i));
  }

  /** One entry of the target after step j, from the target before it. */
  lemma TargetEntry(m: Mat, pv: int -> int, pv': int -> int, n: int, j: int, marks: set<int>, zero: bool, i: int,
      c: int)
    requires 1 <= j <= pv'(j) <= n && (forall p :: 1 <= p <= j - 1 ==> pv'(p) == pv(p))
    requires forall p :: p in marks ==> 1 <= p < j
    ensures Bumped(PermutedRows(m, pv', j), if zero then marks + {j} else marks)(i, c) ==
      Bumped(PermutedRows(m, pv, j - 1), marks)(Swap(j, pv'(j), i), c) + if zero && i == j && c == j then TINY else 0.0
  {
    hide Permuted, Unpermuted;
    NextPermuted(pv, pv', j, i);
    BumpedEntry(PermutedRows(m, pv', j), m(Permuted(pv', j)(i), c), marks, j, pv'(j), zero, i, c);
    hide *;
  }

  lemma BumpedEntry(g: Mat, x: real, marks: set<int>, j: int, l: int, zero: bool, i: int, c: int)
    requires 1 <= j <= l && (forall p :: p in marks ==> 1 <= p < j) && g(i, c) == x
    ensures Bumped(g, if zero then marks + {j} else marks)(i, c) ==
      x + (if Swap(j, l, i) == c && c in marks then TINY else 0.0) + if zero && i == j && c == j then TINY else 0.0
  {
  }

  /** The target of the next column: rows j and l exchanged, the pivot entry moved if it was replaced. */
  ghost function NextTarget(goal: Mat, j: int, l: int, zero: bool): Mat {
    var g := SwapRows(goal, j, l);
    if zero then Put(g, j, j, g(j, j) + TINY) else g
  }

  lemma NextTargetEntry(goal: Mat, j: int, l: int, zero: bool, i: int, c: int)
    ensures NextTarget(goal, j, l, zero)(i, c) ==
      goal(Swap(j, l, i), c) + if zero && i == j && c == j then TINY else 0.0
  {
    assert SwapRows(goal, j, l)(i, c) == goal(Swap(j, l, i), c);
  }

  lemma TargetStep(goal: Mat, m: Mat, pv: int -> int, pv': int -> int, n: int, j: int, marks: set<int>, zero: bool)
    requires 1 <= j <= pv'(j) <= n && (forall p :: 1 <= p <= j - 1 ==> pv'(p) == pv(p))
    requires forall p :: p in marks ==> 1 <= p < j
    requires Agree(goal, Bumped(PermutedRows(m, pv, j - 1), marks), n)
    ensures Agree(NextTarget(goal, j, pv'(j), zero),
                  Bumped(PermutedRows(m, pv', j), if zero then marks + {j} else marks), n)
  {
    hide NextTarget, Bumped, PermutedRows;
    var u, v := NextTarget(goal, j, pv'(j), zero), Bumped(PermutedRows(m, pv', j), if zero then marks + {j} else marks);
    forall i, c | 1 <= i <= n && 1 <= c <= n ensures u(i, c) == v(i, c) {
      TargetEntry(m, pv, pv', n, j, marks, zero, i, c);
      NextTargetEntry(goal, j, pv'(j), zero, i, c);
    }
  }

  /** With nothing replaced so far, the target is as singular as the matrix. */
  lemma TargetSingular(goal: Mat, m: Mat, pv: int -> int, n: int, k: nat)
    requires k <= n && IsInterchange(pv, n, k) && Agree(goal, Bumped(PermutedRows(m, pv, k), {}), n)
    ensures Nonsingular(goal, n) <==> Nonsingular(m, n)
  {
    hide Nonsingular, PermutedRows;
    NonsingularCongruence(goal, PermutedRows(m, pv, k), n);
    PermutedNonsingular(m, pv, n, k);
  }

  ghost predicate Recorded(index: array<int>, pv: int -> int, k: int)
    requires k <= index.Length
    reads index
  {
    forall p :: 0 <= p < k ==> index[p] == pv(p + 1) - 1
  }

  ghost function SignOf(pv: int -> int, n: nat, k: nat): real { if Odd(Permuted(pv, k), n) then -1.0 else 1.0 }

  lemma SignStep(pv: int -> int, pv': int -> int, n: int, j: int)
    requires 1 <= j <= n && IsInterchange(pv', n, j) && forall p :: 1 <= p <= j - 1 ==> pv'(p) == pv(p)
    ensures SignOf(pv', n, j) == if pv'(j) != j then -SignOf(pv, n, j - 1) else SignOf(pv, n, j - 1)
  {
    hide Odd, Permuted;
    InterchangeFlips(pv', n, j);
    var p, p' := Permuted(pv, j - 1), Permuted(pv', j - 1);
    forall i ensures p'(i) == p(i) { PermutedCongruence(pv, pv', j - 1, i); }
    OddCongruence(p, p', n);
  }

  /** The ghost state of the decomposition: the matrix stored, its target, the exchanges, the replaced pivots. */
  datatype Progress = Progress(t: Mat, goal: Mat, pv: int -> int, marks: set<int>)

  ghost predicate Reached(s: Progress, m: Mat, n: int, k: nat) {
    && k <= n
    && BetweenColumns(s.t, s.goal, n, k)
    && IsInterchange(s.pv, n, k)
    && (forall p :: p in s.marks ==> 1 <= p <= k)
    && Agree(s.goal, Bumped(PermutedRows(m, s.pv, k), s.marks), n)
    && (s.marks != {} ==> !Nonsingular(m, n))
  }

  ghost function Next(s: Progress, t: Mat, j: int, l: int, zero: bool): Progress {
    var marks := if zero then s.marks + {j} else s.marks;
    Progress(t, NextTarget(s.goal, j, l, zero), q => if q == j then l else s.pv(q), marks)
  }

  lemma ReachedStart(m: Mat, pv: int -> int, n: nat)
    ensures Reached(Progress(m, m, pv, {}), m, n, 0)
  {
    hide Nonsingular, ProductAt;
    var b := Bumped(PermutedRows(m, pv, 0), {});
    forall i, c | 1 <= i <= n && 1 <= c <= n ensures m(i, c) == b(i, c) {
      assert b(i, c) == PermutedRows(m, pv, 0)(i, c) == m(Permuted(pv, 0)(i), c);
    }
  }

  lemma ReachedNext(s: Progress, m: Mat, t: Mat, n: int, j: int, l: int, zero: bool)
    requires 1 <= j <= l <= n && Reached(s, m, n, j - 1) && BetweenColumns(t, NextTarget(s.goal, j, l, zero), n, j)
    requires zero ==> !Nonsingular(s.goal, n)
    ensures Reached(Next(s, t, j, l, zero), m, n, j)
  {
    hide Nonsingular, BetweenColumns, NextTarget, Agree, Bumped, PermutedRows;
    var s' := Next(s, t, j, l, zero);
    if zero && s.marks == {} { TargetSingular(s.goal, m, s.pv, n, j - 1); }
    TargetStep(s.goal, m, s.pv, s'.pv, n, j, s.marks, zero);
  }

  /** The warning is given exactly for the singular matrices. */
  lemma WarnedIffSingular(s: Progress, m: Mat, n: nat)
    requires Reached(s, m, n, n)
    ensures s.marks != {} <==> !Nonsingular(m, n)
  {
    hide Nonsingular, Factored, NonzeroDiagonal, Agree, Bumped, PermutedRows;
    if s.marks == {} {
      FactoredNonsingular(s.t, s.goal, n);
      TargetSingular(s.goal, m, s.pv, n, n);
    }
  }

  lemma TargetFactored(s: Progress, m: Mat, n: nat)
    requires Reached(s, m, n, n)
    ensures Factored(s.t, Bumped(PermutedRows(m, s.pv, n), s.marks), n, n) && NonzeroDiagonal(s.t, n)
  {
    hide Nonsingular, Bumped, PermutedRows, ProductAt;
    FactoredKept(s.t, s.t, s.goal, Bumped(PermutedRows(m, s.pv, n), s.marks), n, n);
  }

  /**
   * The factorization of any matrix: an error for a row of zeros, otherwise the factors of the matrix with
   * permuted rows, moved by the small value where a pivot was zero. The sign is that of the permutation.
   */
  method LuDecompose(n: nat, a: array2<real>, index: array<int>, ghost m: Mat)
    returns (outcome: Outcome, ghost s: Progress)
    requires Holds(a, m, n) && n <= index.Length
    modifies a, index
    ensures Nonsingular(m, n) <==> outcome.Decomposed? && !outcome.warned
    ensures outcome.ZeroRowError? ==> outcome.row < n && ZeroRow(a, n, outcome.row) && Holds(a, m, n)
    ensures outcome.Decomposed? ==>
      && Holds(a, s.t, n) && NonzeroDiagonal(s.t, n)
      && Factored(s.t, Bumped(PermutedRows(m, s.pv, n), s.marks), n, n)
      && Recorded(index, s.pv, n) && IsInterchange(s.pv, n, n)
      && outcome.d == SignOf(s.pv, n, n)
      && (outcome.warned <==> s.marks != {})
  {
    hide Nonsingular, BetweenColumns, Factored, NonzeroDiagonal, Agree, Bumped, PermutedRows, SignOf, IsScale;
    s := Progress(m, m, q => q, {});
    var vv := new real[n];
    var zeroRow := RowScales(a, n, vv);
    if zeroRow < n {
      RowOfZeros(a, m, n, zeroRow);
      return ZeroRowError(zeroRow), s;
    }
    ScalesPositive(a, n, vv);
    var d, warned;
    d, warned, s := FactorColumns(n, a, index, vv, m);
    WarnedIffSingular(s, m, n);
    TargetFactored(s, m, n);
    return Decomposed(d, warned), s;
  }

  lemma RowOfZeros(a: array2<real>, m: Mat, n: nat, r: nat)
    requires Holds(a, m, n) && r < n && ZeroRow(a, n, r)
    ensures !Nonsingular(m, n)
  {
    hide Nonsingular;
    var i := r + 1;
    forall c | 1 <= c <= n ensures m(i, c) == 0.0 { assert a[r, c - 1] == 0.0; }
    ZeroRowIsSingular(m, n, i);
  }

  lemma ScalesPositive(a: array2<real>, n: nat, vv: array<real>)
    requires n <= a.Length0 && n <= a.Length1 && n <= vv.Length
    requires forall r :: 0 <= r < n ==> IsScale(a, n, r, vv[r])
    ensures PositiveScales(vv, n)
  {
  }

  method FactorColumns(n: nat, a: array2<real>, index: array<int>, vv: array<real>, ghost m: Mat)
    returns (d: real, warned: bool, ghost s: Progress)
    requires Holds(a, m, n) && n <= index.Length && n <= vv.Length && PositiveScales(vv, n)
    modifies a, index, vv
    ensures Holds(a, s.t, n) && Reached(s, m, n, n) && Recorded(index, s.pv, n)
    ensures d == SignOf(s.pv, n, n) && (warned <==> s.marks != {})
  {
    hide Reached, SignOf, Next, Holds, Nonsingular;
    s := Progress(m, m, q => q, {});
    d, warned := 1.0, false;
    ReachedStart(m, s.pv, n);
    SignStart(s.pv, n);
    for j := 0 to n
      invariant Holds(a, s.t, n) && Reached(s, m, n, j) && PositiveScales(vv, n)
      invariant Recorded(index, s.pv, j) && d == SignOf(s.pv, n, j) && (warned <==> s.marks != {})
    {
      d, warned, s := NextColumn(n, a, index, vv, j, d, warned, m, s);
    }
  }

  lemma SignStart(pv: int -> int, n: nat)
    ensures SignOf(pv, n, 0) == 1.0
  {
    hide Odd;
    IdentityEven(n);
    OddCongruence(i => i, Permuted(pv, 0), n);
  }

  method NextColumn(n: nat, a: array2<real>, index: array<int>, vv: array<real>, j: nat, d: real, warned: bool,
      ghost m: Mat, ghost s: Progress)
    returns (d': real, warned': bool, ghost s': Progress)
    requires Holds(a, s.t, n) && j < n && n <= index.Length && n <= vv.Length && PositiveScales(vv, n)
    requires Reached(s, m, n, j) && Recorded(index, s.pv, j) && d == SignOf(s.pv, n, j) && (warned <==> s.marks != {})
    modifies a, index, vv
    ensures Holds(a, s'.t, n) && Reached(s', m, n, j + 1) && PositiveScales(vv, n)
    ensures Recorded(index, s'.pv, j + 1) && d' == SignOf(s'.pv, n, j + 1) && (warned' <==> s'.marks != {})
  {
    hide Holds, SignOf, Nonsingular, BetweenColumns, Agree, Bumped, PermutedRows;
    var imax, zero;
    ghost var t, goal;
    imax, d', zero, t, goal := FactorColumn(a, n, vv, j, d, s.t, s.goal);
    index[j] := imax;
    s' := Next(s, t, j + 1, imax + 1, zero);
    assert goal == s'.goal;
    ReachedNext(s, m, t, n, j + 1, imax + 1, zero);
    SignStep(s.pv, s'.pv, n, j + 1);
    warned' := warned || zero;
  }
}
