/** lu_backsub: substitution with the factors of lu_decompose, skipping the leading zeros of the right-hand side. */
module CroutSolve {
  import opened RealArithmetic
  import opened LinearAlgebra
  import opened Elimination
  import opened Triangular
  import opened CroutTheory
  import opened DenseSolver
  import opened CroutLu

  ghost predicate VecHolds(b: array<real>, z: Vec, n: int)
    reads b
  {
    0 <= n <= b.Length && forall r :: 0 <= r < n ==> b[r] == z(r + 1)
  }

  ghost function PermutedVec(y: Vec, pv: int -> int, k: nat): Vec { i => y(Permuted(pv, k)(i)) }

  ghost function PutAt(z: Vec, k: int, v: real): Vec { r => if r == k then v else z(r) }

  lemma PermutedVecStep(y: Vec, pv: int -> int, k: nat, r: int)
    requires k > 0
    ensures PermutedVec(y, pv, k)(r) == PermutedVec(y, pv, k - 1)(Swap(k, pv(k), r))
  {
    hide Permuted, Unpermuted;
    PermutationStep(pv, k, r);
  }

  /** Components 1..k solve the unit lower system, the rest are still right-hand side. */
  ghost predicate LowerDone(f: Mat, z: Vec, p: Vec, n: int, k: int) {
    && (forall r :: 1 <= r <= k ==> z(r) + Dot(Row(f, r), z, 1, r) == p(r))
    && (forall r :: k < r <= n ==> z(r) == p(r))
  }

  lemma LowerStep(f: Mat, z: Vec, z': Vec, p: Vec, p': Vec, n: int, k: int, l: int)
    requires 1 <= k <= l <= n && LowerDone(f, z, p, n, k - 1)
    requires forall r :: 1 <= r <= n ==> p'(r) == p(Swap(k, l, r))
    requires z'(k) == p'(k) - Dot(Row(f, k), z, 1, k)
    requires forall r :: 1 <= r <= n && r != k ==> z'(r) == z(Swap(k, l, r))
    ensures LowerDone(f, z', p', n, k)
  {
    hide Dot;
    forall r | 1 <= r <= k ensures z'(r) + Dot(Row(f, r), z', 1, r) == p'(r) {
      DotCongruence(Row(f, r), z', Row(f, r), z, 1, r);
    }
  }

  /** All components before position first are zero; with no first, all of the first k. */
  ghost predicate LeadingZeros(z: Vec, first: int, k: int) {
    && -1 <= first < k
    && forall r :: 1 <= r <= (if first == -1 then k else first) ==> z(r) == 0.0
  }

  /** The inner product that skips the leading zeros; the first nonzero start marks where they end. */
  method SkippedSum(a: array2<real>, b: array<real>, n: int, i: int, first: int, start: real, ghost f: Mat,
      ghost z: Vec)
    returns (sum: real, first': int)
    requires Holds(a, f, n) && VecHolds(b, z, n) && 0 <= i < n && LeadingZeros(z, first, i)
    ensures sum == start - Dot(Row(f, i + 1), z, 1, i + 1)
    ensures first' == if first == -1 && sum != 0.0 then i else first
  {
    hide Dot;
    sum, first' := start, first;
    ghost var u := Row(f, i + 1);
    if first != -1 {
      DotZero(u, z, 1, first + 1);
      for j := first to i
        invariant sum == start - Dot(u, z, 1, j + 1)
      {
        var term := a[i, j] * b[j];
        NextTerm(u, z, 1, j + 1, a[i, j], b[j], term);
        sum := sum - term;
      }
    } else {
      DotZero(u, z, 1, i + 1);
      if sum != 0.0 { first' := i; }
    }
  }

  lemma ZerosStep(z: Vec, z': Vec, first: int, k: int, l: int, v: real)
    requires 0 <= k < l && LeadingZeros(z, first, k) && z' == PutAt(PutAt(z, l, z(k + 1)), k + 1, v)
    ensures LeadingZeros(z', if first == -1 && v != 0.0 then k else first, k + 1)
  {
  }

  /** One forward step: take over the exchanged component, subtract what is known. */
  method ForwardComponent(a: array2<real>, b: array<real>, n: int, index: array<int>, i: int, first: int,
      ghost f: Mat, ghost pv: int -> int, ghost y: Vec, ghost z: Vec)
    returns (first': int, ghost z': Vec)
    requires Holds(a, f, n) && VecHolds(b, z, n) && 0 <= i < n <= index.Length
    requires Recorded(index, pv, n) && IsInterchange(pv, n, n)
    requires LowerDone(f, z, PermutedVec(y, pv, i), n, i) && LeadingZeros(z, first, i)
    modifies b
    ensures VecHolds(b, z', n) && LowerDone(f, z', PermutedVec(y, pv, i + 1), n, i + 1)
    ensures LeadingZeros(z', first', i + 1)
  {
    hide LowerDone, PermutedVec, Dot;
    var ip := index[i];
    var sum := b[ip];
    b[ip] := b[i];
    ghost var z1 := PutAt(z, ip + 1, z(i + 1));
    ghost var start := sum;
    sum, first' := SkippedSum(a, b, n, i, first, sum, f, z1);
    DotCongruence(Row(f, i + 1), z1, Row(f, i + 1), z, 1, i + 1);
    b[i] := sum;
    z' := PutAt(z1, i + 1, sum);
    ComponentDone(f, z, z', pv, y, n, i + 1, start, sum);
    ZerosStep(z, z', first, i, ip + 1, sum);
  }

  lemma ComponentDone(f: Mat, z: Vec, z': Vec, pv: int -> int, y: Vec, n: int, k: int, start: real, sum: real)
    requires 1 <= k <= pv(k) <= n && LowerDone(f, z, PermutedVec(y, pv, k - 1), n, k - 1)
    requires start == z(pv(k)) && sum == start - Dot(Row(f, k), z, 1, k)
    requires z' == PutAt(PutAt(z, pv(k), z(k)), k, sum)
    ensures LowerDone(f, z', PermutedVec(y, pv, k), n, k)
  {
    hide Dot, PermutedVec;
    var p, p' := PermutedVec(y, pv, k - 1), PermutedVec(y, pv, k);
    forall r | 1 <= r <= n ensures p'(r) == p(Swap(k, pv(k), r)) { PermutedVecStep(y, pv, k, r); }
    LowerStep(f, z, z', p, p', n, k, pv(k));
  }

  /** Components above k solve the upper system, the others are still the forward result. */
  ghost predicate UpperDone(f: Mat, z: Vec, w: Vec, n: int, k: int) {
    && (forall r :: k < r <= n ==> Dot(Row(f, r), z, r, n + 1) == w(r))
    && (forall r :: 1 <= r <= k ==> z(r) == w(r))
  }

  lemma UpperStep(f: Mat, z: Vec, w: Vec, n: int, k: int, sum: real)
    requires 1 <= k <= n && UpperDone(f, z, w, n, k) && f(k, k) != 0.0
    requires sum == z(k) - Dot(Row(f, k), z, k + 1, n + 1)
    ensures UpperDone(f, PutAt(z, k, sum / f(k, k)), w, n, k - 1)
  {
    hide Dot;
    var z' := PutAt(z, k, sum / f(k, k));
    forall r | k < r <= n ensures Dot(Row(f, r), z', r, n + 1) == w(r) {
      DotCongruence(Row(f, r), z', Row(f, r), z, r, n + 1);
    }
    DotSplit(Row(f, k), z', k, k + 1, n + 1);
    OneTerm(Row(f, k), z', k);
    DotCongruence(Row(f, k), z', Row(f, k), z, k + 1, n + 1);
    Cancel(f(k, k), sum);
  }

  method BackwardComponent(a: array2<real>, b: array<real>, n: int, i: int, ghost f: Mat, ghost z: Vec, ghost w: Vec)
    returns (ghost z': Vec)
    requires Holds(a, f, n) && VecHolds(b, z, n) && 0 <= i < n && f(i + 1, i + 1) != 0.0 && UpperDone(f, z, w, n, i + 1)
    modifies b
    ensures VecHolds(b, z', n) && UpperDone(f, z', w, n, i)
  {
    hide Dot, UpperDone;
    var sum := b[i];
    ghost var u := Row(f, i + 1);
    DotZero(u, z, i + 2, i + 2);
    for j := i + 1 to n
      invariant VecHolds(b, z, n)
      invariant sum == z(i + 1) - Dot(u, z, i + 2, j + 1)
    {
      var term := a[i, j] * b[j];
      NextTerm(u, z, i + 2, j + 1, a[i, j], b[j], term);
      sum := sum - term;
    }
    b[i] := sum / a[i, i];
    UpperStep(f, z, w, n, i + 1, sum);
    z' := PutAt(z, i + 1, sum / f(i + 1, i + 1));
  }

  lemma TriangularSolved(f: Mat, g: Mat, n: int, x: Vec, w: Vec, p: Vec)
    requires n >= 0 && Factored(f, g, n, n) && UpperDone(f, x, w, n, 0) && LowerDone(f, w, p, n, n)
    ensures Solves(g, x, p, n)
  {
    hide Dot, Factored;
    forall k | 1 <= k <= n ensures Apply(Upper(f, n), k, x, n) == w(k) { UpperRow(f, x, n, k); }
    forall i | 1 <= i <= n ensures Apply(g, i, x, n) == p(i) {
      FactoredApply(f, g, n, n, x, w, i);
      UnitRow(f, w, n, i);
    }
  }

  lemma UnitRow(f: Mat, w: Vec, n: int, i: int)
    requires 1 <= i <= n
    ensures Dot(Row(UnitLower(f), i), w, 1, n + 1) == w(i) + Dot(Row(f, i), w, 1, i)
  {
    hide Dot;
    var u := Row(UnitLower(f), i);
    DotSplit(u, w, 1, i, n + 1);
    DotSplit(u, w, i, i + 1, n + 1);
    DotCongruence(u, w, Row(f, i), w, 1, i);
    OneTerm(u, w, i);
    DotZero(u, w, i + 1, n + 1);
  }

  /** Given the factors of g, the right-hand side y becomes the solution for y in permuted order. */
  method LuBacksub(n: nat, a: array2<real>, index: array<int>, b: array<real>,
      ghost f: Mat, ghost g: Mat, ghost pv: int -> int, ghost y: Vec)
    returns (ghost x: Vec)
    requires Holds(a, f, n) && NonzeroDiagonal(f, n) && Factored(f, g, n, n)
    requires n <= index.Length && Recorded(index, pv, n) && IsInterchange(pv, n, n)
    requires VecHolds(b, y, n)
    modifies b
    ensures VecHolds(b, x, n) && Solves(g, x, PermutedVec(y, pv, n), n)
  {
    hide Factored, LowerDone, UpperDone, Solves, PermutedVec;
    var ii := -1;
    x := y;
    ForwardStart(f, y, pv, n);
    for i := 0 to n
      invariant VecHolds(b, x, n) && LowerDone(f, x, PermutedVec(y, pv, i), n, i) && LeadingZeros(x, ii, i)
    {
      ii, x := ForwardComponent(a, b, n, index, i, ii, f, pv, y, x);
    }
    ghost var w := x;
    BackwardStart(f, w, n);
    for i := n downto 0
      invariant VecHolds(b, x, n) && UpperDone(f, x, w, n, i)
    {
      x := BackwardComponent(a, b, n, i, f, x, w);
    }
    TriangularSolved(f, g, n, x, w, PermutedVec(y, pv, n));
  }

  lemma ForwardStart(f: Mat, y: Vec, pv: int -> int, n: int)
    ensures LowerDone(f, y, PermutedVec(y, pv, 0), n, 0)
  {
    forall r ensures PermutedVec(y, pv, 0)(r) == y(r) { assert PermutedVec(y, pv, 0)(r) == y(Permuted(pv, 0)(r)); }
  }

  lemma BackwardStart(f: Mat, w: Vec, n: int)
    ensures UpperDone(f, w, w, n, n)
  {
  }

  /** Solving the system with permuted rows solves the system itself. */
  lemma PermutedSystem(m: Mat, pv: int -> int, n: nat, x: Vec, y: Vec)
    requires IsInterchange(pv, n, n) && Solves(PermutedRows(m, pv, n), x, PermutedVec(y, pv, n), n)
    ensures Solves(m, x, y, n)
  {
    hide Permuted, Unpermuted, Dot;
    forall r | 1 <= r <= n ensures Apply(m, r, x, n) == y(r) {
      PermutationInverse(pv, n, n, r);
      var i := Unpermuted(pv, n)(r);
      PermutedApply(m, pv, n, x, n, i);
      assert Apply(PermutedRows(m, pv, n), i, x, n) == PermutedVec(y, pv, n)(i) == y(Permuted(pv, n)(i));
    }
  }

  /** lu_decompose and lu_backsub in sequence: for a nonsingular matrix, exactly the solution of the system. */
  method SolveSystem(n: nat, a: array2<real>, index: array<int>, b: array<real>, ghost m: Mat, ghost y: Vec)
    returns (outcome: Outcome, ghost x: Vec)
    requires Holds(a, m, n) && n <= index.Length && VecHolds(b, y, n)
    modifies a, index, b
    ensures Nonsingular(m, n) <==> outcome.Decomposed? && !outcome.warned
    ensures Nonsingular(m, n) ==> VecHolds(b, x, n) && Solves(m, x, y, n)
  {
    hide Nonsingular, Factored, NonzeroDiagonal, Solves, PermutedVec, PermutedRows, Bumped, SignOf;
    x := y;
    ghost var s;
    outcome, s := LuDecompose(n, a, index, m);
    if outcome.Decomposed? {
      ghost var g := Bumped(PermutedRows(m, s.pv, n), s.marks);
      x := LuBacksub(n, a, index, b, s.t, g, s.pv, y);
      if s.marks == {} {
        UnbumpedSystem(PermutedRows(m, s.pv, n), x, PermutedVec(y, s.pv, n), n);
        PermutedSystem(m, s.pv, n, x, y);
      }
    }
  }

  lemma UnbumpedSystem(g: Mat, x: Vec, p: Vec, n: int)
    requires Solves(Bumped(g, {}), x, p, n)
    ensures Solves(g, x, p, n)
  {
    forall i | 1 <= i <= n ensures Apply(g, i, x, n) == p(i) {
      DotCongruence(Row(g, i), x, Row(Bumped(g, {}), i), x, 1, n + 1);
      assert Apply(Bumped(g, {}), i, x, n) == p(i);
    }
  }
}
