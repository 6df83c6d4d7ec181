/** c_sgefa and c_sgesl: in-place factorization of a full matrix and the solves with its factors. */
module DenseSolver {
  import opened LinearAlgebra
  import opened Kernels
  import opened Elimination
  import opened Triangular
  import opened Factorization
  import opened TransposedSolve

  /** The leading n x n part of the array is the matrix s. */
  ghost predicate Holds(a: array2<real>, s: Mat, n: int)
    reads a
  {
    && 0 <= n <= a.Length0 && n <= a.Length1
    && forall r, c :: 0 <= r < n && 0 <= c < n ==> a[r, c] == s(r + 1, c + 1)
  }

  /** Zero-based column c of the array is column c + 1 of s. */
  ghost predicate ColumnHolds(a: array2<real>, s: Mat, n: int, c: int)
    requires 0 <= n <= a.Length0 && 0 <= c < a.Length1
    reads a
  {
    forall r :: 0 <= r < n ==> a[r, c] == s(r + 1, c + 1)
  }

  /** The last step whose pivot search ended on a zero entry, or 0. */
  ghost function ZeroPivot(a: Mat, n: int, k: nat): int {
    if k == 0 then 0
    else if Stage(a, n, k - 1)(PivotAt(a, n, k), k) == 0.0 then k else ZeroPivot(a, n, k - 1)
  }

  /** The exchange within column c + 1 >= k. */
  method ExchangeInColumn(a: array2<real>, n: int, k: int, l: int, c: int, ghost s: Mat)
    requires 1 <= k <= n <= a.Length0 && 1 <= l <= n && 0 <= c < a.Length1
    requires ColumnHolds(a, s, n, c)
    modifies a
    ensures forall r :: 0 <= r < n ==> a[r, c] == s(Swap(k, l, r + 1), c + 1)
    ensures forall r, c' :: 0 <= r < a.Length0 && 0 <= c' < a.Length1 && (c' != c || r >= n) ==>
      a[r, c'] == old(a[r, c'])
  {
    var t := a[l - 1, c];
    if l != k {
      a[l - 1, c] := a[k - 1, c];
      a[k - 1, c] := t;
    }
  }

  /** Exchange within column k, then turn what lies below the diagonal into multipliers. */
  method MakeMultipliers(a: array2<real>, n: int, k: int, l: int, ghost s: Mat)
    requires Holds(a, s, n) && 1 <= k < n && 1 <= l <= n && s(l, k) != 0.0
    modifies a
    ensures ColumnHolds(a, Eliminate(s, k, l), n, k - 1)
    ensures forall r, c :: 0 <= r < a.Length0 && 0 <= c < a.Length1 && c != k - 1 ==> a[r, c] == old(a[r, c])
  {
    hide Reduced, Multiplier;
    ExchangeInColumn(a, n, k, l, k - 1, s);
    var t := -1.0 / a[k - 1, k - 1];
    label exchanged:
    Sscal(n - k, t, a, k, k - 1);
    ghost var c := k - 1;
    forall r | 0 <= r < n ensures a[r, c] == Eliminate(s, k, l)(r + 1, c + 1) {
      MultiplierEntry(s, k, l, r + 1, old@exchanged(a[r, c]), t, a[r, c]);
    }
  }

  /** Exchange within column c + 1 > k, then add the multiples of its pivot entry. */
  method ReduceColumn(a: array2<real>, n: int, k: int, l: int, c: int, ghost s: Mat)
    requires 1 <= k <= c < n <= a.Length0 && n <= a.Length1 && 1 <= l <= n && s(l, k) != 0.0
    requires ColumnHolds(a, Eliminate(s, k, l), n, k - 1) && ColumnHolds(a, s, n, c)
    modifies a
    ensures ColumnHolds(a, Eliminate(s, k, l), n, c)
    ensures forall r, c' :: 0 <= r < a.Length0 && 0 <= c' < a.Length1 && c' != c ==> a[r, c'] == old(a[r, c'])
  {
    hide Eliminate;
    var t := a[l - 1, c];
    ExchangeInColumn(a, n, k, l, c, s);
    label exchanged:
    ghost var d := k - 1;
    Saxpy(n - k, t, a, k, k - 1, a, k, c);
    forall r | 0 <= r < n ensures a[r, c] == Eliminate(s, k, l)(r + 1, c + 1) {
      ReducedColumnEntry(s, k, l, r + 1, c + 1, old@exchanged(a[r, c]), t, a[r, d], a[r, c]);
    }
  }

  /** One step of the factorization: column k becomes multipliers, the columns behind it are reduced. */
  method EliminateStep(a: array2<real>, n: int, k: int, l: int, ghost s: Mat)
    requires Holds(a, s, n) && 1 <= k < n && 1 <= l <= n && s(l, k) != 0.0
    modifies a
    ensures Holds(a, Eliminate(s, k, l), n)
  {
    hide Eliminate;
    MakeMultipliers(a, n, k, l, s);
    EarlierColumnsKept(s, k, l);
    assert forall r, c :: 0 <= r < n && 0 <= c < k - 1 ==> a[r, c] == Eliminate(s, k, l)(r + 1, c + 1);
    for c := k to n
      invariant forall r, c' :: 0 <= r < n && 0 <= c' < c ==> a[r, c'] == Eliminate(s, k, l)(r + 1, c' + 1)
      invariant forall r, c' :: 0 <= r < n && c <= c' < n ==> a[r, c'] == s(r + 1, c' + 1)
    {
      ReduceColumn(a, n, k, l, c, s);
    }
  }

  ghost predicate PivotsStored(ipvt: array<int>, a: Mat, n: int, k: int)
    requires k <= ipvt.Length
    reads ipvt
  {
    forall p :: 0 <= p < k ==> ipvt[p] == PivotAt(a, n, p + 1)
  }

  lemma StageFromLast(m: Mat, n: int, k: int)
    requires 1 <= k
    ensures var s := Stage(m, n, k - 1);
      Stage(m, n, k) == (if s(PivotAt(m, n, k), k) == 0.0 then s else Eliminate(s, k, PivotAt(m, n, k)))
    ensures k == 1 ==> Stage(m, n, k - 1) == m
  {
  }

  /** Pivot search and elimination of step k. On an all-zero column the search answers 0, so row k - 1 is read. */
  method FactorStep(a: array2<real>, n: int, k: int, ghost m: Mat) returns (l: int, zero: bool)
    requires 1 <= k < n && Holds(a, Stage(m, n, k - 1), n)
    requires k == 1 ==> FirstColumnNonzero(m, n)
    modifies a
    ensures Holds(a, Stage(m, n, k), n)
    ensures l == PivotAt(m, n, k) && zero == (Stage(m, n, k - 1)(l, k) == 0.0)
  {
    hide Eliminate, Stage, FirstMax, PivotRow;
    ghost var s := Stage(m, n, k - 1);
    StageFromLast(m, n, k);
    SearchRange(s, k, n);
    PivotRowOfColumn(s, k, n);
    var p := Isamax(n - k + 1, a, k - 1, k - 1, Col(s, k), k);
    l := p + k - 1;
    zero := a[l - 1, k - 1] == 0.0;
    if !zero {
      EliminateStep(a, n, k, l, s);
    }
  }

  lemma PivotsOfNonsingular(m: Mat, n: int)
    requires n >= 1 && Nonsingular(m, n)
    ensures NonzeroDiagonal(Factors(m, n), n) && ZeroPivot(m, n, n - 1) == 0
    ensures forall k :: 1 <= k <= n ==> k <= Pivots(m, n)(k) <= n
  {
    hide Stage, ZeroPivot, Nonsingular;
    RegularIffNonsingular(m, n);
    FactorDiagonal(m, n);
    NoZeroPivot(m, n, n - 1);
    forall k | 1 <= k <= n ensures k <= Pivots(m, n)(k) <= n {
      if k < n { PivotFound(m, n, k); }
    }
  }

  lemma {:induction false} NoZeroPivot(m: Mat, n: int, k: nat)
    requires k <= n && Regular(m, n, n)
    ensures ZeroPivot(m, n, k) == 0
  {
    if k > 0 {
      hide Stage;
      PivotFound(m, n, k);
      NoZeroPivot(m, n, k - 1);
    }
  }

  /** What c_sgefa returns: the last zero pivot it met. */
  ghost function Info(m: Mat, n: int): int
    requires n >= 1
  {
    if Factors(m, n)(n, n) == 0.0 then n else ZeroPivot(m, n, n - 1)
  }

  lemma InfoOfIndependent(m: Mat, n: int)
    requires n >= 1
    ensures Nonsingular(m, n) ==> Info(m, n) == 0
    ensures ColumnsIndependent(m, n, n - 1) ==> (Info(m, n) == 0 <==> Nonsingular(m, n))
  {
    hide Stage, Nonsingular, ZeroPivot, PivotAt, ColumnsIndependent, Regular;
    if Nonsingular(m, n) { PivotsOfNonsingular(m, n); }
    RegularIffIndependent(m, n, n - 1);
    if Regular(m, n, n - 1) { LastPivotDecides(m, n); }
  }

  lemma ZeroPivotStep(m: Mat, n: int, k: nat)
    ensures k == 0 ==> Stage(m, n, k) == m && ZeroPivot(m, n, k) == 0
    ensures k > 0 ==>
      ZeroPivot(m, n, k) == if Stage(m, n, k - 1)(PivotAt(m, n, k), k) == 0.0 then k else ZeroPivot(m, n, k - 1)
  {
  }

  /** One step of the factorization with its pivot and zero-pivot record. */
  method RecordedStep(a: array2<real>, n: int, k: int, ipvt: array<int>, info: int, ghost m: Mat) returns (info': int)
    requires 1 <= k < n <= ipvt.Length && Holds(a, Stage(m, n, k - 1), n) && PivotsStored(ipvt, m, n, k - 1)
    requires k == 1 ==> FirstColumnNonzero(m, n)
    requires info == ZeroPivot(m, n, k - 1)
    modifies a, ipvt
    ensures Holds(a, Stage(m, n, k), n) && PivotsStored(ipvt, m, n, k)
    ensures info' == ZeroPivot(m, n, k)
  {
    hide Stage, Holds, PivotAt, ZeroPivot, FirstColumnNonzero, PivotRow, FirstMax;
    ZeroPivotStep(m, n, k);
    var l, zero := FactorStep(a, n, k, m);
    ipvt[k - 1] := l;
    info' := if zero then k else info;
  }

  /** The steps k = 1 .. n - 1 of the factorization. */
  method FactorSteps(a: array2<real>, n: int, ipvt: array<int>, ghost m: Mat) returns (info: int)
    requires 1 <= n <= ipvt.Length && Holds(a, m, n)
    requires n > 1 ==> FirstColumnNonzero(m, n)
    modifies a, ipvt
    ensures Holds(a, Factors(m, n), n) && PivotsStored(ipvt, m, n, n - 1)
    ensures info == ZeroPivot(m, n, n - 1)
  {
    hide Stage, Holds, PivotAt, ZeroPivot, FirstColumnNonzero, PivotRow, FirstMax;
    ZeroPivotStep(m, n, 0);
    info := 0;
    for k := 1 to n
      invariant Holds(a, Stage(m, n, k - 1), n)
      invariant PivotsStored(ipvt, m, n, k - 1)
      invariant info == ZeroPivot(m, n, k - 1)
    {
      info := RecordedStep(a, n, k, ipvt, info, m);
    }
  }

  /**
   * c_sgefa. With more than one row, a zero first column would make the pivot search answer 0 and the
   * code read A(0,1); that is the only input for which it leaves the array.
   */
  method Sgefa(a: array2<real>, n: int, ipvt: array<int>, ghost m: Mat) returns (info: int)
    requires 1 <= n <= ipvt.Length && Holds(a, m, n)
    requires n > 1 ==> FirstColumnNonzero(m, n)
    modifies a, ipvt
    ensures Holds(a, Factors(m, n), n)
    ensures forall p :: 0 <= p < n ==> ipvt[p] == Pivots(m, n)(p + 1)
    ensures info == Info(m, n)
    ensures Nonsingular(m, n) ==> info == 0
    ensures ColumnsIndependent(m, n, n - 1) ==> (info == 0 <==> Nonsingular(m, n))
  {
    hide Stage, Nonsingular, PivotAt, ZeroPivot, FirstColumnNonzero, ColumnsIndependent, Regular;
    info := FactorSteps(a, n, ipvt, m);
    ipvt[n - 1] := n;
    if a[n - 1, n - 1] == 0.0 { info := n; }
    InfoOfIndependent(m, n);
  }

  /** A one-column array holds the vector y. */
  ghost predicate VectorHolds(b: array2<real>, y: Vec, n: int)
    reads b
  {
    && 0 <= n <= b.Length0 && 1 <= b.Length1
    && forall r :: 0 <= r < n ==> b[r, 0] == y(r + 1)
  }

  method ForwardEliminate(a: array2<real>, n: int, k: int, l: int, b: array2<real>, ghost f: Mat, ghost y: Vec)
    requires a != b && Holds(a, f, n) && VectorHolds(b, y, n) && 1 <= k < n && 1 <= l <= n
    modifies b
    ensures VectorHolds(b, ForwardStep(y, f, k, l), n)
  {
    hide ForwardStep;
    var t := b[l - 1, 0];
    if l != k {
      b[l - 1, 0] := b[k - 1, 0];
      b[k - 1, 0] := t;
    }
    label exchanged:
    Saxpy(n - k, t, a, k, k - 1, b, k, 0);
    ghost var c := k - 1;
    forall r | 0 <= r < n ensures b[r, 0] == ForwardStep(y, f, k, l)(r + 1) {
      ForwardEntry(y, f, k, l, r + 1, old@exchanged(b[r, 0]), t, a[r, c], b[r, 0]);
    }
  }

  lemma ForwardEntry(y: Vec, f: Mat, k: int, l: int, i: int, x: real, t: real, c: real, e: real)
    requires x == y(Swap(k, l, i)) && t == y(l) && c == f(i, k) && e == if i <= k then x else x + t * c
    ensures ForwardStep(y, f, k, l)(i) == e
  {
  }

  method BackSubstitute(a: array2<real>, n: int, k: int, b: array2<real>, ghost f: Mat, ghost y: Vec)
    requires a != b && Holds(a, f, n) && VectorHolds(b, y, n) && 1 <= k <= n && f(k, k) != 0.0
    modifies b
    ensures VectorHolds(b, BackStep(f, y, k), n)
  {
    hide BackStep;
    b[k - 1, 0] := b[k - 1, 0] / a[k - 1, k - 1];
    var t := -b[k - 1, 0];
    label divided:
    Saxpy(k - 1, t, a, 0, k - 1, b, 0, 0);
    ghost var c := k - 1;
    forall r | 0 <= r < n ensures b[r, 0] == BackStep(f, y, k)(r + 1) {
      BackEntry(f, y, k, r + 1, old@divided(b[r, 0]), t, a[r, c], b[r, 0]);
    }
  }

  lemma BackEntry(f: Mat, y: Vec, k: int, i: int, x: real, t: real, c: real, e: real)
    requires f(k, k) != 0.0 && t == -(y(k) / f(k, k)) && c == f(i, k)
    requires x == if i == k then y(k) / f(k, k) else y(i)
    requires e == if i < k then x + t * c else x
    ensures BackStep(f, y, k)(i) == e
  {
  }

  /** First L y = b, then U x = y. */
  method SolveInPlace(a: array2<real>, n: int, ipvt: array<int>, b: array2<real>, ghost f: Mat,
      ghost piv: int -> int, ghost y: Vec)
    requires 1 <= n <= ipvt.Length && a != b && Holds(a, f, n) && VectorHolds(b, y, n) && NonzeroDiagonal(f, n)
    requires forall p :: 0 <= p < n ==> ipvt[p] == piv(p + 1) && 1 <= ipvt[p] <= n
    modifies b
    ensures VectorHolds(b, BackSub(f, Forward(y, f, piv, n - 1), n), n)
  {
    hide Holds, VectorHolds, ForwardStep, BackStep;
    ghost var z := y;
    for k := 1 to n
      invariant VectorHolds(b, z, n) && z == Forward(y, f, piv, k - 1)
    {
      ForwardEliminate(a, n, k, ipvt[k - 1], b, f, z);
      z := ForwardStep(z, f, k, ipvt[k - 1]);
    }
    BackSubstituteAll(a, n, b, f, z);
  }

  method BackSubstituteAll(a: array2<real>, n: int, b: array2<real>, ghost f: Mat, ghost y: Vec)
    requires 1 <= n && a != b && Holds(a, f, n) && VectorHolds(b, y, n) && NonzeroDiagonal(f, n)
    modifies b
    ensures VectorHolds(b, BackSub(f, y, n), n)
  {
    hide Holds, VectorHolds, BackStep;
    ghost var z := y;
    for k := n downto 0
      invariant VectorHolds(b, z, n) && BackSub(f, z, k) == BackSub(f, y, n)
    {
      BackSubstitute(a, n, k + 1, b, f, z);
      z := BackStep(f, z, k + 1);
    }
  }

  /** Component k of the transposed triangular system. */
  method TransposedSubstitute(a: array2<real>, n: int, k: int, b: array2<real>, ghost f: Mat, ghost y: Vec)
    requires a != b && Holds(a, f, n) && 1 <= k <= n && NonzeroDiagonal(f, n)
    requires VectorHolds(b, TransposedFront(f, y, k - 1), n)
    modifies b
    ensures VectorHolds(b, TransposedFront(f, y, k), n)
  {
    hide TransposedFront, Dot;
    ghost var z := TransposedFront(f, y, k - 1);
    var t := Sdot(k - 1, a, 0, k - 1, b, 0, 0, Col(f, k), z, 1);
    b[k - 1, 0] := (b[k - 1, 0] - t) / a[k - 1, k - 1];
    forall r | 0 <= r < n ensures b[r, 0] == TransposedFront(f, y, k)(r + 1) {
      TransposedEntry(f, y, k, r + 1);
    }
  }

  lemma TransposedEntry(f: Mat, y: Vec, k: int, i: int)
    requires 1 <= k && NonzeroDiagonal(f, k)
    ensures var z := TransposedFront(f, y, k - 1);
      TransposedFront(f, y, k)(i) == if i == k then (z(k) - Dot(Col(f, k), z, 1, 1 + (k - 1))) / f(k, k) else z(i)
  {
    hide Dot;
  }

  /** Collect the multiples of the components below k, then exchange. */
  method TransposedEliminate(a: array2<real>, n: int, k: int, l: int, b: array2<real>, ghost f: Mat, ghost z: Vec)
    requires a != b && Holds(a, f, n) && VectorHolds(b, z, n) && 1 <= k < n && 1 <= l <= n
    modifies b
    ensures VectorHolds(b, BackwardStep(z, f, k, l, n), n)
  {
    hide Dot;
    var d := Sdot(n - k, a, k, k - 1, b, k, 0, Col(f, k), z, k + 1);
    b[k - 1, 0] := b[k - 1, 0] + d;
    ghost var w := Collected(z, f, k, n);
    assert forall r :: 0 <= r < n ==> b[r, 0] == w(r + 1);
    if l != k {
      var t := b[l - 1, 0];
      b[l - 1, 0] := b[k - 1, 0];
      b[k - 1, 0] := t;
    }
    assert forall r :: 0 <= r < n ==> b[r, 0] == w(Swap(k, l, r + 1));
  }

  method SolveTransposedInPlace(a: array2<real>, n: int, ipvt: array<int>, b: array2<real>,
                                ghost f: Mat, ghost piv: int -> int, ghost y: Vec)
    requires 1 <= n <= ipvt.Length && a != b && Holds(a, f, n) && VectorHolds(b, y, n) && NonzeroDiagonal(f, n)
    requires forall p :: 0 <= p < n ==> ipvt[p] == piv(p + 1) && 1 <= ipvt[p] <= n
    modifies b
    ensures VectorHolds(b, Backward(TransposedFront(f, y, n), f, piv, n, n - 1), n)
  {
    hide Holds, VectorHolds, BackwardStep;
    for k := 1 to n + 1
      invariant VectorHolds(b, TransposedFront(f, y, k - 1), n)
    {
      TransposedSubstitute(a, n, k, b, f, y);
    }
    ghost var z := TransposedFront(f, y, n);
    for k := n - 1 downto 0
      invariant VectorHolds(b, z, n)
      invariant Backward(z, f, piv, n, k) == Backward(TransposedFront(f, y, n), f, piv, n, n - 1)
    {
      TransposedEliminate(a, n, k + 1, ipvt[k], b, f, z);
      z := BackwardStep(z, f, k + 1, piv(k + 1), n);
    }
  }

  /** c_sgesl: on the factors of a nonsingular matrix, b becomes the solution of the system or of the transposed one. */
  method Sgesl(a: array2<real>, n: int, ipvt: array<int>, b: array2<real>, job: int, ghost m: Mat, ghost y: Vec)
    returns (ghost x: Vec)
    requires 1 <= n <= ipvt.Length && a != b && Nonsingular(m, n)
    requires Holds(a, Factors(m, n), n) && (forall p :: 0 <= p < n ==> ipvt[p] == Pivots(m, n)(p + 1))
    requires VectorHolds(b, y, n)
    modifies b
    ensures VectorHolds(b, x, n)
    ensures if job == 0 then Solves(m, x, y, n) else SolvesTransposed(m, x, y, n)
  {
    hide Holds, VectorHolds, Nonsingular, Stage, Backward, BackSub, TransposedFront, Solves, SolvesTransposed, PivotAt;
    PivotsOfNonsingular(m, n);
    if job == 0 {
      SolveInPlace(a, n, ipvt, b, Factors(m, n), Pivots(m, n), y);
      SolutionSolves(m, n, y);
      x := Solution(m, n, y);
    } else {
      SolveTransposedInPlace(a, n, ipvt, b, Factors(m, n), Pivots(m, n), y);
      TransposedSolutionSolves(m, n, y);
      x := TransposedSolution(m, n, y);
    }
  }
}
