/** c_sgbsl: the solves with packed factors, which touch only the stored part of each column. */
module BandSolve {
  import opened LinearAlgebra
  import opened Kernels
  import opened Elimination
  import opened Triangular
  import opened Factorization
  import opened TransposedSolve
  import opened BandMatrix
  import opened DenseSolver
  import opened BandSolver

  /** The factors have ml diagonals of multipliers and ml + mu diagonals above. */
  ghost predicate FactorBand(f: Mat, n: int, ml: int, mu: int) {
    forall i, j :: 1 <= i <= n && 1 <= j <= n && (i > j + ml || j > i + ml + mu) ==> f(i, j) == 0.0
  }

  lemma FactorsAreBanded(a: Mat, n: int, ml: int, mu: int)
    requires 1 <= n && 0 <= ml && 0 <= mu && IsBand(a, n, ml, mu) && Regular(a, n, n)
    ensures FactorBand(Factors(a, n), n, ml, mu)
    ensures forall k :: 1 <= k < n ==> k <= Pivots(a, n)(k) <= k + ml
  {
    hide Stage, PivotAt, Reach, IsBand;
    BandStage(a, n, ml, mu, n - 1);
    var ju := Reach(a, n, mu, n - 1);
    forall i, j | 1 <= i <= n && 1 <= j <= n && (i > j + ml || j > i + ml + mu) ensures Factors(a, n)(i, j) == 0.0 {
      assert Outside(n, ml, mu, n, ju, i, j);
    }
  }

  lemma NoMultiplierBelow(f: Mat, n: int, ml: int, mu: int, i: int, k: int)
    requires FactorBand(f, n, ml, mu) && 1 <= i <= n && 1 <= k <= n && (i > k + ml || k > i + ml + mu)
    ensures f(i, k) == 0.0
  {
  }

  method BandForward(abd: array2<real>, n: int, ml: int, mu: int, k: int, l: int, b: array2<real>, ghost f: Mat,
      ghost y: Vec)
    requires abd != b && BandHolds(abd, f, n, ml, mu, n) && FactorBand(f, n, ml, mu) && VectorHolds(b, y, n)
    requires 1 <= k < n && 1 <= l <= n
    modifies b
    ensures VectorHolds(b, ForwardStep(y, f, k, l), n)
  {
    hide ForwardStep, FactorBand;
    forall i | k + ml < i <= n ensures f(i, k) == 0.0 { NoMultiplierBelow(f, n, ml, mu, i, k); }
    var lm, m := Min(ml, n - k), ml + mu;
    var t := b[l - 1, 0];
    if l != k {
      b[l - 1, 0] := b[k - 1, 0];
      b[k - 1, 0] := t;
    }
    label exchanged:
    Saxpy(lm, t, abd, m + 1, k - 1, b, k, 0);
    ghost var c := k - 1;
    forall r | 0 <= r < n ensures b[r, 0] == ForwardStep(y, f, k, l)(r + 1) {
      ghost var q := r - k + (m + 1);
      ForwardEntry(y, f, k, l, r + 1, old@exchanged(b[r, 0]), t, if k <= r < k + lm then abd[q, c] else f(r + 1, k),
          b[r, 0]);
    }
  }

  method BandBack(abd: array2<real>, n: int, ml: int, mu: int, k: int, b: array2<real>, ghost f: Mat, ghost y: Vec)
    requires abd != b && BandHolds(abd, f, n, ml, mu, n) && FactorBand(f, n, ml, mu) && VectorHolds(b, y, n)
    requires 1 <= k <= n && f(k, k) != 0.0
    modifies b
    ensures VectorHolds(b, BackStep(f, y, k), n)
  {
    hide BackStep;
    var m := ml + mu + 1;
    b[k - 1, 0] := b[k - 1, 0] / abd[m - 1, k - 1];
    var lm := Min(k, m) - 1;
    var la, lb := m - lm, k - lm;
    var t := -b[k - 1, 0];
    label divided:
    Saxpy(lm, t, abd, la - 1, k - 1, b, lb - 1, 0);
    ghost var c := k - 1;
    forall r | 0 <= r < n ensures b[r, 0] == BackStep(f, y, k)(r + 1) {
      ghost var q := r - (lb - 1) + (la - 1);
      BackEntry(f, y, k, r + 1, old@divided(b[r, 0]), t, if lb - 1 <= r < k - 1 then abd[q, c] else f(r + 1, k),
        b[r, 0]);
    }
  }

  /** Without subdiagonals the forward steps change nothing, so the code skips them. */
  lemma {:induction false} ForwardWithoutMultipliers(y: Vec, f: Mat, piv: int -> int, n: int, mu: int, k: nat, i: int)
    requires FactorBand(f, n, 0, mu) && k < n && 1 <= i <= n
    requires forall p :: 1 <= p < n ==> piv(p) == p
    ensures Forward(y, f, piv, k)(i) == y(i)
  {
    hide FactorBand;
    if k > 0 {
      ForwardWithoutMultipliers(y, f, piv, n, mu, k - 1, i);
      if i > k { NoMultiplierBelow(f, n, 0, mu, i, k); }
      assert Swap(k, piv(k), i) == i;
      assert Forward(y, f, piv, k)(i) == ForwardStep(Forward(y, f, piv, k - 1), f, k, k)(i);
    }
  }

  lemma VectorCongruence(b: array2<real>, y: Vec, z: Vec, n: int)
    requires VectorHolds(b, y, n) && forall i :: 1 <= i <= n ==> z(i) == y(i)
    ensures VectorHolds(b, z, n)
  {
  }

  method BandForwardAll(abd: array2<real>, n: int, ml: int, mu: int, ipvt: array<int>, b: array2<real>,
                        ghost f: Mat, ghost piv: int -> int, ghost y: Vec)
    requires abd != b && n <= ipvt.Length && FactorBand(f, n, ml, mu) && VectorHolds(b, y, n)
    requires BandShape(abd, n, ml, mu) && BandHolds(abd, f, n, ml, mu, n)
    requires forall p :: 0 <= p < n ==> ipvt[p] == piv(p + 1)
    requires forall k :: 1 <= k < n ==> k <= piv(k) <= k + ml && piv(k) <= n
    modifies b
    ensures VectorHolds(b, Forward(y, f, piv, n - 1), n)
  {
    if ml == 0 {
      forall i | 1 <= i <= n ensures Forward(y, f, piv, n - 1)(i) == y(i) {
        ForwardWithoutMultipliers(y, f, piv, n, mu, n - 1, i);
      }
      VectorCongruence(b, y, Forward(y, f, piv, n - 1), n);
      return;
    }
    BandForwardLoop(abd, n, ml, mu, ipvt, b, f, piv, y);
  }

  method BandForwardLoop(abd: array2<real>, n: int, ml: int, mu: int, ipvt: array<int>, b: array2<real>,
                         ghost f: Mat, ghost piv: int -> int, ghost y: Vec)
    requires abd != b && n <= ipvt.Length && FactorBand(f, n, ml, mu) && VectorHolds(b, y, n)
    requires BandShape(abd, n, ml, mu) && BandHolds(abd, f, n, ml, mu, n)
    requires forall p :: 0 <= p < n ==> ipvt[p] == piv(p + 1)
    requires forall k :: 1 <= k < n ==> k <= piv(k) <= n
    modifies b
    ensures VectorHolds(b, Forward(y, f, piv, n - 1), n)
  {
    hide BandHolds, FactorBand, VectorHolds, ForwardStep;
    ghost var z := y;
    for k := 1 to n
      invariant VectorHolds(b, z, n) && z == Forward(y, f, piv, k - 1)
    {
      BandForward(abd, n, ml, mu, k, ipvt[k - 1], b, f, z);
      z := ForwardStep(z, f, k, ipvt[k - 1]);
    }
  }

  method BandBackAll(abd: array2<real>, n: int, ml: int, mu: int, b: array2<real>, ghost f: Mat, ghost y: Vec)
    requires abd != b && FactorBand(f, n, ml, mu) && VectorHolds(b, y, n) && NonzeroDiagonal(f, n)
    requires BandShape(abd, n, ml, mu) && BandHolds(abd, f, n, ml, mu, n)
    modifies b
    ensures VectorHolds(b, BackSub(f, y, n), n)
  {
    hide BandHolds, FactorBand, VectorHolds, BackStep;
    ghost var z := y;
    for kb := 1 to n + 1
      invariant VectorHolds(b, z, n) && BackSub(f, z, n + 1 - kb) == BackSub(f, y, n)
    {
      BandBack(abd, n, ml, mu, n + 1 - kb, b, f, z);
      z := BackStep(f, z, n + 1 - kb);
    }
  }

  /** The stored part of column k above the diagonal carries the whole inner product. */
  lemma StoredAbove(f: Mat, z: Vec, n: int, ml: int, mu: int, k: int)
    requires 0 <= ml && 0 <= mu && 1 <= k <= n && FactorBand(f, n, ml, mu)
    ensures var lm := Min(k, ml + mu + 1) - 1; Dot(Col(f, k), z, k - lm, k) == Dot(Col(f, k), z, 1, k)
  {
    hide Dot, FactorBand;
    var lo := k - Min(k, ml + mu + 1) + 1;
    forall i | 1 <= i < lo ensures Col(f, k)(i) == 0.0 { NoMultiplierBelow(f, n, ml, mu, i, k); }
    DotSplit(Col(f, k), z, 1, lo, k);
    DotZero(Col(f, k), z, 1, lo);
  }

  lemma StoredBelow(f: Mat, z: Vec, n: int, ml: int, mu: int, k: int)
    requires 0 <= ml && 1 <= k <= n && FactorBand(f, n, ml, mu)
    ensures Dot(Col(f, k), z, k + 1, k + 1 + Min(ml, n - k)) == Dot(Col(f, k), z, k + 1, n + 1)
  {
    hide Dot, FactorBand;
    var hi := k + 1 + Min(ml, n - k);
    forall i | hi <= i < n + 1 ensures Col(f, k)(i) == 0.0 { NoMultiplierBelow(f, n, ml, mu, i, k); }
    DotSplit(Col(f, k), z, k + 1, hi, n + 1);
    DotZero(Col(f, k), z, hi, n + 1);
  }

  method BandTransposedFront(abd: array2<real>, n: int, ml: int, mu: int, k: int, b: array2<real>, ghost f: Mat,
      ghost y: Vec)
    requires abd != b && FactorBand(f, n, ml, mu) && 1 <= k <= n && NonzeroDiagonal(f, n)
    requires BandHolds(abd, f, n, ml, mu, n) && VectorHolds(b, TransposedFront(f, y, k - 1), n)
    modifies b
    ensures VectorHolds(b, TransposedFront(f, y, k), n)
  {
    hide TransposedFront, Dot, FactorBand;
    ghost var z := TransposedFront(f, y, k - 1);
    var m := ml + mu + 1;
    var lm := Min(k, m) - 1;
    var la, lb := m - lm, k - lm;
    var t := Sdot(lm, abd, la - 1, k - 1, b, lb - 1, 0, Col(f, k), z, lb);
    StoredAbove(f, z, n, ml, mu, k);
    b[k - 1, 0] := (b[k - 1, 0] - t) / abd[m - 1, k - 1];
    forall r | 0 <= r < n ensures b[r, 0] == TransposedFront(f, y, k)(r + 1) {
      TransposedEntry(f, y, k, r + 1);
    }
  }

  method BandTransposedBack(abd: array2<real>, n: int, ml: int, mu: int, k: int, l: int, b: array2<real>,
      ghost f: Mat, ghost z: Vec)
    requires abd != b && FactorBand(f, n, ml, mu) && 1 <= k < n && 1 <= l <= n
    requires BandHolds(abd, f, n, ml, mu, n) && VectorHolds(b, z, n)
    modifies b
    ensures VectorHolds(b, BackwardStep(z, f, k, l, n), n)
  {
    hide Dot, FactorBand;
    var lm := Min(ml, n - k);
    var d := Sdot(lm, abd, ml + mu + 1, k - 1, b, k, 0, Col(f, k), z, k + 1);
    StoredBelow(f, z, n, ml, mu, k);
    b[k - 1, 0] := b[k - 1, 0] + d;
    ghost var w := Collected(z, f, k, n);
    assert forall r :: 0 <= r < n ==> b[r, 0] == w(r + 1);
    if l != k {
      var t := b[l - 1, 0];
      b[l - 1, 0] := b[k - 1, 0];
      b[k - 1, 0] := t;
    }
    assert forall r :: 0 <= r < n ==> b[r, 0] == w(Swap(k, l, r + 1));
  }

  lemma {:induction false} BackwardWithoutMultipliers(z: Vec, w: Vec, f: Mat, piv: int -> int, n: int, mu: int,
      k: nat, i: int)
    requires 0 <= mu && FactorBand(f, n, 0, mu) && k < n && 1 <= i <= n
    requires forall p :: 1 <= p < n ==> piv(p) == p
    requires forall j :: 1 <= j <= n ==> z(j) == w(j)
    ensures Backward(z, f, piv, n, k)(i) == w(i)
    decreases k
  {
    hide FactorBand, Dot;
    if k > 0 {
      StoredBelow(f, z, n, 0, mu, k);
      EmptySum(Col(f, k), z, k + 1);
      var z' := BackwardStep(z, f, k, piv(k), n);
      forall j | 1 <= j <= n ensures z'(j) == w(j) {
        assert z'(j) == Collected(z, f, k, n)(Swap(k, k, j));
        assert Swap(k, k, j) == j;
      }
      BackwardWithoutMultipliers(z', w, f, piv, n, mu, k - 1, i);
    }
  }

  lemma EmptySum(u: Vec, v: Vec, lo: int)
    ensures Dot(u, v, lo, lo + 0) == 0.0
  {
  }

  method BandSolveTransposed(abd: array2<real>, n: int, ml: int, mu: int, ipvt: array<int>, b: array2<real>,
                             ghost f: Mat, ghost piv: int -> int, ghost y: Vec)
    requires abd != b && n <= ipvt.Length && FactorBand(f, n, ml, mu) && VectorHolds(b, y, n) && NonzeroDiagonal(f, n)
    requires BandShape(abd, n, ml, mu) && BandHolds(abd, f, n, ml, mu, n)
    requires forall p :: 0 <= p < n ==> ipvt[p] == piv(p + 1)
    requires forall k :: 1 <= k < n ==> k <= piv(k) <= k + ml && piv(k) <= n
    modifies b
    ensures VectorHolds(b, Backward(TransposedFront(f, y, n), f, piv, n, n - 1), n)
  {
    hide BandHolds, FactorBand, VectorHolds, BackwardStep, Backward;
    NothingSolved(f, y);
    for k := 1 to n + 1
      invariant VectorHolds(b, TransposedFront(f, y, k - 1), n)
    {
      BandTransposedFront(abd, n, ml, mu, k, b, f, y);
    }
    BandBackwardAll(abd, n, ml, mu, ipvt, b, f, piv, TransposedFront(f, y, n));
  }

  lemma NothingSolved(f: Mat, y: Vec)
    ensures TransposedFront(f, y, 0) == y
  {
  }

  method BandBackwardAll(abd: array2<real>, n: int, ml: int, mu: int, ipvt: array<int>, b: array2<real>,
                         ghost f: Mat, ghost piv: int -> int, ghost y: Vec)
    requires abd != b && n <= ipvt.Length && FactorBand(f, n, ml, mu) && VectorHolds(b, y, n)
    requires BandShape(abd, n, ml, mu) && BandHolds(abd, f, n, ml, mu, n)
    requires forall p :: 0 <= p < n ==> ipvt[p] == piv(p + 1)
    requires forall k :: 1 <= k < n ==> k <= piv(k) <= k + ml && piv(k) <= n
    modifies b
    ensures VectorHolds(b, Backward(y, f, piv, n, n - 1), n)
  {
    if ml == 0 {
      forall i | 1 <= i <= n ensures Backward(y, f, piv, n, n - 1)(i) == y(i) {
        BackwardWithoutMultipliers(y, y, f, piv, n, mu, n - 1, i);
      }
      VectorCongruence(b, y, Backward(y, f, piv, n, n - 1), n);
      return;
    }
    BandBackwardLoop(abd, n, ml, mu, ipvt, b, f, piv, y);
  }

  method BandBackwardLoop(abd: array2<real>, n: int, ml: int, mu: int, ipvt: array<int>, b: array2<real>,
                          ghost f: Mat, ghost piv: int -> int, ghost y: Vec)
    requires abd != b && n <= ipvt.Length && FactorBand(f, n, ml, mu) && VectorHolds(b, y, n)
    requires BandShape(abd, n, ml, mu) && BandHolds(abd, f, n, ml, mu, n)
    requires forall p :: 0 <= p < n ==> ipvt[p] == piv(p + 1)
    requires forall k :: 1 <= k < n ==> k <= piv(k) <= n
    modifies b
    ensures VectorHolds(b, Backward(y, f, piv, n, n - 1), n)
  {
    hide BandHolds, FactorBand, VectorHolds, BackwardStep;
    ghost var z := y;
    for kb := 1 to n
      invariant VectorHolds(b, z, n) && Backward(z, f, piv, n, n - kb) == Backward(y, f, piv, n, n - 1)
    {
      BandTransposedBack(abd, n, ml, mu, n - kb, ipvt[n - kb - 1], b, f, z);
      z := BackwardStep(z, f, n - kb, ipvt[n - kb - 1], n);
    }
  }

  /**
   * c_sgbsl: on the packed factors of a nonsingular band matrix, b becomes the solution of the system or of the
   * transposed one.
   */
  method Sgbsl(abd: array2<real>, n: int, ml: int, mu: int, ipvt: array<int>, b: array2<real>, job: int,
               ghost a: Mat, ghost y: Vec) returns (ghost x: Vec)
    requires abd != b && n <= ipvt.Length && VectorHolds(b, y, n) && BandShape(abd, n, ml, mu)
    requires IsBand(a, n, ml, mu) && Nonsingular(a, n) && BandHolds(abd, Factors(a, n), n, ml, mu, n)
    requires forall p :: 0 <= p < n ==> ipvt[p] == Pivots(a, n)(p + 1)
    modifies b
    ensures VectorHolds(b, x, n)
    ensures if job == 0 then Solves(a, x, y, n) else SolvesTransposed(a, x, y, n)
  {
    hide BandHolds, FactorBand, VectorHolds, Nonsingular, Stage, Solves, SolvesTransposed, PivotAt, IsBand,
         Backward, BackSub, Forward, TransposedFront;
    PivotsOfNonsingular(a, n);
    RegularIffNonsingular(a, n);
    FactorsAreBanded(a, n, ml, mu);
    if job == 0 {
      SolutionSolves(a, n, y);
      BandForwardAll(abd, n, ml, mu, ipvt, b, Factors(a, n), Pivots(a, n), y);
      BandBackAll(abd, n, ml, mu, b, Factors(a, n), Forward(y, Factors(a, n), Pivots(a, n), n - 1));
      x := Solution(a, n, y);
    } else {
      TransposedSolutionSolves(a, n, y);
      BandSolveTransposed(abd, n, ml, mu, ipvt, b, Factors(a, n), Pivots(a, n), y);
      x := TransposedSolution(a, n, y);
    }
  }
}
