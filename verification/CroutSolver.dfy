/** lu_decompose: in-place LU factors with implicit row scaling, full row exchanges and the sign of the exchanges. */
module CroutSolver {
  import opened RealArithmetic
  import opened LinearAlgebra
  import opened CroutSteps
  import opened DenseSolver

  /** The magnitude that decides the pivot: a row's entry times the row's scale. */
  function Weight(scale: real, x: real): real { scale * Abs(x) }

  lemma NoWeight(scale: real, x: real)
    requires scale > 0.0 && Weight(scale, x) <= 0.0
    ensures x == 0.0
  {
  }

  lemma WeightNonnegative(scale: real, x: real)
    requires scale > 0.0
    ensures Weight(scale, x) >= 0.0
  {
  }

  ghost predicate PositiveScales(vv: array<real>, n: int)
    requires n <= vv.Length
    reads vv
  {
    forall r :: 0 <= r < n ==> vv[r] > 0.0
  }

  ghost predicate ZeroRow(a: array2<real>, n: int, r: int)
    requires 0 <= r < a.Length0 && n <= a.Length1
    reads a
  {
    forall c :: 0 <= c < n ==> a[r, c] == 0.0
  }

  /** The scale brings the largest magnitude of row r to one. */
  ghost predicate IsScale(a: array2<real>, n: int, r: int, scale: real)
    requires 0 <= r < a.Length0 && n <= a.Length1
    reads a
  {
    && scale > 0.0
    && (forall c :: 0 <= c < n ==> Weight(scale, a[r, c]) <= 1.0)
    && exists c :: 0 <= c < n && Weight(scale, a[r, c]) == 1.0
  }

  lemma ReciprocalWeight(big: real, x: real)
    requires big > 0.0 && Abs(x) <= big
    ensures 1.0 / big > 0.0 && Weight(1.0 / big, x) <= 1.0
    ensures Abs(x) == big ==> Weight(1.0 / big, x) == 1.0
  {
    var s := 1.0 / big;
    assert s * big == 1.0 && s > 0.0;
    assert s * (big - Abs(x)) >= 0.0;
  }

  /** The scale of every row, up to the first row of zeros, if there is one. */
  method RowScales(a: array2<real>, n: nat, vv: array<real>) returns (zeroRow: nat)
    requires n <= a.Length0 && n <= a.Length1 && n <= vv.Length
    modifies vv
    ensures zeroRow <= n && (zeroRow < n ==> ZeroRow(a, n, zeroRow))
    ensures forall r :: 0 <= r < zeroRow ==> IsScale(a, n, r, vv[r])
  {
    hide Weight;
    zeroRow := 0;
    while zeroRow < n
      invariant 0 <= zeroRow <= n
      invariant forall r :: 0 <= r < zeroRow ==> IsScale(a, n, r, vv[r])
    {
      var big := LargestInRow(a, n, zeroRow);
      if big == 0.0 { return; }
      vv[zeroRow] := 1.0 / big;
      forall c | 0 <= c < n
        ensures 1.0 / big > 0.0 && Weight(1.0 / big, a[zeroRow, c]) <= 1.0
        ensures Abs(a[zeroRow, c]) == big ==> Weight(1.0 / big, a[zeroRow, c]) == 1.0
      {
        ReciprocalWeight(big, a[zeroRow, c]);
      }
      zeroRow := zeroRow + 1;
    }
  }

  method LargestInRow(a: array2<real>, n: nat, r: nat) returns (big: real)
    requires r < a.Length0 && n <= a.Length1
    ensures big >= 0.0 && forall c :: 0 <= c < n ==> Abs(a[r, c]) <= big
    ensures big > 0.0 ==> exists c :: 0 <= c < n && Abs(a[r, c]) == big
  {
    big := 0.0;
    for j := 0 to n
      invariant big >= 0.0 && forall c :: 0 <= c < j ==> Abs(a[r, c]) <= big
      invariant big > 0.0 ==> exists c :: 0 <= c < j && Abs(a[r, c]) == big
    {
      var temp := Abs(a[r, j]);
      if temp > big { big := temp; }
    }
  }

  /** Entry (i, j) less the inner product of the first hi entries of its row and column. */
  method InnerDifference(a: array2<real>, n: int, i: int, j: int, hi: int, ghost t: Mat) returns (sum: real)
    requires Holds(a, t, n) && 0 <= i < n && 0 <= j < n && 0 <= hi <= n
    ensures sum == t(i + 1, j + 1) - Dot(Row(t, i + 1), Col(t, j + 1), 1, hi + 1)
  {
    hide Dot;
    ghost var u, v := Row(t, i + 1), Col(t, j + 1);
    sum := a[i, j];
    DotZero(u, v, 1, 1);
    for k := 0 to hi
      invariant sum == t(i + 1, j + 1) - Dot(u, v, 1, k + 1)
    {
      var term := a[i, k] * a[k, j];
      NextTerm(u, v, 1, k + 1, a[i, k], a[k, j], term);
      sum := sum - term;
    }
  }

  /** Rows 1..i of column j are done, the rows below and the other columns are as they were. */
  ghost predicate ColumnDone(t: Mat, t0: Mat, goal: Mat, n: int, j: int, i: int) {
    && (forall r, c :: c != j ==> t(r, c) == t0(r, c))
    && (forall r :: i < r <= n ==> t(r, j) == t0(r, j))
    && (forall r :: 1 <= r <= i ==> ResidualRow(t, goal, r, j))
  }

  lemma ColumnDoneStep(t: Mat, t0: Mat, goal: Mat, n: int, j: int, i: int, v: real)
    requires 1 <= j <= n && 0 <= i < n && ColumnDone(t, t0, goal, n, j, i) && t0(i + 1, j) == goal(i + 1, j)
    requires v == t(i + 1, j) - Dot(Row(t, i + 1), Col(t, j), 1, Min(i + 1, j))
    ensures ColumnDone(Put(t, i + 1, j, v), t0, goal, n, j, i + 1)
  {
    hide Dot, ResidualRow;
    ResidualWritten(t, goal, i + 1, j, v);
    var t' := Put(t, i + 1, j, v);
    forall r | 1 <= r <= i ensures ResidualRow(t', goal, r, j) {
      ResidualKept(t, goal, i + 1, j, v, r);
    }
  }

  /** Write one finished entry of the column. */
  method WriteEntry(a: array2<real>, n: int, i: int, j: int, hi: int, ghost t0: Mat, ghost t: Mat, ghost goal: Mat)
    returns (sum: real, ghost t': Mat)
    requires Holds(a, t, n) && 0 <= i < n && 0 <= j < n && hi + 1 == Min(i + 1, j + 1)
    requires ColumnDone(t, t0, goal, n, j + 1, i) && t0(i + 1, j + 1) == goal(i + 1, j + 1)
    modifies a
    ensures Holds(a, t', n) && ColumnDone(t', t0, goal, n, j + 1, i + 1) && sum == t'(i + 1, j + 1)
    ensures forall r, c :: 0 <= r < n && 0 <= c < n && (r != i || c != j) ==> a[r, c] == old(a[r, c])
  {
    hide ColumnDone, Dot;
    sum := InnerDifference(a, n, i, j, hi, t);
    a[i, j] := sum;
    t' := Put(t, i + 1, j + 1, sum);
    ColumnDoneStep(t, t0, goal, n, j + 1, i, sum);
  }

  /** The entries above the diagonal of column j. */
  method UpperPart(a: array2<real>, n: int, j: int, ghost t0: Mat, ghost goal: Mat) returns (ghost t: Mat)
    requires Holds(a, t0, n) && 0 <= j < n && Untouched(t0, goal, n, j + 1)
    modifies a
    ensures Holds(a, t, n) && ColumnDone(t, t0, goal, n, j + 1, j)
  {
    hide ResidualRow;
    t := t0;
    for i := 0 to j
      invariant Holds(a, t, n) && ColumnDone(t, t0, goal, n, j + 1, i)
    {
      var sum;
      sum, t := WriteEntry(a, n, i, j, i, t0, t, goal);
    }
  }

  /** The rest of column j, and the row with the largest weight, the last one if several tie. */
  method LowerPart(a: array2<real>, n: int, j: int, vv: array<real>, ghost t0: Mat, ghost t1: Mat, ghost goal: Mat)
    returns (imax: int, ghost t: Mat)
    requires Holds(a, t1, n) && 0 <= j < n <= vv.Length && Untouched(t0, goal, n, j + 1)
    requires ColumnDone(t1, t0, goal, n, j + 1, j) && PositiveScales(vv, n)
    modifies a
    ensures Holds(a, t, n) && ColumnDone(t, t0, goal, n, j + 1, n)
    ensures j <= imax < n
    ensures forall r :: j <= r < n ==> Weight(vv[r], a[r, j]) <= Weight(vv[imax], a[imax, j])
    ensures forall r :: imax < r < n ==> Weight(vv[r], a[r, j]) < Weight(vv[imax], a[imax, j])
  {
    hide ColumnDone, Weight;
    t := t1;
    imax := j; // the first row replaces it: no weight is below zero
    var big := 0.0;
    for i := j to n
      invariant Holds(a, t, n) && ColumnDone(t, t0, goal, n, j + 1, i)
      invariant j <= imax && (i > j ==> imax < i && big == Weight(vv[imax], a[imax, j]))
      invariant i == j ==> big == 0.0
      invariant forall r :: j <= r < i ==> Weight(vv[r], a[r, j]) <= big
      invariant i > j ==> forall r :: imax < r < i ==> Weight(vv[r], a[r, j]) < big
    {
      var sum;
      sum, t := WriteEntry(a, n, i, j, j, t0, t, goal);
      var dum := Weight(vv[i], sum);
      WeightNonnegative(vv[i], sum);
      if dum >= big {
        big := dum;
        imax := i;
      }
    }
  }
}
