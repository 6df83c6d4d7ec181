/**
 * When info of c_sgefa and of c_sgbfa tells singular matrices from nonsingular ones, and a singular matrix that both
 * miss.
 */
module SingularInput {
  import opened LinearAlgebra
  import opened Kernels
  import opened Elimination
  import opened Factorization
  import opened DenseSolver
  import opened BandMatrix
  import opened BandSolver

  /** The search of step k finds nothing, and the entry that the code then reads, one row too high, is not zero. */
  ghost predicate MissedAt(m: Mat, n: int, k: int)
    requires k >= 1
  {
    PivotAt(m, n, k) < k && Stage(m, n, k - 1)(k - 1, k) != 0.0
  }

  /** The search of step k finds nothing, and what the code then reads is zero. */
  ghost predicate CaughtAt(m: Mat, n: int, k: int)
    requires k >= 1
  {
    PivotAt(m, n, k) < k && Stage(m, n, k - 1)(k - 1, k) == 0.0
  }

  lemma ZeroPivotRead(m: Mat, n: int, k: int)
    requires 1 <= k <= n
    ensures Stage(m, n, k - 1)(PivotAt(m, n, k), k) == 0.0 <==> CaughtAt(m, n, k)
  {
    hide Stage, PivotRow;
    SearchRange(Stage(m, n, k - 1), k, n);
    if PivotAt(m, n, k) >= k { PivotFound(m, n, k); }
  }

  lemma {:induction false} ZeroPivotIff(m: Mat, n: int, k: nat)
    requires k <= n
    ensures ZeroPivot(m, n, k) == 0 <==> forall p :: 1 <= p <= k ==> !CaughtAt(m, n, p)
  {
    if k > 0 {
      hide Stage, CaughtAt, PivotAt;
      ZeroPivotRead(m, n, k);
      ZeroPivotIff(m, n, k - 1);
    }
  }

  /** info is 0 if and only if the last diagonal entry is nonzero and so is every entry that a failed search reads. */
  lemma InfoIsZero(m: Mat, n: int)
    requires n >= 1
    ensures Info(m, n) == 0 <==>
      Factors(m, n)(n, n) != 0.0 && forall k :: 1 <= k < n && PivotAt(m, n, k) < k ==> MissedAt(m, n, k)
  {
    hide Stage, PivotAt, ZeroPivot;
    ZeroPivotIff(m, n, n - 1);
    forall k | 1 <= k < n ensures CaughtAt(m, n, k) <==> PivotAt(m, n, k) < k && !MissedAt(m, n, k) {}
  }

  /**
   * info is right about a matrix if and only if its columns before the last are independent, or the last
   * diagonal entry is zero, or some failed search reads a zero.
   */
  lemma InfoIsRight(m: Mat, n: int)
    requires n >= 1
    ensures (Info(m, n) == 0 <==> Nonsingular(m, n)) <==>
      || ColumnsIndependent(m, n, n - 1)
      || Factors(m, n)(n, n) == 0.0
      || exists k :: 1 <= k < n && CaughtAt(m, n, k)
  {
    hide Stage, PivotAt, ZeroPivot, Nonsingular, ColumnsIndependent, CaughtAt;
    ZeroPivotIff(m, n, n - 1);
    InfoOfIndependent(m, n);
    if Nonsingular(m, n) {
      RegularIffNonsingular(m, n);
      RegularIffIndependent(m, n, n - 1);
      assert Regular(m, n, n - 1);
    }
  }

  /** Rows (1 1 0), (0 0 1), (0 0 1): the first two columns agree. */
  ghost function Twin(): Mat { (i, j) => if (i == 1 && j != 3) || (i != 1 && j == 3) then 1.0 else 0.0 }

  lemma TwinSingular()
    ensures !Nonsingular(Twin(), 3)
  {
    var x: Vec := j => if j == 1 then 1.0 else if j == 2 then -1.0 else 0.0;
    forall i | 1 <= i <= 3 ensures Apply(Twin(), i, x, 3) == 0.0 {
      var u := Row(Twin(), i);
      assert Dot(u, x, 1, 2) == u(1) * x(1);
      assert Dot(u, x, 1, 3) == u(1) * x(1) + u(2) * x(2);
      assert Dot(u, x, 1, 4) == Dot(u, x, 1, 3) + u(3) * x(3);
    }
    assert InKernel(Twin(), x, 3) && x(1) != 0.0;
  }

  /** The first search finds row 1, and the step changes nothing. */
  lemma FirstStep()
    ensures PivotAt(Twin(), 3, 1) == 1
    ensures forall i, j :: 1 <= i <= 3 && 1 <= j <= 3 ==> Stage(Twin(), 3, 1)(i, j) == Twin()(i, j)
  {
    var s := Twin();
    FirstMaxIsFirstMaximum(Col(s, 1), 1, 4);
    assert Col(s, 1)(1) == 1.0 && Col(s, 1)(2) == 0.0 && Col(s, 1)(3) == 0.0;
    assert Stage(s, 3, 0) == s && Stage(s, 3, 1) == Reduced(s, 1, 1);
    forall i, j | 1 <= i <= 3 && 1 <= j <= 3 ensures Reduced(s, 1, 1)(i, j) == s(i, j) { FirstEntry(i, j); }
  }

  lemma FirstEntry(i: int, j: int)
    requires 1 <= i <= 3 && 1 <= j <= 3
    ensures Reduced(Twin(), 1, 1)(i, j) == Twin()(i, j)
  {
    var s := Twin();
    assert Swap(1, 1, i) == i;
    if i <= 1 {
      assert Reduced(s, 1, 1)(i, j) == s(i, j);
    } else {
      var t := Multiplier(s, 1, 1, i);
      assert s(i, 1) == 0.0 && t == 0.0;
      if j > 1 { assert Reduced(s, 1, 1)(i, j) == s(i, j) + s(1, j) * t; }
    }
  }

  /**
   * The second column has nothing left below the first row, so the search answers 0 and row 1 is exchanged in again.
   */
  lemma SecondStep()
    ensures PivotAt(Twin(), 3, 2) == 1
    ensures Stage(Twin(), 3, 1)(1, 2) != 0.0 && Stage(Twin(), 3, 2)(3, 3) == 1.0
  {
    hide Stage;
    FirstStep();
    var s := Stage(Twin(), 3, 1);
    FirstMaxIsFirstMaximum(Col(s, 2), 2, 4);
    assert Col(s, 2)(2) == 0.0 && Col(s, 2)(3) == 0.0;
    SecondStage();
    assert s(1, 2) == 1.0 && s(3, 2) == 0.0 && s(1, 3) == 0.0 && s(3, 3) == 1.0;
    assert Multiplier(s, 2, 1, 3) == 0.0;
    assert Reduced(s, 2, 1)(3, 3) == s(3, 3) + s(1, 3) * Multiplier(s, 2, 1, 3);
  }

  lemma SecondStage()
    ensures Stage(Twin(), 3, 2) == Eliminate(Stage(Twin(), 3, 1), 2, PivotAt(Twin(), 3, 2))
  {
  }

  /** c_sgefa records no zero pivot for this singular matrix, and its last diagonal entry is not zero either. */
  lemma SingularityMissed()
    ensures !Nonsingular(Twin(), 3) && FirstColumnNonzero(Twin(), 3)
    ensures Info(Twin(), 3) == 0
  {
    hide Stage, Nonsingular;
    TwinSingular();
    FirstStep();
    SecondStep();
    assert Twin()(1, 1) == 1.0;
    StartStage();
  }

  lemma StartStage()
    ensures Stage(Twin(), 3, 0) == Twin()
  {
  }

  /** The search of step k in band storage ends on a zero entry. */
  ghost predicate BandCaughtAt(a: Mat, n: int, ml: int, mu: int, k: int)
    requires k >= 1
  {
    BandRun(a, n, ml, mu, k - 1).stage(BandPivotAt(a, n, ml, mu, k), k) == 0.0
  }

  lemma {:induction false} BandZeroPivotIff(a: Mat, n: int, ml: int, mu: int, k: nat)
    ensures BandZeroPivot(a, n, ml, mu, k) == 0 <==> forall p :: 1 <= p <= k ==> !BandCaughtAt(a, n, ml, mu, p)
  {
    hide BandZeroPivot, BandCaughtAt, BandRun, BandPivotAt;
    if k == 0 {
      BandStart(a, n, ml, mu);
    } else {
      BandZeroPivotIff(a, n, ml, mu, k - 1);
      BandZeroPivotStep(a, n, ml, mu, k);
      CaughtMeans(a, n, ml, mu, k);
    }
  }

  lemma CaughtMeans(a: Mat, n: int, ml: int, mu: int, k: int)
    requires k >= 1
    ensures BandCaughtAt(a, n, ml, mu, k) <==>
      BandRun(a, n, ml, mu, k - 1).stage(BandPivotAt(a, n, ml, mu, k), k) == 0.0
  {
    hide BandRun, BandPivotAt;
  }

  /**
   * info of c_sgbfa is right about a band matrix if and only if its columns before the last are independent, or the
   * last diagonal entry is zero, or some search ends on a zero.
   */
  lemma BandInfoIsRight(a: Mat, n: int, ml: int, mu: int)
    requires 1 <= n && 0 <= ml && 0 <= mu && IsBand(a, n, ml, mu)
    ensures (BandInfo(a, n, ml, mu) == 0 <==> Nonsingular(a, n)) <==>
      || ColumnsIndependent(a, n, n - 1)
      || BandFactors(a, n, ml, mu)(n, n) == 0.0
      || exists k :: 1 <= k < n && BandCaughtAt(a, n, ml, mu, k)
  {
    hide BandRun, BandZeroPivot, Nonsingular, ColumnsIndependent, BandCaughtAt, Regular, IsBand;
    BandZeroPivotIff(a, n, ml, mu, n - 1);
    RegularIffIndependent(a, n, n - 1);
    if Regular(a, n, n - 1) { BandIsDenseThroughout(a, n, ml, mu); }
    if Nonsingular(a, n) { NonsingularStarts(a, n, ml); }
  }

  /** Without subdiagonals it is always right. */
  lemma TriangularInfoIsRight(a: Mat, n: int, mu: int)
    requires 1 <= n && 0 <= mu && IsBand(a, n, 0, mu)
    ensures BandInfo(a, n, 0, mu) == 0 <==> Nonsingular(a, n)
  {
    hide BandRun, BandZeroPivot, Nonsingular, ColumnsIndependent, BandCaughtAt, IsBand;
    BandInfoIsRight(a, n, 0, mu);
    RegularIffIndependent(a, n, n - 1);
    if forall p :: 1 <= p < n ==> !BandCaughtAt(a, n, 0, mu, p) { UncaughtIsRegular(a, n, mu, n - 1); }
  }

  lemma {:induction false} UncaughtIsRegular(a: Mat, n: int, mu: int, k: nat)
    requires 0 <= mu && k <= n && IsBand(a, n, 0, mu) && forall p :: 1 <= p <= k ==> !BandCaughtAt(a, n, 0, mu, p)
    ensures Regular(a, n, k)
  {
    hide BandRun, IsBand, Stage, PivotAt, BandCaughtAt, BandPivotAt;
    if k > 0 {
      UncaughtIsRegular(a, n, mu, k - 1);
      BandIsDense(a, n, 0, mu, k - 1);
      assert !BandCaughtAt(a, n, 0, mu, k);
      CaughtMeans(a, n, 0, mu, k);
      DiagonalSearched(a, n, mu, k);
    }
  }

  lemma DiagonalSearched(a: Mat, n: int, mu: int, k: int)
    requires 1 <= k <= n && Alike(BandRun(a, n, 0, mu, k - 1).stage, Stage(a, n, k - 1), n)
    requires BandRun(a, n, 0, mu, k - 1).stage(BandPivotAt(a, n, 0, mu, k), k) != 0.0
    ensures PivotAt(a, n, k) >= k
  {
    hide BandRun, Stage, PivotRow;
    SearchRange(Stage(a, n, k - 1), k, n);
  }

  /** c_sgbfa misses the same matrix: the second step would exchange rows 1 and 2 behind column 2, beyond its reach. */
  lemma SingularityMissedInBand()
    ensures IsBand(Twin(), 3, 1, 1) && StartsInside(Twin(), 3, 1) && !Nonsingular(Twin(), 3)
    ensures BandInfo(Twin(), 3, 1, 1) == 0
  {
    hide Nonsingular, BandRun, BandPivotAt, Twin, BandZeroPivot;
    TwinSingular();
    TwinEntries();
    var a := Twin();
    FirstBandStep(a);
    SecondBandStep(a);
    BandStart(a, 3, 1, 1);
    BandZeroPivotStep(a, 3, 1, 1, 1);
    BandZeroPivotStep(a, 3, 1, 1, 2);
  }

  ghost predicate IsTwin(a: Mat) {
    && a(1, 1) == 1.0 && a(1, 2) == 1.0 && a(1, 3) == 0.0
    && a(2, 1) == 0.0 && a(2, 2) == 0.0 && a(2, 3) == 1.0
    && a(3, 1) == 0.0 && a(3, 2) == 0.0 && a(3, 3) == 1.0
  }

  lemma TwinEntries()
    ensures IsTwin(Twin()) && IsBand(Twin(), 3, 1, 1) && StartsInside(Twin(), 3, 1)
  {
    assert Twin()(1, 1) == 1.0;
  }

  lemma FirstBandStep(a: Mat)
    requires IsTwin(a)
    ensures BandPivotAt(a, 3, 1, 1, 1) == 1 && BandRun(a, 3, 1, 1, 0).stage(1, 1) == 1.0
    ensures var b := BandRun(a, 3, 1, 1, 1); b.reach == 2 && IsTwin(b.stage)
  {
    hide Within, PivotRow;
    FirstPivot(a, 1, 1);
    var b := BandState(a, 0);
    assert BandRun(a, 3, 1, 1, 0) == b;
    assert BandRun(a, 3, 1, 1, 1) == BandNext(b, 3, 1, 1, 1);
    hide BandRun;
    FirstUnchanged(a);
  }

  /** Column k of the twin matrix has one entry, in row 1. */
  lemma FirstPivot(a: Mat, k: int, l: int)
    requires IsTwin(a) && (k == 1 || k == 2) && l == 1
    ensures PivotRow(a, k, 3) == l
  {
    FirstMaxIsFirstMaximum(Col(a, k), k, 4);
    assert Col(a, k)(2) == 0.0 && Col(a, k)(3) == 0.0;
    if k == 1 { assert Col(a, k)(1) == 1.0; }
  }

  lemma FirstUnchanged(a: Mat)
    requires IsTwin(a)
    ensures IsTwin(Within(a, 1, 1, 2))
  {
    hide Eliminate;
    UnchangedRow(a, 1, 1);
    UnchangedRow(a, 1, 2);
    UnchangedRow(a, 2, 1);
    UnchangedRow(a, 2, 2);
    UnchangedRow(a, 3, 1);
    UnchangedRow(a, 3, 2);
  }

  lemma UnchangedRow(a: Mat, i: int, j: int)
    requires IsTwin(a) && 1 <= i <= 3 && 1 <= j <= 2
    ensures Eliminate(a, 1, 1)(i, j) == a(i, j)
  {
    if i > 1 {
      NoMultiplier(a, 1, 1, i);
      hide Multiplier;
      var e := Reduced(a, 1, 1)(i, j);
      assert j > 1 ==> e == a(i, j) + a(1, j) * Multiplier(a, 1, 1, i);
    } else {
      assert Reduced(a, 1, 1)(i, j) == a(Swap(1, 1, i), j);
    }
  }

  lemma SecondBandStep(a: Mat)
    requires IsTwin(a) && BandRun(a, 3, 1, 1, 1).reach == 2 && IsTwin(BandRun(a, 3, 1, 1, 1).stage)
    ensures BandPivotAt(a, 3, 1, 1, 2) == 1 && BandRun(a, 3, 1, 1, 1).stage(1, 2) == 1.0
    ensures BandRun(a, 3, 1, 1, 2).stage(3, 3) == 1.0
  {
    hide PivotRow, Eliminate;
    var b := BandRun(a, 3, 1, 1, 1);
    assert BandRun(a, 3, 1, 1, 2) == BandNext(b, 3, 1, 1, 2);
    hide BandRun;
    FirstPivot(b.stage, 2, 1);
  }
}
