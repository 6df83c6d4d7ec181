/** c_sgbfa and c_sgbsl: the same elimination inside packed band storage, with in-place fill-in. */
module BandSolver {
  import opened RealArithmetic
  import opened LinearAlgebra
  import opened Kernels
  import opened Elimination
  import opened Factorization
  import opened BandMatrix
  import opened DenseSolver

  /** Room for ml + mu + 1 diagonals and ml rows of fill-in above them. */
  predicate BandShape(abd: array2<real>, n: int, ml: int, mu: int) {
    1 <= n <= abd.Length1 && 0 <= ml && 0 <= mu && 2 * ml + mu + 1 <= abd.Length0
  }

  /**
   * Entry (i, j) of s is stored in row i - j + ml + mu (counted from 0) of column j. The ml fill-in rows
   * on top carry entries only in the columns up to jz; beyond jz they may hold anything.
   */
  ghost predicate BandHolds(abd: array2<real>, s: Mat, n: int, ml: int, mu: int, jz: int)
    reads abd
  {
    && BandShape(abd, n, ml, mu)
    && forall r, c :: 0 <= r <= 2 * ml + mu && 0 <= c < n && 1 <= r + c + 1 - ml - mu <= n && (r >= ml || c < jz) ==>
         abd[r, c] == s(r + c + 1 - ml - mu, c + 1)
  }

  ghost predicate BandColumn(abd: array2<real>, s: Mat, n: int, ml: int, mu: int, c: int)
    requires BandShape(abd, n, ml, mu) && 0 <= c < n
    reads abd
  {
    forall r :: 0 <= r <= 2 * ml + mu && 1 <= r + c + 1 - ml - mu <= n ==> abd[r, c] == s(r + c + 1 - ml - mu, c + 1)
  }

  /** memset of rows lo .. ml - 1 of a column: nothing is lost if the entries there are zero anyway. */
  method ZeroFillIn(abd: array2<real>, n: int, ml: int, mu: int, jz: int, lo: int, ghost s: Mat)
    requires BandHolds(abd, s, n, ml, mu, jz - 1) && 1 <= jz <= n && 0 <= lo && (lo == 0 || lo + jz - ml - mu <= 1)
    requires forall i :: 1 <= i < jz - mu ==> s(i, jz) == 0.0
    modifies abd
    ensures BandHolds(abd, s, n, ml, mu, jz)
  {
    ghost var z := jz - 1;
    for r := lo to Max(lo, ml)
      invariant forall p :: lo <= p < r ==> abd[p, z] == 0.0
      invariant forall p, c :: 0 <= p < abd.Length0 && 0 <= c < abd.Length1 && !(c == jz - 1 && lo <= p < r) ==>
        abd[p, c] == old(abd[p, c])
    {
      abd[r, jz - 1] := 0.0;
    }
  }

  /** The fill-in entries of the columns that the first step can reach. */
  method ZeroInitialFillIn(abd: array2<real>, n: int, ml: int, mu: int, ghost a: Mat) returns (jz: int)
    requires BandHolds(abd, a, n, ml, mu, 0) && IsBand(a, n, ml, mu)
    modifies abd
    ensures BandHolds(abd, a, n, ml, mu, jz) && jz == Min(n, ml + mu + 1) - 1
  {
    var j0, j1 := mu + 2, Min(n, ml + mu + 1) - 1;
    jz := j0;
    while jz <= j1
      invariant j0 <= jz <= Max(j0, j1 + 1)
      invariant BandHolds(abd, a, n, ml, mu, jz - 1)
    {
      ZeroFillIn(abd, n, ml, mu, jz, ml + mu + 1 - jz, a);
      jz := jz + 1;
    }
    jz := j1;
  }

  /** The search over the stored rows of a column finds what the search over the whole column would. */
  lemma BandSearch(s: Mat, n: int, ml: int, mu: int, k: int, ju: int)
    requires 0 < ml && 1 <= k <= n && Banded(s, n, ml, mu, k, ju)
    ensures PivotRow(s, k, n) == FirstMax(Col(s, k), k, k + Min(ml, n - k) + 1)
  {
    hide PivotRow, FirstMax;
    var lm := Min(ml, n - k);
    PivotRowOfColumn(s, k, n);
    forall i | k + lm + 1 <= i < n + 1 ensures Col(s, k)(i) == 0.0 { assert Outside(n, ml, mu, k, ju, i, k); }
    FirstMaxIgnoresZeros(Col(s, k), Col(s, k), k, k + lm + 1, n + 1);
  }

  /** A row that a step can exchange with row k: one of the ml below, itself, or after a failed search the one above. */
  predicate Reachable(n: int, ml: int, k: int, l: int) { 1 <= l <= Min(n, k + ml) && k - 1 <= l && (l < k ==> ml > 0) }

  /** Exchange of rows k and l within the stored part of column c + 1. */
  method BandExchange(abd: array2<real>, n: int, ml: int, mu: int, k: int, l: int, c: int, ghost s: Mat)
    requires BandShape(abd, n, ml, mu) && 1 <= k <= n && Reachable(n, ml, k, l) && k - 1 <= c < n
    requires c < Min(k, l) + ml + mu
    requires BandColumn(abd, s, n, ml, mu, c)
    modifies abd
    ensures forall r :: 0 <= r <= 2 * ml + mu && 1 <= r + c + 1 - ml - mu <= n ==>
      abd[r, c] == s(Swap(k, l, r + c + 1 - ml - mu), c + 1)
    ensures forall r, c' :: 0 <= r < abd.Length0 && 0 <= c' < abd.Length1 && c' != c ==> abd[r, c'] == old(abd[r, c'])
  {
    var lr, kr := l - c - 1 + ml + mu, k - c - 1 + ml + mu;
    var t := abd[lr, c];
    if lr != kr {
      abd[lr, c] := abd[kr, c];
      abd[kr, c] := t;
    }
  }

  method BandMultipliers(abd: array2<real>, n: int, ml: int, mu: int, k: int, l: int, ghost s: Mat)
    requires BandShape(abd, n, ml, mu) && 1 <= k < n && Reachable(n, ml, k, l) && s(l, k) != 0.0
    requires BandColumn(abd, s, n, ml, mu, k - 1)
    modifies abd
    ensures BandColumn(abd, Eliminate(s, k, l), n, ml, mu, k - 1)
    ensures forall r, c :: 0 <= r < abd.Length0 && 0 <= c < abd.Length1 && c != k - 1 ==> abd[r, c] == old(abd[r, c])
  {
    hide Eliminate;
    var lm, m := Min(ml, n - k), ml + mu;
    BandExchange(abd, n, ml, mu, k, l, k - 1, s);
    label exchanged:
    var t := -1.0 / abd[m, k - 1];
    Sscal(lm, t, abd, m + 1, k - 1);
    ghost var c := k - 1;
    forall r | 0 <= r <= 2 * ml + mu && 1 <= r + c + 1 - ml - mu <= n
      ensures abd[r, c] == Eliminate(s, k, l)(r + c + 1 - ml - mu, c + 1)
    {
      assert r + c + 1 - ml - mu <= k <==> r <= m;
      MultiplierEntry(s, k, l, r + c + 1 - ml - mu, old@exchanged(abd[r, c]), t, abd[r, c]);
    }
  }

  /** Entry (i, j) after the exchange and the update of rows k + 1 .. k + lm of its column. */
  lemma BandReducedEntry(s: Mat, n: int, ml: int, mu: int, k: int, l: int, ju: int, i: int, j: int,
                         x: real, t: real, c: real, e: real)
    requires 0 <= ml && 1 <= k && Reachable(n, ml, k, l) && s(l, k) != 0.0 && Banded(s, n, ml, mu, k, ju)
    requires 1 <= i <= n && k < j <= n && x == s(Swap(k, l, i), j) && t == s(l, j)
    requires k < i <= k + ml ==> c == Eliminate(s, k, l)(i, k)
    requires e == if k < i <= k + ml then x + t * c else x
    ensures Eliminate(s, k, l)(i, j) == e
  {
    hide Eliminate;
    if i <= k + ml {
      ReducedColumnEntry(s, k, l, i, j, x, t, if i <= k then Eliminate(s, k, l)(i, k) else c, e);
    } else {
      assert Outside(n, ml, mu, k, ju, i, k);
      KeepsRow(s, k, l, i, j);
    }
  }

  method BandReduceColumn(abd: array2<real>, n: int, ml: int, mu: int, k: int, l: int, c: int, ghost s: Mat,
      ghost ju: int)
    requires BandShape(abd, n, ml, mu) && 1 <= k <= c < n && Reachable(n, ml, k, l) && s(l, k) != 0.0
    requires c < Min(k, l) + ml + mu && Banded(s, n, ml, mu, k, ju)
    requires BandColumn(abd, Eliminate(s, k, l), n, ml, mu, k - 1) && BandColumn(abd, s, n, ml, mu, c)
    modifies abd
    ensures BandColumn(abd, Eliminate(s, k, l), n, ml, mu, c)
    ensures forall r, c' :: 0 <= r < abd.Length0 && 0 <= c' < abd.Length1 && c' != c ==> abd[r, c'] == old(abd[r, c'])
  {
    hide Eliminate, Banded;
    var lm, m, mm, d := Min(ml, n - k), ml + mu, k - c - 1 + ml + mu, k - 1;
    var t := abd[l - c - 1 + m, c];
    BandExchange(abd, n, ml, mu, k, l, c, s);
    label exchanged:
    Saxpy(lm, t, abd, m + 1, d, abd, mm + 1, c);
    forall r | 0 <= r <= 2 * ml + mu && 1 <= r + c + 1 - ml - mu <= n
      ensures abd[r, c] == Eliminate(s, k, l)(r + c + 1 - ml - mu, c + 1)
    {
      var i := r + c + 1 - ml - mu;
      var r' := r - (mm + 1) + (m + 1);
      assert r' == i - k + m && (k < i <= k + ml <==> mm + 1 <= r < mm + 1 + lm);
      BandReducedEntry(s, n, ml, mu, k, l, ju, i, c + 1, old@exchanged(abd[r, c]), t,
                       if k < i <= k + ml then abd[r', d] else 0.0, abd[r, c]);
    }
  }

  /** Columns below c already hold t, the others still s. */
  ghost predicate BandMixed(abd: array2<real>, s: Mat, t: Mat, n: int, ml: int, mu: int, jz: int, c: int)
    reads abd
  {
    && BandShape(abd, n, ml, mu)
    && forall r, c' ::
         0 <= r <= 2 * ml + mu && 0 <= c' < n && 1 <= r + c' + 1 - ml - mu <= n && (r >= ml || c' < jz) ==>
         abd[r, c'] == if c' < c then t(r + c' + 1 - ml - mu, c' + 1) else s(r + c' + 1 - ml - mu, c' + 1)
  }

  method BandReduceNext(abd: array2<real>, n: int, ml: int, mu: int, k: int, l: int, jz: int, ju: int, c: int,
      ghost s: Mat)
    requires BandMixed(abd, s, Eliminate(s, k, l), n, ml, mu, jz, c) && 1 <= k < n && Reachable(n, ml, k, l)
    requires s(l, k) != 0.0 && Banded(s, n, ml, mu, k, ju) && k <= c < Min(jz, n) && c < Min(k, l) + ml + mu
    modifies abd
    ensures BandMixed(abd, s, Eliminate(s, k, l), n, ml, mu, jz, c + 1)
  {
    hide Eliminate, Banded;
    BandReduceColumn(abd, n, ml, mu, k, l, c, s, ju);
  }

  /** One step inside the band: column k, and the columns behind it up to ju'. */
  method BandEliminateStep(abd: array2<real>, n: int, ml: int, mu: int, k: int, l: int, jz: int, ju: int, ju': int,
      ghost s: Mat)
    requires BandHolds(abd, s, n, ml, mu, jz) && 1 <= k < n && Reachable(n, ml, k, l) && s(l, k) != 0.0
    requires Banded(s, n, ml, mu, k, ju) && k <= jz && ju' <= Min(n, jz) && ju' <= Min(k, l) + ml + mu
    modifies abd
    ensures BandHolds(abd, Within(s, k, l, ju'), n, ml, mu, jz)
  {
    hide Eliminate, Banded;
    BandMultipliers(abd, n, ml, mu, k, l, s);
    EarlierColumnsKept(s, k, l);
    BandReduceColumns(abd, n, ml, mu, k, l, jz, ju, ju', s);
  }

  method BandReduceColumns(abd: array2<real>, n: int, ml: int, mu: int, k: int, l: int, jz: int, ju: int, ju': int,
      ghost s: Mat)
    requires BandMixed(abd, s, Eliminate(s, k, l), n, ml, mu, jz, k) && 1 <= k < n && Reachable(n, ml, k, l)
    requires s(l, k) != 0.0 && Banded(s, n, ml, mu, k, ju) && ju' <= Min(jz, n) && ju' <= Min(k, l) + ml + mu
    modifies abd
    ensures BandMixed(abd, s, Eliminate(s, k, l), n, ml, mu, jz, Max(k, ju'))
  {
    hide Eliminate, Banded, BandMixed;
    var c := k;
    while c < ju'
      invariant k <= c <= Max(k, ju')
      invariant BandMixed(abd, s, Eliminate(s, k, l), n, ml, mu, jz, c)
    {
      BandReduceNext(abd, n, ml, mu, k, l, jz, ju, c, s);
      c := c + 1;
    }
  }

  /** One pass of the factorization loop: clear the next fill-in column, search, eliminate. */
  method BandFactorStep(abd: array2<real>, n: int, ml: int, mu: int, k: int, jz: int, ju: int, ghost a: Mat)
    returns (p: int, ju': int, zero: bool)
    requires 1 <= k < n && BandShape(abd, n, ml, mu) && IsBand(a, n, ml, mu) && StartsInside(a, n, ml)
    requires BandHolds(abd, BandRun(a, n, ml, mu, k - 1).stage, n, ml, mu, jz)
    requires jz == Min(n, ml + mu + 1) + k - 2 && ju == BandRun(a, n, ml, mu, k - 1).reach
    modifies abd
    ensures BandHolds(abd, BandRun(a, n, ml, mu, k).stage, n, ml, mu, jz + 1)
    ensures p == BandPivotAt(a, n, ml, mu, k) && ju' == BandRun(a, n, ml, mu, k).reach
    ensures zero == (BandRun(a, n, ml, mu, k - 1).stage(p, k) == 0.0)
  {
    hide Eliminate, Within, Banded, FirstMax, PivotRow, BandHolds, IsBand, StartsInside, BandPivot;
    ghost var b := BandRun(a, n, ml, mu, k - 1);
    BandRunInBand(a, n, ml, mu, k - 1);
    PivotInside(a, n, ml, mu, k);
    BandPivotRange(b, n, ml, mu, k);
    BandClear(abd, n, ml, mu, k, jz + 1, ju, b.stage);
    p, zero := BandFindPivot(abd, n, ml, mu, k, jz + 1, ju, b.stage);
    ju' := ju;
    if !zero {
      ju' := Min(Max(ju, mu + p), n);
      BandEliminateStep(abd, n, ml, mu, k, p, jz + 1, ju, ju', b.stage);
    }
  }

  /** The search over the stored rows of column k, and the test of the entry found. */
  method BandFindPivot(abd: array2<real>, n: int, ml: int, mu: int, k: int, jz: int, ju: int, ghost s: Mat)
    returns (p: int, zero: bool)
    requires BandHolds(abd, s, n, ml, mu, jz) && 1 <= k < n && k <= jz && Banded(s, n, ml, mu, k, ju)
    requires Reachable(n, ml, k, BandPivot(s, n, ml, k))
    ensures p == BandPivot(s, n, ml, k) && zero == (s(p, k) == 0.0)
  {
    hide FirstMax, Banded, PivotRow;
    var lm, m := Min(ml, n - k), ml + mu;
    if ml > 0 { BandSearch(s, n, ml, mu, k, ju); }
    var q := Isamax(lm + 1, abd, m, k - 1, Col(s, k), k);
    p := k + q - 1;
    zero := abd[m + q - 1, k - 1] == 0.0;
  }

  method BandClear(abd: array2<real>, n: int, ml: int, mu: int, k: int, jz: int, ghost ju: int, ghost s: Mat)
    requires 1 <= k < n && BandHolds(abd, s, n, ml, mu, jz - 1) && Banded(s, n, ml, mu, k, ju)
    requires jz == Min(n, ml + mu + 1) + k - 1 && ju < jz
    modifies abd
    ensures BandHolds(abd, s, n, ml, mu, jz)
  {
    if jz <= n {
      forall i | 1 <= i < jz - mu ensures s(i, jz) == 0.0 { assert Outside(n, ml, mu, k, ju, i, jz); }
      ZeroFillIn(abd, n, ml, mu, jz, 0, s);
    }
  }

  /** The pivots that c_sgbfa stores. */
  ghost function BandPivots(a: Mat, n: int, ml: int, mu: int): int -> int {
    k => if 1 <= k < n then BandPivotAt(a, n, ml, mu, k) else n
  }

  ghost function BandFactors(a: Mat, n: int, ml: int, mu: int): Mat
    requires n >= 1
  {
    BandRun(a, n, ml, mu, n - 1).stage
  }

  /** The last of the first k steps whose search ended on a zero entry, or 0. */
  ghost function BandZeroPivot(a: Mat, n: int, ml: int, mu: int, k: nat): int {
    if k == 0 then 0
    else if BandRun(a, n, ml, mu, k - 1).stage(BandPivotAt(a, n, ml, mu, k), k) == 0.0 then k
    else BandZeroPivot(a, n, ml, mu, k - 1)
  }

  /** What c_sgbfa returns. */
  ghost function BandInfo(a: Mat, n: int, ml: int, mu: int): int
    requires n >= 1
  {
    if BandFactors(a, n, ml, mu)(n, n) == 0.0 then n else BandZeroPivot(a, n, ml, mu, n - 1)
  }

  ghost predicate BandPivotsStored(ipvt: array<int>, a: Mat, n: int, ml: int, mu: int, k: int)
    requires k <= ipvt.Length
    reads ipvt
  {
    forall p :: 0 <= p < k ==> ipvt[p] == BandPivotAt(a, n, ml, mu, p + 1)
  }

  /**
   * c_sgbfa on any band matrix, whether its searches succeed or not. As in the full matrix, a first column of zeros
   * would make the search answer 0 and the code read what is not an entry.
   */
  method Sgbfa(abd: array2<real>, n: int, ml: int, mu: int, ipvt: array<int>, ghost a: Mat) returns (info: int)
    requires BandShape(abd, n, ml, mu) && BandHolds(abd, a, n, ml, mu, 0) && n <= ipvt.Length
    requires IsBand(a, n, ml, mu) && (n > 1 ==> StartsInside(a, n, ml))
    modifies abd, ipvt
    ensures BandHolds(abd, BandFactors(a, n, ml, mu), n, ml, mu, n)
    ensures forall p :: 0 <= p < n ==> ipvt[p] == BandPivots(a, n, ml, mu)(p + 1)
    ensures info == BandInfo(a, n, ml, mu)
    ensures Regular(a, n, n - 1) ==>
      && BandHolds(abd, Factors(a, n), n, ml, mu, n)
      && (forall p :: 0 <= p < n ==> ipvt[p] == Pivots(a, n)(p + 1))
      && info == if Nonsingular(a, n) then 0 else n
  {
    hide BandRun, BandPivotAt, BandZeroPivot, IsBand, StartsInside, Regular, Nonsingular, Stage, PivotAt;
    info := BandFactorSteps(abd, n, ml, mu, ipvt, a);
    ipvt[n - 1] := n;
    if abd[ml + mu, n - 1] == 0.0 { info := n; }
    if Regular(a, n, n - 1) { BandIsDenseThroughout(a, n, ml, mu); }
  }

  /** As long as the searches succeed, c_sgbfa computes what c_sgefa computes, in spite of stopping at the reach. */
  lemma {:induction false} BandIsDense(a: Mat, n: int, ml: int, mu: int, k: nat)
    requires 0 <= ml && 0 <= mu && k <= n && IsBand(a, n, ml, mu) && Regular(a, n, k)
    ensures Alike(BandRun(a, n, ml, mu, k).stage, Stage(a, n, k), n)
    ensures BandRun(a, n, ml, mu, k).reach == Reach(a, n, mu, k)
    ensures forall p :: 1 <= p <= k ==> BandPivotAt(a, n, ml, mu, p) == PivotAt(a, n, p)
    ensures BandZeroPivot(a, n, ml, mu, k) == 0
    decreases k
  {
    hide Eliminate, PivotRow, Within, Banded, BandPivot, Stage, IsBand;
    if k == 0 {
      StageStart(a, n, mu);
    } else {
      BandIsDense(a, n, ml, mu, k - 1);
      BandStage(a, n, ml, mu, k - 1);
      BandStage(a, n, ml, mu, k);
      PivotFound(a, n, k);
      var b, t, l, ju := BandRun(a, n, ml, mu, k - 1), Stage(a, n, k - 1), PivotAt(a, n, k), Reach(a, n, mu, k);
      SamePivot(b.stage, t, n, ml, k);
      FoundWithin(t, n, ml, mu, k, l, b.reach);
      WithinAlike(b.stage, t, n, k, l, ju);
      StageFromLast(a, n, k);
      EliminateIfNonzero(t, k, l);
    }
  }

  ghost predicate Alike(s: Mat, t: Mat, n: int) { forall i, j :: 1 <= i <= n && 1 <= j <= n ==> s(i, j) == t(i, j) }

  lemma EliminateIfNonzero(s: Mat, k: int, l: int)
    ensures (if s(l, k) == 0.0 then s else Eliminate(s, k, l)) == Eliminate(s, k, l)
  {
  }

  lemma SamePivot(s: Mat, t: Mat, n: int, ml: int, k: int)
    requires 1 <= k <= n && Alike(s, t, n) && k <= PivotRow(t, k, n) && (ml == 0 ==> PivotRow(t, k, n) == k)
    ensures BandPivot(s, n, ml, k) == PivotRow(t, k, n)
  {
    FirstMaxIgnoresZeros(Col(s, k), Col(t, k), k, n + 1, n + 1);
  }

  lemma WithinAlike(s: Mat, t: Mat, n: int, k: int, l: int, ju: int)
    requires 1 <= k <= l <= n && Alike(s, t, n) && t(l, k) != 0.0
    ensures Alike(Within(s, k, l, ju), Within(t, k, l, ju), n)
  {
    hide Eliminate;
    forall i, j | 1 <= i <= n && 1 <= j <= n ensures Within(s, k, l, ju)(i, j) == Within(t, k, l, ju)(i, j) {
      EliminateAlike(s, t, n, k, l, i, j);
    }
  }

  lemma EliminateAlike(s: Mat, t: Mat, n: int, k: int, l: int, i: int, j: int)
    requires 1 <= k <= l <= n && Alike(s, t, n) && t(l, k) != 0.0 && 1 <= i <= n && 1 <= j <= n
    ensures Eliminate(s, k, l)(i, j) == Eliminate(t, k, l)(i, j)
  {
    var i' := Swap(k, l, i);
    var c := Multiplier(t, k, l, i);
    SameProduct(s(i', k), t(i', k), -1.0 / s(l, k), -1.0 / t(l, k));
    assert Multiplier(s, k, l, i) == c;
    SameProduct(s(l, j), t(l, j), Multiplier(s, k, l, i), c);
    hide Multiplier;
    assert Eliminate(s, k, l)(i, j) == Reduced(s, k, l)(i, j) && Eliminate(t, k, l)(i, j) == Reduced(t, k, l)(i, j);
  }

  lemma BandIsDenseThroughout(a: Mat, n: int, ml: int, mu: int)
    requires 1 <= n && 0 <= ml && 0 <= mu && IsBand(a, n, ml, mu) && Regular(a, n, n - 1)
    ensures Alike(BandFactors(a, n, ml, mu), Factors(a, n), n)
    ensures forall k :: 1 <= k <= n ==> BandPivots(a, n, ml, mu)(k) == Pivots(a, n)(k)
    ensures BandInfo(a, n, ml, mu) == if Nonsingular(a, n) then 0 else n
  {
    hide BandRun, BandZeroPivot, Stage, BandPivotAt, PivotAt, Nonsingular, Reach;
    BandIsDense(a, n, ml, mu, n - 1);
    LastPivotDecides(a, n);
  }

  lemma StageStart(a: Mat, n: int, mu: int)
    ensures Stage(a, n, 0) == a && Reach(a, n, mu, 0) == 0
  {
  }

  /** A nonsingular matrix has something in its first column. */
  lemma NonsingularStarts(a: Mat, n: int, ml: int)
    requires 1 <= n && Nonsingular(a, n)
    ensures StartsInside(a, n, ml) && Regular(a, n, n - 1)
  {
    hide Stage, PivotRow, Nonsingular;
    RegularIffNonsingular(a, n);
    PivotFound(a, n, 1);
    assert Stage(a, n, 0) == a by { StageStart(a, n, 0); }
  }

  method BandFactorSteps(abd: array2<real>, n: int, ml: int, mu: int, ipvt: array<int>, ghost a: Mat)
    returns (info: int)
    requires BandShape(abd, n, ml, mu) && BandHolds(abd, a, n, ml, mu, 0) && n <= ipvt.Length
    requires IsBand(a, n, ml, mu) && (n > 1 ==> StartsInside(a, n, ml))
    modifies abd, ipvt
    ensures BandHolds(abd, BandFactors(a, n, ml, mu), n, ml, mu, n)
    ensures BandPivotsStored(ipvt, a, n, ml, mu, n - 1) && info == BandZeroPivot(a, n, ml, mu, n - 1)
  {
    hide BandRun, BandPivotAt, BandHolds, IsBand, StartsInside, BandZeroPivot;
    info := 0;
    BandStart(a, n, ml, mu);
    var jz := ZeroInitialFillIn(abd, n, ml, mu, a);
    var ju := 0;
    for k := 1 to n
      invariant jz == Min(n, ml + mu + 1) + k - 2 && ju == BandRun(a, n, ml, mu, k - 1).reach
      invariant info == BandZeroPivot(a, n, ml, mu, k - 1)
      invariant BandHolds(abd, BandRun(a, n, ml, mu, k - 1).stage, n, ml, mu, jz)
      invariant BandPivotsStored(ipvt, a, n, ml, mu, k - 1)
    {
      var p, ju', zero := BandFactorStep(abd, n, ml, mu, k, jz, ju, a);
      BandZeroPivotStep(a, n, ml, mu, k);
      ipvt[k - 1] := p;
      if zero { info := k; }
      jz, ju := jz + 1, ju';
    }
    BandHoldsAll(abd, BandFactors(a, n, ml, mu), n, ml, mu, jz);
  }

  lemma BandStart(a: Mat, n: int, ml: int, mu: int)
    ensures BandRun(a, n, ml, mu, 0) == BandState(a, 0) && BandZeroPivot(a, n, ml, mu, 0) == 0
  {
  }

  lemma BandZeroPivotStep(a: Mat, n: int, ml: int, mu: int, k: nat)
    requires k > 0
    ensures BandZeroPivot(a, n, ml, mu, k) ==
      if BandRun(a, n, ml, mu, k - 1).stage(BandPivotAt(a, n, ml, mu, k), k) == 0.0 then k
      else BandZeroPivot(a, n, ml, mu, k - 1)
  {
  }

  lemma BandHoldsAll(abd: array2<real>, s: Mat, n: int, ml: int, mu: int, jz: int)
    requires BandHolds(abd, s, n, ml, mu, jz) && (n <= jz || ml == 0 || n == 1)
    ensures BandHolds(abd, s, n, ml, mu, n)
  {
  }
}
