/** How elimination with row exchanges moves the edge of a band matrix. */
module BandMatrix {
  import opened LinearAlgebra
  import opened Elimination
  import opened Kernels

  /** Entries more than ml below or mu above the diagonal are zero. */
  ghost predicate IsBand(a: Mat, n: int, ml: int, mu: int) {
    forall i, j :: 1 <= i <= n && 1 <= j <= n && (i > j + ml || j > i + mu) ==> a(i, j) == 0.0
  }

  /** Last column that steps 1..k may have changed: the running value of ju. */
  ghost function Reach(a: Mat, n: int, mu: int, k: nat): int {
    if k == 0 then 0 else Min(Max(Reach(a, n, mu, k - 1), mu + PivotAt(a, n, k)), n)
  }

  /** (i, j) is outside the band before step k: too low, past the fill-in diagonals, or in a row not yet reached. */
  predicate Outside(n: int, ml: int, mu: int, k: int, ju: int, i: int, j: int) {
    || i > j + ml
    || j > i + ml + mu
    || (i >= k && j > ju && j > i + mu)
  }

  /** Zero outside the band as it stands before step k. */
  ghost predicate Banded(s: Mat, n: int, ml: int, mu: int, k: int, ju: int) {
    forall i, j :: 1 <= i <= n && 1 <= j <= n && Outside(n, ml, mu, k, ju, i, j) ==> s(i, j) == 0.0
  }

  lemma KeepsEarlier(s: Mat, k: int, l: int, i: int, j: int)
    requires k <= l && s(l, k) != 0.0 && (i < k || j < k)
    ensures Eliminate(s, k, l)(i, j) == s(i, j)
  {
    var e := Reduced(s, k, l)(i, j);
    if j >= k { assert e == s(Swap(k, l, i), j); }
  }

  /** A row with no entry in the pivot column is not combined with the pivot row. */
  lemma KeepsRow(s: Mat, k: int, l: int, i: int, j: int)
    requires s(l, k) != 0.0 && k < i && i != l && s(i, k) == 0.0
    ensures Eliminate(s, k, l)(i, j) == s(i, j)
  {
    hide Multiplier;
    assert Multiplier(s, k, l, i) == 0.0 by { NoMultiplier(s, k, l, i); }
    var x, t, c := s(Swap(k, l, i), j), s(l, j), Multiplier(s, k, l, i);
    var e := Reduced(s, k, l)(i, j);
    if j == k {
      assert e == c;
    } else if j > k {
      assert e == x + t * c;
    }
  }

  lemma NoMultiplier(s: Mat, k: int, l: int, i: int)
    requires s(l, k) != 0.0 && i != k && i != l && s(i, k) == 0.0
    ensures Multiplier(s, k, l, i) == 0.0
  {
    assert Multiplier(s, k, l, i) == 0.0 * (-1.0 / s(l, k));
  }

  /** A column with zeros in rows k and l is not changed. */
  lemma KeepsColumn(s: Mat, k: int, l: int, i: int, j: int)
    requires k <= l && s(l, k) != 0.0 && k < j && s(k, j) == 0.0 && s(l, j) == 0.0
    ensures Eliminate(s, k, l)(i, j) == s(i, j)
  {
    hide Multiplier;
    var x, t, c := s(Swap(k, l, i), j), s(l, j), Multiplier(s, k, l, i);
    var e := Reduced(s, k, l)(i, j);
    assert x == s(i, j);
    if i <= k {
      assert e == x;
    } else {
      assert e == x + t * c && t * c == 0.0;
    }
  }

  /** An exchanged entry. */
  lemma MovesPivotRow(s: Mat, k: int, l: int, j: int)
    requires k <= l && s(l, k) != 0.0 && k <= j
    ensures Eliminate(s, k, l)(k, j) == s(l, j)
  {
    hide Multiplier;
    assert Reduced(s, k, l)(k, j) == s(Swap(k, l, k), j);
  }

  /** The band after a step, in terms of the band before it. */
  lemma BandStep(s: Mat, n: int, ml: int, mu: int, k: int, l: int, ju: int)
    requires 0 <= ml && 0 <= mu && 1 <= k <= l <= n && s(l, k) != 0.0
    requires Banded(s, n, ml, mu, k, ju) && ju <= ml + mu + k - 1
    ensures l <= k + ml
    ensures Banded(Eliminate(s, k, l), n, ml, mu, k + 1, Min(Max(ju, mu + l), n))
  {
    hide Eliminate;
    forall i, j | 1 <= i <= n && 1 <= j <= n && Outside(n, ml, mu, k + 1, Min(Max(ju, mu + l), n), i, j)
      ensures Eliminate(s, k, l)(i, j) == 0.0
    {
      BandStepEntry(s, n, ml, mu, k, l, ju, i, j);
    }
  }

  lemma BandStepEntry(s: Mat, n: int, ml: int, mu: int, k: int, l: int, ju: int, i: int, j: int)
    requires 0 <= ml && 0 <= mu && 1 <= k <= l <= n && l <= k + ml && s(l, k) != 0.0
    requires Banded(s, n, ml, mu, k, ju) && ju <= ml + mu + k - 1
    requires 1 <= i <= n && 1 <= j <= n && Outside(n, ml, mu, k + 1, Min(Max(ju, mu + l), n), i, j)
    ensures Eliminate(s, k, l)(i, j) == 0.0
  {
    hide Eliminate;
    if i < k || j < k {
      KeepsEarlier(s, k, l, i, j);
      assert Outside(n, ml, mu, k, ju, i, j);
    } else if i > j + ml {
      assert Outside(n, ml, mu, k, ju, i, j) && Outside(n, ml, mu, k, ju, i, k);
      KeepsRow(s, k, l, i, j);
    } else if i == k {
      MovesPivotRow(s, k, l, j);
      assert Outside(n, ml, mu, k, ju, l, j);
    } else {
      assert Outside(n, ml, mu, k, ju, k, j) && Outside(n, ml, mu, k, ju, l, j) && Outside(n, ml, mu, k, ju, i, j);
      KeepsColumn(s, k, l, i, j);
    }
  }

  /** Fill-in never leaves the ml extra diagonals, nor the columns the steps so far can have reached. */
  lemma {:induction false} BandStage(a: Mat, n: int, ml: int, mu: int, k: nat)
    requires 0 <= ml && 0 <= mu && k <= n && IsBand(a, n, ml, mu) && Regular(a, n, k)
    ensures Banded(Stage(a, n, k), n, ml, mu, k + 1, Reach(a, n, mu, k))
    ensures 0 <= Reach(a, n, mu, k) <= ml + mu + k
    ensures forall p :: 1 <= p <= k ==> p <= PivotAt(a, n, p) <= Min(n, p + ml)
  {
    hide Eliminate, PivotRow;
    if k > 0 {
      BandStage(a, n, ml, mu, k - 1);
      PivotFound(a, n, k);
      BandStep(Stage(a, n, k - 1), n, ml, mu, k, PivotAt(a, n, k), Reach(a, n, mu, k - 1));
    }
  }

  lemma BeyondReach(s: Mat, n: int, ml: int, mu: int, k: int, l: int, ju: int, i: int, j: int)
    requires 0 <= ml && 0 <= mu && 1 <= k <= l <= n && s(l, k) != 0.0 && Banded(s, n, ml, mu, k, ju)
    requires 1 <= i <= n && 1 <= j <= n && Max(ju, mu + l) < j && k < j
    ensures Eliminate(s, k, l)(i, j) == s(i, j)
  {
    hide Eliminate;
    assert Outside(n, ml, mu, k, ju, k, j) && Outside(n, ml, mu, k, ju, l, j);
    KeepsColumn(s, k, l, i, j);
  }

  /** The search of c_sgbfa. Without subdiagonals there is nothing to choose, and the search cannot fail. */
  ghost function BandPivot(s: Mat, n: int, ml: int, k: int): int { if ml == 0 then k else PivotRow(s, k, n) }

  /** A step of c_sgbfa stops at column ju. */
  ghost function Within(s: Mat, k: int, l: int, ju: int): Mat {
    (i, j) => if j <= k || j <= ju then Eliminate(s, k, l)(i, j) else s(i, j)
  }

  /** The stored matrix and the last column that the steps so far may have changed. */
  datatype BandState = BandState(stage: Mat, reach: int)

  ghost function BandNext(b: BandState, n: int, ml: int, mu: int, k: int): BandState {
    var l := BandPivot(b.stage, n, ml, k);
    if b.stage(l, k) == 0.0 then b
    else
      var ju := Min(Max(b.reach, mu + l), n);
      BandState(Within(b.stage, k, l, ju), ju)
  }

  /** c_sgbfa after k steps, whether its searches succeed or not. */
  ghost function BandRun(a: Mat, n: int, ml: int, mu: int, k: nat): BandState {
    if k == 0 then BandState(a, 0) else BandNext(BandRun(a, n, ml, mu, k - 1), n, ml, mu, k)
  }

  ghost function BandPivotAt(a: Mat, n: int, ml: int, mu: int, k: int): int
    requires k >= 1
  {
    BandPivot(BandRun(a, n, ml, mu, k - 1).stage, n, ml, k)
  }

  /** What holds before step k. */
  ghost predicate InBand(b: BandState, n: int, ml: int, mu: int, k: int) {
    && Banded(b.stage, n, ml, mu, k, b.reach)
    && 0 <= b.reach <= Min(n, ml + mu + k - 1)
  }

  /** A failed search finds the column empty from the diagonal on; the step then exchanges two rows and nothing else. */
  lemma MissedEntry(s: Mat, n: int, k: int, i: int, j: int)
    requires 1 <= k && s(k - 1, k) != 0.0 && (forall p :: k <= p <= n ==> s(p, k) == 0.0) && i <= n
    ensures Eliminate(s, k, k - 1)(i, j) == if j >= k then s(Swap(k, k - 1, i), j) else s(i, j)
  {
    if i > k {
      KeepsRow(s, k, k - 1, i, j);
    } else {
      assert Reduced(s, k, k - 1)(i, j) == if j < k then s(i, j) else s(Swap(k, k - 1, i), j);
    }
  }

  lemma BandPivotRange(b: BandState, n: int, ml: int, mu: int, k: int)
    requires 0 <= ml && 0 <= mu && 1 <= k <= n && InBand(b, n, ml, mu, k)
    ensures var l := BandPivot(b.stage, n, ml, k);
      && k - 1 <= l <= Min(n, k + ml)
      && (l < k ==> ml > 0 && forall p :: k <= p <= n ==> b.stage(p, k) == 0.0)
  {
    hide PivotRow;
    SearchRange(b.stage, k, n);
    var l := PivotRow(b.stage, k, n);
    if ml > 0 && l >= k {
      PivotNonzero(b.stage, k, n);
      PivotInBand(b.stage, n, ml, mu, k, b.reach, l);
    }
  }

  lemma PivotInBand(s: Mat, n: int, ml: int, mu: int, k: int, ju: int, l: int)
    requires Banded(s, n, ml, mu, k, ju) && 1 <= k <= l <= n && s(l, k) != 0.0
    ensures l <= k + ml
  {
    assert Outside(n, ml, mu, k, ju, l, k) <==> l > k + ml || k > l + ml + mu || (k > ju && k > l + mu);
  }

  lemma PivotNonzero(s: Mat, k: int, n: int)
    requires 1 <= k <= n && PivotRow(s, k, n) >= k
    ensures s(PivotRow(s, k, n), k) != 0.0
  {
    FirstMaxIsFirstMaximum(Col(s, k), k, n + 1);
  }

  /** The band after any step of c_sgbfa. */
  lemma BandNextInBand(b: BandState, n: int, ml: int, mu: int, k: int)
    requires 0 <= ml && 0 <= mu && 1 <= k <= n && InBand(b, n, ml, mu, k) && 1 <= BandPivot(b.stage, n, ml, k)
    ensures InBand(BandNext(b, n, ml, mu, k), n, ml, mu, k + 1)
  {
    hide Eliminate, Within, BandPivot, PivotRow;
    var s, l := b.stage, BandPivot(b.stage, n, ml, k);
    BandPivotRange(b, n, ml, mu, k);
    if s(l, k) == 0.0 {
      Later(s, n, ml, mu, k, b.reach);
    } else if l >= k {
      BandStep(s, n, ml, mu, k, l, b.reach);
      FoundWithin(s, n, ml, mu, k, l, b.reach);
    } else {
      MissedWithin(s, n, ml, mu, k, b.reach);
    }
  }

  lemma Later(s: Mat, n: int, ml: int, mu: int, k: int, ju: int)
    requires Banded(s, n, ml, mu, k, ju)
    ensures Banded(s, n, ml, mu, k + 1, ju)
  {
    forall i, j | 1 <= i <= n && 1 <= j <= n && Outside(n, ml, mu, k + 1, ju, i, j) ensures s(i, j) == 0.0 {
      assert Outside(n, ml, mu, k, ju, i, j);
    }
  }

  /** A step with a pivot on or below the diagonal changes nothing beyond its reach anyway. */
  lemma FoundWithin(s: Mat, n: int, ml: int, mu: int, k: int, l: int, ju: int)
    requires 0 <= ml && 0 <= mu && 1 <= k <= l <= n && s(l, k) != 0.0 && Banded(s, n, ml, mu, k, ju) && ju <= n
    ensures var ju' := Min(Max(ju, mu + l), n); var e, w := Eliminate(s, k, l), Within(s, k, l, ju');
      && (forall i, j :: 1 <= i <= n && 1 <= j <= n ==> w(i, j) == e(i, j))
      && (Banded(e, n, ml, mu, k + 1, ju') ==> Banded(w, n, ml, mu, k + 1, ju'))
  {
    hide Eliminate, Banded;
    var ju' := Min(Max(ju, mu + l), n);
    var e, w := Eliminate(s, k, l), Within(s, k, l, ju');
    forall i, j | 1 <= i <= n && 1 <= j <= n ensures w(i, j) == e(i, j) {
      if j > k && j > ju' { BeyondReach(s, n, ml, mu, k, l, ju, i, j); }
    }
    SameBand(e, w, n, ml, mu, k + 1, ju');
  }

  lemma SameBand(e: Mat, w: Mat, n: int, ml: int, mu: int, k: int, ju: int)
    requires forall i, j :: 1 <= i <= n && 1 <= j <= n ==> w(i, j) == e(i, j)
    ensures Banded(e, n, ml, mu, k, ju) ==> Banded(w, n, ml, mu, k, ju)
  {
  }

  lemma MissedWithin(s: Mat, n: int, ml: int, mu: int, k: int, ju: int)
    requires 0 < ml && 0 <= mu && 1 <= k <= n && s(k - 1, k) != 0.0 && (forall p :: k <= p <= n ==> s(p, k) == 0.0)
    requires Banded(s, n, ml, mu, k, ju) && ju <= Min(n, ml + mu + k - 1) && k - 1 >= 1
    ensures var ju' := Min(Max(ju, mu + k - 1), n); Banded(Within(s, k, k - 1, ju'), n, ml, mu, k + 1, ju')
  {
    hide Eliminate;
    var ju', next := Min(Max(ju, mu + k - 1), n), k + 1;
    var w := Within(s, k, k - 1, ju');
    forall i, j | 1 <= i <= n && 1 <= j <= n && Outside(n, ml, mu, next, ju', i, j) ensures w(i, j) == 0.0 {
      MissedEntry(s, n, k, i, j);
      assert Outside(n, ml, mu, k, ju, i, j);
      if j >= k && i == k { assert Outside(n, ml, mu, k, ju, k - 1, j); }
    }
  }

  /** There is nothing to search in the first column, or something to find. */
  ghost predicate StartsInside(a: Mat, n: int, ml: int) { ml == 0 || FirstColumnNonzero(a, n) }

  lemma PivotInside(a: Mat, n: int, ml: int, mu: int, k: int)
    requires 0 <= ml && 0 <= mu && 1 <= k <= n && StartsInside(a, n, ml)
    requires InBand(BandRun(a, n, ml, mu, k - 1), n, ml, mu, k)
    ensures 1 <= BandPivotAt(a, n, ml, mu, k)
  {
    hide PivotRow;
    BandPivotRange(BandRun(a, n, ml, mu, k - 1), n, ml, mu, k);
    SearchRange(a, 1, n);
  }

  /** The band holds throughout, as long as a column of zeros in front does not make the search leave the matrix. */
  lemma {:induction false} BandRunInBand(a: Mat, n: int, ml: int, mu: int, k: nat)
    requires 0 <= ml && 0 <= mu && k <= n && IsBand(a, n, ml, mu) && (k > 0 ==> StartsInside(a, n, ml))
    ensures InBand(BandRun(a, n, ml, mu, k), n, ml, mu, k + 1)
    decreases k
  {
    hide Eliminate, PivotRow, BandNext, StartsInside;
    if k > 0 {
      BandRunInBand(a, n, ml, mu, k - 1);
      PivotInside(a, n, ml, mu, k);
      BandNextInBand(BandRun(a, n, ml, mu, k - 1), n, ml, mu, k);
    }
  }
}
