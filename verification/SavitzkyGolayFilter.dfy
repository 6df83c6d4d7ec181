/** savitzky_golay: screening, the normal matrix, its solution, and the weights in wrap-around order. */
module SavitzkyGolayFilter {
  import opened LinearAlgebra
  import opened Polynomials
  import opened SavitzkyGolay
  import opened CroutTheory
  import opened DenseSolver
  import opened CroutSolve

  /** The first inconsistency found among the arguments. */
  datatype Screening = TooShort | NegativeLeft | NegativeRight | DerivativeTooHigh | TooFewPoints | Consistent

  function Screen(np: int, nl: int, nr: int, ld: int, m: int): (r: Screening)
    ensures r == Consistent <==> nl >= 0 && nr >= 0 && ld <= m <= nl + nr < np
  {
    if np < nl + nr + 1 then TooShort
    else if nl < 0 then NegativeLeft
    else if nr < 0 then NegativeRight
    else if ld > m then DerivativeTooHigh
    else if nl + nr < m then TooFewPoints
    else Consistent
  }

  lemma VandermondePower(k: int, e: nat)
    ensures Col(Vandermonde(), e + 1)(k) * Ones()(k) == Pow(k as real, e)
  {
  }

  /** Extend a power sum by one term at either end. */
  lemma PowerSumExtends(e: nat, lo: int, hi: int)
    requires lo <= hi
    ensures var c := Col(Vandermonde(), e + 1);
      && Dot(c, Ones(), lo, hi + 1) == Dot(c, Ones(), lo, hi) + Pow(hi as real, e)
      && Dot(c, Ones(), lo - 1, hi) == Dot(c, Ones(), lo, hi) + Pow((lo - 1) as real, e)
  {
    hide Dot, Vandermonde, Ones;
    var c := Col(Vandermonde(), e + 1);
    LastTerm(c, Ones(), lo, hi);
    DotSplit(c, Ones(), lo - 1, lo, hi);
    OneTerm(c, Ones(), lo - 1);
    VandermondePower(hi, e);
    VandermondePower(lo - 1, e);
  }

  /** The sum of k to the power e over the window, the sample at zero counting only for e = 0. */
  method SumOfPowers(nl: int, nr: int, e: nat) returns (sum: real)
    requires nl >= 0 && nr >= 0
    ensures sum == PowerSum(nl, nr, e)
  {
    hide Dot, Vandermonde, Pow, Ones;
    ghost var c := Col(Vandermonde(), e + 1);
    sum := if e != 0 then 0.0 else 1.0;
    CentralTerm(e);
    for k := 1 to nr + 1
      invariant sum == Dot(c, Ones(), 0, k)
    {
      PowerSumExtends(e, 0, k);
      sum := sum + Pow(k as real, e);
    }
    for k := 1 to nl + 1
      invariant sum == Dot(c, Ones(), 1 - k, nr + 1)
    {
      PowerSumExtends(e, 1 - k, nr + 1);
      sum := sum + Pow((-k) as real, e);
    }
  }

  lemma CentralTerm(e: nat)
    ensures Dot(Col(Vandermonde(), e + 1), Ones(), 0, 1) == if e != 0 then 0.0 else 1.0
  {
    OneTerm(Col(Vandermonde(), e + 1), Ones(), 0);
  }

  /** Entry (r, c) of the normal matrix is a power sum that depends on r + c only. */
  lemma NormalIsPowerSum(nl: int, nr: int, r: nat, c: nat)
    ensures NormalMatrix(nl, nr)(r + 1, c + 1) == PowerSum(nl, nr, r + c)
  {
    NormalEntry(r + 1, c + 1, -nl, nr + 1);
  }

  /** All entries on the first e antidiagonals are filled. */
  ghost predicate Antidiagonals(a: array2<real>, nl: int, nr: int, m: int, e: int)
    requires 0 <= m < a.Length0 && m < a.Length1
    reads a
  {
    forall r, c :: 0 <= r <= m && 0 <= c <= m && r + c < e ==> a[r, c] == NormalMatrix(nl, nr)(r + 1, c + 1)
  }

  /** One antidiagonal, walked by the difference of the indices in steps of two. */
  method FillAntidiagonal(a: array2<real>, nl: int, nr: int, m: int, ipj: int, sum: real)
    requires 0 <= m < a.Length0 && m < a.Length1 && 0 <= ipj <= 2 * m
    requires sum == PowerSum(nl, nr, ipj) && Antidiagonals(a, nl, nr, m, ipj)
    modifies a
    ensures Antidiagonals(a, nl, nr, m, ipj + 1)
  {
    hide NormalMatrix, PowerSum;
    var mm := Min(ipj, 2 * m - ipj);
    ghost var first := (ipj - mm) / 2;
    assert ipj - mm == 2 * first;
    var imj := -mm;
    while imj <= mm
      invariant -mm <= imj <= mm + 2 && (ipj + imj) % 2 == 0
      invariant Antidiagonals(a, nl, nr, m, ipj)
      invariant forall r, c :: first <= r < (ipj + imj) / 2 && 0 <= r <= m && 0 <= c <= m && r + c == ipj ==>
          a[r, c] == NormalMatrix(nl, nr)(r + 1, c + 1)
    {
      var r, c := (ipj + imj) / 2, (ipj - imj) / 2;
      assert r + c == ipj && 0 <= r <= m && 0 <= c <= m;
      a[r, c] := sum;
      NormalIsPowerSum(nl, nr, r, c);
      imj := imj + 2;
    }
  }

  method FillNormalMatrix(a: array2<real>, nl: int, nr: int, m: int)
    requires nl >= 0 && nr >= 0 && 0 <= m < a.Length0 && m < a.Length1
    modifies a
    ensures Holds(a, NormalMatrix(nl, nr), m + 1)
  {
    hide NormalMatrix, PowerSum;
    for ipj := 0 to 2 * m + 1
      invariant Antidiagonals(a, nl, nr, m, ipj)
    {
      var sum := SumOfPowers(nl, nr, ipj);
      FillAntidiagonal(a, nl, nr, m, ipj, sum);
    }
  }

  /** The fitted polynomial evaluated at k with running powers. */
  method Evaluate(b: array<real>, m: nat, k: int, ghost v: Vec) returns (sum: real)
    requires m < b.Length && VecHolds(b, v, m + 1)
    ensures sum == Samples(v, m + 1)(k)
  {
    hide Dot;
    sum := b[0];
    var fac := 1.0;
    ghost var x := k as real;
    OneTerm(v, Powers(x), 1);
    for mm := 0 to m
      invariant fac == Pow(x, mm) && sum == Dot(v, Powers(x), 1, mm + 2)
    {
      fac := fac * k as real;
      LastTerm(v, Powers(x), 1, mm + 2);
      assert Powers(x)(mm + 2) == fac;
      sum := sum + b[mm + 1] * fac;
    }
    SamplesAreValues(v, m + 1, k);
  }

  /** Where the weight for position k is stored: positions left of the centre first, those to the right from the end. */
  lemma WrapAround(np: int, k: int)
    requires -np < k < np
    ensures (np - k) % np == if k <= 0 then -k else np - k
  {
    if k <= 0 {
      ModuloShift(np, -k);
    } else {
      SmallModulo(np, np - k);
    }
  }

  lemma ModuloShift(np: int, j: int)
    requires 0 <= j < np
    ensures (np + j) % np == j
  {
  }

  lemma SmallModulo(np: int, j: int)
    requires 0 <= j < np
    ensures j % np == j
  {
  }

  /** The weight stored at index kk of the row, once positions up to k have been written. */
  ghost function Wrapped(w: Vec, np: int, nl: int, k: int, kk: int): real {
    if 0 <= kk <= nl && -kk <= k then w(-kk) else if np - k <= kk < np then w(np - kk) else 0.0
  }

  ghost predicate WeightsStored(c: array2<real>, row: int, w: Vec, np: int, nl: int, k: int)
    requires 0 <= row < c.Length0 && np <= c.Length1
    reads c
  {
    forall kk :: 0 <= kk < np ==> c[row, kk] == Wrapped(w, np, nl, k, kk)
  }

  method StoreWeights(c: array2<real>, row: int, b: array<real>, np: int, nl: int, nr: int, m: nat, ghost v: Vec)
    requires 0 <= row < c.Length0 && np <= c.Length1 && m < b.Length && VecHolds(b, v, m + 1)
    requires nl >= 0 && nr >= 0 && nl + nr < np
    modifies c
    ensures WeightsStored(c, row, Samples(v, m + 1), np, nl, nr)
    ensures forall r, kk :: 0 <= r < c.Length0 && 0 <= kk < c.Length1 && r != row ==> c[r, kk] == old(c[r, kk])
  {
    hide Samples;
    for kk := 0 to np
      invariant forall q :: 0 <= q < kk ==> c[row, q] == 0.0
      invariant forall r, q :: 0 <= r < c.Length0 && 0 <= q < c.Length1 && r != row ==> c[r, q] == old(c[r, q])
    {
      c[row, kk] := 0.0;
    }
    for k := -nl to nr + 1
      invariant WeightsStored(c, row, Samples(v, m + 1), np, nl, k - 1)
      invariant forall r, q :: 0 <= r < c.Length0 && 0 <= q < c.Length1 && r != row ==> c[r, q] == old(c[r, q])
    {
      var sum := Evaluate(b, m, k, v);
      WrapAround(np, k);
      c[row, (np - k) % np] := sum;
    }
  }

  /** The weights solve the moment conditions: they are the samples of the solution for unit vector ld. */
  ghost predicate IsFilter(w: Vec, nl: int, nr: int, m: int, ld: int) {
    exists v: Vec :: FilterOf(v, w, nl, nr, m, ld)
  }

  ghost predicate FilterOf(v: Vec, w: Vec, nl: int, nr: int, m: int, ld: int) {
    Solves(NormalMatrix(nl, nr), v, Unit(ld + 1), m + 1) && w == Samples(v, m + 1)
  }

  method UnitVector(b: array<real>, m: nat, ld: nat)
    requires ld <= m < b.Length
    modifies b
    ensures VecHolds(b, Unit(ld + 1), m + 1)
  {
    for j := 0 to m + 1
      invariant forall r :: 0 <= r < j ==> b[r] == 0.0
    {
      b[j] := 0.0;
    }
    b[ld] := 1.0;
  }

  /** Row `row` of c receives the weights of the derivative ld of the fit of order m over nl + nr + 1 points. */
  method Coefficients(c: array2<real>, row: int, np: int, nl: int, nr: int, ld: nat, m: int)
    returns (status: Screening, ghost w: Vec)
    requires 0 <= row < c.Length0 && np <= c.Length1
    modifies c
    ensures status == Screen(np, nl, nr, ld, m)
    ensures status == Consistent ==> IsFilter(w, nl, nr, m, ld) && WeightsStored(c, row, w, np, nl, nr)
    ensures forall r, kk :: 0 <= r < c.Length0 && 0 <= kk < c.Length1 && (status != Consistent || r != row) ==>
      c[r, kk] == old(c[r, kk])
  {
    hide NormalMatrix, Samples, Solves, Nonsingular, WeightsStored;
    w := Unit(1);
    status := Screen(np, nl, nr, ld, m);
    if status != Consistent { return; }
    var index := new int[m + 1];
    var a := new real[m + 1, m + 1];
    var b := new real[m + 1];
    FillNormalMatrix(a, nl, nr, m);
    UnitVector(b, m, ld);
    NormalNonsingular(nl, nr, m + 1);
    ghost var outcome, v := SolveSystem(m + 1, a, index, b, NormalMatrix(nl, nr), Unit(ld + 1));
    StoreWeights(c, row, b, np, nl, nr, m, v);
    w := Samples(v, m + 1);
    assert FilterOf(v, w, nl, nr, m, ld);
  }

  /** The weighted sum of k to the power i over the window is one for the derivative asked for, zero otherwise. */
  lemma FilterMoments(w: Vec, nl: int, nr: int, m: int, ld: int, i: int)
    requires IsFilter(w, nl, nr, m, ld) && 0 <= i <= m
    ensures Dot(Col(Vandermonde(), i + 1), w, -nl, nr + 1) == if i == ld then 1.0 else 0.0
  {
    hide NormalMatrix, Samples, Solves, Dot, Vandermonde;
    var v :| FilterOf(v, w, nl, nr, m, ld);
    MomentConditions(v, nl, nr, m + 1, ld + 1, i + 1);
  }

  /** Whatever the data, the weighted sum is coefficient ld of the least-squares polynomial. */
  lemma FilterFits(w: Vec, nl: int, nr: int, m: int, ld: nat, a: Vec, f: Vec)
    requires IsFilter(w, nl, nr, m, ld) && ld <= m && Fits(a, f, nl, nr, m + 1)
    ensures Dot(w, f, -nl, nr + 1) == a(ld + 1)
  {
    hide NormalMatrix, Samples, Solves, Dot, Fits;
    var v :| FilterOf(v, w, nl, nr, m, ld);
    FilterIsFittedCoefficient(v, a, f, nl, nr, m + 1, ld + 1);
  }
}
