/**
 * c_solve_eigen around the eigenvalue routine: the reduced matrices before it, the eigenvectors of the streams
 * after it.
 */
module EigenSolver {
  import opened LinearAlgebra
  import opened DenseSolver
  import opened CroutSolve
  import opened EigenTheory

  function Over(x: real, m: real): real { if m == 0.0 then 0.0 else x / m }

  /** The coupling of streams on the same side and on opposite sides, over the stream cosines mu. */
  ghost function Alpha(near: Mat, mu: Vec): Mat {
    (i, j) => Over(near(i, j), mu(i)) - if i == j then Over(1.0, mu(i)) else 0.0
  }

  ghost function Beta(far: Mat, mu: Vec): Mat { (i, j) => Over(far(i, j), mu(i)) }

  ghost function Plus(near: Mat, far: Mat, mu: Vec): Mat { (i, j) => Alpha(near, mu)(i, j) + Beta(far, mu)(i, j) }

  ghost function Minus(near: Mat, far: Mat, mu: Vec): Mat { (i, j) => Alpha(near, mu)(i, j) - Beta(far, mu)(i, j) }

  ghost function Product(a: Mat, b: Mat, n: int): Mat { (i, j) => LeftProduct(Row(a, i), b, 1, n + 1)(j) }

  /** The upper half of the coupling matrix: near for streams on the same side, far for opposite sides. */
  ghost predicate Coupling(cc: array2<real>, near: Mat, far: Mat, n: int)
    reads cc
  {
    && n >= 0 && 2 * n <= cc.Length0 && 2 * n <= cc.Length1
    && (forall r, k :: 0 <= r < n && 0 <= k < n ==> cc[r, k] == near(r + 1, k + 1))
    && (forall r, k :: 0 <= r < n && n <= k < 2 * n ==> cc[r, k] == far(r + 1, k - n + 1))
  }

  /** The lower half, by symmetry under reversal of both streams, down to row n + m. */
  ghost predicate Mirrored(cc: array2<real>, near: Mat, far: Mat, n: int, m: int)
    reads cc
  {
    && 0 <= m <= n && 2 * n <= cc.Length0 && 2 * n <= cc.Length1
    && (forall r, k :: n <= r < n + m && 0 <= k < n ==> cc[r, k] == far(r - n + 1, k + 1))
    && (forall r, k :: n <= r < n + m && n <= k < 2 * n ==> cc[r, k] == near(r - n + 1, k - n + 1))
  }

  method FillRow(n: int, cc: array2<real>, iq: int, below: int, ghost near: Mat, ghost far: Mat)
    requires Coupling(cc, near, far, n) && 0 <= iq < n && below == iq + n
    modifies cc
    ensures forall k :: 0 <= k < n ==> cc[below, k] == far(iq + 1, k + 1)
    ensures forall k :: n <= k < 2 * n ==> cc[below, k] == near(iq + 1, k - n + 1)
    ensures forall r, k :: 0 <= r < cc.Length0 && 0 <= k < cc.Length1 && r != below ==> cc[r, k] == old(cc[r, k])
  {
    for jq := 0 to n
      invariant forall k :: 0 <= k < jq ==> cc[below, k] == far(iq + 1, k + 1)
      invariant forall k :: n <= k < n + jq ==> cc[below, k] == near(iq + 1, k - n + 1)
      invariant forall r, k :: 0 <= r < cc.Length0 && 0 <= k < cc.Length1 && r != below ==> cc[r, k] == old(cc[r, k])
    {
      cc[below, jq] := cc[iq, jq + n];
      cc[below, jq + n] := cc[iq, jq];
    }
  }

  method FillSymmetric(n: int, cc: array2<real>, ghost near: Mat, ghost far: Mat)
    requires Coupling(cc, near, far, n)
    modifies cc
    ensures Coupling(cc, near, far, n) && Mirrored(cc, near, far, n, n)
  {
    for iq := 0 to n
      invariant Coupling(cc, near, far, n) && Mirrored(cc, near, far, n, iq)
    {
      FillRow(n, cc, iq, iq + n, near, far);
    }
  }

  function Signed(plus: bool, x: real): real { if plus then x else -x }

  /** Sum and difference before the diagonal is taken off. */
  ghost function Half(near: Mat, far: Mat, mu: Vec, plus: bool): Mat {
    (i, j) => Over(near(i, j), mu(i)) + Signed(plus, Over(far(i, j), mu(i)))
  }

  lemma HalfEntry(near: Mat, far: Mat, mu: Vec, i: int, j: int, alpha: real, beta: real)
    requires alpha == Over(near(i, j), mu(i)) && beta == Over(far(i, j), mu(i))
    ensures alpha - beta == Half(near, far, mu, false)(i, j) && alpha + beta == Half(near, far, mu, true)(i, j)
  {
    hide Over;
  }

  /** The diagonal taken off makes both reduced matrices. */
  lemma HalfReduced(near: Mat, far: Mat, mu: Vec, i: int, j: int, d: real)
    requires d == if i == j then Over(1.0, mu(i)) else 0.0
    ensures Half(near, far, mu, false)(i, j) - d == Minus(near, far, mu)(i, j)
    ensures Half(near, far, mu, true)(i, j) - d == Plus(near, far, mu)(i, j)
  {
    hide Over;
    assert Alpha(near, mu)(i, j) == Over(near(i, j), mu(i)) - d;
    assert Beta(far, mu)(i, j) == Over(far(i, j), mu(i));
  }

  ghost predicate Cosines(cmu: array<real>, mu: Vec, n: int)
    reads cmu
  {
    VecHolds(cmu, mu, n) && forall i :: 1 <= i <= n ==> mu(i) != 0.0
  }

  lemma NonzeroCosine(cmu: array<real>, mu: Vec, n: int, iq: int)
    requires Cosines(cmu, mu, n) && 0 <= iq < n
    ensures n <= cmu.Length && cmu[iq] == mu(iq + 1) && cmu[iq] != 0.0
  {
    assert mu(iq + 1) != 0.0;
  }

  /** The factors of one pair of streams. */
  method AlphaAndBeta(n: int, iq: int, jq: int, cc: array2<real>, cmu: array<real>, ghost near: Mat, ghost far: Mat,
      ghost mu: Vec) returns (alpha: real, beta: real)
    requires Coupling(cc, near, far, n) && Cosines(cmu, mu, n) && 0 <= iq < n && 0 <= jq < n
    ensures alpha == Over(near(iq + 1, jq + 1), mu(iq + 1)) && beta == Over(far(iq + 1, jq + 1), mu(iq + 1))
  {
    NonzeroCosine(cmu, mu, n, iq);
    ghost var opposite := jq + n;
    assert cc[iq, opposite] == far(iq + 1, opposite - n + 1);
    alpha := cc[iq, jq] / cmu[iq];
    beta := cc[iq, jq + n] / cmu[iq];
  }

  /** Row iq + 1 of both reduced matrices. */
  method ReducedRow(n: int, iq: int, cc: array2<real>, cmu: array<real>, amb: array2<real>, apb: array2<real>,
      ghost near: Mat, ghost far: Mat, ghost mu: Vec)
    requires Coupling(cc, near, far, n) && Cosines(cmu, mu, n) && 0 <= iq < n && amb != apb && amb != cc && apb != cc
    requires n <= amb.Length0 && n <= amb.Length1 && n <= apb.Length0 && n <= apb.Length1
    modifies amb, apb
    ensures forall k :: 0 <= k < n ==> amb[iq, k] == Minus(near, far, mu)(iq + 1, k + 1)
    ensures forall k :: 0 <= k < n ==> apb[iq, k] == Plus(near, far, mu)(iq + 1, k + 1)
    ensures forall r, k :: 0 <= r < n && 0 <= k < n && r != iq ==>
      amb[r, k] == old(amb[r, k]) && apb[r, k] == old(apb[r, k])
  {
    hide Minus, Plus, Half, Coupling, Cosines;
    NonzeroCosine(cmu, mu, n, iq);
    for jq := 0 to n
      invariant forall k :: 0 <= k < jq ==> amb[iq, k] == Half(near, far, mu, false)(iq + 1, k + 1)
      invariant forall k :: 0 <= k < jq ==> apb[iq, k] == Half(near, far, mu, true)(iq + 1, k + 1)
      invariant forall r, k :: 0 <= r < n && 0 <= k < n && r != iq ==>
        amb[r, k] == old(amb[r, k]) && apb[r, k] == old(apb[r, k])
    {
      var alpha, beta := AlphaAndBeta(n, iq, jq, cc, cmu, near, far, mu);
      HalfEntry(near, far, mu, iq + 1, jq + 1, alpha, beta);
      amb[iq, jq] := alpha - beta;
      apb[iq, jq] := alpha + beta;
    }
    TakeDiagonal(n, iq, cmu[iq], amb, apb, near, far, mu);
  }

  method TakeDiagonal(n: int, iq: int, cmu: real, amb: array2<real>, apb: array2<real>, ghost near: Mat,
      ghost far: Mat, ghost mu: Vec)
    requires 0 <= iq < n && amb != apb && cmu == mu(iq + 1) && cmu != 0.0
    requires n <= amb.Length0 && n <= amb.Length1 && n <= apb.Length0 && n <= apb.Length1
    requires forall k :: 0 <= k < n ==> amb[iq, k] == Half(near, far, mu, false)(iq + 1, k + 1)
    requires forall k :: 0 <= k < n ==> apb[iq, k] == Half(near, far, mu, true)(iq + 1, k + 1)
    modifies amb, apb
    ensures forall k :: 0 <= k < n ==> amb[iq, k] == Minus(near, far, mu)(iq + 1, k + 1)
    ensures forall k :: 0 <= k < n ==> apb[iq, k] == Plus(near, far, mu)(iq + 1, k + 1)
    ensures forall r, k :: 0 <= r < n && 0 <= k < n && r != iq ==>
      amb[r, k] == old(amb[r, k]) && apb[r, k] == old(apb[r, k])
  {
    hide Minus, Plus, Half;
    amb[iq, iq] := amb[iq, iq] - 1.0 / cmu;
    apb[iq, iq] := apb[iq, iq] - 1.0 / cmu;
    forall k | 0 <= k < n
      ensures amb[iq, k] == Minus(near, far, mu)(iq + 1, k + 1) && apb[iq, k] == Plus(near, far, mu)(iq + 1, k + 1)
    {
      HalfReduced(near, far, mu, iq + 1, k + 1, if k == iq then Over(1.0, cmu) else 0.0);
    }
  }

  /** One inner product of a row and a column. */
  method RowTimesColumn(a: array2<real>, b: array2<real>, n: int, i: int, j: int, ghost s: Vec,
      ghost t: Vec) returns (sum: real)
    requires 0 <= i < a.Length0 && 0 <= n <= a.Length1 && n <= b.Length0 && 0 <= j < b.Length1
    requires forall k :: 0 <= k < n ==> a[i, k] == s(k + 1)
    requires forall k :: 0 <= k < n ==> b[k, j] == t(k + 1)
    ensures sum == Dot(s, t, 1, n + 1)
  {
    hide Dot;
    sum := 0.0;
    DotZero(s, t, 1, 1);
    for k := 0 to n
      invariant sum == Dot(s, t, 1, k + 1)
    {
      var term := a[i, k] * b[k, j];
      NextTerm(s, t, 1, k + 1, a[i, k], b[k, j], term);
      sum := sum + term;
    }
  }

  /** The matrix of the reduced problem: the product of sum and difference. */
  method MultiplyReduced(n: int, apb: array2<real>, amb: array2<real>, arr: array2<real>, ghost p: Mat, ghost m: Mat)
    requires Holds(apb, p, n) && Holds(amb, m, n) && arr != apb && arr != amb && n <= arr.Length0 && n <= arr.Length1
    modifies arr
    ensures Holds(arr, Product(p, m, n), n)
  {
    hide Dot;
    for iq := 0 to n
      invariant Holds(apb, p, n) && Holds(amb, m, n)
      invariant forall r, k :: 0 <= r < iq && 0 <= k < n ==> arr[r, k] == Product(p, m, n)(r + 1, k + 1)
    {
      for jq := 0 to n
        invariant Holds(apb, p, n) && Holds(amb, m, n)
        invariant forall r, k :: 0 <= r < iq && 0 <= k < n ==> arr[r, k] == Product(p, m, n)(r + 1, k + 1)
        invariant forall k :: 0 <= k < jq ==> arr[iq, k] == Product(p, m, n)(iq + 1, k + 1)
      {
        arr[iq, jq] := RowTimesColumn(apb, amb, n, iq, jq, Row(p, iq + 1), Col(m, jq + 1));
      }
    }
  }

  /** Everything that is handed to the eigenvalue routine. */
  method BuildReduced(n: int, cc: array2<real>, cmu: array<real>, amb: array2<real>, apb: array2<real>,
      arr: array2<real>,
      ghost near: Mat, ghost far: Mat, ghost mu: Vec)
    requires Coupling(cc, near, far, n) && Cosines(cmu, mu, n) && amb != apb && amb != cc && apb != cc && arr != cc
        && arr != apb && arr != amb
    requires n <= amb.Length0 && n <= amb.Length1 && n <= apb.Length0 && n <= apb.Length1
    requires n <= arr.Length0 && n <= arr.Length1
    modifies cc, amb, apb, arr
    ensures Holds(amb, Minus(near, far, mu), n) && Holds(apb, Plus(near, far, mu), n)
    ensures Holds(arr, Product(Plus(near, far, mu), Minus(near, far, mu), n), n)
    ensures Coupling(cc, near, far, n) && Mirrored(cc, near, far, n, n)
  {
    hide Minus, Plus, Product;
    for iq := 0 to n
      invariant Coupling(cc, near, far, n) && Cosines(cmu, mu, n)
      invariant forall r, k :: 0 <= r < iq && 0 <= k < n ==> amb[r, k] == Minus(near, far, mu)(r + 1, k + 1)
      invariant forall r, k :: 0 <= r < iq && 0 <= k < n ==> apb[r, k] == Plus(near, far, mu)(r + 1, k + 1)
    {
      ReducedRow(n, iq, cc, cmu, amb, apb, near, far, mu);
    }
    FillSymmetric(n, cc, near, far);
    MultiplyReduced(n, apb, amb, arr, Plus(near, far, mu), Minus(near, far, mu));
  }

  lemma ReducedMatrices(near: Mat, far: Mat, mu: Vec, n: int)
    ensures SumAndDifference(Alpha(near, mu), Beta(far, mu), Plus(near, far, mu), Minus(near, far, mu), n)
  {
  }
}
