/** The matrix that couples the streams: sums over Legendre polynomials, half of them filled in by symmetry. */
module CouplingMatrix {
  import opened RealArithmetic
  import opened LinearAlgebra
  import opened DenseSolver
  import opened CroutSolve
  import opened EigenTheory
  import opened EigenSolver

  /** GL(l) of the layer times YLMC(l,i), as l varies. */
  ghost function Moments(g: Vec, y: Mat, i: int): Vec { l => g(l) * y(l, i) }

  /** CC(i,j): the moments from m on, summed over the product of the polynomials at both streams. */
  ghost function Scattered(g: Vec, y: Mat, cwt: Vec, m: int, nstr: int, i: int, j: int): real {
    0.5 * Dot(Moments(g, y, i), Col(y, j), m, nstr) * cwt(j)
  }

  /** The coupling of two streams on the same side, and on opposite sides. */
  ghost function Near(g: Vec, y: Mat, cwt: Vec, m: int,
      nstr: int): Mat { (i, j) => Scattered(g, y, cwt, m, nstr, i, j) }

  ghost function Far(g: Vec, y: Mat, cwt: Vec, m: int, nstr: int, n: int): Mat {
    (i, j) => Scattered(g, y, cwt, m, nstr, i, Opposite(n, j))
  }

  function Opposite(n: int, j: int): int { if j > n then j - n else j + n }

  function Alternating(k: nat): real { if k % 2 == 0 then 1.0 else -1.0 }

  /** The polynomials at the opposite stream, up to their parity. */
  ghost predicate ParityHolds(y: Mat, m: int, nstr: int, n: int) {
    forall l, i :: m <= l < nstr && 1 <= i <= n ==> ParityAt(y, m, n, l, i)
  }

  ghost predicate ParityAt(y: Mat, m: int, n: int, l: int, i: int)
    requires m <= l
  {
    y(l, Opposite(n, i)) == Alternating(l - m) * y(l, i)
  }

  ghost predicate SameWeights(cwt: Vec, n: int) { forall j :: 1 <= j <= n ==> cwt(Opposite(n, j)) == cwt(j) }

  lemma {:induction false} SameTerms(u: Vec, v: Vec, u': Vec, v': Vec, lo: int, hi: int)
    requires forall l :: lo <= l < hi ==> u(l) * v(l) == u'(l) * v'(l)
    ensures Dot(u, v, lo, hi) == Dot(u', v', lo, hi)
    decreases hi - lo
  {
    if lo < hi { SameTerms(u, v, u', v', lo, hi - 1); }
  }

  lemma TwoSigns(s: real, g: real, a: real, b: real, a': real, b': real)
    requires (s == 1.0 || s == -1.0) && a' == s * a && b' == s * b
    ensures (g * a') * b' == (g * a) * b && (g * a') * b == (g * a) * b'
  {
  }

  /** Reversing both streams changes nothing; reversing either one gives the same. */
  lemma Reversal(g: Vec, y: Mat, cwt: Vec, m: int, nstr: int, n: int, i: int, j: int)
    requires ParityHolds(y, m, nstr, n) && SameWeights(cwt, n) && 1 <= i <= n && 1 <= j <= n
    ensures Scattered(g, y, cwt, m, nstr, Opposite(n, i), Opposite(n, j)) == Scattered(g, y, cwt, m, nstr, i, j)
    ensures Scattered(g, y, cwt, m, nstr, Opposite(n, i), j) == Scattered(g, y, cwt, m, nstr, i, Opposite(n, j))
  {
    hide Dot;
    var i', j' := Opposite(n, i), Opposite(n, j);
    forall l | m <= l < nstr
      ensures Moments(g, y, i')(l) * Col(y, j')(l) == Moments(g, y, i)(l) * Col(y, j)(l)
      ensures Moments(g, y, i')(l) * Col(y, j)(l) == Moments(g, y, i)(l) * Col(y, j')(l)
    {
      assert ParityAt(y, m, n, l, i) && ParityAt(y, m, n, l, j);
      TwoSigns(Alternating(l - m), g(l), y(l, i), y(l, j), y(l, i'), y(l, j'));
    }
    SameTerms(Moments(g, y, i'), Col(y, j'), Moments(g, y, i), Col(y, j), m, nstr);
    SameTerms(Moments(g, y, i'), Col(y, j), Moments(g, y, i), Col(y, j'), m, nstr);
    ScatteredParts(g, y, cwt, m, nstr, i, j, i', j');
  }

  lemma ScatteredParts(g: Vec, y: Mat, cwt: Vec, m: int, nstr: int, i: int, j: int, i': int, j': int)
    requires cwt(j') == cwt(j)
    requires Dot(Moments(g, y, i'), Col(y, j'), m, nstr) == Dot(Moments(g, y, i), Col(y, j), m, nstr)
    requires Dot(Moments(g, y, i'), Col(y, j), m, nstr) == Dot(Moments(g, y, i), Col(y, j'), m, nstr)
    ensures Scattered(g, y, cwt, m, nstr, i', j') == Scattered(g, y, cwt, m, nstr, i, j)
    ensures Scattered(g, y, cwt, m, nstr, i', j) == Scattered(g, y, cwt, m, nstr, i, j')
  {
    hide Dot, Moments;
    SameProduct(0.5 * Dot(Moments(g, y, i'), Col(y, j'), m, nstr), 0.5 * Dot(Moments(g, y, i), Col(y, j), m, nstr),
      cwt(j'), cwt(j));
    SameProduct(0.5 * Dot(Moments(g, y, i'), Col(y, j), m, nstr), 0.5 * Dot(Moments(g, y, i), Col(y, j'), m, nstr),
      cwt(j), cwt(j'));
  }

  /** Rows of the array are Legendre subscripts from 0, columns streams; entries from subscript m on are y. */
  ghost predicate PolynomialsHeld(ylmc: array2<real>, y: Mat, m: int, nstr: int, streams: int)
    reads ylmc
  {
    && 0 <= m <= nstr <= ylmc.Length0 && 0 <= streams <= ylmc.Length1
    && forall l, c :: m <= l < nstr && 0 <= c < streams ==> ylmc[l, c] == y(l, c + 1)
  }

  /** The polynomials at all streams, from those at the n upward ones. */
  ghost function Extended(y: Mat, m: int, n: int): Mat {
    (l, i) => if i > n && l >= m then Alternating(l - m) * y(l, i - n) else y(l, i)
  }

  lemma ExtendedParity(y: Mat, m: int, nstr: int, n: int)
    ensures ParityHolds(Extended(y, m, n), m, nstr, n)
  {
    hide Alternating;
    forall l, i | m <= l < nstr && 1 <= i <= n ensures ParityAt(Extended(y, m, n), m, n, l, i) {
      assert Opposite(n, i) > n && Opposite(n, i) - n == i;
    }
  }

  /** The sign for subscript l, from the one before. */
  function SignBefore(l: int, m: int): real { if l <= m then -1.0 else Alternating(l - 1 - m) }

  lemma SignNext(l: int, m: int)
    requires m <= l
    ensures SignBefore(l, m) * -1.0 == Alternating(l - m) == SignBefore(l + 1, m)
  {
  }

  /** The polynomials at the opposite cosines, with alternating sign. */
  method FillParity(ylmc: array2<real>, m: int, nstr: int, n: int, ghost y: Mat)
    requires PolynomialsHeld(ylmc, y, m, nstr, n) && 0 <= n && 2 * n <= ylmc.Length1
    modifies ylmc
    ensures PolynomialsHeld(ylmc, Extended(y, m, n), m, nstr, 2 * n) && ParityHolds(Extended(y, m, n), m, nstr, n)
  {
    hide Alternating, SignBefore, ParityHolds;
    ExtendedParity(y, m, nstr, n);
    var sgn := -1.0;
    assert sgn == SignBefore(m, m) by { FirstSign(m); }
    for l := m to nstr
      invariant sgn == SignBefore(l, m)
      invariant forall r, c :: m <= r < nstr && 0 <= c < n ==> ylmc[r, c] == y(r, c + 1)
      invariant forall r, c :: m <= r < l && 0 <= c < 2 * n ==> ylmc[r, c] == Extended(y, m, n)(r, c + 1)
    {
      SignNext(l, m);
      sgn := sgn * -1.0;
      ParityRow(ylmc, m, nstr, n, l, sgn, y);
    }
  }

  lemma FirstSign(m: int)
    ensures SignBefore(m, m) == -1.0
  {
  }

  method ParityRow(ylmc: array2<real>, m: int, nstr: int, n: int, l: int, sgn: real, ghost y: Mat)
    requires 0 <= m <= l < nstr <= ylmc.Length0 && 0 <= n && 2 * n <= ylmc.Length1 && sgn == Alternating(l - m)
    requires forall c :: 0 <= c < n ==> ylmc[l, c] == y(l, c + 1)
    modifies ylmc
    ensures forall c :: 0 <= c < 2 * n ==> ylmc[l, c] == Extended(y, m, n)(l, c + 1)
    ensures forall r, c :: 0 <= r < ylmc.Length0 && 0 <= c < ylmc.Length1 && r != l ==> ylmc[r, c] == old(ylmc[r, c])
    ensures forall c :: 0 <= c < n ==> ylmc[l, c] == y(l, c + 1)
  {
    hide Alternating;
    for iq := n to 2 * n
      invariant forall c :: 0 <= c < n ==> ylmc[l, c] == y(l, c + 1)
      invariant forall c :: n <= c < iq ==> ylmc[l, c] == Extended(y, m, n)(l, c + 1)
      invariant forall r, c :: 0 <= r < ylmc.Length0 && 0 <= c < ylmc.Length1 && r != l ==>
        ylmc[r, c] == old(ylmc[r, c])
    {
      ghost var before := iq - n;
      assert ylmc[l, before] == y(l, before + 1);
      ylmc[l, iq] := sgn * ylmc[l, iq - n];
    }
  }

  /** GL of layer lc, from subscript m on. */
  ghost predicate MomentsHeld(gl: array2<real>, lc: int, g: Vec, m: int, nstr: int)
    reads gl
  {
    && 0 <= m <= nstr <= gl.Length0 && 0 <= lc < gl.Length1
    && forall l :: m <= l < nstr ==> gl[l, lc] == g(l)
  }

  /** One entry of CC. */
  method CouplingEntry(gl: array2<real>, lc: int, ylmc: array2<real>, m: int, nstr: int, iq: int, jq: int, cwt: real,
      ghost g: Vec, ghost y: Mat, ghost w: Vec) returns (c: real)
    requires MomentsHeld(gl, lc, g, m, nstr) && PolynomialsHeld(ylmc, y, m, nstr, Max(iq, jq) + 1)
    requires 0 <= iq && 0 <= jq && cwt == w(jq + 1)
    ensures c == Scattered(g, y, w, m, nstr, iq + 1, jq + 1)
  {
    hide Dot;
    var sum := 0.0;
    ghost var u, v := Moments(g, y, iq + 1), Col(y, jq + 1);
    DotZero(u, v, m, m);
    for l := m to nstr
      invariant sum == Dot(u, v, m, l)
    {
      var term := gl[l, lc] * ylmc[l, iq] * ylmc[l, jq];
      SameProduct(gl[l, lc], g(l), ylmc[l, iq], y(l, iq + 1));
      SameProduct(gl[l, lc] * ylmc[l, iq], u(l), ylmc[l, jq], v(l));
      LastTerm(u, v, m, l);
      sum := sum + term;
    }
    c := 0.5 * sum * cwt;
    SameProduct(0.5 * sum, 0.5 * Dot(u, v, m, nstr), cwt, w(jq + 1));
  }

  /** The upper half of CC: streams on the same side, then on opposite sides. */
  method FillCoupling(cc: array2<real>, gl: array2<real>, lc: int, ylmc: array2<real>, cwt: array<real>, m: int,
      nstr: int,
      n: int, ghost g: Vec, ghost y: Mat, ghost w: Vec)
    requires MomentsHeld(gl, lc, g, m, nstr) && PolynomialsHeld(ylmc, y, m, nstr, 2 * n) && VecHolds(cwt, w, 2 * n)
    requires 0 <= n && 2 * n <= cc.Length0 && 2 * n <= cc.Length1 && cc != gl && cc != ylmc
    modifies cc
    ensures Coupling(cc, Near(g, y, w, m, nstr), Far(g, y, w, m, nstr, n), n)
  {
    hide Scattered;
    for iq := 0 to n
      invariant forall r, k :: 0 <= r < iq && 0 <= k < 2 * n ==> cc[r, k] == Scattered(g, y, w, m, nstr, r + 1, k + 1)
    {
      for jq := 0 to 2 * n
        invariant forall r, k :: 0 <= r < iq && 0 <= k < 2 * n ==> cc[r, k] == Scattered(g, y, w, m, nstr, r + 1, k + 1)
        invariant forall k :: 0 <= k < jq ==> cc[iq, k] == Scattered(g, y, w, m, nstr, iq + 1, k + 1)
      {
        cc[iq, jq] := CouplingEntry(gl, lc, ylmc, m, nstr, iq, jq, cwt[jq], g, y, w);
      }
    }
    ghost var far := Far(g, y, w, m, nstr, n);
    forall r, k | 0 <= r < n && n <= k < 2 * n ensures cc[r, k] == far(r + 1, k - n + 1) {
      assert Opposite(n, k - n + 1) == k + 1;
    }
  }

  /** Every entry of CC, the mirrored ones too, is the sum for its two streams. */
  lemma MirroredIsSum(cc: array2<real>, g: Vec, y: Mat, w: Vec, m: int, nstr: int, n: int)
    requires Coupling(cc, Near(g, y, w, m, nstr), Far(g, y, w, m, nstr, n), n)
    requires Mirrored(cc, Near(g, y, w, m, nstr), Far(g, y, w, m, nstr, n), n, n)
    requires ParityHolds(y, m, nstr, n) && SameWeights(w, n)
    ensures forall r, k :: 0 <= r < 2 * n && 0 <= k < 2 * n ==> cc[r, k] == Scattered(g, y, w, m, nstr, r + 1, k + 1)
  {
    hide Scattered, ParityHolds, SameWeights;
    forall r, k | 0 <= r < 2 * n && 0 <= k < 2 * n ensures cc[r, k] == Scattered(g, y, w, m, nstr, r + 1, k + 1) {
      var i, j := if r < n then r + 1 else r - n + 1, if k < n then k + 1 else k - n + 1;
      Reversal(g, y, w, m, nstr, n, i, j);
      assert Opposite(n, i) == i + n && Opposite(n, j) == j + n;
    }
  }

  /**
   * The first part of c_solve_eigen: CC is the sum over the polynomials for every pair of streams, and the reduced
   * matrices and their product are made from it.
   */
  method PrepareEigenproblem(cc: array2<real>, gl: array2<real>, lc: int, ylmc: array2<real>, cmu: array<real>,
      cwt: array<real>, m: int, nstr: int, n: int, amb: array2<real>, apb: array2<real>, arr: array2<real>,
      ghost g: Vec, ghost y: Mat, ghost mu: Vec, ghost w: Vec)
    requires MomentsHeld(gl, lc, g, m, nstr) && PolynomialsHeld(ylmc, y, m, nstr, 2 * n) && VecHolds(cwt, w, 2 * n)
    requires ParityHolds(y, m, nstr, n) && SameWeights(w, n) && Cosines(cmu, mu, n)
    requires 0 <= n && 2 * n <= cc.Length0 && 2 * n <= cc.Length1 && cc != gl && cc != ylmc
    requires amb != apb && amb != cc && apb != cc && arr != cc && arr != apb && arr != amb
    requires n <= amb.Length0 && n <= amb.Length1 && n <= apb.Length0 && n <= apb.Length1
    requires n <= arr.Length0 && n <= arr.Length1
    modifies cc, amb, apb, arr
    ensures forall r, k :: 0 <= r < 2 * n && 0 <= k < 2 * n ==> cc[r, k] == Scattered(g, y, w, m, nstr, r + 1, k + 1)
    ensures var near, far := Near(g, y, w, m, nstr), Far(g, y, w, m, nstr, n);
      && Holds(amb, Minus(near, far, mu), n) && Holds(apb, Plus(near, far, mu), n)
      && Holds(arr, Product(Plus(near, far, mu), Minus(near, far, mu), n), n)
  {
    hide Near, Far, Minus, Plus, Product, Coupling, Mirrored, Holds, ParityHolds, SameWeights, Scattered, Cosines;
    FillCoupling(cc, gl, lc, ylmc, cwt, m, nstr, n, g, y, w);
    BuildReduced(n, cc, cmu, amb, apb, arr, Near(g, y, w, m, nstr), Far(g, y, w, m, nstr, n), mu);
    MirroredIsSum(cc, g, y, w, m, nstr, n);
  }
}
