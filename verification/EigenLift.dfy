/** The second half of c_solve_eigen: roots of the reduced eigenvalues, and the eigenvectors of all streams. */
module EigenLift {
  import opened RealArithmetic
  import opened LinearAlgebra
  import opened DenseSolver
  import opened CroutSolve
  import opened EigenTheory
  import opened EigenSolver

  /**
   * The eigenvalues of the streams, m on each side: positive roots from the middle up, their negatives mirrored below.
   */
  ghost predicate Spectrum(kk: array<real>, root: Vec, n: int, m: int)
    reads kk
  {
    && 0 <= m <= n && 2 * n <= kk.Length
    && (forall r :: n <= r < n + m ==> kk[r] == root(r - n + 1))
    && (forall r :: n - m <= r < n ==> kk[r] == -root(n - r))
  }

  method StoreRoot(n: nat, iq: nat, kk: array<real>, x: real, ghost root: Vec)
    requires iq < n && Spectrum(kk, root, n, iq) && x == root(iq + 1)
    modifies kk
    ensures Spectrum(kk, root, n, iq + 1)
  {
    kk[iq + n] := x;
    kk[n - 1 - iq] := -x;
  }

  method Roots(n: nat, eval: array<real>, kk: array<real>, sqrt: real -> real, ghost lambda: Vec, ghost root: Vec)
    requires 2 * n <= kk.Length && eval != kk && VecHolds(eval, lambda, n)
    requires forall j :: 1 <= j <= n ==> root(j) == sqrt(Abs(lambda(j)))
    modifies eval, kk
    ensures VecHolds(eval, root, n) && Spectrum(kk, root, n, n)
  {
    hide Spectrum, Abs;
    NoRoots(kk, root, n);
    for iq := 0 to n
      invariant forall j :: 0 <= j < iq ==> eval[j] == root(j + 1)
      invariant forall j :: iq <= j < n ==> eval[j] == lambda(j + 1)
      invariant Spectrum(kk, root, n, iq)
    {
      eval[iq] := sqrt(Abs(eval[iq]));
      StoreRoot(n, iq, kk, eval[iq], root);
    }
  }

  lemma NoRoots(kk: array<real>, root: Vec, n: nat)
    requires 2 * n <= kk.Length
    ensures Spectrum(kk, root, n, 0)
  {
  }

  /** Sums of the halves for every eigenvector, one column each. */
  ghost function Sums(m: Mat, v: Mat, root: Vec, n: int): Mat { (i, j) => Over(Apply(m, i, Col(v, j), n), root(j)) }

  ghost predicate Eigenvectors(evecc: array2<real>, v: Mat, n: int, j: int)
    reads evecc
  {
    && 0 <= n && 0 <= j && 2 * n <= evecc.Length0 && 2 * n <= evecc.Length1
    && forall r, c :: 0 <= r < n && j <= c < n ==> evecc[r, c] == v(r + 1, c + 1)
  }

  method SumColumn(n: nat, jq: nat, amb: array2<real>, evecc: array2<real>, eval: array<real>, apb: array2<real>,
      ghost m: Mat, ghost v: Mat, ghost root: Vec)
    requires Holds(amb, m, n) && Eigenvectors(evecc, v, n, 0) && VecHolds(eval, root, n) && jq < n
    requires apb != amb && apb != evecc && n <= apb.Length0 && n <= apb.Length1 && root(jq + 1) != 0.0
    modifies apb
    ensures forall r :: 0 <= r < n ==> apb[r, jq] == Sums(m, v, root, n)(r + 1, jq + 1)
    ensures forall r, c :: 0 <= r < n && 0 <= c < n && c != jq ==> apb[r, c] == old(apb[r, c])
  {
    hide Dot, Over;
    for iq := 0 to n
      invariant Holds(amb, m, n) && Eigenvectors(evecc, v, n, 0) && VecHolds(eval, root, n)
      invariant forall r :: 0 <= r < iq ==> apb[r, jq] == Sums(m, v, root, n)(r + 1, jq + 1)
      invariant forall r, c :: 0 <= r < n && 0 <= c < n && c != jq ==> apb[r, c] == old(apb[r, c])
    {
      var sum := RowTimesColumn(amb, evecc, n, iq, jq, Row(m, iq + 1), Col(v, jq + 1));
      OverQuotient(sum, eval[jq]);
      apb[iq, jq] := sum / eval[jq];
      assert Sums(m, v, root, n)(iq + 1, jq + 1) == Over(Apply(m, iq + 1, Col(v, jq + 1), n), root(jq + 1));
    }
  }

  lemma OverQuotient(x: real, m: real)
    requires m != 0.0
    ensures Over(x, m) == x / m
  {
  }

  method SumColumns(n: nat, amb: array2<real>, evecc: array2<real>, eval: array<real>, apb: array2<real>,
      ghost m: Mat, ghost v: Mat, ghost root: Vec)
    requires Holds(amb, m, n) && Eigenvectors(evecc, v, n, 0) && VecHolds(eval, root, n)
    requires apb != amb && apb != evecc && n <= apb.Length0 && n <= apb.Length1
    requires forall j :: 1 <= j <= n ==> root(j) != 0.0
    modifies apb
    ensures Holds(apb, Sums(m, v, root, n), n)
  {
    hide Sums;
    for jq := 0 to n
      invariant Holds(amb, m, n) && Eigenvectors(evecc, v, n, 0) && VecHolds(eval, root, n)
      invariant forall r, c :: 0 <= r < n && 0 <= c < jq ==> apb[r, c] == Sums(m, v, root, n)(r + 1, c + 1)
    {
      SumColumn(n, jq, amb, evecc, eval, apb, m, v, root);
    }
  }

  ghost function Negated(s: Vec): Vec { i => -s(i) }

  /**
   * Column c of the eigenvector array, m entries on each side: upward half from the middle up, downward half mirrored.
   */
  ghost predicate HalvesHold(gc: array2<real>, c: int, up: Vec, down: Vec, n: int, m: int)
    reads gc
  {
    && 0 <= m <= n && 2 * n <= gc.Length0 && 0 <= c < gc.Length1
    && (forall r :: n <= r < n + m ==> gc[r, c] == up(r - n + 1))
    && (forall r :: n - m <= r < n ==> gc[r, c] == down(n - r))
  }

  lemma Halves(s: Vec, v: Vec, i: int, x: real, y: real)
    requires x == s(i) && y == v(i)
    ensures 0.5 * (x + y) == UpHalf(s, v)(i) && 0.5 * (x - y) == DownHalf(s, v)(i)
    ensures 0.5 * (-x + y) == UpHalf(Negated(s), v)(i) && 0.5 * (-x - y) == DownHalf(Negated(s), v)(i)
  {
    assert Negated(s)(i) == -x;
  }

  /** One pair of entries of column c, next to another column in the making. */
  method StorePair(n: nat, iq: nat, c: nat, gc: array2<real>, x: real, y: real, ghost up: Vec, ghost down: Vec,
      ghost other: nat, ghost up': Vec, ghost down': Vec, ghost m: nat)
    requires iq < n && c < gc.Length1 && HalvesHold(gc, c, up, down, n, iq) && x == up(iq + 1) && y == down(iq + 1)
    requires other != c && HalvesHold(gc, other, up', down', n, m)
    modifies gc
    ensures HalvesHold(gc, c, up, down, n, iq + 1) && HalvesHold(gc, other, up', down', n, m)
    ensures forall r, k :: 0 <= r < gc.Length0 && 0 <= k < gc.Length1 && k != c ==> gc[r, k] == old(gc[r, k])
  {
    gc[n + iq, c] := x;
    gc[n - 1 - iq, c] := y;
  }

  /** The four stacked entries that come from one entry of an eigenvector. */
  method StackEntry(n: nat, iq: nat, jq: nat, gpplgm0: real, evecc: array2<real>)
    requires iq < n && jq < n && 2 * n <= evecc.Length0 && 2 * n <= evecc.Length1
    modifies evecc
    ensures evecc[iq, jq] == 0.5 * (gpplgm0 + old(evecc[iq, jq]))
    ensures evecc[iq + n, jq] == 0.5 * (gpplgm0 - old(evecc[iq, jq]))
    ensures evecc[iq, jq + n] == 0.5 * (-gpplgm0 + old(evecc[iq, jq]))
    ensures evecc[iq + n, jq + n] == 0.5 * (-gpplgm0 - old(evecc[iq, jq]))
    ensures forall r, c :: 0 <= r < n && 0 <= c < n && (r != iq || c != jq) ==> evecc[r, c] == old(evecc[r, c])
  {
    var gpplgm := gpplgm0;
    var gpmigm := evecc[iq, jq];
    evecc[iq, jq] := 0.5 * (gpplgm + gpmigm);
    evecc[iq + n, jq] := 0.5 * (gpplgm - gpmigm);
    gpplgm := -gpplgm;
    evecc[iq, jq + n] := 0.5 * (gpplgm + gpmigm);
    evecc[iq + n, jq + n] := 0.5 * (gpplgm - gpmigm);
  }

  /** Eigenvector jq + 1 with its mirror image, stacked in evecc and in gc. */
  method StackColumn(n: nat, jq: nat, apb: array2<real>, evecc: array2<real>, gc: array2<real>,
      ghost s: Vec, ghost v: Vec)
    requires jq < n <= apb.Length0 && n <= apb.Length1 && 2 * n <= evecc.Length0 && 2 * n <= evecc.Length1
    requires 2 * n <= gc.Length0 && 2 * n <= gc.Length1 && apb != evecc && apb != gc && evecc != gc
    requires forall r :: 0 <= r < n ==> apb[r, jq] == s(r + 1)
    requires forall r :: 0 <= r < n ==> evecc[r, jq] == v(r + 1)
    modifies evecc, gc
    ensures HalvesHold(gc, n + jq, UpHalf(s, v), DownHalf(s, v), n, n)
    ensures HalvesHold(gc, n - 1 - jq, UpHalf(Negated(s), v), DownHalf(Negated(s), v), n, n)
    ensures forall r, c :: 0 <= r < gc.Length0 && 0 <= c < gc.Length1 && c != n + jq && c != n - 1 - jq ==>
      gc[r, c] == old(gc[r, c])
    ensures forall r, c :: 0 <= r < n && 0 <= c < n && c != jq ==> evecc[r, c] == old(evecc[r, c])
  {
    hide UpHalf, DownHalf, Negated, HalvesHold;
    var right, left := n + jq, n - 1 - jq;
    NoHalves(gc, right, UpHalf(s, v), DownHalf(s, v), n);
    NoHalves(gc, left, UpHalf(Negated(s), v), DownHalf(Negated(s), v), n);
    for iq := 0 to n
      invariant forall r :: iq <= r < n ==> evecc[r, jq] == v(r + 1)
      invariant HalvesHold(gc, right, UpHalf(s, v), DownHalf(s, v), n, iq)
      invariant HalvesHold(gc, left, UpHalf(Negated(s), v), DownHalf(Negated(s), v), n, iq)
      invariant forall r, c :: 0 <= r < gc.Length0 && 0 <= c < gc.Length1 && c != right && c != left ==>
        gc[r, c] == old(gc[r, c])
      invariant forall r, c :: 0 <= r < n && 0 <= c < n && c != jq ==> evecc[r, c] == old(evecc[r, c])
    {
      Halves(s, v, iq + 1, apb[iq, jq], evecc[iq, jq]);
      StackEntry(n, iq, jq, apb[iq, jq], evecc);
      StorePair(n, iq, right, gc, evecc[iq, jq], evecc[iq + n, jq], UpHalf(s, v), DownHalf(s, v),
                left, UpHalf(Negated(s), v), DownHalf(Negated(s), v), iq);
      StorePair(n, iq, left, gc, evecc[iq, jq + n], evecc[iq + n, jq + n], UpHalf(Negated(s), v),
        DownHalf(Negated(s), v),
                right, UpHalf(s, v), DownHalf(s, v), iq + 1);
    }
  }

  lemma NoHalves(gc: array2<real>, c: int, up: Vec, down: Vec, n: nat)
    requires 2 * n <= gc.Length0 && 0 <= c < gc.Length1
    ensures HalvesHold(gc, c, up, down, n, 0)
  {
  }

  /** Column c of the eigenvector array holds an eigenvector of the full problem. */
  ghost predicate ColumnPair(gc: array2<real>, c: int, alpha: Mat, beta: Mat, k: real, n: int)
    reads gc
  {
    exists up, down :: HalvesHold(gc, c, up, down, n, n) && FullPair(alpha, beta, up, down, k, n)
  }

  /** Both columns of eigenvector j hold eigenvectors, for the root and for its negative. */
  lemma PairOfColumns(near: Mat, far: Mat, mu: Vec, v: Vec, lambda: real, k: real, n: int, s: Vec)
    requires ReducedPair(Plus(near, far, mu), Minus(near, far, mu), v, lambda, n) && k != 0.0 && k * k == lambda
    requires forall i :: s(i) == Over(Apply(Minus(near, far, mu), i, v, n), k)
    ensures FullPair(Alpha(near, mu), Beta(far, mu), UpHalf(s, v), DownHalf(s, v), k, n)
    ensures FullPair(Alpha(near, mu), Beta(far, mu), UpHalf(Negated(s), v), DownHalf(Negated(s), v), -k, n)
  {
    hide Plus, Minus, Alpha, Beta, ReducedPair, FullPair, Dot, Over;
    var m := Minus(near, far, mu);
    var t, t' := SumOfHalves(m, v, k, n), SumOfHalves(m, v, -k, n);
    ReducedMatrices(near, far, mu, n);
    assert (-k) * (-k) == k * k;
    LiftPair(Alpha(near, mu), Beta(far, mu), Plus(near, far, mu), m, v, lambda, k, n);
    LiftPair(Alpha(near, mu), Beta(far, mu), Plus(near, far, mu), m, v, lambda, -k, n);
    forall i ensures s(i) == t(i) { SignedQuotient(Apply(m, i, v, n), k, t(i), t'(i)); }
    var s' := Negated(s);
    forall i ensures s'(i) == t'(i) {
      SignedQuotient(Apply(m, i, v, n), k, t(i), t'(i));
      assert s'(i) == -s(i);
    }
    SameHalves(s, t, v, Alpha(near, mu), Beta(far, mu), k, n);
    SameHalves(Negated(s), t', v, Alpha(near, mu), Beta(far, mu), -k, n);
  }

  lemma SignedQuotient(x: real, k: real, q: real, q': real)
    requires k != 0.0 && q == x / k && q' == x / -k
    ensures Over(x, k) == q && -Over(x, k) == q'
  {
    assert q * k == x && q' * (-k) == x;
    assert (-q) * (-k) == q * k;
    SameQuotient(-q, q', -k);
  }

  lemma SameQuotient(p: real, q: real, k: real)
    requires k != 0.0 && p * k == q * k
    ensures p == q
  {
    assert k * (p - q) == 0.0;
    ZeroFactor(k, p - q);
  }

  lemma SameHalves(s: Vec, t: Vec, v: Vec, alpha: Mat, beta: Mat, k: real, n: int)
    requires forall i :: s(i) == t(i)
    requires FullPair(alpha, beta, UpHalf(t, v), DownHalf(t, v), k, n)
    ensures FullPair(alpha, beta, UpHalf(s, v), DownHalf(s, v), k, n)
  {
    SameHalfEntries(s, t, v);
    hide UpHalf, DownHalf, FullRow;
    forall i | 1 <= i <= n ensures FullRow(alpha, beta, UpHalf(s, v), DownHalf(s, v), k, n, i) {
      assert FullRow(alpha, beta, UpHalf(t, v), DownHalf(t, v), k, n, i);
      SameFullRow(alpha, beta, UpHalf(t, v), DownHalf(t, v), UpHalf(s, v), DownHalf(s, v), k, n, i);
    }
  }

  lemma SameFullRow(alpha: Mat, beta: Mat, g: Vec, h: Vec, g': Vec, h': Vec, k: real, n: int, i: int)
    requires forall j :: g'(j) == g(j) && h'(j) == h(j)
    requires FullRow(alpha, beta, g, h, k, n, i)
    ensures FullRow(alpha, beta, g', h', k, n, i)
  {
    hide Dot, FullRow;
    DotCongruence(Row(alpha, i), g', Row(alpha, i), g, 1, n + 1);
    DotCongruence(Row(alpha, i), h', Row(alpha, i), h, 1, n + 1);
    DotCongruence(Row(beta, i), g', Row(beta, i), g, 1, n + 1);
    DotCongruence(Row(beta, i), h', Row(beta, i), h, 1, n + 1);
    var a, b, c, d := Apply(alpha, i, g, n), Apply(beta, i, h, n), Apply(alpha, i, h, n), Apply(beta, i, g, n);
    RowInScalars(alpha, beta, g, h, k, n, i, a, b, c, d, g(i), h(i));
    RowInScalars(alpha, beta, g', h', k, n, i, a, b, c, d, g(i), h(i));
  }

  lemma RowInScalars(alpha: Mat, beta: Mat, g: Vec, h: Vec, k: real, n: int, i: int, a: real, b: real, c: real,
      d: real, u: real, w: real)
    requires a == Apply(alpha, i, g, n) && b == Apply(beta, i, h, n)
    requires c == Apply(alpha, i, h, n) && d == Apply(beta, i, g, n) && u == g(i) && w == h(i)
    ensures FullRow(alpha, beta, g, h, k, n, i) <==> a + b == k * u && c + d == -(k * w)
  {
    hide Apply;
  }

  lemma SameHalfEntries(s: Vec, t: Vec, v: Vec)
    requires forall i :: s(i) == t(i)
    ensures forall i :: UpHalf(s, v)(i) == UpHalf(t, v)(i) && DownHalf(s, v)(i) == DownHalf(t, v)(i)
  {
  }

  /** Column c holds its lifted eigenvector: the roots from the middle up, the negatives mirrored below. */
  ghost predicate Stacked(gc: array2<real>, c: int, s: Mat, v: Mat, n: int)
    reads gc
  {
    var j := if c >= n then c - n + 1 else n - c;
    var t := if c >= n then Col(s, j) else Negated(Col(s, j));
    HalvesHold(gc, c, UpHalf(t, Col(v, j)), DownHalf(t, Col(v, j)), n, n)
  }

  method StackNext(n: nat, jq: nat, apb: array2<real>, evecc: array2<real>, gc: array2<real>, ghost s: Mat,
      ghost v: Mat)
    requires jq < n && Holds(apb, s, n) && Eigenvectors(evecc, v, n, jq)
    requires 2 * n <= gc.Length0 && 2 * n <= gc.Length1 && apb != evecc && apb != gc && evecc != gc
    requires forall c :: n - jq <= c < n + jq ==> Stacked(gc, c, s, v, n)
    modifies evecc, gc
    ensures Eigenvectors(evecc, v, n, jq + 1)
    ensures forall c :: n - jq - 1 <= c < n + jq + 1 ==> Stacked(gc, c, s, v, n)
  {
    hide UpHalf, DownHalf, Negated;
    StackColumn(n, jq, apb, evecc, gc, Col(s, jq + 1), Col(v, jq + 1));
    var left, right := n - 1 - jq, n + jq;
    assert n - left == jq + 1 && right - n + 1 == jq + 1;
    assert Stacked(gc, left, s, v, n) && Stacked(gc, right, s, v, n);
    forall c | n - jq <= c < n + jq ensures Stacked(gc, c, s, v, n) {
      assert old(Stacked(gc, c, s, v, n));
    }
  }

  method StackColumns(n: nat, apb: array2<real>, evecc: array2<real>, gc: array2<real>, ghost s: Mat, ghost v: Mat)
    requires Holds(apb, s, n) && Eigenvectors(evecc, v, n, 0)
    requires 2 * n <= gc.Length0 && 2 * n <= gc.Length1 && apb != evecc && apb != gc && evecc != gc
    modifies evecc, gc
    ensures forall c :: 0 <= c < 2 * n ==> Stacked(gc, c, s, v, n)
  {
    hide Stacked;
    for jq := 0 to n
      invariant Holds(apb, s, n) && Eigenvectors(evecc, v, n, jq)
      invariant forall c :: n - jq <= c < n + jq ==> Stacked(gc, c, s, v, n)
    {
      StackNext(n, jq, apb, evecc, gc, s, v);
    }
  }

  /** What the eigenvalue routine promises of its results: positive eigenvalues with their eigenvectors. */
  ghost predicate Solved(near: Mat, far: Mat, mu: Vec, v: Mat, lambda: Vec, n: int) {
    forall j :: 1 <= j <= n ==>
      lambda(j) > 0.0 && ReducedPair(Plus(near, far, mu), Minus(near, far, mu), Col(v, j), lambda(j), n)
  }

  lemma StackedIsPair(gc: array2<real>, c: int, near: Mat, far: Mat, mu: Vec, v: Mat, lambda: Vec, root: Vec, n: int)
    requires Solved(near, far, mu, v, lambda, n) && 0 <= c < 2 * n
    requires forall j :: 1 <= j <= n ==> RootOf(root(j), lambda(j))
    requires Stacked(gc, c, Sums(Minus(near, far, mu), v, root, n), v, n)
    ensures ColumnPair(gc, c, Alpha(near, mu), Beta(far, mu), if c >= n then root(c - n + 1) else -root(n - c), n)
  {
    hide Plus, Minus, Alpha, Beta, ReducedPair, FullPair, HalvesHold, Dot, Over, UpHalf, DownHalf, Negated;
    var j := if c >= n then c - n + 1 else n - c;
    var m, sums := Minus(near, far, mu), Sums(Minus(near, far, mu), v, root, n);
    var s := Col(sums, j);
    assert RootOf(root(j), lambda(j));
    PositiveRoot(root(j), lambda(j));
    forall i ensures s(i) == Over(Apply(m, i, Col(v, j), n), root(j)) {
      assert sums(i, j) == Over(Apply(m, i, Col(v, j), n), root(j));
    }
    PairOfColumns(near, far, mu, Col(v, j), lambda(j), root(j), n, s);
  }

  /**
   * From positive eigenvalues and eigenvectors of the reduced problem to those of all streams: column c of gc is
   * an eigenvector for entry c of kk, and the two halves of kk are each other's negatives.
   */
  method LiftEigenpairs(n: nat, amb: array2<real>, evecc: array2<real>, eval: array<real>, apb: array2<real>,
      kk: array<real>, gc: array2<real>, sqrt: real -> real,
      ghost near: Mat, ghost far: Mat, ghost mu: Vec, ghost v: Mat, ghost lambda: Vec)
    requires Holds(amb, Minus(near, far, mu), n) && Eigenvectors(evecc, v, n, 0) && VecHolds(eval, lambda, n)
    requires Solved(near, far, mu, v, lambda, n) && IsSqrt(sqrt)
    requires n <= apb.Length0 && n <= apb.Length1 && 2 * n <= kk.Length && 2 * n <= gc.Length0 && 2 * n <= gc.Length1
    requires eval != kk && apb != amb && apb != evecc && apb != gc && evecc != gc && evecc != amb && amb != gc
    modifies eval, kk, apb, evecc, gc
    ensures forall c :: 0 <= c < 2 * n ==> ColumnPair(gc, c, Alpha(near, mu), Beta(far, mu), kk[c], n)
    ensures forall c :: 0 <= c < n ==> kk[c] == -kk[2 * n - 1 - c]
  {
    hide *;
    ghost var root: Vec := j => sqrt(Abs(lambda(j)));
    RootsExist(sqrt, lambda, root, n, near, far, mu, v);
    Roots(n, eval, kk, sqrt, lambda, root);
    SumColumns(n, amb, evecc, eval, apb, Minus(near, far, mu), v, root);
    StackColumns(n, apb, evecc, gc, Sums(Minus(near, far, mu), v, root, n), v);
    AllPairs(gc, kk, near, far, mu, v, lambda, root, n);
  }

  lemma AllPairs(gc: array2<real>, kk: array<real>, near: Mat, far: Mat, mu: Vec, v: Mat, lambda: Vec, root: Vec,
      n: int)
    requires Solved(near, far, mu, v, lambda, n) && Spectrum(kk, root, n, n)
    requires forall j :: 1 <= j <= n ==> RootOf(root(j), lambda(j))
    requires forall c :: 0 <= c < 2 * n ==> Stacked(gc, c, Sums(Minus(near, far, mu), v, root, n), v, n)
    ensures forall c :: 0 <= c < 2 * n ==> ColumnPair(gc, c, Alpha(near, mu), Beta(far, mu), kk[c], n)
    ensures forall c :: 0 <= c < n ==> kk[c] == -kk[2 * n - 1 - c]
  {
    hide Minus, Alpha, Beta, Sums, Stacked, ColumnPair, RootOf, Solved;
    forall c | 0 <= c < 2 * n ensures ColumnPair(gc, c, Alpha(near, mu), Beta(far, mu), kk[c], n) {
      StackedIsPair(gc, c, near, far, mu, v, lambda, root, n);
    }
  }

  lemma RootsExist(sqrt: real -> real, lambda: Vec, root: Vec, n: int, near: Mat, far: Mat, mu: Vec, v: Mat)
    requires IsSqrt(sqrt) && Solved(near, far, mu, v, lambda, n) && forall j :: root(j) == sqrt(Abs(lambda(j)))
    ensures forall j :: 1 <= j <= n ==> RootOf(root(j), lambda(j))
    ensures forall j :: 1 <= j <= n ==> root(j) != 0.0
  {
    hide ReducedPair;
    forall j | 1 <= j <= n ensures RootOf(root(j), lambda(j)) && root(j) != 0.0 {
      assert RootOf(sqrt(lambda(j)), lambda(j));
      PositiveRoot(root(j), lambda(j));
    }
  }
}
