/** The tridiagonal system says exactly that the intensities form a radiation field. */
module TwoStreamContinuity {
  import opened RealArithmetic
  import opened LinearAlgebra
  import opened TwoStreamSystem

  /** Left-hand side of row i. */
  function RowSum(p: Column, x: Vec, i: int): real {
    (if i == 1 then 0.0 else SubAt(p, i) * x(i - 1)) + DiagAt(p, i) * x(i)
    + (if i == 2 * p.ncut then 0.0 else SuperAt(p, i) * x(i + 1))
  }

  lemma TriRow(p: Column, x: Vec, i: int)
    requires 1 <= i <= 2 * p.ncut
    ensures Apply(TriMatrix(p), i, x, 2 * p.ncut) == RowSum(p, x, i)
  {
    hide SubAt, DiagAt, SuperAt;
    var n := 2 * p.ncut;
    var row := Row(TriMatrix(p), i);
    var lo, hi := if i == 1 then 1 else i - 1, if i == n then n else i + 1;
    DotSplit(row, x, 1, lo, n + 1);
    DotSplit(row, x, lo, hi + 1, n + 1);
    DotZero(row, x, 1, lo);
    DotZero(row, x, hi + 1, n + 1);
    TriRowMiddle(p, x, i, lo, hi);
  }

  lemma TriRowMiddle(p: Column, x: Vec, i: int, lo: int, hi: int)
    requires 1 <= i <= 2 * p.ncut
    requires lo == (if i == 1 then 1 else i - 1) && hi == if i == 2 * p.ncut then i else i + 1
    ensures Dot(Row(TriMatrix(p), i), x, lo, hi + 1) == RowSum(p, x, i)
  {
    hide SubAt, DiagAt, SuperAt, Dot;
    var row := Row(TriMatrix(p), i);
    LastTerm(row, x, lo, i);
    if lo < i { LastTerm(row, x, lo, i - 1); }
    if i < hi { LastTerm(row, x, lo, i + 1); }
    SumEmpty(row, x, lo);
  }

  lemma SumEmpty(u: Vec, v: Vec, lo: int)
    ensures Dot(u, v, lo, lo) == 0.0
  {
  }

  lemma NoDecay(p: Column, lc: int, t: real)
    requires p.exp(0.0) == 1.0
    ensures Decay(p, lc, t, t) == 1.0
  {
    assert -p.kk(lc) * (t - t) == 0.0;
  }

  lemma Products(x: real, e: real, y: real, f: real)
    requires f == 1.0
    ensures x * e == e * x && y * f == y
  {
  }

  /** The homogeneous part at the bottom and at the top of a layer. */
  lemma LayerBottom(p: Column, x: Vec, lc: int)
    requires p.exp(0.0) == 1.0
    ensures HomogeneousDown(p, x, lc, p.tau(lc)) == Trans(p, lc) * x(2 * lc) + p.rr(lc) * x(2 * lc - 1)
    ensures HomogeneousUp(p, x, lc, p.tau(lc)) == x(2 * lc - 1) + p.rr(lc) * (Trans(p, lc) * x(2 * lc))
  {
    hide Decay;
    NoDecay(p, lc, p.tau(lc));
    Products(x(2 * lc), Trans(p, lc), x(2 * lc - 1), Decay(p, lc, p.tau(lc), p.tau(lc)));
  }

  lemma LayerTop(p: Column, x: Vec, lc: int)
    requires p.exp(0.0) == 1.0
    ensures HomogeneousDown(p, x, lc, p.tau(lc - 1)) == x(2 * lc) + p.rr(lc) * (Trans(p, lc) * x(2 * lc - 1))
    ensures HomogeneousUp(p, x, lc, p.tau(lc - 1)) == Trans(p, lc) * x(2 * lc - 1) + p.rr(lc) * x(2 * lc)
  {
    hide Decay;
    NoDecay(p, lc, p.tau(lc - 1));
    Products(x(2 * lc - 1), Trans(p, lc), x(2 * lc), Decay(p, lc, p.tau(lc - 1), p.tau(lc - 1)));
  }

  /** The two rows of the interface below layer lc. */
  ghost predicate RowHolds(p: Column, x: Vec, i: int) { RowSum(p, x, i) == RhsAt(p, i) }

  lemma Regroup(c: real, w: real, x: real)
    ensures (c * w) * x == c * (w * x)
  {
  }

  /**
   * The scalars of the interface below layer lc: constants of integration as they arrive at it, reflectances,
   * source jumps.
   */
  ghost predicate InterfaceScalars(p: Column, x: Vec, lc: int, a: real, b: real, a': real, b': real, r: real,
      r': real, jd: real, ju: real) {
    && a == x(2 * lc - 1) && b == Trans(p, lc) * x(2 * lc)
    && a' == Trans(p, lc + 1) * x(2 * lc + 1) && b' == x(2 * lc + 2)
    && r == p.rr(lc) && r' == p.rr(lc + 1) && jd == JumpDown(p, lc) && ju == JumpUp(p, lc)
  }

  lemma FirstInterfaceRow(p: Column, x: Vec, lc: int, a: real, b: real, a': real, b': real, r: real, r': real,
      jd: real, ju: real)
    requires 1 <= lc < p.ncut && InterfaceScalars(p, x, lc, a, b, a', b', r, r', jd, ju)
    ensures RowHolds(p, x, 2 * lc) <==> (1.0 - r * r') * a + (r - r') * b + -(1.0 - r' * r') * a' == ju - r' * jd
  {
    hide Trans, JumpDown, JumpUp;
    var w, w', i := Trans(p, lc), Trans(p, lc + 1), 2 * lc;
    assert i / 2 == lc && i % 2 == 0 && i != 1 && i != 2 * p.ncut;
    CombinedProduct(SubAt(p, i), 1.0 - r * r', 1.0, x(i - 1), a);
    CombinedProduct(DiagAt(p, i), r - r', w, x(i), b);
    CombinedProduct(SuperAt(p, i), -(1.0 - r' * r'), w', x(i + 1), a');
    CombinedProduct(p.rr(lc + 1), r', 1.0, JumpDown(p, lc), jd);
  }

  lemma SecondInterfaceRow(p: Column, x: Vec, lc: int, a: real, b: real, a': real, b': real, r: real, r': real,
      jd: real, ju: real)
    requires 1 <= lc < p.ncut && InterfaceScalars(p, x, lc, a, b, a', b', r, r', jd, ju)
    ensures RowHolds(p, x, 2 * lc + 1) <==> (1.0 - r * r) * b + (r - r') * a' + -(1.0 - r' * r) * b' == jd - r * ju
  {
    hide Trans, JumpDown, JumpUp;
    var w, w', i := Trans(p, lc), Trans(p, lc + 1), 2 * lc + 1;
    assert i / 2 == lc && i % 2 == 1 && i != 1 && i != 2 * p.ncut;
    CombinedProduct(SubAt(p, i), 1.0 - r * r, w, x(i - 1), b);
    CombinedProduct(DiagAt(p, i), r - r', w', x(i), a');
    CombinedProduct(SuperAt(p, i), -(1.0 - r' * r), 1.0, x(i + 1), b');
    CombinedProduct(p.rr(lc), r, 1.0, JumpUp(p, lc), ju);
  }

  /** A coefficient c * w applied to x is c applied to what w lets through of x. */
  lemma CombinedProduct(e: real, c: real, w: real, x: real, y: real)
    requires e == c * w && y == w * x
    ensures e * x == c * y
  {
    Regroup(c, w, x);
    SameProduct(e, c * w, x, x);
  }

  lemma ContinuityScalars(p: Column, x: Vec, lc: int, a: real, b: real, a': real, b': real, r: real, r': real,
      jd: real, ju: real)
    requires p.exp(0.0) == 1.0 && InterfaceScalars(p, x, lc, a, b, a', b', r, r', jd, ju)
    ensures ContinuousAt(p, x, lc) <==> a + r * b - a' - r' * b' == ju && b + r * a - b' - r' * a' == jd
  {
    hide Trans, HomogeneousDown, HomogeneousUp, SourceDown, SourceUp;
    LayerBottom(p, x, lc);
    LayerTop(p, x, lc + 1);
    var t := p.tau(lc);
    assert HomogeneousDown(p, x, lc, t) == b + r * a && HomogeneousUp(p, x, lc, t) == a + r * b;
    assert HomogeneousDown(p, x, lc + 1, t) == b' + r' * a' && HomogeneousUp(p, x, lc + 1, t) == a' + r' * b';
  }

  lemma InterfaceEquations(p: Column, x: Vec, lc: int)
    requires 1 <= lc < p.ncut && p.exp(0.0) == 1.0 && Separable(p, lc)
    ensures RowHolds(p, x, 2 * lc) && RowHolds(p, x, 2 * lc + 1) <==> ContinuousAt(p, x, lc)
  {
    hide Trans, RowHolds, ContinuousAt, JumpDown, JumpUp, NotInverse;
    var a, b, a', b' := x(2 * lc - 1), Trans(p, lc) * x(2 * lc), Trans(p, lc + 1) * x(2 * lc + 1), x(2 * lc + 2);
    var r, r', jd, ju := p.rr(lc), p.rr(lc + 1), JumpDown(p, lc), JumpUp(p, lc);
    FirstInterfaceRow(p, x, lc, a, b, a', b', r, r', jd, ju);
    SecondInterfaceRow(p, x, lc, a, b, a', b', r, r', jd, ju);
    ContinuityScalars(p, x, lc, a, b, a', b', r, r', jd, ju);
    InterfaceRows(a, b, a', b', r, r', jd, ju);
  }

  lemma ScaledByOne(e: real, y: real, s: real)
    requires e == 1.0 && s == 0.0
    ensures e * (y + s) == y
  {
  }

  lemma SourceAtTop(p: Column)
    requires WellPosed(p)
    ensures SourceDown(p, 1, p.tau(0)) == p.yb0d(1) + p.yp0d(1)
  {
    var t := p.tau(0);
    var eb, et := p.exp(-p.zba(1) * t), p.exp(-p.zpa(1) * t);
    assert -p.zba(1) * t == 0.0 && -p.zpa(1) * t == 0.0;
    assert eb == 1.0 && et == 1.0;
    ScaledByOne(eb, p.yb0d(1), p.yb1d(1) * t);
    ScaledByOne(et, p.yp0d(1), p.yp1d(1) * t);
  }

  lemma TopRow(p: Column, x: Vec)
    requires WellPosed(p)
    ensures RowHolds(p, x, 1) <==> TopCondition(p, x)
  {
    hide Decay, HomogeneousDown, SourceDown, SubAt;
    SourceAtTop(p);
    LayerTop(p, x, 1);
    Regroup(p.rr(1), Trans(p, 1), x(1));
    assert SuperAt(p, 1) == 1.0;
    SameProduct(DiagAt(p, 1), p.rr(1) * Trans(p, 1), x(1), x(1));
  }

  lemma SurfaceRow(a: real, b: real, r: real, q: real, sd: real, su: real, s: real)
    ensures (1.0 - q * r) * a + (r - q) * b == q * sd + s - su <==> su + (a + r * b) == q * (sd + (b + r * a)) + s
  {
    assert (1.0 - q * r) * a + (r - q) * b == a + r * b - q * (b + r * a);
    assert q * (sd + (b + r * a)) == q * sd + q * (b + r * a);
  }

  lemma BottomRow(p: Column, x: Vec)
    requires WellPosed(p)
    ensures RowHolds(p, x, 2 * p.ncut) <==> BottomCondition(p, x)
  {
    hide Trans, HomogeneousDown, HomogeneousUp, SourceDown, SourceUp, SurfaceSource, RowHolds;
    var n, q := p.ncut, 2.0 * p.albedo * p.cmu;
    var r, w, i := p.rr(n), Trans(p, n), 2 * n;
    LayerBottom(p, x, n);
    var a, b := x(i - 1), w * x(i);
    var sd, su := SourceDown(p, n, p.tau(n)), SourceUp(p, n, p.tau(n));
    if p.lyrcut {
      TruncatedRow(p, x, a, b, r, w, su);
    } else {
      ReflectingRow(p, x, a, b, r, w, q, sd, su);
      SurfaceRow(a, b, r, q, sd, su, SurfaceSource(p));
    }
  }

  lemma TruncatedRow(p: Column, x: Vec, a: real, b: real, r: real, w: real, su: real)
    requires WellPosed(p) && p.lyrcut && r == p.rr(p.ncut) && w == Trans(p, p.ncut)
    requires a == x(2 * p.ncut - 1) && b == w * x(2 * p.ncut) && su == SourceUp(p, p.ncut, p.tau(p.ncut))
    ensures RowHolds(p, x, 2 * p.ncut) <==> a + r * b == -su
  {
    hide Trans, SourceUp, SourceDown, SuperAt;
    var i := 2 * p.ncut;
    Regroup(r, w, x(i));
    SameProduct(SubAt(p, i), 1.0, x(i - 1), a);
    SameProduct(DiagAt(p, i), r * w, x(i), x(i));
  }

  lemma ReflectingRow(p: Column, x: Vec, a: real, b: real, r: real, w: real, q: real, sd: real, su: real)
    requires WellPosed(p) && !p.lyrcut && r == p.rr(p.ncut) && w == Trans(p, p.ncut) && q == 2.0 * p.albedo * p.cmu
    requires a == x(2 * p.ncut - 1) && b == w * x(2 * p.ncut)
    requires sd == SourceDown(p, p.ncut, p.tau(p.ncut)) && su == SourceUp(p, p.ncut, p.tau(p.ncut))
    ensures RowHolds(p, x, 2 * p.ncut) <==> (1.0 - q * r) * a + (r - q) * b == q * sd + SurfaceSource(p) - su
  {
    hide Trans, SourceUp, SourceDown, SuperAt, SurfaceSource;
    var i := 2 * p.ncut;
    Regroup(r - q, w, x(i));
    SameProduct(SubAt(p, i), 1.0 - q * r, x(i - 1), a);
    SameProduct(DiagAt(p, i), (r - q) * w, x(i), x(i));
    SurfaceRhs(p.cmu, p.albedo, sd);
  }

  lemma SurfaceRhs(c: real, a: real, s: real)
    ensures 2.0 * (c * a * s) == (2.0 * a * c) * s
  {
  }

  /** The system of c_twostr_solve_bc and the conditions on the radiation field have the same solutions. */
  lemma SystemIsRadiationField(p: Column, x: Vec)
    requires WellPosed(p)
    ensures Solves(TriMatrix(p), x, Rhs(p), 2 * p.ncut) <==> RadiationField(p, x)
  {
    hide RowHolds, ContinuousAt, TopCondition, BottomCondition, Separable;
    RowsAreSystem(p, x);
    TopRow(p, x);
    BottomRow(p, x);
    forall lc | 1 <= lc < p.ncut
      ensures RowHolds(p, x, 2 * lc) && RowHolds(p, x, 2 * lc + 1) <==> ContinuousAt(p, x, lc)
    {
      InterfaceEquations(p, x, lc);
    }
    if RadiationField(p, x) {
      forall i | 1 <= i <= 2 * p.ncut ensures RowHolds(p, x, i) {
        if i != 1 && i != 2 * p.ncut {
          assert ContinuousAt(p, x, i / 2);
        }
      }
    }
  }

  lemma RowsAreSystem(p: Column, x: Vec)
    requires 1 <= p.ncut
    ensures Solves(TriMatrix(p), x, Rhs(p), 2 * p.ncut) <==> forall i :: 1 <= i <= 2 * p.ncut ==> RowHolds(p, x, i)
  {
    hide RowSum, RhsAt, Apply, TriMatrix;
    forall i | 1 <= i <= 2 * p.ncut
      ensures RowHolds(p, x, i) <==> Apply(TriMatrix(p), i, x, 2 * p.ncut) == Rhs(p)(i)
    {
      TriRow(p, x, i);
    }
  }
}
