/** The n-stream system and the conditions on the radiation field have the same solutions. */
module StreamRows {
  import opened RealArithmetic
  import opened LinearAlgebra
  import opened StreamSystem
  import opened StreamContinuity
  import opened StreamField

  lemma InterfaceEntries(p: Medium, jq: int, lc: int, iq: int)
    requires Paired(p) && 1 <= lc < p.ncut && 1 <= jq <= Nstr(p) && 1 <= iq <= Nstr(p)
    ensures var i := Base(Nstr(p), lc) + p.nn + jq;
      && LayerRow(p, i, lc)(iq) == EigenRow(p, jq, lc, p.tau(lc))(iq)
      && LayerRow(p, i, lc + 1)(iq) == -EigenRow(p, jq, lc + 1, p.tau(lc))(iq)
  {
    hide Base, AtBottom, AtTop, EigenFactor, Paired;
    BaseNext(Nstr(p), lc);
    FactorAtBottom(p, iq, lc);
    FactorAtTop(p, iq, lc + 1);
    EntriesOfInterface(p, jq, lc, iq);
  }

  lemma EntriesOfInterface(p: Medium, jq: int, lc: int, iq: int)
    requires 1 <= p.nn && 1 <= lc < p.ncut && 1 <= jq <= Nstr(p)
    ensures Stretch(p, lc, iq, jq + Nstr(p) - 1, true, true) == p.gc(jq, iq, lc) * AtBottom(p, lc, iq)
    ensures Stretch(p, lc + 1, iq, jq - 1, true, true) == -(p.gc(jq, iq, lc + 1) * AtTop(p, lc + 1, iq))
  {
    hide AtBottom, AtTop, BottomEigen;
    FactoredOut(p.gc(jq, iq, lc + 1), 0.0, AtTop(p, lc + 1, iq));
  }

  /** The interface row of stream jq compares the homogeneous parts on both sides. */
  lemma InterfaceSum(p: Medium, x: Vec, jq: int, lc: int)
    requires Paired(p) && 1 <= lc < p.ncut && 1 <= jq <= Nstr(p)
    ensures Apply(StreamMatrix(p), Base(Nstr(p), lc) + p.nn + jq, x, Order(p))
      == Homogeneous(p, x, jq, lc, p.tau(lc)) - Homogeneous(p, x, jq, lc + 1, p.tau(lc))
  {
    hide Base, StreamMatrix, Stretch, Dot, EigenRow, Constants, LayerRow;
    var i, n := Base(Nstr(p), lc) + p.nn + jq, Nstr(p);
    InterfaceColumns(p, x, i, lc, jq);
    var above, below := LayerRow(p, i, lc), LayerRow(p, i, lc + 1);
    var above', below' := EigenRow(p, jq, lc, p.tau(lc)), EigenRow(p, jq, lc + 1, p.tau(lc));
    forall iq | 1 <= iq < n + 1 ensures above(iq) == above'(iq) { InterfaceEntries(p, jq, lc, iq); }
    forall iq | 1 <= iq < n + 1 ensures below(iq) == -below'(iq) { InterfaceEntries(p, jq, lc, iq); }
    DotCongruence(above, Constants(p, x, lc), above', Constants(p, x, lc), 1, n + 1);
    DotNegated(below', below, Constants(p, x, lc + 1), 1, n + 1);
  }

  lemma InterfaceColumns(p: Medium, x: Vec, i: int, lc: int, jq: int)
    requires 1 <= p.nn && 1 <= lc < p.ncut && 1 <= jq <= Nstr(p) && i == Base(Nstr(p), lc) + p.nn + jq
    ensures Apply(StreamMatrix(p), i, x, Order(p)) ==
      Dot(LayerRow(p, i, lc), Constants(p, x, lc), 1, Nstr(p) + 1)
      + Dot(LayerRow(p, i, lc + 1), Constants(p, x, lc + 1), 1, Nstr(p) + 1)
  {
    hide Base, StreamMatrix, Stretch, Dot, Constants, LayerRow;
    var n, row := Nstr(p), Row(StreamMatrix(p), i);
    BaseNext(n, lc);
    BaseNext(n, lc + 1);
    BaseStart(n);
    BaseMonotone(n, 1, lc);
    BaseMonotone(n, lc + 2, p.ncut + 1);
    forall l | 1 <= l < lc ensures i - Base(n, l) + p.nn - 1 >= 2 * n { BaseMonotone(n, l, lc); }
    forall l | lc + 2 <= l < p.ncut + 1 ensures i - Base(n, l) + p.nn - 1 < 0 { BaseMonotone(n, lc + 2, l); }
    NoCoupling(p, x, i, 1, lc);
    NoCoupling(p, x, i, lc + 2, p.ncut + 1);
    LayerSum(p, x, i, lc);
    LayerSum(p, x, i, lc + 1);
    DotSplit(row, x, 1, Base(n, lc) + 1, Order(p) + 1);
    DotSplit(row, x, Base(n, lc) + 1, Base(n, lc + 1) + 1, Order(p) + 1);
    DotSplit(row, x, Base(n, lc + 1) + 1, Base(n, lc + 2) + 1, Order(p) + 1);
  }

  lemma TopSum(p: Medium, x: Vec, jq: int)
    requires Paired(p) && 1 <= p.ncut && 1 <= jq <= p.nn
    ensures Apply(StreamMatrix(p), p.nn + 1 - jq, x, Order(p)) == Homogeneous(p, x, jq, 1, p.tau(0))
  {
    hide Base, StreamMatrix, Stretch, Dot, EigenRow, Constants, LayerRow, Paired;
    var i, n := p.nn + 1 - jq, Nstr(p);
    BaseStart(n);
    BaseNext(n, 1);
    BaseMonotone(n, 2, p.ncut + 1);
    forall l | 2 <= l < p.ncut + 1 ensures i - Base(n, l) + p.nn - 1 < 0 { BaseMonotone(n, 2, l); }
    NoCoupling(p, x, i, 2, p.ncut + 1);
    DotSplit(Row(StreamMatrix(p), i), x, 1, Base(n, 2) + 1, Order(p) + 1);
    LayerSum(p, x, i, 1);
    forall iq | 1 <= iq < n + 1 ensures LayerRow(p, i, 1)(iq) == EigenRow(p, jq, 1, p.tau(0))(iq) {
      TopEntry(p, jq, iq);
    }
    DotCongruence(LayerRow(p, i, 1), Constants(p, x, 1), EigenRow(p, jq, 1, p.tau(0)), Constants(p, x, 1), 1, n + 1);
  }

  lemma TopEntry(p: Medium, jq: int, iq: int)
    requires Paired(p) && 1 <= jq <= p.nn && 1 <= iq <= Nstr(p)
    ensures LayerRow(p, p.nn + 1 - jq, 1)(iq) == EigenRow(p, jq, 1, p.tau(0))(iq)
  {
    hide Base, AtBottom, AtTop, AtTopOfMedium, EigenFactor, BottomEigen;
    BaseStart(Nstr(p));
    FactorAtTop(p, iq, 1);
  }

  lemma BottomColumns(p: Medium, x: Vec, jq: int)
    requires 1 <= p.nn && 1 <= p.ncut && p.nn < jq <= Nstr(p)
    ensures Apply(StreamMatrix(p), Base(Nstr(p), p.ncut) + jq, x, Order(p))
      == Dot(LayerRow(p, Base(Nstr(p), p.ncut) + jq, p.ncut), Constants(p, x, p.ncut), 1, Nstr(p) + 1)
  {
    hide Base, StreamMatrix, Stretch, Dot, Constants, LayerRow;
    var i, n := Base(Nstr(p), p.ncut) + jq, Nstr(p);
    BaseStart(n);
    BaseNext(n, p.ncut);
    BaseMonotone(n, 1, p.ncut);
    forall l | 1 <= l < p.ncut ensures i - Base(n, l) + p.nn - 1 >= 2 * n { BaseMonotone(n, l, p.ncut); }
    NoCoupling(p, x, i, 1, p.ncut);
    DotSplit(Row(StreamMatrix(p), i), x, 1, Base(n, p.ncut) + 1, Order(p) + 1);
    LayerSum(p, x, i, p.ncut);
  }

  /** The homogeneous parts of the downward streams at the surface. */
  ghost function HomogeneousBelow(p: Medium,
      x: Vec): Vec { k => Homogeneous(p, x, p.nn + 1 - k, p.ncut, p.tau(p.ncut)) }

  /** The bottom row of stream jq is its homogeneous part less what the surface reflects into it. */
  lemma BottomSum(p: Medium, x: Vec, jq: int)
    requires Paired(p) && 1 <= p.nn && 1 <= p.ncut && p.nn < jq <= Nstr(p)
    ensures Apply(StreamMatrix(p), Base(Nstr(p), p.ncut) + jq, x, Order(p)) ==
      Homogeneous(p, x, jq, p.ncut, p.tau(p.ncut))
      - (if NoReflection(p) then 0.0 else Reflection(p, jq, HomogeneousBelow(p, x)))
  {
    hide *;
    BottomColumns(p, x, jq);
    if NoReflection(p) {
      DarkBottomSum(p, x, jq);
    } else {
      ReflectingBottomSum(p, x, jq, -(1.0 + p.delm0));
    }
  }

  lemma DarkBottomSum(p: Medium, x: Vec, jq: int)
    requires Paired(p) && 1 <= p.nn && 1 <= p.ncut && p.nn < jq <= Nstr(p) && NoReflection(p)
    ensures Dot(LayerRow(p, Base(Nstr(p), p.ncut) + jq, p.ncut), Constants(p, x, p.ncut), 1, Nstr(p) + 1)
      == Homogeneous(p, x, jq, p.ncut, p.tau(p.ncut))
  {
    hide Base, StreamMatrix, Stretch, Dot, EigenRow, Constants, LayerRow, Paired;
    var i, n, c := Base(Nstr(p), p.ncut) + jq, Nstr(p), Constants(p, x, p.ncut);
    forall iq | 1 <= iq < n + 1 ensures LayerRow(p, i, p.ncut)(iq) == EigenRow(p, jq, p.ncut, p.tau(p.ncut))(iq) {
      BottomEntry(p, jq, iq);
    }
    DotCongruence(LayerRow(p, i, p.ncut), c, EigenRow(p, jq, p.ncut, p.tau(p.ncut)), c, 1, n + 1);
  }

  lemma ReflectingBottomSum(p: Medium, x: Vec, jq: int, e: real)
    requires Paired(p) && 1 <= p.nn && 1 <= p.ncut && p.nn < jq <= Nstr(p) && !NoReflection(p) && e == -(1.0 + p.delm0)
    ensures Dot(LayerRow(p, Base(Nstr(p), p.ncut) + jq, p.ncut), Constants(p, x, p.ncut), 1, Nstr(p) + 1)
      == Homogeneous(p, x, jq, p.ncut, p.tau(p.ncut)) - Reflection(p, jq, HomogeneousBelow(p, x))
  {
    hide Base, StreamMatrix, Stretch, Dot, EigenRow, Constants, LayerRow, Paired, Weighted, Reflection, LeftProduct;
    var i, n, c := Base(Nstr(p), p.ncut) + jq, Nstr(p), Constants(p, x, p.ncut);
    var r := LeftProduct(Weighted(p, jq), EigenBelow(p), 1, p.nn + 1);
    forall iq | 1 <= iq < n + 1
      ensures LayerRow(p, i, p.ncut)(iq) == EigenRow(p, jq, p.ncut, p.tau(p.ncut))(iq) + e * r(iq)
    {
      BottomEntry(p, jq, iq);
      SameProduct(e, -(1.0 + p.delm0), r(iq), r(iq));
    }
    DotLinear(LayerRow(p, i, p.ncut), EigenRow(p, jq, p.ncut, p.tau(p.ncut)), r, e, c, 1, n + 1);
    ReflectedSum(p, x, jq);
    var d := Dot(r, c, 1, n + 1);
    NegatedReflection(p, x, jq, e, d);
    assert Homogeneous(p, x, jq, p.ncut, p.tau(p.ncut)) == Dot(EigenRow(p, jq, p.ncut, p.tau(p.ncut)), c, 1, n + 1);
    assert Dot(LayerRow(p, i, p.ncut), c, 1, n + 1) == Homogeneous(p, x, jq, p.ncut, p.tau(p.ncut)) + e * d;
  }

  lemma NegatedReflection(p: Medium, x: Vec, jq: int, e: real, d: real)
    requires e == -(1.0 + p.delm0) && d == Dot(Weighted(p, jq), HomogeneousBelow(p, x), 1, p.nn + 1)
    ensures e * d == -Reflection(p, jq, HomogeneousBelow(p, x))
  {
    hide Dot, Weighted, HomogeneousBelow;
    NegatedProduct(1.0 + p.delm0, d, Dot(Weighted(p, jq), HomogeneousBelow(p, x), 1, p.nn + 1));
  }

  lemma NegatedProduct(f: real, d: real, d': real)
    requires d == d'
    ensures -f * d == -(f * d')
  {
  }

  /** Component nn + 1 - k of eigenvector iq at the surface. */
  ghost function EigenBelow(p: Medium): Mat {
    (k, iq) => p.gc(p.nn + 1 - k, iq, p.ncut) * EigenFactor(p, iq, p.ncut, p.tau(p.ncut))
  }

  lemma ReflectedSum(p: Medium, x: Vec, jq: int)
    ensures Dot(LeftProduct(Weighted(p, jq), EigenBelow(p), 1, p.nn + 1), Constants(p, x, p.ncut), 1, Nstr(p) + 1)
      == Dot(Weighted(p, jq), HomogeneousBelow(p, x), 1, p.nn + 1)
  {
    hide Dot, EigenFactor, Weighted, Constants;
    var c, n := Constants(p, x, p.ncut), Nstr(p);
    SumExchange(Weighted(p, jq), EigenBelow(p), c, 1, p.nn + 1, 1, n + 1);
    forall k | 1 <= k < p.nn + 1 ensures RightProduct(EigenBelow(p), c, 1, n + 1)(k) == HomogeneousBelow(p, x)(k) {
      DotCongruence(Row(EigenBelow(p), k), c, EigenRow(p, p.nn + 1 - k, p.ncut, p.tau(p.ncut)), c, 1, n + 1);
    }
    DotCongruence(Weighted(p, jq), RightProduct(EigenBelow(p), c, 1, n + 1), Weighted(p, jq), HomogeneousBelow(p, x),
        1, p.nn + 1);
  }

  lemma BottomEntry(p: Medium, jq: int, iq: int)
    requires Paired(p) && p.nn < jq <= Nstr(p) && 1 <= iq <= Nstr(p)
    ensures LayerRow(p, Base(Nstr(p), p.ncut) + jq, p.ncut)(iq) ==
      EigenRow(p, jq, p.ncut, p.tau(p.ncut))(iq)
      + (if NoReflection(p) then 0.0
         else -(1.0 + p.delm0) * LeftProduct(Weighted(p, jq), EigenBelow(p), 1, p.nn + 1)(iq))
  {
    hide Base, AtBottom, AtTop, EigenFactor, Dot, Weighted;
    FactorAtBottom(p, iq, p.ncut);
    var e, d := AtBottom(p, p.ncut, iq), Dot(Weighted(p, jq), DownwardEigen(p, iq), 1, p.nn + 1);
    assert Stretch(p, p.ncut, iq, jq + p.nn - 1, true, true) == BottomEigen(p, jq, iq) * e;
    if !NoReflection(p) {
      ScaledSum(Weighted(p, jq), DownwardEigen(p, iq), Col(EigenBelow(p), iq), e, 1, p.nn + 1);
      BottomProduct(p.gc(jq, iq, p.ncut), 1.0 + p.delm0, d, e);
    }
  }

  lemma BottomProduct(g: real, f: real, d: real, e: real)
    ensures (g - f * d) * e == g * e + -f * (d * e)
  {
  }

  lemma {:induction false} ScaledSum(w: Vec, u: Vec, u': Vec, e: real, lo: int, hi: int)
    requires forall k :: lo <= k < hi ==> u'(k) == u(k) * e
    ensures Dot(w, u', lo, hi) == Dot(w, u, lo, hi) * e
    decreases hi - lo
  {
    if lo < hi {
      ScaledSum(w, u, u', e, lo, hi - 1);
      ScaledTerm(Dot(w, u, lo, hi - 1), w(hi - 1), u(hi - 1), e);
    }
  }

  lemma ScaledTerm(d: real, w: real, u: real, e: real)
    ensures (d + w * u) * e == d * e + w * (u * e)
  {
  }

  ghost predicate RowHolds(p: Medium, x: Vec, i: int)
    requires 1 <= p.nn
  {
    Apply(StreamMatrix(p), i, x, Order(p)) == StreamRhs(p)(i)
  }

  lemma TopRow(p: Medium, x: Vec, jq: int)
    requires Paired(p) && Consistent(p) && 1 <= p.ncut && 1 <= jq <= p.nn
    ensures RowHolds(p, x, p.nn + 1 - jq) <==> TopCondition(p, x, jq)
  {
    hide Apply, StreamMatrix, Homogeneous, Particular, TopRhs, Paired, Consistent;
    TopSum(p, x, jq);
    TopParticular(p, jq);
  }

  lemma InterfaceRow(p: Medium, x: Vec, jq: int, lc: int)
    requires Paired(p) && Consistent(p) && 1 <= p.nn && 1 <= jq <= Nstr(p) && 1 <= lc < p.ncut
    ensures RowHolds(p, x, Base(Nstr(p), lc) + p.nn + jq) <==> ContinuousAt(p, x, jq, lc)
  {
    hide Apply, StreamMatrix, Homogeneous, Particular, InterfaceRhs, BottomRhs, Base, LayerOf, StreamOf, Paired,
      Consistent;
    InterfaceSum(p, x, jq, lc);
    InterfaceParticular(p, jq, lc);
    ColumnParts(Nstr(p), lc, jq);
    BaseStart(Nstr(p));
    BaseMonotone(Nstr(p), 1, lc);
    BaseMonotone(Nstr(p), lc, p.ncut);
    BaseNext(Nstr(p), p.ncut);
  }

  lemma BottomRow(p: Medium, x: Vec, jq: int)
    requires Paired(p) && Consistent(p) && 1 <= p.nn && 1 <= p.ncut && p.nn < jq <= Nstr(p)
    ensures RowHolds(p, x, Base(Nstr(p), p.ncut) + jq) <==> BottomCondition(p, x, jq)
  {
    hide Apply, StreamMatrix, Homogeneous, Particular, BottomRhs, InterfaceRhs, Base, Paired, Consistent, Reflection,
        SurfaceSource, NoReflection;
    BottomSum(p, x, jq);
    BottomParticular(p, jq);
    BaseStart(Nstr(p));
    BaseMonotone(Nstr(p), 1, p.ncut);
    BaseNext(Nstr(p), p.ncut);
    ReflectedTotal(p, x, jq);
  }

  /** What the surface reflects of the whole intensity is what it reflects of the two parts. */
  lemma ReflectedTotal(p: Medium, x: Vec, jq: int)
    ensures Reflection(p, jq, DownwardIntensity(p, x)) ==
      Reflection(p, jq, HomogeneousBelow(p, x))
      + Reflection(p, jq, ParticularBelow(p))
  {
    hide Dot, Weighted, Homogeneous, Particular;
    var w, h, q, d := Weighted(p, jq), HomogeneousBelow(p, x), ParticularBelow(p), DownwardIntensity(p, x);
    forall k | 1 <= k < p.nn + 1 ensures d(k) == h(k) + 1.0 * q(k) {
      assert d(k) == Intensity(p, x, p.nn + 1 - k, p.ncut, p.tau(p.ncut)) && 1.0 * q(k) == q(k);
    }
    DotLinear(d, h, q, 1.0, w, 1, p.nn + 1);
    DotCommutes(d, w, 1, p.nn + 1);
    DotCommutes(h, w, 1, p.nn + 1);
    DotCommutes(q, w, 1, p.nn + 1);
    Distributed(1.0 + p.delm0, Dot(w, h, 1, p.nn + 1), Dot(w, q, 1, p.nn + 1));
  }

  lemma Distributed(f: real, a: real, b: real)
    ensures f * (a + 1.0 * b) == f * a + f * b
  {
  }

  /** Every row of the system is a boundary or an interface row. */
  lemma RowKinds(p: Medium, i: int) returns (lc: int, jq: int)
    requires 1 <= p.nn && 1 <= p.ncut && 1 <= i <= Order(p)
    ensures (1 <= jq <= p.nn && i == p.nn + 1 - jq)
         || (1 <= jq <= Nstr(p) && 1 <= lc < p.ncut && i == Base(Nstr(p), lc) + p.nn + jq)
         || (p.nn < jq <= Nstr(p) && i == Base(Nstr(p), p.ncut) + jq)
  {
    hide Base, LayerOf, StreamOf;
    var n := Nstr(p);
    BaseStart(n);
    BaseNext(n, p.ncut);
    if i <= p.nn {
      lc, jq := 1, p.nn + 1 - i;
    } else if i > Order(p) - p.nn {
      lc, jq := p.ncut, i - Base(n, p.ncut);
    } else {
      ColumnOf(n, i - p.nn - 1);
      lc, jq := LayerOf(n, i - p.nn - 1), StreamOf(n, i - p.nn - 1);
      if lc < 1 { BaseMonotone(n, lc, 1); }
      if lc >= p.ncut { BaseMonotone(n, p.ncut, lc); }
    }
  }

  /** The system of c_set_matrix and c_solve0 and the conditions on the radiation field have the same solutions. */
  lemma SystemIsRadiationField(p: Medium, x: Vec)
    requires Paired(p) && Consistent(p) && 1 <= p.nn && 1 <= p.ncut
    ensures Solves(StreamMatrix(p), x, StreamRhs(p), Order(p)) <==> RadiationField(p, x)
  {
    if RadiationField(p, x) { FieldSolves(p, x); }
    if Solves(StreamMatrix(p), x, StreamRhs(p), Order(p)) { SolutionIsField(p, x); }
  }

  lemma FieldSolves(p: Medium, x: Vec)
    requires Paired(p) && Consistent(p) && 1 <= p.nn && 1 <= p.ncut && RadiationField(p, x)
    ensures Solves(StreamMatrix(p), x, StreamRhs(p), Order(p))
  {
    hide Apply, StreamMatrix, StreamRhs, Base, TopCondition, BottomCondition, ContinuousAt, Paired, Consistent;
    forall i | 1 <= i <= Order(p) ensures Apply(StreamMatrix(p), i, x, Order(p)) == StreamRhs(p)(i) {
      var lc, jq := RowKinds(p, i);
      if 1 <= jq <= p.nn && i == p.nn + 1 - jq {
        TopRow(p, x, jq);
      } else if p.nn < jq <= Nstr(p) && i == Base(Nstr(p), p.ncut) + jq {
        BottomRow(p, x, jq);
      } else {
        InterfaceRow(p, x, jq, lc);
      }
      assert RowHolds(p, x, i);
    }
  }

  lemma SolutionIsField(p: Medium, x: Vec)
    requires Paired(p) && Consistent(p) && 1 <= p.nn && 1 <= p.ncut
    requires Solves(StreamMatrix(p), x, StreamRhs(p), Order(p))
    ensures RadiationField(p, x)
  {
    hide Apply, StreamMatrix, StreamRhs, Base, TopCondition, BottomCondition, ContinuousAt, Paired, Consistent;
    var n := Nstr(p);
    BaseStart(n);
    BaseNext(n, p.ncut);
    BaseMonotone(n, 1, p.ncut);
    forall jq | 1 <= jq <= p.nn ensures TopCondition(p, x, jq) { TopRow(p, x, jq); }
    forall jq | p.nn < jq <= n ensures BottomCondition(p, x, jq) { BottomRow(p, x, jq); }
    forall jq, lc | 1 <= jq <= n && 1 <= lc < p.ncut ensures ContinuousAt(p, x, jq, lc) {
      BaseMonotone(n, 1, lc);
      BaseMonotone(n, lc, p.ncut);
      InterfaceRow(p, x, jq, lc);
    }
  }

  /** What a bottom row left at zero asks for: the homogeneous part alone meets a surface without a source. */
  ghost predicate BottomUnset(p: Medium, x: Vec, jq: int) {
    Homogeneous(p, x, jq, p.ncut, p.tau(p.ncut)) ==
      if NoReflection(p) then 0.0 else Reflection(p, jq, HomogeneousBelow(p, x))
  }

  /** The conditions that the system of c_solve0 stands for, whether it sets the bottom rows or not. */
  ghost predicate FieldAsFilled(p: Medium, x: Vec) {
    && (forall jq :: 1 <= jq <= p.nn ==> TopCondition(p, x, jq))
    && (forall jq, lc :: 1 <= jq <= Nstr(p) && 1 <= lc < p.ncut ==> ContinuousAt(p, x, jq, lc))
    && (forall jq :: p.nn < jq <= Nstr(p) ==> if BottomSet(p) then BottomCondition(p, x, jq) else BottomUnset(p, x, jq))
  }

  ghost predicate FilledRowHolds(p: Medium, x: Vec, i: int)
    requires 1 <= p.nn
  {
    Apply(StreamMatrix(p), i, x, Order(p)) == FilledRhs(p)(i)
  }

  lemma UnsetRow(p: Medium, x: Vec, jq: int)
    requires Paired(p) && 1 <= p.nn && 1 <= p.ncut && p.nn < jq <= Nstr(p) && !BottomSet(p)
    ensures FilledRowHolds(p, x, Base(Nstr(p), p.ncut) + jq) <==> BottomUnset(p, x, jq)
  {
    hide Apply, StreamMatrix, Homogeneous, StreamRhs, Base, Paired, Reflection, BottomSet, NoReflection;
    BottomSum(p, x, jq);
    BaseNext(Nstr(p), p.ncut);
  }

  lemma SetRow(p: Medium, x: Vec, i: int)
    requires 1 <= p.nn && (BottomSet(p) || i <= Order(p) - p.nn)
    ensures FilledRowHolds(p, x, i) <==> RowHolds(p, x, i)
  {
    hide Apply, StreamMatrix, StreamRhs, BottomSet, Order;
  }

  /** Whether or not the bottom rows are set, the system and its conditions have the same solutions. */
  lemma FilledSystem(p: Medium, x: Vec)
    requires Paired(p) && Consistent(p) && 1 <= p.nn && 1 <= p.ncut
    ensures Solves(StreamMatrix(p), x, FilledRhs(p), Order(p)) <==> FieldAsFilled(p, x)
    ensures BottomSet(p) ==> (FieldAsFilled(p, x) <==> RadiationField(p, x))
  {
    if FieldAsFilled(p, x) { FieldSolvesFilled(p, x); }
    if Solves(StreamMatrix(p), x, FilledRhs(p), Order(p)) { FilledIsField(p, x); }
    hide *;
  }

  lemma FieldSolvesFilled(p: Medium, x: Vec)
    requires Paired(p) && Consistent(p) && 1 <= p.nn && 1 <= p.ncut && FieldAsFilled(p, x)
    ensures Solves(StreamMatrix(p), x, FilledRhs(p), Order(p))
  {
    hide Apply, StreamMatrix, StreamRhs, FilledRhs, Base, Order, TopCondition, BottomCondition, ContinuousAt, Paired,
      Consistent, BottomSet, BottomUnset, RowHolds;
    forall i | 1 <= i <= Order(p) ensures Apply(StreamMatrix(p), i, x, Order(p)) == FilledRhs(p)(i) {
      var lc, jq := FilledRow(p, x, i);
      assert FilledRowHolds(p, x, i);
    }
  }

  /** Every row of the system as filled stands for one of the conditions. */
  lemma FilledRow(p: Medium, x: Vec, i: int) returns (lc: int, jq: int)
    requires Paired(p) && Consistent(p) && 1 <= p.nn && 1 <= p.ncut && 1 <= i <= Order(p) && FieldAsFilled(p, x)
    ensures FilledRowHolds(p, x, i)
  {
    hide Apply, StreamMatrix, StreamRhs, FilledRhs, Base, TopCondition, BottomCondition, ContinuousAt, Paired,
      Consistent, BottomSet, BottomUnset, RowHolds, FilledRowHolds, Order;
    lc, jq := RowKinds(p, i);
    FilledBottomRange(p);
    if 1 <= jq <= p.nn && i == p.nn + 1 - jq {
      TopRow(p, x, jq);
      SetRow(p, x, i);
    } else if p.nn < jq <= Nstr(p) && i == Base(Nstr(p), p.ncut) + jq {
      if BottomSet(p) {
        BottomRow(p, x, jq);
        SetRow(p, x, i);
      } else {
        UnsetRow(p, x, jq);
      }
    } else {
      InterfaceRow(p, x, jq, lc);
      BaseOrder(p, lc);
      SetRow(p, x, i);
    }
  }

  lemma FilledBottomRange(p: Medium)
    requires 1 <= p.nn && 1 <= p.ncut
    ensures Order(p) == Base(Nstr(p), p.ncut) + Nstr(p) && p.nn <= Order(p) - p.nn && 0 <= Base(Nstr(p), p.ncut)
  {
    hide Base;
    BaseStart(Nstr(p));
    BaseNext(Nstr(p), p.ncut);
    BaseMonotone(Nstr(p), 1, p.ncut);
  }

  lemma BaseOrder(p: Medium, lc: int)
    requires 1 <= p.nn && 1 <= lc < p.ncut
    ensures 0 <= Base(Nstr(p), lc) && Base(Nstr(p), lc) + p.nn + Nstr(p) <= Order(p) - p.nn
  {
    hide Base;
    BaseStart(Nstr(p));
    BaseMonotone(Nstr(p), 1, lc);
    BaseMonotone(Nstr(p), lc, p.ncut);
    BaseNext(Nstr(p), p.ncut);
  }

  lemma FilledIsField(p: Medium, x: Vec)
    requires Paired(p) && Consistent(p) && 1 <= p.nn && 1 <= p.ncut
    requires Solves(StreamMatrix(p), x, FilledRhs(p), Order(p))
    ensures FieldAsFilled(p, x)
  {
    hide Apply, StreamMatrix, StreamRhs, FilledRhs, Base, Order, TopCondition, BottomCondition, ContinuousAt, Paired,
      Consistent, BottomSet, BottomUnset, RowHolds;
    var n := Nstr(p);
    FilledBottomRange(p);
    forall jq | 1 <= jq <= p.nn ensures TopCondition(p, x, jq) {
      TopRow(p, x, jq);
      SetRow(p, x, p.nn + 1 - jq);
    }
    forall jq | p.nn < jq <= n ensures if BottomSet(p) then BottomCondition(p, x, jq) else BottomUnset(p, x, jq) {
      if BottomSet(p) {
        BottomRow(p, x, jq);
        SetRow(p, x, Base(n, p.ncut) + jq);
      } else {
        UnsetRow(p, x, jq);
      }
    }
    forall jq, lc | 1 <= jq <= n && 1 <= lc < p.ncut ensures ContinuousAt(p, x, jq, lc) {
      BaseOrder(p, lc);
      InterfaceRow(p, x, jq, lc);
      SetRow(p, x, Base(n, lc) + p.nn + jq);
    }
  }

  /**
   * A truncated column whose bottom rows are not set has, in place of no upward intensity at the bottom, the
   * particular solution there; so it is a radiation field if and only if that vanishes.
   */
  lemma TruncatedBottomUnset(p: Medium, x: Vec)
    requires p.lyrcut && !BottomSet(p) && FieldAsFilled(p, x)
    ensures forall jq :: p.nn < jq <= Nstr(p) ==>
      Intensity(p, x, jq, p.ncut, p.tau(p.ncut)) == Particular(p, jq, p.ncut, p.tau(p.ncut))
    ensures RadiationField(p, x) <==>
      forall jq :: p.nn < jq <= Nstr(p) ==> Particular(p, jq, p.ncut, p.tau(p.ncut)) == 0.0
  {
    hide Homogeneous, Particular, TopCondition, ContinuousAt, BottomSet;
    forall jq | p.nn < jq <= Nstr(p)
      ensures Intensity(p, x, jq, p.ncut, p.tau(p.ncut)) == Particular(p, jq, p.ncut, p.tau(p.ncut))
      ensures BottomCondition(p, x, jq) <==> Particular(p, jq, p.ncut, p.tau(p.ncut)) == 0.0
    {
      assert BottomUnset(p, x, jq);
    }
  }
}
