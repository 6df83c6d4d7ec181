/** Row by row, the n-stream system says that the intensities are continuous and meet the boundary conditions. */
module StreamContinuity {
  import opened LinearAlgebra
  import opened StreamSystem

  /** The constants of integration of layer lc: LL(iq, lc). */
  ghost function Constants(p: Medium, x: Vec, lc: int): Vec { iq => x(Base(Nstr(p), lc) + iq) }

  /** Component jq of eigenvector iq of layer lc, with its exponential at optical depth t. */
  function EigenFactor(p: Medium, iq: int, lc: int, t: real): real {
    Exp(p, -p.kk(iq, lc), t - (if iq <= p.nn then p.tau(lc) else p.tau(lc - 1)))
  }

  ghost function EigenRow(p: Medium, jq: int, lc: int,
      t: real): Vec { iq => p.gc(jq, iq, lc) * EigenFactor(p, iq, lc, t) }

  /** The homogeneous part of intensity component jq at depth t of layer lc. */
  ghost function Homogeneous(p: Medium, x: Vec, jq: int, lc: int, t: real): real {
    Dot(EigenRow(p, jq, lc, t), Constants(p, x, lc), 1, Nstr(p) + 1)
  }

  /** Eigenvalues come in pairs of opposite sign, layers are as thick as their boundaries say, and exp(0) is 1. */
  ghost predicate Paired(p: Medium) {
    && 1 <= p.nn && 1 <= p.ncut && p.exp(0.0) == 1.0 && p.tau(0) == 0.0
    && (forall iq, lc :: 1 <= iq <= Nstr(p) && 1 <= lc <= p.ncut ==> PairedEigenvalue(p, iq, lc))
    && (forall lc :: 1 <= lc <= p.ncut ==> p.dtau(lc) == p.tau(lc) - p.tau(lc - 1))
  }

  predicate PairedEigenvalue(p: Medium, iq: int, lc: int) { p.kk(Nstr(p) + 1 - iq, lc) == -p.kk(iq, lc) }

  lemma ExpZero(p: Medium, k: real, d: real)
    requires p.exp(0.0) == 1.0 && d == 0.0
    ensures Exp(p, k, d) == 1.0
  {
    assert k * d == 0.0;
  }

  lemma ExpOpposite(p: Medium, k: real, d: real)
    ensures Exp(p, -k, -d) == Exp(p, k, d)
  {
    assert -k * -d == k * d;
  }

  lemma FactorAtBottom(p: Medium, iq: int, lc: int)
    requires Paired(p) && 1 <= iq <= Nstr(p) && 1 <= lc <= p.ncut
    ensures EigenFactor(p, iq, lc, p.tau(lc)) == AtBottom(p, lc, iq)
  {
    hide Exp;
    if iq <= p.nn {
      ExpZero(p, -p.kk(iq, lc), p.tau(lc) - p.tau(lc));
    } else {
      assert PairedEigenvalue(p, iq, lc);
    }
  }

  lemma FactorAtTop(p: Medium, iq: int, lc: int)
    requires Paired(p) && 1 <= iq <= Nstr(p) && 1 <= lc <= p.ncut
    ensures EigenFactor(p, iq, lc, p.tau(lc - 1)) == AtTop(p, lc, iq)
    ensures lc == 1 ==> AtTopOfMedium(p, iq) == AtTop(p, 1, iq)
  {
    hide Exp;
    if iq <= p.nn {
      ExpOpposite(p, p.kk(iq, lc), p.dtau(lc));
      assert p.tau(lc - 1) - p.tau(lc) == -p.dtau(lc);
    } else {
      ExpZero(p, -p.kk(iq, lc), p.tau(lc - 1) - p.tau(lc - 1));
    }
  }

  lemma {:induction false} DotShifted(u: Vec, v: Vec, u': Vec, v': Vec, base: int, lo: int, hi: int)
    requires forall q :: lo <= q < hi ==> u'(q) == u(base + q) && v'(q) == v(base + q)
    ensures Dot(u', v', lo, hi) == Dot(u, v, base + lo, base + hi)
    decreases hi - lo
  {
    if lo < hi { DotShifted(u, v, u', v', base, lo, hi - 1); }
  }

  /** Row i of the matrix restricted to the columns of layer lc. */
  ghost function LayerRow(p: Medium, i: int, lc: int): Vec {
    iq => Stretch(p, lc, iq, i - Base(Nstr(p), lc) + p.nn - 1, true, true)
  }

  lemma MatrixEntry(p: Medium, i: int, lc: int, iq: int)
    requires 1 <= p.nn && 1 <= iq <= Nstr(p)
    ensures StreamMatrix(p)(i, Base(Nstr(p), lc) + iq) == LayerRow(p, i, lc)(iq)
  {
    hide Stretch, Base, LayerOf, StreamOf;
    ColumnParts(Nstr(p), lc, iq);
  }

  lemma LayerSum(p: Medium, x: Vec, i: int, lc: int)
    requires 1 <= p.nn
    ensures Dot(Row(StreamMatrix(p), i), x, Base(Nstr(p), lc) + 1, Base(Nstr(p), lc) + Nstr(p) + 1)
      == Dot(LayerRow(p, i, lc), Constants(p, x, lc), 1, Nstr(p) + 1)
  {
    hide Stretch, Base, StreamMatrix, Dot;
    var base := Base(Nstr(p), lc);
    forall iq | 1 <= iq < Nstr(p) + 1 ensures LayerRow(p, i, lc)(iq) == Row(StreamMatrix(p), i)(base + iq) {
      MatrixEntry(p, i, lc, iq);
    }
    DotShifted(Row(StreamMatrix(p), i), x, LayerRow(p, i, lc), Constants(p, x, lc), base, 1, Nstr(p) + 1);
  }

  /** A row whose stretches all fall outside the layers lo .. hi - 1 gets nothing from them. */
  lemma {:induction false} NoCoupling(p: Medium, x: Vec, i: int, lo: int, hi: int)
    requires 1 <= p.nn && lo <= hi
    requires forall lc :: lo <= lc < hi ==>
      i - Base(Nstr(p), lc) + p.nn - 1 < 0 || i - Base(Nstr(p), lc) + p.nn - 1 >= 2 * Nstr(p)
    ensures Dot(Row(StreamMatrix(p), i), x, Base(Nstr(p), lo) + 1, Base(Nstr(p), hi) + 1) == 0.0
    decreases hi - lo
  {
    hide StreamMatrix, Base, Stretch;
    if lo < hi {
      NoCoupling(p, x, i, lo, hi - 1);
      BaseNext(Nstr(p), hi - 1);
      BaseMonotone(Nstr(p), lo, hi - 1);
      LayerSum(p, x, i, hi - 1);
      UncoupledLayer(p, x, i, hi - 1);
      DotSplit(Row(StreamMatrix(p), i), x, Base(Nstr(p), lo) + 1, Base(Nstr(p), hi - 1) + 1, Base(Nstr(p), hi) + 1);
    }
  }

  lemma UncoupledLayer(p: Medium, x: Vec, i: int, lc: int)
    requires i - Base(Nstr(p), lc) + p.nn - 1 < 0 || i - Base(Nstr(p), lc) + p.nn - 1 >= 2 * Nstr(p)
    ensures Dot(LayerRow(p, i, lc), Constants(p, x, lc), 1, Nstr(p) + 1) == 0.0
  {
    hide Base;
    forall iq | 1 <= iq < Nstr(p) + 1 ensures LayerRow(p, i, lc)(iq) == 0.0 {}
    DotZero(LayerRow(p, i, lc), Constants(p, x, lc), 1, Nstr(p) + 1);
  }
}
