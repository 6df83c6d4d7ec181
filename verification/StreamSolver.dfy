/** c_set_matrix, c_solve0 and c_intensity_components as a whole. */
module StreamSolver {
  import opened RealArithmetic
  import opened LinearAlgebra
  import opened Elimination
  import opened Factorization
  import opened BandMatrix
  import opened DenseSolver
  import opened BandSolver
  import opened BandSolve
  import opened StreamSystem
  import opened StreamContinuity
  import opened StreamField
  import opened StreamRows
  import opened StreamMatrixFill

  lemma ColumnsOrdered(p: Medium)
    requires 1 <= p.nn && 1 <= p.ncut
    ensures 0 <= Base(Nstr(p), p.ncut) && Base(Nstr(p), p.ncut) + Nstr(p) == Order(p)
  {
    hide Base;
    BaseStart(Nstr(p));
    BaseMonotone(Nstr(p), 1, p.ncut);
    BaseNext(Nstr(p), p.ncut);
  }

  lemma LayerOrder(nstr: int, c: int, n: int)
    requires 1 <= nstr && 0 <= c
    ensures nstr <= c ==> LayerOf(nstr, c) != 1
    ensures c < Base(nstr, n) ==> LayerOf(nstr, c) < n
  {
    hide LayerOf, StreamOf, Base;
    ColumnOf(nstr, c);
    BaseStart(nstr);
    BaseNext(nstr, 1);
    if LayerOf(nstr, c) >= n { BaseMonotone(nstr, n, LayerOf(nstr, c)); }
  }

  /** The boundary flags only matter in the first and in the last layer. */
  lemma BoundariesPending(cband: array2<real>, p: Medium)
    requires Filled(cband, p, Order(p), Nstr(p), 0)
    ensures Filled(cband, p, Order(p), Nstr(p), Base(Nstr(p), p.ncut))
  {
    hide LayerOf, StreamOf, Base;
    var b := Base(Nstr(p), p.ncut);
    forall r, c | 0 <= r < Rows(p) && 0 <= c < Order(p) ensures cband[r, c] == Cell(p, r, c, Order(p), Nstr(p), b) {
      LayerOrder(Nstr(p), c, p.ncut);
    }
  }

  lemma MatrixPacked(cband: array2<real>, p: Medium)
    requires Filled(cband, p, Order(p), Nstr(p), Order(p))
    ensures BandHolds(cband, StreamMatrix(p), Order(p), Diagonals(p), Diagonals(p), 0)
  {
    hide LayerOf, StreamOf, Base;
    ColumnsOrdered(p);
    var m := 2 * Diagonals(p);
    forall r, c | 0 <= r < Rows(p) && 0 <= c < Order(p) ensures cband[r, c] == StreamMatrix(p)(r + c + 1 - m, c + 1) {
      PackedCell(p, r, c);
    }
  }

  lemma MatrixIsStretch(p: Medium, i: int, j: int, lc: int, iq: int, t: int)
    requires 1 <= p.nn && lc == LayerOf(Nstr(p), j - 1) && iq == StreamOf(Nstr(p), j - 1) && t == i - j + iq + p.nn - 1
    ensures StreamMatrix(p)(i, j) == Stretch(p, lc, iq, t, true, true)
  {
    hide LayerOf, StreamOf, Stretch;
  }

  lemma PackedCell(p: Medium, r: int, c: int)
    requires 1 <= p.nn && 0 <= c < Order(p)
    ensures Cell(p, r, c, Order(p), Nstr(p), Order(p)) == StreamMatrix(p)(r + c + 1 - 2 * Diagonals(p), c + 1)
  {
    hide LayerOf, StreamOf, Base, StreamMatrix, AtTop, AtBottom, AtTopOfMedium, BottomEigen;
    LayerOrder(Nstr(p), c, p.ncut);
    var lc, iq := LayerOf(Nstr(p), c), StreamOf(Nstr(p), c);
    MatrixIsStretch(p, r + c + 1 - 2 * Diagonals(p), c + 1, lc, iq, Offset(p, iq, r));
  }

  /** c_set_matrix on a zeroed array: exactly the packed band form, with half-bandwidth 3 nn - 1. */
  method SetMatrix(cband: array2<real>, p: Medium, wk: array<real>)
    requires 1 <= p.nn <= wk.Length && 1 <= p.ncut && Rows(p) == cband.Length0 && Order(p) <= cband.Length1
    modifies cband, wk
    ensures BandHolds(cband, StreamMatrix(p), Order(p), Diagonals(p), Diagonals(p), 0)
  {
    hide Base, Cell, Stretch, StreamMatrix, Scale, Order;
    ColumnsOrdered(p);
    ClearMatrix(cband, p);
    FillInterfaces(cband, p, wk);
    for iq := 1 to Nstr(p) + 1
      invariant Filled(cband, p, Order(p), iq - 1, 0)
      invariant forall q :: 0 <= q < p.nn ==> wk[q] == Scale(p, p.ncut, q + 1)
    {
      FillTopColumn(cband, p, iq);
    }
    BoundariesPending(cband, p);
    var nncol := Base(Nstr(p), p.ncut);
    for iq := 1 to Nstr(p) + 1
      invariant nncol == Base(Nstr(p), p.ncut) + iq - 1
      invariant Filled(cband, p, Order(p), Nstr(p), nncol)
      invariant forall q :: 0 <= q < p.nn ==> wk[q] == Scale(p, p.ncut, q + 1)
    {
      FillBottomColumn(cband, p, nncol, iq, wk);
      nncol := nncol + 1;
    }
    MatrixPacked(cband, p);
  }

  method ClearMatrix(cband: array2<real>, p: Medium)
    requires 1 <= p.nn && 1 <= p.ncut && Rows(p) == cband.Length0 && Order(p) <= cband.Length1
    modifies cband
    ensures Filled(cband, p, 0, 0, 0)
  {
    hide Order;
    forall r, c | 0 <= r < cband.Length0 && 0 <= c < cband.Length1 {
      cband[r, c] := 0.0;
    }
  }

  lemma StreamMatrixIsBand(p: Medium)
    requires 1 <= p.nn
    ensures IsBand(StreamMatrix(p), Order(p), Diagonals(p), Diagonals(p))
  {
    hide LayerOf, Base, Stretch, StreamOf, StreamMatrix;
    var m, d := StreamMatrix(p), Diagonals(p);
    forall i, j | 1 <= i <= Order(p) && 1 <= j <= Order(p) && (i > j + d || j > i + d) ensures m(i, j) == 0.0 {
      ColumnOf(Nstr(p), j - 1);
      var lc, iq := LayerOf(Nstr(p), j - 1), StreamOf(Nstr(p), j - 1);
      MatrixIsStretch(p, i, j, lc, iq, i - j + iq + p.nn - 1);
      OutsideStretch(p, lc, iq, i - j + iq + p.nn - 1);
    }
  }

  /** The surface's weighted sum over the downward streams. */
  method SurfaceSum(p: Medium, iq: int, v: Vec) returns (sum: real)
    requires 0 <= p.nn
    ensures sum == Dot(Weighted(p, p.nn + iq), v, 1, p.nn + 1)
  {
    sum := 0.0;
    for jq := 1 to p.nn + 1
      invariant sum == Dot(Weighted(p, p.nn + iq), v, 1, jq)
    {
      sum := sum + p.cwt(jq) * p.cmu(jq) * p.bdr(iq, jq) * v(jq);
    }
  }

  /** The top boundary entry of the right-hand side. */
  method TopValue(p: Medium, iq: int) returns (v: real)
    ensures v == TopRhs(p, p.nn + 1 - iq)
  {
    var jq := p.nn + 1 - iq;
    var beam := if p.spher then p.zbeam0(jq, 1) else p.zz(jq, 1);
    if p.mazim > 0 && p.fbeam > 0.0 {
      v := -beam;
    } else if p.fbeam == 0.0 {
      v := -p.plk0(jq, 1) + p.fisot + p.tplanck;
    } else {
      v := -beam - p.plk0(jq, 1) + p.fisot + p.tplanck;
    }
  }

  /** The bottom boundary entry of the right-hand side, where the code sets it. */
  method BottomValue(p: Medium, iq: int) returns (v: real)
    requires 0 <= p.nn
    ensures v == BottomRhs(p, p.nn + iq)
  {
    hide Weighted, Dot, SphericalBeam, SourceOf, SurfaceBeam, SurfaceEmission;
    var n, e, jq := p.ncut, p.expbea(p.ncut), p.nn + iq;
    var source := SourceOf(p, jq, n, n);
    if p.lyrcut || (p.mazim > 0 && p.fbeam > 0.0 && p.lamber) {
      v := -source;
    } else {
      var sum := SurfaceSum(p, iq, SourceBelow(p));
      var beam, emission := p.bdr(iq, 0) * p.umu0 * p.fbeam / PI * e, p.bem(iq) * p.bplanck;
      SurfaceParts(p, iq);
      if p.mazim > 0 && p.fbeam > 0.0 {
        v := sum + beam - source;
      } else if p.fbeam == 0.0 {
        v := 2.0 * sum + emission - source;
      } else {
        v := 2.0 * sum + beam + emission - source;
      }
    }
  }

  lemma SurfaceParts(p: Medium, iq: int)
    ensures SurfaceBeam(p, p.nn + iq) == p.bdr(iq, 0) * p.umu0 * p.fbeam / PI * p.expbea(p.ncut)
    ensures SurfaceEmission(p, p.nn + iq) == p.bem(iq) * p.bplanck
  {
  }

  /**
   * The bottom rows. Without its loop, the stream index is still one too high and the row behind the last is written.
   */
  method FillBottom(p: Medium, b: array2<real>)
    requires 1 <= p.nn && 1 <= p.ncut && Order(p) <= b.Length0 && 1 <= b.Length1
    requires LoopMissing(p) ==> Order(p) < b.Length0
    requires forall r :: 0 <= r < Order(p) ==> b[r, 0] == 0.0
    modifies b
    ensures forall r :: 0 <= r < Order(p) - p.nn ==> b[r, 0] == 0.0
    ensures forall r :: Order(p) - p.nn <= r < Order(p) ==> b[r, 0] == FilledRhs(p)(r + 1)
  {
    hide Base, StreamRhs, BottomRhs, Order, SourceOf;
    ColumnsOrdered(p);
    var ncol := Order(p);
    if p.spher && p.lyrcut && !(p.mazim > 0 && p.fbeam > 0.0) && p.fbeam != 0.0 {
      b[ncol, 0] := -SourceOf(p, p.nn + p.nn + 1, p.ncut, p.ncut);
      assert !BottomSet(p) && forall i :: ncol - p.nn < i ==> FilledRhs(p)(i) == 0.0;
      return;
    }
    for iq := 1 to p.nn + 1
      invariant forall r :: 0 <= r < ncol - p.nn ==> b[r, 0] == 0.0
      invariant forall r :: ncol - p.nn + iq - 1 <= r < ncol ==> b[r, 0] == 0.0
      invariant forall r :: ncol - p.nn <= r < ncol - p.nn + iq - 1 ==> b[r, 0] == FilledRhs(p)(r + 1)
    {
      BoundaryRows(p, iq);
      if !(p.spher && p.mazim > 0 && p.fbeam > 0.0 && !p.lyrcut && !p.lamber) {
        b[ncol - p.nn + iq - 1, 0] := BottomValue(p, iq);
      }
    }
  }

  /** The right-hand side: boundary rows first, then the interface rows in order. */
  method FillRhs(p: Medium, b: array2<real>)
    requires 1 <= p.nn && 1 <= p.ncut && Order(p) <= b.Length0 && 1 <= b.Length1
    requires LoopMissing(p) ==> Order(p) < b.Length0
    modifies b
    ensures VectorHolds(b, FilledRhs(p), Order(p))
  {
    hide Base, StreamRhs, TopRhs, BottomRhs, Order, LoopMissing, BottomSet;
    ColumnsOrdered(p);
    forall r, c | 0 <= r < b.Length0 && 0 <= c < b.Length1 {
      b[r, c] := 0.0;
    }
    FillBottom(p, b);
    for iq := 1 to p.nn + 1
      invariant forall r :: 0 <= r < iq - 1 ==> b[r, 0] == FilledRhs(p)(r + 1)
      invariant forall r :: Order(p) - p.nn <= r < Order(p) ==> b[r, 0] == FilledRhs(p)(r + 1)
    {
      BoundaryRows(p, iq);
      b[iq - 1, 0] := TopValue(p, iq);
    }
    FillInterfaceRhs(p, b);
  }

  /**
   * The right-hand side is that of the radiation field if and only if the bottom rows are set or have nothing to hold.
   */
  lemma RhsComplete(p: Medium)
    requires 1 <= p.nn && 1 <= p.ncut
    ensures (forall i :: 1 <= i <= Order(p) ==> FilledRhs(p)(i) == StreamRhs(p)(i)) <==>
      BottomSet(p) || forall jq :: p.nn < jq <= Nstr(p) ==> BottomRhs(p, jq) == 0.0
  {
    hide Base, BottomRhs, Order, TopRhs, InterfaceRhs, LayerOf, StreamOf, BottomSet;
    ColumnsOrdered(p);
    var b := Base(Nstr(p), p.ncut);
    forall jq | p.nn < jq <= Nstr(p)
      ensures StreamRhs(p)(b + jq) == BottomRhs(p, jq) && (!BottomSet(p) ==> FilledRhs(p)(b + jq) == 0.0)
    {
      BoundaryRows(p, jq - p.nn);
    }
    if forall jq :: p.nn < jq <= Nstr(p) ==> BottomRhs(p, jq) == 0.0 {
      forall i | 1 <= i <= Order(p) ensures FilledRhs(p)(i) == StreamRhs(p)(i) {
        if i > Order(p) - p.nn { assert StreamRhs(p)(i) == BottomRhs(p, i - b); }
      }
    }
  }

  lemma BoundaryRows(p: Medium, iq: int)
    requires 1 <= p.nn && 1 <= p.ncut && 1 <= iq <= p.nn
    ensures StreamRhs(p)(iq) == TopRhs(p, p.nn + 1 - iq)
    ensures StreamRhs(p)(Order(p) - p.nn + iq) == BottomRhs(p, p.nn + iq)
  {
    hide Base, Order, TopRhs, BottomRhs, LayerOf, StreamOf, InterfaceRhs;
    ColumnsOrdered(p);
  }

  lemma InterfaceRowRhs(p: Medium, lc: int, iq: int)
    requires 1 <= p.nn && 1 <= lc < p.ncut && 1 <= iq <= Nstr(p)
    ensures StreamRhs(p)(Base(Nstr(p), lc) + p.nn + iq) == InterfaceRhs(p, iq, lc)
    ensures 0 <= Base(Nstr(p), lc) && Base(Nstr(p), lc) + p.nn + iq <= Order(p) - p.nn
  {
    hide Base, TopRhs, BottomRhs, LayerOf, StreamOf, InterfaceRhs;
    BaseStart(Nstr(p));
    BaseMonotone(Nstr(p), 1, lc);
    BaseMonotone(Nstr(p), lc, p.ncut);
    BaseNext(Nstr(p), p.ncut);
    ColumnParts(Nstr(p), lc, iq);
    var i := Base(Nstr(p), lc) + p.nn + iq;
    assert i - p.nn - 1 == Base(Nstr(p), lc) + iq - 1;
    assert LayerOf(Nstr(p), i - p.nn - 1) == lc && StreamOf(Nstr(p), i - p.nn - 1) == iq;
    assert p.nn < i <= Order(p) - p.nn;
    assert StreamRhs(p)(i) == InterfaceRhs(p, StreamOf(Nstr(p), i - p.nn - 1), LayerOf(Nstr(p), i - p.nn - 1));
  }

  method FillInterfaceRhs(p: Medium, b: array2<real>)
    requires 1 <= p.nn && 1 <= p.ncut && Order(p) <= b.Length0 && 1 <= b.Length1
    requires forall r :: 0 <= r < p.nn ==> b[r, 0] == FilledRhs(p)(r + 1)
    requires forall r :: Order(p) - p.nn <= r < Order(p) ==> b[r, 0] == FilledRhs(p)(r + 1)
    modifies b
    ensures VectorHolds(b, FilledRhs(p), Order(p))
  {
    hide Base, StreamRhs, InterfaceRhs, Order, BottomSet;
    ColumnsOrdered(p);
    BaseStart(Nstr(p));
    var it := p.nn;
    for lc := 1 to p.ncut
      invariant it == Base(Nstr(p), lc) + p.nn && p.nn <= it <= Order(p) - p.nn
      invariant forall r :: 0 <= r < it ==> b[r, 0] == FilledRhs(p)(r + 1)
      invariant forall r :: Order(p) - p.nn <= r < Order(p) ==> b[r, 0] == FilledRhs(p)(r + 1)
    {
      InterfaceRowRhs(p, lc, 1);
      InterfaceRowRhs(p, lc, Nstr(p));
      it := FillOneInterface(p, b, lc, it);
      BaseNext(Nstr(p), lc);
    }
  }

  method FillOneInterface(p: Medium, b: array2<real>, lc: int, it0: int) returns (it: int)
    requires 1 <= p.nn && 1 <= lc < p.ncut && Order(p) <= b.Length0 && 1 <= b.Length1
    requires it0 == Base(Nstr(p), lc) + p.nn && p.nn <= it0 && it0 + Nstr(p) <= Order(p) - p.nn
    requires forall r :: 0 <= r < it0 ==> b[r, 0] == FilledRhs(p)(r + 1)
    requires forall r :: Order(p) - p.nn <= r < Order(p) ==> b[r, 0] == FilledRhs(p)(r + 1)
    modifies b
    ensures it == it0 + Nstr(p)
    ensures forall r :: 0 <= r < it ==> b[r, 0] == FilledRhs(p)(r + 1)
    ensures forall r :: Order(p) - p.nn <= r < Order(p) ==> b[r, 0] == FilledRhs(p)(r + 1)
  {
    hide Base, StreamRhs, InterfaceRhs, Order, BottomSet;
    it := it0;
    for iq := 1 to Nstr(p) + 1
      invariant it == it0 + iq - 1
      invariant forall r :: 0 <= r < it ==> b[r, 0] == FilledRhs(p)(r + 1)
      invariant forall r :: Order(p) - p.nn <= r < Order(p) ==> b[r, 0] == FilledRhs(p)(r + 1)
    {
      InterfaceRowRhs(p, lc, iq);
      it := it + 1;
      b[it - 1, 0] := InterfaceRhs(p, iq, lc);
    }
  }

  /** Column l of ll, counted from 0, holds the constants of layer l + 1. */
  ghost predicate LayerHolds(ll: array2<real>, p: Medium, x: Vec, l: int)
    requires Nstr(p) <= ll.Length0 && 0 <= l < ll.Length1
    reads ll
  {
    forall q :: 0 <= q < Nstr(p) ==> ll[q, l] == Constants(p, x, l + 1)(q + 1)
  }

  /** The solution in ll(iq, lc): each pass places the pair of constants around the middle of a layer. */
  method UnpackConstants(p: Medium, b: array2<real>, ll: array2<real>, ghost x: Vec)
    requires 1 <= p.nn && 1 <= p.ncut && b != ll && VectorHolds(b, x, Order(p)) && Nstr(p) <= ll.Length0
        && p.ncut <= ll.Length1
    modifies ll
    ensures forall q, l :: 0 <= q < Nstr(p) && 0 <= l < p.ncut ==> ll[q, l] == Constants(p, x, l + 1)(q + 1)
  {
    hide Base;
    for lc := 1 to p.ncut + 1
      invariant forall q, l :: 0 <= q < Nstr(p) && 0 <= l < lc - 1 ==> ll[q, l] == Constants(p, x, l + 1)(q + 1)
    {
      UnpackLayer(p, b, ll, lc, x);
    }
  }

  method UnpackLayer(p: Medium, b: array2<real>, ll: array2<real>, lc: int, ghost x: Vec)
    requires 1 <= p.nn && 1 <= lc <= p.ncut && b != ll && VectorHolds(b, x, Order(p)) && Nstr(p) <= ll.Length0
        && p.ncut <= ll.Length1
    modifies ll
    ensures LayerHolds(ll, p, x, lc - 1)
    ensures forall q, l :: 0 <= q < ll.Length0 && 0 <= l < ll.Length1 && l != lc - 1 ==> ll[q, l] == old(ll[q, l])
  {
    hide Base;
    BaseStart(Nstr(p));
    BaseMonotone(Nstr(p), 1, lc);
    BaseMonotone(Nstr(p), lc, p.ncut + 1);
    var ipnt, l := Base(Nstr(p), lc) + Nstr(p) - p.nn, lc - 1;
    for iq := 1 to p.nn + 1
      invariant forall q :: p.nn - iq < q < p.nn + iq - 1 ==> ll[q, l] == Constants(p, x, lc)(q + 1)
      invariant forall q, l :: 0 <= q < ll.Length0 && 0 <= l < ll.Length1 && l != lc - 1 ==> ll[q, l] == old(ll[q, l])
    {
      ll[p.nn - iq, l] := b[ipnt - iq, 0];
      ll[p.nn + iq - 1, l] := b[ipnt + iq - 1, 0];
    }
  }

  /**
   * c_set_matrix followed by c_solve0: with a nonsingular system, the constants stored in ll make every
   * intensity component continuous at every layer interface and meet the top boundary condition, and the bottom
   * boundary condition wherever the code sets the bottom rows.
   */
  method SolveMedium(p: Medium, cband: array2<real>, wk: array<real>, ipvt: array<int>, b: array2<real>,
      ll: array2<real>)
    returns (ghost x: Vec)
    requires 1 <= p.nn <= wk.Length && 1 <= p.ncut && Paired(p) && Consistent(p)
    requires Nonsingular(StreamMatrix(p), Order(p))
    requires Rows(p) == cband.Length0 && Order(p) <= cband.Length1 && Order(p) <= ipvt.Length
    requires Order(p) <= b.Length0 && 1 <= b.Length1 && Nstr(p) <= ll.Length0 && p.ncut <= ll.Length1
    requires cband != b && cband != ll && b != ll && (LoopMissing(p) ==> Order(p) < b.Length0)
    modifies cband, wk, ipvt, b, ll
    ensures forall q, l :: 0 <= q < Nstr(p) && 0 <= l < p.ncut ==> ll[q, l] == Constants(p, x, l + 1)(q + 1)
    ensures FieldAsFilled(p, x) && (BottomSet(p) ==> RadiationField(p, x))
  {
    hide StreamMatrix, FilledRhs, BandHolds, VectorHolds, Nonsingular, Solves, Order, Paired, Consistent,
        TopCondition, BottomCondition, ContinuousAt, Stage, LoopMissing, BottomSet;
    SetMatrix(cband, p, wk);
    FillRhs(p, b);
    x := SolveBand(p, cband, ipvt, b);
    UnpackConstants(p, b, ll, x);
    FilledSystem(p, x);
  }

  method SolveBand(p: Medium, cband: array2<real>, ipvt: array<int>, b: array2<real>) returns (ghost x: Vec)
    requires 1 <= p.nn && 1 <= p.ncut && Nonsingular(StreamMatrix(p), Order(p)) && Rows(p) == cband.Length0
    requires BandHolds(cband, StreamMatrix(p), Order(p), Diagonals(p), Diagonals(p), 0)
    requires Order(p) <= ipvt.Length && cband != b && VectorHolds(b, FilledRhs(p), Order(p))
    modifies cband, ipvt, b
    ensures VectorHolds(b, x, Order(p)) && Solves(StreamMatrix(p), x, FilledRhs(p), Order(p))
  {
    hide StreamMatrix, FilledRhs, VectorHolds, Nonsingular, Solves, Stage, PivotAt, IsBand, Order;
    ghost var a := StreamMatrix(p);
    StreamMatrixIsBand(p);
    NonsingularStarts(a, Order(p), Diagonals(p));
    var info := Sgbfa(cband, Order(p), Diagonals(p), Diagonals(p), ipvt, a);
    x := Sgbsl(cband, Order(p), Diagonals(p), Diagonals(p), ipvt, b, 0, a, FilledRhs(p));
  }

  /** Radiation reaches layer lyu. */
  predicate Lit(p: Medium, lyu: int) { !(p.lyrcut && lyu > p.ncut) }

  /** The homogeneous sum of c_intensity_components for one stream, in its two loops. */
  method HomogeneousSum(p: Medium, iq: int, lyu: int, t: real, ll: array2<real>, ghost x: Vec) returns (zint: real)
    requires 0 <= p.nn && Nstr(p) <= ll.Length0 && 1 <= lyu <= ll.Length1
    requires LayerHolds(ll, p, x, lyu - 1)
    ensures zint == Homogeneous(p, x, iq, lyu, t)
  {
    hide Exp, Base, Constants;
    ghost var u, v := EigenRow(p, iq, lyu, t), Constants(p, x, lyu);
    zint := 0.0;
    for jq := 1 to p.nn + 1
      invariant zint == Dot(u, v, 1, jq)
    {
      zint := zint + p.gc(iq, jq, lyu) * ll[jq - 1, lyu - 1] * Exp(p, -p.kk(jq, lyu), t - p.tau(lyu));
      TermOrder(p.gc(iq, jq, lyu), v(jq), Exp(p, -p.kk(jq, lyu), t - p.tau(lyu)));
    }
    for jq := p.nn + 1 to Nstr(p) + 1
      invariant zint == Dot(u, v, 1, jq)
    {
      zint := zint + p.gc(iq, jq, lyu) * ll[jq - 1, lyu - 1] * Exp(p, -p.kk(jq, lyu), t - p.tau(lyu - 1));
      TermOrder(p.gc(iq, jq, lyu), v(jq), Exp(p, -p.kk(jq, lyu), t - p.tau(lyu - 1)));
    }
  }

  lemma TermOrder(g: real, l: real, e: real)
    ensures g * l * e == g * e * l
  {
  }

  /** What c_intensity_components adds to the homogeneous part: it knows the plane-parallel beam source only. */
  function ComponentSource(p: Medium, jq: int, lc: int, t: real): real {
    (if p.fbeam > 0.0 then PlaneBeam(p, jq, lc, t) else 0.0)
    + (if p.planck && p.mazim == 0 then p.plk0(jq, lc) + p.plk1(jq, lc) * t else 0.0)
  }

  /** It leaves the intensity if and only if both geometries give the level the same beam source. */
  lemma ComponentIsIntensity(p: Medium, x: Vec, jq: int, lc: int, t: real)
    ensures Homogeneous(p, x, jq, lc, t) + ComponentSource(p, jq, lc, t) == Intensity(p, x, jq, lc, t) <==>
      (p.fbeam > 0.0 && p.spher ==> SphericalBeam(p, jq, lc, t) == PlaneBeam(p, jq, lc, t))
  {
    hide Homogeneous, SphericalBeam, PlaneBeam;
  }

  /** u is what c_intensity_components stores; in plane-parallel geometry that is the intensity. */
  ghost predicate IsComponent(p: Medium, x: Vec, jq: int, lc: int, t: real, u: real) {
    && u == Homogeneous(p, x, jq, lc, t) + ComponentSource(p, jq, lc, t)
    && (!p.spher ==> u == Intensity(p, x, jq, lc, t))
  }

  /** One intensity component of one user level. */
  method Component(p: Medium, iq: int, lyu: int, t: real, ll: array2<real>, ghost x: Vec) returns (u: real)
    requires 0 <= p.nn && Consistent(p) && Nstr(p) <= ll.Length0 && 1 <= lyu <= ll.Length1
    requires LayerHolds(ll, p, x, lyu - 1)
    ensures IsComponent(p, x, iq, lyu, t, u)
  {
    hide Homogeneous, Constants, BeamAt;
    var zint := HomogeneousSum(p, iq, lyu, t, ll, x);
    u := zint;
    if p.fbeam > 0.0 {
      u := zint + p.zz(iq, lyu) * BeamAt(p, t);
    }
    if p.planck && p.mazim == 0 {
      u := u + (p.plk0(iq, lyu) + p.plk1(iq, lyu) * t);
    }
    ComponentIsIntensity(p, x, iq, lyu, t);
  }

  /** c_intensity_components: the components of every user level that radiation reaches. */
  method IntensityComponents(p: Medium, ntau: int, layru: array<int>, utaupr: array<real>, ll: array2<real>,
      uum: array2<real>, ghost x: Vec)
    requires 0 <= p.nn && Consistent(p) && 0 <= ntau <= layru.Length && ntau <= utaupr.Length && uum != ll
    requires Nstr(p) <= ll.Length0 && Nstr(p) <= uum.Length0 && ntau <= uum.Length1
    requires forall q, l :: 0 <= q < Nstr(p) && 0 <= l < ll.Length1 ==> ll[q, l] == Constants(p, x, l + 1)(q + 1)
    requires forall lu :: 0 <= lu < ntau ==> 1 <= layru[lu] <= ll.Length1
    modifies uum
    ensures forall q, lu :: 0 <= q < Nstr(p) && 0 <= lu < ntau && Lit(p, layru[lu]) ==>
      IsComponent(p, x, q + 1, layru[lu], utaupr[lu], uum[q, lu])
  {
    hide IsComponent, Constants, Consistent, Lit;
    for lu := 0 to ntau
      invariant forall q, l :: 0 <= q < Nstr(p) && 0 <= l < lu && Lit(p, layru[l]) ==>
        IsComponent(p, x, q + 1, layru[l], utaupr[l], uum[q, l])
    {
      LevelComponents(p, lu, layru[lu], utaupr[lu], ll, uum, x);
    }
  }

  method LevelComponents(p: Medium, lu: int, lyu: int, t: real, ll: array2<real>, uum: array2<real>, ghost x: Vec)
    requires 0 <= p.nn && Consistent(p) && uum != ll && Nstr(p) <= ll.Length0 && Nstr(p) <= uum.Length0
    requires 0 <= lu < uum.Length1 && 1 <= lyu <= ll.Length1
    requires forall q, l :: 0 <= q < Nstr(p) && 0 <= l < ll.Length1 ==> ll[q, l] == Constants(p, x, l + 1)(q + 1)
    modifies uum
    ensures Lit(p, lyu) ==> forall q :: 0 <= q < Nstr(p) ==> IsComponent(p, x, q + 1, lyu, t, uum[q, lu])
    ensures forall q, l :: 0 <= q < uum.Length0 && 0 <= l < uum.Length1 && l != lu ==> uum[q, l] == old(uum[q, l])
  {
    hide IsComponent, Constants, Consistent;
    if p.lyrcut && lyu > p.ncut { return; }
    for iq := 0 to Nstr(p)
      invariant forall q :: 0 <= q < iq ==> IsComponent(p, x, q + 1, lyu, t, uum[q, lu])
      invariant forall q, l :: 0 <= q < uum.Length0 && 0 <= l < uum.Length1 && l != lu ==> uum[q, l] == old(uum[q, l])
    {
      uum[iq, lu] := Component(p, iq + 1, lyu, t, ll, x);
    }
  }

  /** One stream of U0C, the azimuthal mean, in either geometry. */
  method MeanComponent(p: Medium, iq: int, lyu: int, t: real, ll: array2<real>, ghost x: Vec) returns (u: real)
    requires 0 <= p.nn && Consistent(p) && p.mazim == 0 && Nstr(p) <= ll.Length0 && 1 <= lyu <= ll.Length1
    requires LayerHolds(ll, p, x, lyu - 1)
    ensures u == Intensity(p, x, iq, lyu, t)
  {
    hide Homogeneous, Constants, BeamAt, SphericalBeam;
    u := HomogeneousSum(p, iq, lyu, t, ll, x);
    if p.fbeam > 0.0 {
      if p.spher {
        u := u + SphericalBeam(p, iq, lyu, t);
      } else {
        u := u + p.zz(iq, lyu) * BeamAt(p, t);
      }
    }
    if !p.planck { SameProduct(p.plk1(iq, lyu), 0.0, t, t); }
    u := u + (p.plk0(iq, lyu) + p.plk1(iq, lyu) * t);
  }

  /** The intensities of c_fluxes: the azimuthal mean at every user level that radiation reaches. */
  method MeanIntensities(p: Medium, ntau: int, layru: array<int>, utaupr: array<real>, ll: array2<real>,
      u0c: array2<real>, ghost x: Vec)
    requires 0 <= p.nn && Consistent(p) && p.mazim == 0 && 0 <= ntau <= layru.Length && ntau <= utaupr.Length
    requires Nstr(p) <= ll.Length0 && Nstr(p) <= u0c.Length0 && ntau <= u0c.Length1 && u0c != ll
    requires forall q, l :: 0 <= q < Nstr(p) && 0 <= l < ll.Length1 ==> ll[q, l] == Constants(p, x, l + 1)(q + 1)
    requires forall lu :: 0 <= lu < ntau ==> 1 <= layru[lu] <= ll.Length1
    modifies u0c
    ensures forall q, lu :: 0 <= q < Nstr(p) && 0 <= lu < ntau && Lit(p, layru[lu]) ==>
      u0c[q, lu] == Intensity(p, x, q + 1, layru[lu], utaupr[lu])
  {
    hide Intensity, Constants, Consistent, Lit;
    for lu := 0 to ntau
      invariant forall q, l :: 0 <= q < Nstr(p) && 0 <= l < lu && Lit(p, layru[l]) ==>
        u0c[q, l] == Intensity(p, x, q + 1, layru[l], utaupr[l])
    {
      LevelMeans(p, lu, layru[lu], utaupr[lu], ll, u0c, x);
    }
  }

  method LevelMeans(p: Medium, lu: int, lyu: int, t: real, ll: array2<real>, u0c: array2<real>, ghost x: Vec)
    requires 0 <= p.nn && Consistent(p) && p.mazim == 0 && u0c != ll && Nstr(p) <= ll.Length0 && Nstr(p) <= u0c.Length0
    requires 0 <= lu < u0c.Length1 && 1 <= lyu <= ll.Length1
    requires forall q, l :: 0 <= q < Nstr(p) && 0 <= l < ll.Length1 ==> ll[q, l] == Constants(p, x, l + 1)(q + 1)
    modifies u0c
    ensures Lit(p, lyu) ==> forall q :: 0 <= q < Nstr(p) ==> u0c[q, lu] == Intensity(p, x, q + 1, lyu, t)
    ensures forall q, l :: 0 <= q < u0c.Length0 && 0 <= l < u0c.Length1 && l != lu ==> u0c[q, l] == old(u0c[q, l])
  {
    hide Intensity, Constants, Consistent;
    if p.lyrcut && lyu > p.ncut { return; }
    for iq := 0 to Nstr(p)
      invariant forall q :: 0 <= q < iq ==> u0c[q, lu] == Intensity(p, x, q + 1, lyu, t)
      invariant forall q, l :: 0 <= q < u0c.Length0 && 0 <= l < u0c.Length1 && l != lu ==> u0c[q, l] == old(u0c[q, l])
    {
      u0c[iq, lu] := MeanComponent(p, iq + 1, lyu, t, ll, x);
    }
  }
}
