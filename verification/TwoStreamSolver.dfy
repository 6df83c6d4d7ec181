/** c_twostr_solve_bc and the intensities of c_twostr_fluxes, in the arrays the code uses. */
module TwoStreamSolver {
  import opened RealArithmetic
  import opened LinearAlgebra
  import opened Elimination
  import opened Factorization
  import opened BandMatrix
  import opened DenseSolver
  import opened BandSolver
  import opened BandSolve
  import opened TwoStreamSystem
  import opened TwoStreamContinuity

  /** Rows 1 .. k of the three diagonals are in place. */
  ghost predicate DiagonalsSet(p: Column, sub: array<real>, on: array<real>, sup: array<real>, k: int)
    requires k <= sub.Length && k <= on.Length && k <= sup.Length
    reads sub, on, sup
  {
    && (forall q :: 1 <= q < k ==> sub[q] == SubAt(p, q + 1))
    && (forall q :: 0 <= q < k ==> on[q] == DiagAt(p, q + 1))
    && (forall q :: 0 <= q < k && q < 2 * p.ncut - 1 ==> sup[q] == SuperAt(p, q + 1))
  }

  /** The next row of the three diagonals. */
  method StoreRow(p: Column, irow: int, s: real, d: real, u: real, sub: array<real>, on: array<real>, sup: array<real>)
    requires 1 <= irow <= 2 * p.ncut && sub != on && on != sup && sub != sup
    requires irow <= sub.Length && irow <= on.Length && irow <= sup.Length && DiagonalsSet(p, sub, on, sup, irow - 1)
    requires s == SubAt(p, irow) && d == DiagAt(p, irow) && u == SuperAt(p, irow)
    modifies sub, on, sup
    ensures DiagonalsSet(p, sub, on, sup, irow)
  {
    hide SubAt, DiagAt, SuperAt;
    sub[irow - 1] := s;
    on[irow - 1] := d;
    sup[irow - 1] := u;
  }

  lemma UpperRowValues(p: Column, lc: int)
    requires 1 <= lc < p.ncut
    ensures SubAt(p, 2 * lc) == 1.0 - p.rr(lc) * p.rr(lc + 1)
    ensures DiagAt(p, 2 * lc) == (p.rr(lc) - p.rr(lc + 1)) * Trans(p, lc)
    ensures SuperAt(p, 2 * lc) == -(1.0 - p.rr(lc + 1) * p.rr(lc + 1)) * Trans(p, lc + 1)
  {
  }

  lemma LowerRowValues(p: Column, lc: int)
    requires 1 <= lc < p.ncut
    ensures SubAt(p, 2 * lc + 1) == (1.0 - p.rr(lc) * p.rr(lc)) * Trans(p, lc)
    ensures DiagAt(p, 2 * lc + 1) == (p.rr(lc) - p.rr(lc + 1)) * Trans(p, lc + 1)
    ensures SuperAt(p, 2 * lc + 1) == -(1.0 - p.rr(lc + 1) * p.rr(lc))
  {
    hide Trans;
    assert (2 * lc + 1) / 2 == lc && (2 * lc + 1) % 2 == 1;
  }

  lemma BottomRowValues(p: Column)
    requires 1 <= p.ncut
    ensures SubAt(p, 2 * p.ncut) == if p.lyrcut then 1.0 else 1.0 - 2.0 * p.albedo * p.cmu * p.rr(p.ncut)
    ensures DiagAt(p, 2 * p.ncut)
      == (if p.lyrcut then p.rr(p.ncut) else p.rr(p.ncut) - 2.0 * p.albedo * p.cmu) * Trans(p, p.ncut)
  {
  }

  /** The diagonals of the system, in row order. */
  method FillDiagonals(p: Column, sub: array<real>, on: array<real>, sup: array<real>)
    requires 1 <= p.ncut && sub != on && on != sup && sub != sup
    requires 2 * p.ncut <= sub.Length && 2 * p.ncut <= on.Length && 2 * p.ncut <= sup.Length
    modifies sub, on, sup
    ensures DiagonalsSet(p, sub, on, sup, 2 * p.ncut)
  {
    var irow := 1;
    on[0] := p.rr(1) * Decay(p, 1, 0.0, p.tau(1));
    sup[0] := 1.0;
    FillInterfaceRows(p, sub, on, sup);
    irow := 2 * p.ncut;
    FillBottomRow(p, irow, sub, on, sup);
  }

  method FillInterfaceRows(p: Column, sub: array<real>, on: array<real>, sup: array<real>)
    requires 1 <= p.ncut && sub != on && on != sup && sub != sup
    requires 2 * p.ncut <= sub.Length && 2 * p.ncut <= on.Length && 2 * p.ncut <= sup.Length
    requires DiagonalsSet(p, sub, on, sup, 1)
    modifies sub, on, sup
    ensures DiagonalsSet(p, sub, on, sup, 2 * p.ncut - 1)
  {
    hide Trans, SubAt, DiagAt, SuperAt, DiagonalsSet;
    var irow, nloop := 1, p.ncut - 1;
    for lc := 1 to nloop + 1
      invariant irow == 2 * lc - 1 && DiagonalsSet(p, sub, on, sup, irow)
    {
      UpperRowValues(p, lc);
      LowerRowValues(p, lc);
      var wk0, wk1 := Trans(p, lc), Trans(p, lc + 1);
      irow := irow + 1;
      StoreRow(p, irow, 1.0 - p.rr(lc) * p.rr(lc + 1), (p.rr(lc) - p.rr(lc + 1)) * wk0,
               -(1.0 - p.rr(lc + 1) * p.rr(lc + 1)) * wk1, sub, on, sup);
      irow := irow + 1;
      StoreRow(p, irow, (1.0 - p.rr(lc) * p.rr(lc)) * wk0, (p.rr(lc) - p.rr(lc + 1)) * wk1,
               -(1.0 - p.rr(lc + 1) * p.rr(lc)), sub, on, sup);
    }
  }

  method FillBottomRow(p: Column, irow: int, sub: array<real>, on: array<real>, sup: array<real>)
    requires 1 <= p.ncut && irow == 2 * p.ncut && sub != on && on != sup && sub != sup
    requires irow <= sub.Length && irow <= on.Length && irow <= sup.Length && DiagonalsSet(p, sub, on, sup, irow - 1)
    modifies sub, on
    ensures DiagonalsSet(p, sub, on, sup, irow)
  {
    hide Trans, SubAt, DiagAt, SuperAt;
    BottomRowValues(p);
    var wk := Trans(p, p.ncut);
    if p.lyrcut {
      sub[irow - 1] := 1.0;
      on[irow - 1] := p.rr(p.ncut) * wk;
    } else {
      sub[irow - 1] := 1.0 - 2.0 * p.albedo * p.cmu * p.rr(p.ncut);
      on[irow - 1] := (p.rr(p.ncut) - 2.0 * p.albedo * p.cmu) * wk;
    }
  }

  /** The right-hand side, in row order. */
  method FillRightHandSide(p: Column, b: array2<real>)
    requires 1 <= p.ncut && 2 * p.ncut <= b.Length0 && 1 <= b.Length1
    modifies b
    ensures VectorHolds(b, Rhs(p), 2 * p.ncut)
  {
    hide SourceDown, SourceUp, SurfaceSource;
    var irow := 1;
    b[0, 0] := -p.yb0d(1) - p.yp0d(1) + p.fisot + p.tplanck;
    for lc := 1 to p.ncut
      invariant irow == 2 * lc - 1 && VectorHolds(b, Rhs(p), irow)
    {
      FillJump(p, lc, irow, b);
      irow := irow + 2;
    }
    var n, t := p.ncut, p.tau(p.ncut);
    if p.lyrcut {
      b[irow, 0] := -SourceUp(p, n, t);
    } else {
      var sum := p.cmu * p.albedo * SourceDown(p, n, t);
      b[irow, 0] := 2.0 * sum + SurfaceSource(p) - SourceUp(p, n, t);
    }
  }

  method FillJump(p: Column, lc: int, irow: int, b: array2<real>)
    requires 1 <= lc < p.ncut && irow == 2 * lc - 1 && irow + 2 <= b.Length0 && 1 <= b.Length1
    requires VectorHolds(b, Rhs(p), irow)
    modifies b
    ensures VectorHolds(b, Rhs(p), irow + 2)
  {
    hide SourceDown, SourceUp;
    var t := p.tau(lc);
    var rpp1M, rpM := SourceDown(p, lc + 1, t), SourceDown(p, lc, t);
    var rpp1P, rpP := SourceUp(p, lc + 1, t), SourceUp(p, lc, t);
    b[irow, 0] := rpp1P - rpP - p.rr(lc + 1) * (rpp1M - rpM);
    b[irow + 1, 0] := rpp1M - rpM - p.rr(lc) * (rpp1P - rpP);
    assert RhsAt(p, irow + 1) == b[irow, 0] && RhsAt(p, irow + 2) == b[irow + 1, 0];
  }

  /** The three diagonals in band form: superdiagonal, diagonal and subdiagonal in rows 2, 3 and 4. */
  method PackBand(p: Column, sub: array<real>, on: array<real>, sup: array<real>, cband: array2<real>)
    requires 1 <= p.ncut && BandShape(cband, 2 * p.ncut, 1, 1)
    requires 2 * p.ncut <= sub.Length && 2 * p.ncut <= on.Length && 2 * p.ncut <= sup.Length
    requires DiagonalsSet(p, sub, on, sup, 2 * p.ncut)
    modifies cband
    ensures BandHolds(cband, TriMatrix(p), 2 * p.ncut, 1, 1, 0)
  {
    hide SubAt, DiagAt, SuperAt;
    var nrow := 2 * p.ncut;
    for irow := 0 to nrow
      invariant forall c :: 0 <= c < irow ==> cband[2, c] == on[c]
    {
      cband[0, irow] := 0.0;
      cband[2, irow] := on[irow];
    }
    for irow := 1 to nrow
      invariant forall c :: 0 <= c < nrow ==> cband[2, c] == on[c]
      invariant forall c :: 1 <= c < irow ==> cband[1, c] == SuperAt(p, c)
    {
      cband[1, irow] := sup[irow - 1];
    }
    for irow := 1 to nrow
      invariant forall c :: 0 <= c < nrow ==> cband[2, c] == on[c]
      invariant forall c :: 1 <= c < nrow ==> cband[1, c] == SuperAt(p, c)
      invariant forall c :: 0 <= c < irow - 1 ==> cband[3, c] == SubAt(p, c + 2)
    {
      cband[3, irow - 1] := sub[irow];
    }
  }

  lemma TriMatrixIsBand(p: Column)
    ensures IsBand(TriMatrix(p), 2 * p.ncut, 1, 1)
  {
  }

  /**
   * c_twostr_solve_bc: with a nonsingular system, the constants of integration stored in ll make both
   * intensities continuous at every interface and satisfy the boundary equations at the top and the bottom.
   */
  method SolveBoundaryConditions(p: Column, cband: array2<real>, ipvt: array<int>, b: array2<real>, ll: array2<real>,
                                 sub: array<real>, on: array<real>, sup: array<real>) returns (ghost x: Vec)
    requires WellPosed(p) && Nonsingular(TriMatrix(p), 2 * p.ncut)
    requires 4 <= cband.Length0 && 2 * p.ncut <= cband.Length1 && 2 * p.ncut <= ipvt.Length
    requires 2 * p.ncut <= b.Length0 && 1 <= b.Length1 && 2 <= ll.Length0 && p.ncut <= ll.Length1
    requires 2 * p.ncut <= sub.Length && 2 * p.ncut <= on.Length && 2 * p.ncut <= sup.Length
    requires sub != on && on != sup && sub != sup && cband != b && cband != ll && b != ll
    modifies cband, ipvt, b, ll, sub, on, sup
    ensures forall lc :: 0 <= lc < p.ncut ==> ll[0, lc] == x(2 * lc + 1) && ll[1, lc] == x(2 * lc + 2)
    ensures RadiationField(p, x)
  {
    hide TriMatrix, DiagonalsSet, BandHolds, VectorHolds, RadiationField, Nonsingular, Separable, Solves, Factors,
        PivotAt, IsBand;
    FillDiagonals(p, sub, on, sup);
    FillRightHandSide(p, b);
    PackBand(p, sub, on, sup, cband);
    x := SolvePacked(p, cband, ipvt, b);
    Unpack(p, b, ll, x);
    SystemIsRadiationField(p, x);
  }

  method SolvePacked(p: Column, cband: array2<real>, ipvt: array<int>, b: array2<real>) returns (ghost x: Vec)
    requires 1 <= p.ncut && Nonsingular(TriMatrix(p), 2 * p.ncut)
    requires BandShape(cband, 2 * p.ncut, 1, 1) && BandHolds(cband, TriMatrix(p), 2 * p.ncut, 1, 1, 0)
    requires 2 * p.ncut <= ipvt.Length && cband != b && VectorHolds(b, Rhs(p), 2 * p.ncut)
    modifies cband, ipvt, b
    ensures VectorHolds(b, x, 2 * p.ncut) && Solves(TriMatrix(p), x, Rhs(p), 2 * p.ncut)
  {
    hide TriMatrix, BandHolds, VectorHolds, Nonsingular, Solves, Stage, PivotAt, IsBand;
    TriMatrixIsBand(p);
    NonsingularStarts(TriMatrix(p), 2 * p.ncut, 1);
    var info := Sgbfa(cband, 2 * p.ncut, 1, 1, ipvt, TriMatrix(p));
    x := Sgbsl(cband, 2 * p.ncut, 1, 1, ipvt, b, 0, TriMatrix(p), Rhs(p));
  }

  /** The solution, two constants per layer. */
  method Unpack(p: Column, b: array2<real>, ll: array2<real>, ghost x: Vec)
    requires 1 <= p.ncut && b != ll && VectorHolds(b, x, 2 * p.ncut) && 2 <= ll.Length0 && p.ncut <= ll.Length1
    modifies ll
    ensures forall lc :: 0 <= lc < p.ncut ==> ll[0, lc] == x(2 * lc + 1) && ll[1, lc] == x(2 * lc + 2)
  {
    var irow := 0;
    for lc := 0 to p.ncut
      invariant irow == 2 * lc
      invariant forall l :: 0 <= l < lc ==> ll[0, l] == x(2 * l + 1) && ll[1, l] == x(2 * l + 2)
    {
      ll[0, lc] := b[irow, 0];
      ll[1, lc] := b[irow + 1, 0];
      assert ll[0, lc] == x(2 * lc + 1) && ll[1, lc] == x(2 * lc + 2);
      irow := irow + 2;
    }
  }

  /** c_twostr_solns leaves the coefficients of a source at their initial zeros when the source is switched off. */
  ghost predicate SourcesMatchFlags(p: Column) {
    && (!p.planck ==> forall lc, t :: ThermalDown(p, lc, t) == 0.0)
    && (!p.planck ==> forall lc, t :: ThermalUp(p, lc, t) == 0.0)
    && (p.fbeam <= 0.0 ==> forall lc, t :: BeamDown(p, lc, t) == 0.0)
    && (p.fbeam <= 0.0 ==> forall lc, t :: BeamUp(p, lc, t) == 0.0)
  }

  /** Radiation reaches level lu. */
  predicate Lit(p: Column, lyu: int) { !(p.lyrcut && lyu > p.ncut) }

  /**
   * The intensities part of c_twostr_fluxes: into zeroed u0c, first the thermal source of every level, then the
   * beam source and the homogeneous solution of the levels that radiation reaches.
   */
  method Intensities(p: Column, ntau: int, layru: array<int>, utaupr: array<real>, ll: array2<real>,
      u0c: array2<real>, ghost x: Vec)
    requires SourcesMatchFlags(p) && 0 <= ntau <= layru.Length && ntau <= utaupr.Length
    requires 2 <= u0c.Length0 && ntau <= u0c.Length1 && u0c != ll
    requires 2 <= ll.Length0 && forall lc :: 0 <= lc < ll.Length1 ==>
      ll[0, lc] == x(2 * lc + 1) && ll[1, lc] == x(2 * lc + 2)
    requires forall lu :: 0 <= lu < ntau ==> 1 <= layru[lu] <= ll.Length1 && u0c[0, lu] == 0.0 && u0c[1, lu] == 0.0
    modifies u0c
    ensures forall lu :: 0 <= lu < ntau && Lit(p, layru[lu]) ==>
      u0c[0, lu] == Down(p, x, layru[lu], utaupr[lu]) && u0c[1, lu] == Up(p, x, layru[lu], utaupr[lu])
  {
    hide ThermalDown, ThermalUp, BeamDown, BeamUp, Down, Up, Lit;
    if p.planck {
      AddThermal(p, ntau, layru, utaupr, u0c);
    }
    for lu := 0 to ntau
      invariant forall l :: lu <= l < ntau ==>
        u0c[0, l] == ThermalDown(p, layru[l], utaupr[l]) && u0c[1, l] == ThermalUp(p, layru[l], utaupr[l])
      invariant forall l :: 0 <= l < lu && Lit(p, layru[l]) ==>
        u0c[0, l] == Down(p, x, layru[l], utaupr[l]) && u0c[1, l] == Up(p, x, layru[l], utaupr[l])
    {
      AddLevel(p, lu, layru[lu], utaupr[lu], ll, u0c, x);
    }
  }

  method AddLevel(p: Column, lu: int, lyu: int, t: real, ll: array2<real>, u0c: array2<real>, ghost x: Vec)
    requires SourcesMatchFlags(p) && 2 <= ll.Length0 && 1 <= lyu <= ll.Length1 && u0c != ll
    requires ll[0, lyu - 1] == x(2 * lyu - 1) && ll[1, lyu - 1] == x(2 * lyu)
    requires 2 <= u0c.Length0 && 0 <= lu < u0c.Length1
    requires u0c[0, lu] == ThermalDown(p, lyu, t) && u0c[1, lu] == ThermalUp(p, lyu, t)
    modifies u0c
    ensures Lit(p, lyu) ==> u0c[0, lu] == Down(p, x, lyu, t) && u0c[1, lu] == Up(p, x, lyu, t)
    ensures forall i, l :: 0 <= i < u0c.Length0 && 0 <= l < u0c.Length1 && l != lu ==> u0c[i, l] == old(u0c[i, l])
  {
    hide SourcesMatchFlags, BeamDown, BeamUp, ThermalDown, ThermalUp, HomogeneousDown, HomogeneousUp;
    if !(p.lyrcut && lyu > p.ncut) {
      var d, u := LevelIntensities(p, lyu, t, ll, x);
      u0c[0, lu] := u0c[0, lu] + d;
      u0c[1, lu] := u0c[1, lu] + u;
    }
  }

  method AddThermal(p: Column, ntau: int, layru: array<int>, utaupr: array<real>, u0c: array2<real>)
    requires 0 <= ntau <= layru.Length && ntau <= utaupr.Length && 2 <= u0c.Length0 && ntau <= u0c.Length1
    requires forall lu :: 0 <= lu < ntau ==> u0c[0, lu] == 0.0 && u0c[1, lu] == 0.0
    modifies u0c
    ensures forall lu :: 0 <= lu < ntau ==>
      u0c[0, lu] == ThermalDown(p, layru[lu], utaupr[lu]) && u0c[1, lu] == ThermalUp(p, layru[lu], utaupr[lu])
  {
    hide ThermalDown, ThermalUp;
    for lu := 0 to ntau
      invariant forall l :: lu <= l < ntau ==> u0c[0, l] == 0.0 && u0c[1, l] == 0.0
      invariant forall l :: 0 <= l < lu ==>
        u0c[0, l] == ThermalDown(p, layru[l], utaupr[l]) && u0c[1, l] == ThermalUp(p, layru[l], utaupr[l])
    {
      u0c[0, lu] := u0c[0, lu] + ThermalDown(p, layru[lu], utaupr[lu]);
      u0c[1, lu] := u0c[1, lu] + ThermalUp(p, layru[lu], utaupr[lu]);
    }
  }

  /** Beam source and homogeneous solution at depth t of layer lyu. */
  method LevelIntensities(p: Column, lyu: int, t: real, ll: array2<real>, ghost x: Vec) returns (d: real, u: real)
    requires SourcesMatchFlags(p) && 2 <= ll.Length0 && 1 <= lyu <= ll.Length1
    requires ll[0, lyu - 1] == x(2 * lyu - 1) && ll[1, lyu - 1] == x(2 * lyu)
    ensures d == BeamDown(p, lyu, t) + HomogeneousDown(p, x, lyu, t)
    ensures u == BeamUp(p, lyu, t) + HomogeneousUp(p, x, lyu, t)
  {
    hide BeamDown, BeamUp, ThermalDown, ThermalUp, Decay;
    d, u := 0.0, 0.0;
    if p.fbeam > 0.0 {
      d, u := BeamDown(p, lyu, t), BeamUp(p, lyu, t);
    }
    var fact1 := ll[0, lyu - 1] * Decay(p, lyu, t, p.tau(lyu));
    var fact2 := ll[1, lyu - 1] * Decay(p, lyu, p.tau(lyu - 1), t);
    d := d + fact2 + p.rr(lyu) * fact1;
    u := u + fact1 + p.rr(lyu) * fact2;
  }
}
