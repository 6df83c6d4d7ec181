/**
 * When the two-stream system is singular: exactly when the surface gives back all that the column reflects down to it.
 */
module TwoStreamSolvable {
  import opened RealArithmetic
  import opened LinearAlgebra
  import opened TwoStreamSystem
  import opened TwoStreamContinuity
  import opened SlabReflection

  /** What the surface sends up for one unit that comes down. */
  function SurfaceFactor(p: Column): real { 2.0 * p.albedo * p.cmu }

  lemma PhysicalIsWellPosed(p: Column)
    requires PhysicalLayers(p)
    ensures WellPosed(p)
  {
    forall lc | 1 <= lc < p.ncut ensures Separable(p, lc) {
      assert PhysicalLayer(p, lc) && PhysicalLayer(p, lc + 1);
      StrictProduct(p.rr(lc), p.rr(lc + 1));
    }
  }

  lemma StrictProduct(r: real, r': real)
    requires 0.0 <= r < 1.0 && 0.0 <= r' < 1.0
    ensures NotInverse(r, r')
  {
    ProductAtMostOne(r, r');
  }

  /** The same column without beam, thermal emission or illumination. */
  ghost function Dark(p: Column): Column {
    var zero: Vec := _ => 0.0;
    p.(yb0d := zero, yb1d := zero, yb0u := zero, yb1u := zero, yp0d := zero, yp1d := zero, yp0u := zero, yp1u := zero,
       fisot := 0.0, tplanck := 0.0, bplanck := 0.0, fbeam := 0.0)
  }

  ghost predicate Sourceless(p: Column) {
    && (forall lc, t :: SourceDown(p, lc, t) == 0.0)
    && (forall lc, t :: SourceUp(p, lc, t) == 0.0)
    && p.yb0d(1) == 0.0 && p.yp0d(1) == 0.0 && p.fisot + p.tplanck == 0.0 && SurfaceSource(p) == 0.0
  }

  lemma DarkIsSourceless(p: Column)
    ensures Sourceless(Dark(p))
  {
    var d := Dark(p);
    forall lc, t ensures SourceDown(d, lc, t) == 0.0 && SourceUp(d, lc, t) == 0.0 {
      NothingTimes(d.exp(-d.zba(lc) * t), 0.0, 0.0, t);
      NothingTimes(d.exp(-d.zpa(lc) * t), 0.0, 0.0, t);
    }
  }

  lemma NothingTimes(e: real, y0: real, y1: real, t: real)
    requires y0 == 0.0 && y1 == 0.0
    ensures e * (y0 + y1 * t) == 0.0
  {
  }

  /** Without sources and illumination, all that comes down to a depth is what the layers above it reflect. */
  lemma {:induction false} ReflectedFromAbove(p: Column, x: Vec, lc: int)
    requires PhysicalLayers(p) && Sourceless(p) && RadiationField(p, x) && 1 <= lc <= p.ncut
    ensures DarkAbove(p, x, lc)
    decreases lc
  {
    hide Trans, HomogeneousDown, HomogeneousUp, SourceDown, SourceUp, PhysicalLayers, Through;
    if lc > 1 {
      ReflectedFromAbove(p, x, lc - 1);
      LayerRelation(p, x, lc - 1);
      assert ContinuousAt(p, x, lc - 1);
    }
  }

  /** A layer that sends nothing down and receives nothing from below is dark. */
  lemma DarkLayer(p: Column, x: Vec, lc: int)
    requires PhysicalLayers(p) && 1 <= lc <= p.ncut && DarkAbove(p, x, lc)
    requires HomogeneousUp(p, x, lc, p.tau(lc)) == 0.0
    ensures x(2 * lc - 1) == 0.0 && x(2 * lc) == 0.0 && HomogeneousUp(p, x, lc, p.tau(lc - 1)) == 0.0
  {
    hide Trans, HomogeneousDown, HomogeneousUp, Reflects, PhysicalLayers;
    LayerRelation(p, x, lc);
    assert p.exp(0.0) == 1.0 by { ExpAtZero(p); }
    LayerTop(p, x, lc);
    Nothing(p.rr(lc), Trans(p, lc), x(2 * lc - 1), x(2 * lc));
  }

  lemma ExpAtZero(p: Column)
    requires PhysicalLayers(p)
    ensures p.exp(0.0) == 1.0
  {
  }

  lemma Nothing(r: real, w: real, a: real, b: real)
    requires a == 0.0 && b == 0.0
    ensures w * a + r * b == 0.0
  {
  }

  /** If nothing comes up from the surface, every layer is dark in turn, from the bottom up. */
  lemma {:induction false} AllDark(p: Column, x: Vec, lc: int)
    requires PhysicalLayers(p) && Sourceless(p) && RadiationField(p, x) && 1 <= lc <= p.ncut
    requires HomogeneousUp(p, x, p.ncut, p.tau(p.ncut)) == 0.0
    ensures x(2 * lc - 1) == 0.0 && x(2 * lc) == 0.0 && HomogeneousUp(p, x, lc, p.tau(lc - 1)) == 0.0
    decreases p.ncut - lc
  {
    hide HomogeneousDown, HomogeneousUp, SourceDown, SourceUp, Trans, PhysicalLayers, Reflects;
    ReflectedFromAbove(p, x, lc);
    if lc < p.ncut {
      AllDark(p, x, lc + 1);
      assert ContinuousAt(p, x, lc);
    }
    DarkLayer(p, x, lc);
  }

  /** The surface returns the factor s of what comes down, the column the factor rho of what comes up. */
  lemma NothingComesUp(up: real, down: real, s: real, rho: real)
    requires Reflects(rho, down, up) && Reflects(s, up, down) && NotInverse(s, rho)
    ensures up == 0.0
  {
    SameProduct(s, s, down, rho * up);
    assert s * (rho * up) == (s * rho) * up;
    ZeroFactor(1.0 - s * rho, up);
  }

  lemma Balance(up: real, down: real, s: real, rho: real)
    requires Reflects(rho, down, up) && !NotInverse(s, rho)
    ensures Reflects(s, up, down)
  {
    SameProduct(s, s, down, rho * up);
    assert s * (rho * up) == (s * rho) * up;
  }

  /** The lower boundary without sources. */
  predicate DarkBottom(p: Column, x: Vec) {
    var up, down := HomogeneousUp(p, x, p.ncut, p.tau(p.ncut)), HomogeneousDown(p, x, p.ncut, p.tau(p.ncut));
    if p.lyrcut then up == 0.0 else Reflects(SurfaceFactor(p), up, down)
  }

  lemma DarkSurface(p: Column, x: Vec)
    requires Sourceless(p)
    ensures BottomCondition(p, x) <==> DarkBottom(p, x)
  {
    hide HomogeneousDown, HomogeneousUp, SourceDown, SourceUp;
  }

  /** The surface does not exactly make up for what the column lets out. */
  predicate Unbalanced(p: Column) { p.lyrcut || NotInverse(SurfaceFactor(p), SlabReflectance(p, p.ncut)) }

  lemma UnbalancedIsDark(p: Column, x: Vec)
    requires PhysicalLayers(p) && Sourceless(p) && RadiationField(p, x) && Unbalanced(p)
    ensures IsZero(x, 2 * p.ncut)
  {
    hide HomogeneousDown, HomogeneousUp, SourceDown, SourceUp, Trans, SurfaceFactor, PhysicalLayers, Reflects,
      NotInverse,
      SlabReflectance, Sourceless;
    assert 1 <= p.ncut by { LayersExist(p); }
    var n := p.ncut;
    ReflectedFromAbove(p, x, n);
    LayerRelation(p, x, n);
    DarkSurface(p, x);
    var up, down := HomogeneousUp(p, x, n, p.tau(n)), HomogeneousDown(p, x, n, p.tau(n));
    if !p.lyrcut { NothingComesUp(up, down, SurfaceFactor(p), SlabReflectance(p, n)); }
    forall j | 1 <= j <= 2 * n ensures x(j) == 0.0 { AllDark(p, x, (j + 1) / 2); }
  }

  lemma LayersExist(p: Column)
    requires PhysicalLayers(p)
    ensures 1 <= p.ncut
  {
  }

  /** Upward constants of light that goes round between surface and column, from one unit in the lowest layer. */
  ghost function Circulating(p: Column, lc: int): real
    decreases p.ncut - lc
  {
    if lc >= p.ncut then 1.0 else UpConstant(p, lc, Leaving(p, lc + 1, Circulating(p, lc + 1)))
  }

  /** What leaves layer lc at its top, for upward constant a. */
  function Leaving(p: Column, lc: int, a: real): real { Trans(p, lc) * a + p.rr(lc) * DownConstant(p, lc, a) }

  ghost function CirculatingLight(p: Column): Vec {
    j => if j % 2 == 1 then Circulating(p, (j + 1) / 2) else DownConstant(p, j / 2, Circulating(p, j / 2))
  }

  lemma CirculatingInLayer(p: Column, lc: int)
    requires PhysicalLayers(p) && 1 <= lc <= p.ncut
    ensures var x := CirculatingLight(p);
      && DarkAbove(p, x, lc) && DarkThrough(p, x, lc)
      && HomogeneousUp(p, x, lc, p.tau(lc)) == UpAtBottom(p, lc, Circulating(p, lc))
      && HomogeneousUp(p, x, lc, p.tau(lc - 1)) == Leaving(p, lc, Circulating(p, lc))
  {
    hide Trans, HomogeneousDown, HomogeneousUp, DarkAbove, DarkThrough, PhysicalLayers, Circulating, UpAtBottom,
      DownConstant, Leaving;
    var x := CirculatingLight(p);
    assert x(2 * lc - 1) == Circulating(p, lc) && x(2 * lc) == DownConstant(p, lc, Circulating(p, lc));
    LayerRelation(p, x, lc);
    LeavingTop(p, x, lc, Circulating(p, lc));
  }

  lemma LeavingTop(p: Column, x: Vec, lc: int, a: real)
    requires PhysicalLayers(p) && x(2 * lc - 1) == a && x(2 * lc) == DownConstant(p, lc, a)
    ensures HomogeneousUp(p, x, lc, p.tau(lc - 1)) == Leaving(p, lc, a)
  {
    hide Trans, HomogeneousUp, HomogeneousDown, PhysicalLayers, DownConstant;
    ExpAtZero(p);
    LayerTop(p, x, lc);
    SameProduct(Trans(p, lc), Trans(p, lc), x(2 * lc - 1), a);
    SameProduct(p.rr(lc), p.rr(lc), x(2 * lc), DownConstant(p, lc, a));
  }

  lemma CirculatingContinuous(p: Column, lc: int)
    requires PhysicalLayers(p) && Sourceless(p) && 1 <= lc < p.ncut
    ensures ContinuousAt(p, CirculatingLight(p), lc)
  {
    hide Trans, HomogeneousDown, HomogeneousUp, SourceDown, SourceUp, PhysicalLayers, UpAtBottom, CirculatingLight,
      Leaving, UpConstant, SlabReflectance, Reflects;
    var x, t := CirculatingLight(p), p.tau(lc);
    CirculatingInLayer(p, lc);
    CirculatingInLayer(p, lc + 1);
    UpConstantGives(p, lc, Leaving(p, lc + 1, Circulating(p, lc + 1)));
    assert HomogeneousUp(p, x, lc, t) == HomogeneousUp(p, x, lc + 1, t);
    SameReflection(SlabReflectance(p, lc), HomogeneousUp(p, x, lc, t), HomogeneousDown(p, x, lc, t),
      HomogeneousDown(p, x, lc + 1, t));
  }

  lemma SameReflection(rho: real, up: real, down: real, down': real)
    requires Reflects(rho, down, up) && Reflects(rho, down', up)
    ensures down == down'
  {
  }

  lemma NothingAboveTop(p: Column, x: Vec)
    requires Sourceless(p) && DarkAbove(p, x, 1)
    ensures TopCondition(p, x)
  {
    hide SourceDown, HomogeneousDown, HomogeneousUp;
  }

  /** Where surface and column are in balance, the circulating light is a radiation field without sources. */
  lemma BalancedIsLit(p: Column)
    requires PhysicalLayers(p) && Sourceless(p) && !Unbalanced(p)
    ensures RadiationField(p, CirculatingLight(p)) && CirculatingLight(p)(2 * p.ncut - 1) == 1.0
  {
    hide Trans, HomogeneousDown, HomogeneousUp, PhysicalLayers, ContinuousAt, BottomCondition, TopCondition, Sourceless,
      CirculatingLight, SurfaceFactor, Reflects, NotInverse, SlabReflectance, DarkAbove, UpAtBottom, Leaving;
    assert 1 <= p.ncut by { LayersExist(p); }
    var n, x := p.ncut, CirculatingLight(p);
    CirculatingInLayer(p, 1);
    NothingAboveTop(p, x);
    CirculatingInLayer(p, n);
    DarkSurface(p, x);
    Balance(HomogeneousUp(p, x, n, p.tau(n)), HomogeneousDown(p, x, n, p.tau(n)), SurfaceFactor(p),
      SlabReflectance(p, n));
    forall lc | 1 <= lc < n ensures ContinuousAt(p, x, lc) { CirculatingContinuous(p, lc); }
    LowestConstant(p);
  }

  lemma LowestConstant(p: Column)
    ensures CirculatingLight(p)(2 * p.ncut - 1) == 1.0
  {
  }

  lemma DarkIsPhysical(p: Column)
    requires PhysicalLayers(p)
    ensures PhysicalLayers(Dark(p))
  {
    var d := Dark(p);
    assert d.kk == p.kk && d.tau == p.tau && d.rr == p.rr && d.exp == p.exp;
    forall lc | 1 <= lc <= p.ncut ensures PhysicalLayer(d, lc) {
      assert PhysicalLayer(p, lc);
      assert d.kk(lc) == p.kk(lc) && d.rr(lc) == p.rr(lc);
    }
  }

  lemma {:induction false} SameReflectance(p: Column, lc: int)
    ensures SlabReflectance(Dark(p), lc) == SlabReflectance(p, lc)
    decreases lc
  {
    hide Through;
    if lc > 0 {
      SameReflectance(p, lc - 1);
      SameDecays(p, Dark(p), lc);
    }
  }

  /** The kernel of the matrix consists of the radiation fields of the dark column. */
  lemma KernelIsDarkField(p: Column, x: Vec)
    requires PhysicalLayers(p)
    ensures InKernel(TriMatrix(p), x, 2 * p.ncut) <==> RadiationField(Dark(p), x)
  {
    hide RadiationField, TriMatrix, Apply;
    var d := Dark(p);
    DarkIsPhysical(p);
    PhysicalIsWellPosed(d);
    SystemIsRadiationField(d, x);
    forall i | 1 <= i <= 2 * p.ncut
      ensures Apply(TriMatrix(d), i, x, 2 * p.ncut) == Apply(TriMatrix(p), i, x, 2 * p.ncut) && Rhs(d)(i) == 0.0
    {
      DarkRow(p, x, i);
    }
  }

  lemma DarkRow(p: Column, x: Vec, i: int)
    requires 1 <= i <= 2 * p.ncut
    ensures Apply(TriMatrix(Dark(p)), i, x, 2 * p.ncut) == Apply(TriMatrix(p), i, x, 2 * p.ncut)
    ensures Rhs(Dark(p))(i) == 0.0
  {
    hide TriMatrix, Dot, RhsAt, Dark;
    DarkIsSourceless(p);
    DarkRhs(Dark(p), i);
    DarkEntries(p, i);
    DotCongruence(Row(TriMatrix(Dark(p)), i), x, Row(TriMatrix(p), i), x, 1, 2 * p.ncut + 1);
  }

  lemma DarkEntries(p: Column, i: int)
    requires 1 <= i <= 2 * p.ncut
    ensures forall j :: Row(TriMatrix(Dark(p)), i)(j) == Row(TriMatrix(p), i)(j)
  {
    hide SubAt, DiagAt, SuperAt;
    SameEntries(p, Dark(p), i, i / 2);
  }

  /** The coefficients of a row depend on the layers and the surface, not on the sources. */
  lemma SameEntries(p: Column, d: Column, i: int, lc: int)
    requires d.ncut == p.ncut && d.exp == p.exp && d.kk == p.kk && d.rr == p.rr && d.tau == p.tau
    requires d.albedo == p.albedo && d.cmu == p.cmu && d.lyrcut == p.lyrcut && lc == i / 2
    ensures SubAt(d, i) == SubAt(p, i) && DiagAt(d, i) == DiagAt(p, i) && SuperAt(d, i) == SuperAt(p, i)
  {
    hide Decay;
    var r, r', rn, q := p.rr(lc), p.rr(lc + 1), p.rr(p.ncut), 2.0 * p.albedo * p.cmu;
    SameDecays(p, d, lc);
    SameProduct(d.rr(1), p.rr(1), Decay(d, 1, 0.0, d.tau(1)), Decay(p, 1, 0.0, p.tau(1)));
    SameProduct(d.rr(lc), r, d.rr(lc + 1), r');
    SameProduct(d.rr(lc), r, d.rr(lc), r);
    SameProduct(d.rr(lc + 1), r', d.rr(lc + 1), r');
    SameProduct(2.0 * d.albedo * d.cmu, q, d.rr(d.ncut), rn);
    SameProduct(1.0 - d.rr(lc) * d.rr(lc), 1.0 - r * r, Trans(d, lc), Trans(p, lc));
    SameProduct(d.rr(lc) - d.rr(lc + 1), r - r', Trans(d, lc), Trans(p, lc));
    SameProduct(d.rr(lc) - d.rr(lc + 1), r - r', Trans(d, lc + 1), Trans(p, lc + 1));
    SameProduct(-(1.0 - d.rr(lc + 1) * d.rr(lc + 1)), -(1.0 - r' * r'), Trans(d, lc + 1), Trans(p, lc + 1));
    SameProduct(d.rr(d.ncut), rn, Trans(d, d.ncut), Trans(p, p.ncut));
    SameProduct(d.rr(d.ncut) - 2.0 * d.albedo * d.cmu, rn - q, Trans(d, d.ncut), Trans(p, p.ncut));
  }

  lemma SameDecays(p: Column, d: Column, lc: int)
    requires d.ncut == p.ncut && d.exp == p.exp && d.kk == p.kk && d.tau == p.tau
    ensures Decay(d, 1, 0.0, d.tau(1)) == Decay(p, 1, 0.0, p.tau(1)) && Trans(d, p.ncut) == Trans(p, p.ncut)
    ensures Trans(d, lc) == Trans(p, lc) && Trans(d, lc + 1) == Trans(p, lc + 1)
  {
    hide Attenuation;
  }

  lemma DarkRhs(d: Column, i: int)
    requires Sourceless(d)
    ensures RhsAt(d, i) == 0.0
  {
    hide SourceDown, SourceUp, SurfaceSource;
  }

  /**
   * The system of c_twostr_solve_bc is nonsingular if and only if the column is truncated at the bottom or the surface
   * factor times the reflectance of the whole column is not 1.
   */
  lemma NonsingularIffUnbalanced(p: Column)
    requires PhysicalLayers(p)
    ensures Nonsingular(TriMatrix(p), 2 * p.ncut) <==>
      p.lyrcut || NotInverse(2.0 * p.albedo * p.cmu, SlabReflectance(p, p.ncut))
  {
    hide TriMatrix, RadiationField, InKernel, PhysicalLayers, SlabReflectance, CirculatingLight, Sourceless, Dark,
      NotInverse;
    var d, n := Dark(p), 2 * p.ncut;
    DarkIsPhysical(p);
    DarkIsSourceless(p);
    SameBalance(p);
    assert SurfaceFactor(p) == 2.0 * p.albedo * p.cmu;
    if Unbalanced(d) {
      forall x: Vec | InKernel(TriMatrix(p), x, n) ensures IsZero(x, n) {
        KernelIsDarkField(p, x);
        UnbalancedIsDark(d, x);
      }
    } else {
      var x := CirculatingLight(d);
      BalancedIsLit(d);
      KernelIsDarkField(p, x);
      LayersExist(p);
      assert InKernel(TriMatrix(p), x, n) && x(n - 1) != 0.0;
    }
  }

  lemma SameBalance(p: Column)
    ensures Unbalanced(Dark(p)) <==> Unbalanced(p)
    ensures Dark(p).ncut == p.ncut
  {
    hide SlabReflectance, NotInverse;
    SameReflectance(p, p.ncut);
    SameSurface(p, Dark(p));
  }

  lemma SameSurface(p: Column, d: Column)
    requires d.albedo == p.albedo && d.cmu == p.cmu
    ensures SurfaceFactor(d) == SurfaceFactor(p)
  {
  }

  /** As long as the surface does not send up more than it receives, the system has exactly one solution. */
  lemma TwoStreamNonsingular(p: Column)
    requires PhysicalLayers(p) && (p.lyrcut || 2.0 * p.albedo * p.cmu <= 1.0)
    ensures Nonsingular(TriMatrix(p), 2 * p.ncut)
  {
    hide PhysicalLayers, SlabReflectance, TriMatrix, Nonsingular, NotInverse;
    LayersExist(p);
    SlabReflectanceRange(p, p.ncut);
    NonsingularIffUnbalanced(p);
    if !p.lyrcut { BelowBalance(2.0 * p.albedo * p.cmu, SlabReflectance(p, p.ncut)); }
  }

  lemma BelowBalance(s: real, rho: real)
    requires s <= 1.0 && 0.0 <= rho < 1.0
    ensures NotInverse(s, rho)
  {
    NonnegativeProduct(1.0 - s, rho);
  }

  /**
   * The bound on the surface is needed: with single Gaussian quadrature (cmu squared is 1/3) and an albedo
   * below 1 the surface can send up more than it receives in the two-stream sense, and then a single layer
   * can have a singular system.
   */
  lemma BrightSurfaceCanBeSingular(p: Column)
    requires p.ncut == 1 && p.tau(0) == 0.0 && p.rr(1) == 10.0 / 11.0 && Trans(p, 1) == 0.4 && !p.lyrcut
    requires 0.0 < p.cmu && p.cmu * p.cmu == 1.0 / 3.0 && p.albedo == 25.0 / (44.0 * p.cmu)
    ensures 0.0 < p.albedo < 1.0 && !Nonsingular(TriMatrix(p), 2)
  {
    BrightAlbedo(p.albedo, p.cmu);
    var x: Vec := j => if j == 1 then -11.0 / 4.0 else 1.0;
    var q := 2.0 * p.albedo * p.cmu;
    assert SubAt(p, 2) == 1.0 - q * p.rr(1);
    forall i | 1 <= i <= 2 ensures Apply(TriMatrix(p), i, x, 2) == 0.0 {
      TriRow(p, x, i);
      BrightRow(p, x, i);
    }
    assert InKernel(TriMatrix(p), x, 2);
    assert x(2) == 1.0;
  }

  lemma BrightAlbedo(albedo: real, cmu: real)
    requires 0.0 < cmu && cmu * cmu == 1.0 / 3.0 && albedo == 25.0 / (44.0 * cmu)
    ensures 2.0 * albedo * cmu == 25.0 / 22.0 && 0.0 < albedo < 1.0
  {
    assert albedo * (44.0 * cmu) == 25.0;
    PositiveOf(albedo, 44.0 * cmu, 25.0);
    assert 44.0 * cmu > 25.0;
    PositiveOf(1.0 - albedo, 44.0 * cmu, 44.0 * cmu - 25.0);
  }

  lemma BrightRow(p: Column, x: Vec, i: int)
    requires p.ncut == 1 && p.tau(0) == 0.0 && p.rr(1) == 10.0 / 11.0 && Trans(p, 1) == 0.4 && !p.lyrcut
    requires 2.0 * p.albedo * p.cmu == 25.0 / 22.0 && x(1) == -11.0 / 4.0 && x(2) == 1.0 && 1 <= i <= 2
    ensures RowSum(p, x, i) == 0.0
  {
    hide Decay;
    var q := 2.0 * p.albedo * p.cmu;
    if i == 1 {
      assert DiagAt(p, 1) == 4.0 / 11.0;
    } else {
      assert q * p.rr(1) == 125.0 / 121.0;
      assert SubAt(p, 2) == -4.0 / 121.0 && DiagAt(p, 2) == -1.0 / 11.0;
    }
  }

  lemma PositiveOf(x: real, d: real, p: real)
    requires 0.0 < d && p == x * d && 0.0 < p
    ensures 0.0 < x
  {
    if x < 0.0 { PositiveProduct(-x, d, -p); }
  }
}
