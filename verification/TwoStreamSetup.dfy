/** The scaling part of c_twostr_set, and what it guarantees to c_twostr_solns and c_twostr_solve_bc. */
module TwoStreamSetup {
  import opened RealArithmetic
  import opened LinearAlgebra
  import opened DeltaScaling
  import opened TwoStreamEigen
  import opened TwoStreamSystem
  import opened FieldLevels
  import opened TwoStreamSolvable
  import Slab = SlabReflection

  /** The two-stream code separates the square of the asymmetry factor. */
  function ForwardPeak(deltam: bool, g: real): real { if deltam then g * g else 0.0 }

  /** GGPRIM. */
  function ScaledAsymmetry(deltam: bool, g: real): real
    requires -1.0 < g < 1.0
  {
    SquareBelowOne(g);
    RescaledMoment(ForwardPeak(deltam, g), g)
  }

  lemma SquareBelowOne(g: real)
    requires -1.0 < g < 1.0
    ensures 0.0 <= g * g < 1.0
  {
    PositiveProduct(1.0 - g, 1.0 + g, 1.0 - g * g);
    Square(g, g * g);
  }

  /** CMU is 0.5 or the root of one third; its square is at most one third. */
  predicate Quadrature(cmu: real) { 0.0 < cmu && cmu * cmu <= 1.0 / 3.0 }

  /** What the scaling makes of a layer can be represented by either quadrature, with or without delta-M. */
  lemma ScaledRepresentable(deltam: bool, o: real, g: real, cmu: real)
    requires 0.0 <= o < 1.0 && -1.0 < g < 1.0 && Quadrature(cmu)
    ensures Kept(o, ForwardPeak(deltam, g)) != 0.0
    ensures Representable(RescaledAlbedo(o, ForwardPeak(deltam, g)), ScaledAsymmetry(deltam, g), cmu)
  {
    var f := ForwardPeak(deltam, g);
    SquareBelowOne(g);
    RescaledAlbedoRange(o, f);
    var g' := ScaledAsymmetry(deltam, g);
    AsymmetryAtMostOne(f, g, g');
    BelowQuadrature(g', cmu, cmu * cmu);
  }

  lemma AsymmetryAtMostOne(f: real, g: real, g': real)
    requires f < 1.0 && g < 1.0 && g' == RescaledMoment(f, g)
    ensures g' <= 1.0
  {
    Cancel(1.0 - f, g - f);
    if g' > 1.0 { PositiveProduct(1.0 - f, g' - 1.0, (1.0 - f) * (g' - 1.0)); }
  }

  lemma BelowQuadrature(g: real, cmu: real, square: real)
    requires g <= 1.0 && square == cmu * cmu && 0.0 <= square <= 1.0 / 3.0
    ensures 3.0 * g * cmu * cmu <= 1.0
  {
    NonnegativeProduct(1.0 - g, square);
    assert 3.0 * g * cmu * cmu == 3.0 * (g * square);
  }

  /** The caller's layers: SSALB, DTAUC, GG, and TAUC from the top down. */
  datatype Inputs = Inputs(nlyr: int, ssalb: array<real>, dtauc: array<real>, gg: array<real>, tauc: array<real>)

  /** The scaled layers: OPRIM, GGPRIM, DTAUCPR, TAUCPR and FLYR. */
  datatype Outputs = Outputs(oprim: array<real>, ggprim: array<real>, dtaucpr: array<real>, taucpr: array<real>,
    flyr: array<real>)

  predicate Sized(s: Inputs, g: Outputs) {
    && 1 <= s.nlyr <= s.ssalb.Length && s.nlyr <= s.dtauc.Length && s.nlyr <= s.gg.Length && s.nlyr < s.tauc.Length
    && s.nlyr <= g.oprim.Length && s.nlyr <= g.ggprim.Length && s.nlyr <= g.dtaucpr.Length
    && s.nlyr < g.taucpr.Length && s.nlyr <= g.flyr.Length
  }

  predicate Separate(s: Inputs, g: Outputs) {
    && g.oprim !in {g.ggprim, g.dtaucpr, g.taucpr, g.flyr, s.ssalb, s.dtauc, s.gg, s.tauc}
    && g.ggprim !in {g.dtaucpr, g.taucpr, g.flyr, s.ssalb, s.dtauc, s.gg, s.tauc}
    && g.dtaucpr !in {g.taucpr, g.flyr, s.ssalb, s.dtauc, s.gg, s.tauc}
    && g.taucpr !in {g.flyr, s.ssalb, s.dtauc, s.gg, s.tauc}
    && g.flyr !in {s.ssalb, s.dtauc, s.gg, s.tauc}
  }

  /** The arrays hold the medium m; no layer scatters everything, or only straight on or back. */
  ghost predicate Describes(m: Layers, deltam: bool, s: Inputs)
    requires 1 <= s.nlyr <= s.ssalb.Length && s.nlyr <= s.dtauc.Length && s.nlyr <= s.gg.Length
    requires s.nlyr < s.tauc.Length
    reads s.ssalb, s.dtauc, s.gg, s.tauc
  {
    && m.n == s.nlyr
    && (forall i :: 0 <= i < s.nlyr ==> LayerGiven(m, deltam, i + 1, s.ssalb[i], s.dtauc[i], s.gg[i]))
    && forall i :: 0 <= i <= s.nlyr ==> s.tauc[i] == Depth(m, i)
  }

  predicate LayerGiven(m: Layers, deltam: bool, lc: int, o: real, d: real, g: real) {
    && m.albedo(lc) == o && m.thick(lc) == d && m.forward(lc) == ForwardPeak(deltam, g)
    && 0.0 <= o < 1.0 && 0.0 <= d && -1.0 < g < 1.0
  }

  /** Layer lc after scaling. */
  ghost predicate LayerScaled(m: Layers, deltam: bool, lc: int, g: real, o: real, g': real, d: real, f: real) {
    && -1.0 < g < 1.0 && Kept(m.albedo(lc), m.forward(lc)) != 0.0
    && o == RescaledAlbedo(m.albedo(lc), m.forward(lc)) && g' == ScaledAsymmetry(deltam, g)
    && d == Shrunk(m.albedo(lc), m.forward(lc), m.thick(lc)) && f == m.forward(lc)
  }

  ghost predicate ScaledTo(m: Layers, deltam: bool, s: Inputs, g: Outputs, k: int)
    requires Sized(s, g) && 0 <= k <= s.nlyr
    reads s.gg, g.oprim, g.ggprim, g.dtaucpr, g.taucpr, g.flyr
  {
    && (forall i :: 0 <= i < k ==>
          LayerScaled(m, deltam, i + 1, s.gg[i], g.oprim[i], g.ggprim[i], g.dtaucpr[i], g.flyr[i]))
    && forall i :: 0 <= i <= k ==> g.taucpr[i] == ScaledDepth(m, i)
  }

  lemma DescribedIsPhysical(m: Layers, deltam: bool, s: Inputs)
    requires 1 <= s.nlyr <= s.ssalb.Length && s.nlyr <= s.dtauc.Length && s.nlyr <= s.gg.Length
    requires s.nlyr < s.tauc.Length
    requires Describes(m, deltam, s)
    ensures Physical(m)
  {
    hide Depth;
    forall lc | 1 <= lc <= m.n ensures ScatteringLayer(m, lc) {
      var i := lc - 1;
      assert LayerGiven(m, deltam, i + 1, s.ssalb[i], s.dtauc[i], s.gg[i]);
      SquareBelowOne(s.gg[i]);
    }
  }

  /** What the code computes for one layer, from albedo o, thickness d, asymmetry g and the depths above. */
  lemma LayerValues(m: Layers, deltam: bool, lc: int, o: real, d: real, g: real, f: real)
    requires 1 <= lc && LayerGiven(m, deltam, lc, o, d, g) && f == m.forward(lc)
    requires !deltam ==> forall l :: 1 <= l <= lc ==> m.forward(l) == 0.0
    ensures Kept(o, f) != 0.0 && 1.0 - f * o != 0.0 && f < 1.0
    ensures RescaledAlbedo(o, f) == if deltam then o * (1.0 - f) / (1.0 - f * o) else o
    ensures ScaledAsymmetry(deltam, g) == if deltam then (g - f) / (1.0 - f) else g
    ensures Shrunk(o, f, d) == if deltam then (1.0 - f * o) * d else d
    ensures ScaledDepth(m, lc) == if deltam then ScaledDepth(m, lc - 1) + Shrunk(o, f, d) else Depth(m, lc)
  {
    SquareBelowOne(g);
    KeptRange(o, f);
    if !deltam { Unscaled(m, lc); }
  }

  /** The five values of one layer: the scaled depth above it is above, TAUC at its bottom is tau. */
  method ScaledLayer(deltam: bool, o: real, d: real, a: real, above: real, tau: real, lc: int, ghost m: Layers)
    returns (o': real, a': real, d': real, below: real, f: real)
    requires 1 <= lc && LayerGiven(m, deltam, lc, o, d, a) && above == ScaledDepth(m, lc - 1) && tau == Depth(m, lc)
    requires !deltam ==> forall l :: 1 <= l <= lc ==> m.forward(l) == 0.0
    ensures LayerScaled(m, deltam, lc, a, o', a', d', f) && below == ScaledDepth(m, lc)
  {
    hide Depth, RescaledAlbedo, ScaledAsymmetry, Shrunk, Kept;
    f := if deltam then a * a else 0.0;
    LayerValues(m, deltam, lc, o, d, a, f);
    if !deltam {
      o', below, a', d' := o, tau, a, d;
    } else {
      below := above + (1.0 - f * o) * d;
      o' := o * (1.0 - f) / (1.0 - f * o);
      a' := (a - f) / (1.0 - f);
      d' := below - above;
    }
  }

  method ScaleLayer(deltam: bool, s: Inputs, g: Outputs, i: int, ghost m: Layers)
    requires Sized(s, g) && Separate(s, g) && Describes(m, deltam, s) && 0 <= i < s.nlyr && ScaledTo(m, deltam, s, g, i)
    modifies g.oprim, g.ggprim, g.dtaucpr, g.taucpr, g.flyr
    ensures ScaledTo(m, deltam, s, g, i + 1)
  {
    hide Depth, ScaledDepth, LayerScaled, LayerGiven;
    NoForwardAnywhere(m, deltam, s);
    var o, a, d, below, f :=
      ScaledLayer(deltam, s.ssalb[i], s.dtauc[i], s.gg[i], g.taucpr[i], s.tauc[i + 1], i + 1, m);
    g.taucpr[i + 1] := below;
    g.oprim[i] := o;
    g.ggprim[i] := a;
    g.dtaucpr[i] := d;
    g.flyr[i] := f;
  }

  lemma NoForwardAnywhere(m: Layers, deltam: bool, s: Inputs)
    requires 1 <= s.nlyr <= s.ssalb.Length && s.nlyr <= s.dtauc.Length && s.nlyr <= s.gg.Length
    requires s.nlyr < s.tauc.Length
    requires Describes(m, deltam, s)
    ensures !deltam ==> forall l :: 1 <= l <= m.n ==> m.forward(l) == 0.0
  {
    hide Depth;
    if !deltam {
      forall l | 1 <= l <= m.n ensures m.forward(l) == 0.0 {
        var i := l - 1;
        assert LayerGiven(m, deltam, i + 1, s.ssalb[i], s.dtauc[i], s.gg[i]);
      }
    }
  }

  /**
   * The loop over layers of c_twostr_set; on the zeroed array the depth at the top is 0. Every layer it leaves can be
   * represented by either quadrature.
   */
  method ScaleLayers(deltam: bool, s: Inputs, g: Outputs, ghost m: Layers)
    requires Sized(s, g) && Separate(s, g) && Describes(m, deltam, s) && g.taucpr[0] == 0.0
    modifies g.oprim, g.ggprim, g.dtaucpr, g.taucpr, g.flyr
    ensures ScaledTo(m, deltam, s, g, s.nlyr) && Physical(m)
    ensures forall i, cmu :: 0 <= i < s.nlyr && Quadrature(cmu) ==> Representable(g.oprim[i], g.ggprim[i], cmu)
  {
    hide Depth, LayerScaled, LayerGiven, Quadrature, Representable, Physical;
    DescribedIsPhysical(m, deltam, s);
    for i := 0 to s.nlyr
      invariant ScaledTo(m, deltam, s, g, i) && Describes(m, deltam, s)
    {
      ScaleLayer(deltam, s, g, i, m);
    }
    forall i, cmu | 0 <= i < s.nlyr && Quadrature(cmu) ensures Representable(g.oprim[i], g.ggprim[i], cmu) {
      LayerRepresentable(m, deltam, i + 1, s.ssalb[i], s.dtauc[i], s.gg[i], g.oprim[i], g.ggprim[i], g.dtaucpr[i],
        g.flyr[i], cmu);
    }
  }

  lemma LayerRepresentable(m: Layers, deltam: bool, lc: int, o: real, d: real, g: real, o': real, g': real, d': real,
      f: real, cmu: real)
    requires LayerGiven(m, deltam, lc, o, d, g) && LayerScaled(m, deltam, lc, g, o', g', d', f) && Quadrature(cmu)
    ensures Representable(o', g', cmu)
  {
    hide RescaledAlbedo, ScaledAsymmetry, Shrunk, Kept, Representable;
    ScaledRepresentable(deltam, o, g, cmu);
  }

  /** The layers that the scaling and c_twostr_solns hand to c_twostr_solve_bc are physical. */
  lemma ScaledColumnPhysical(p: Column, m: Layers)
    requires Physical(m) && OnScaledDepths(p.tau, p.ncut, m) && Slab.Exponential(p.exp)
    requires forall lc :: 1 <= lc <= p.ncut ==> 0.0 <= p.kk(lc) && 0.0 <= p.rr(lc) < 1.0
    ensures Slab.PhysicalLayers(p)
  {
    hide Physical, Slab.Exponential;
    ScaledDepthsDescend(p.tau, p.ncut, m);
    assert p.tau(0) == ScaledDepth(m, 0);
    forall lc | 1 <= lc <= p.ncut ensures Slab.PhysicalLayer(p, lc) { assert p.tau(lc - 1) <= p.tau(lc); }
  }

  /**
   * With CMU = 0.5 every surface that does not amplify gives a nonsingular system; with the single Gaussian
   * quadrature, every surface whose albedo squared is at most three quarters.
   */
  lemma SolvableForAlbedo(p: Column)
    requires Slab.PhysicalLayers(p) && 0.0 <= p.albedo && 0.0 < p.cmu
    requires (p.cmu == 0.5 && p.albedo <= 1.0) || (p.cmu * p.cmu == 1.0 / 3.0 && p.albedo * p.albedo <= 0.75)
    ensures Nonsingular(TriMatrix(p), 2 * p.ncut)
  {
    hide Slab.PhysicalLayers, TriMatrix, Nonsingular;
    SurfaceBound(p.albedo, p.cmu);
    TwoStreamNonsingular(p);
  }

  lemma SurfaceBound(albedo: real, cmu: real)
    requires 0.0 <= albedo && 0.0 < cmu
    requires (cmu == 0.5 && albedo <= 1.0) || (cmu * cmu == 1.0 / 3.0 && albedo * albedo <= 0.75)
    ensures 2.0 * albedo * cmu <= 1.0
  {
    var s := 2.0 * albedo * cmu;
    assert s * s == 4.0 * ((albedo * albedo) * (cmu * cmu));
    if s > 1.0 { PositiveProduct(s - 1.0, s + 1.0, s * s - 1.0); }
  }
}
