/**
 * Delta-M scaling of a layered medium: the forward peak of the phase function is separated, optical depths shrink, and
 * every level moves with them. Layers are numbered 1 .. n from the top.
 */
module DeltaScaling {
  import opened RealArithmetic
  import opened LinearAlgebra

  /** Optical thickness, single-scattering albedo and separated fraction (0 without scaling) of every layer. */
  datatype Layers = Layers(n: int, thick: Vec, albedo: Vec, forward: Vec)

  predicate ScatteringLayer(m: Layers, lc: int) {
    0.0 <= m.thick(lc) && 0.0 <= m.albedo(lc) < 1.0 && -1.0 <= m.forward(lc) < 1.0
  }

  ghost predicate Physical(m: Layers) { 1 <= m.n && forall lc :: 1 <= lc <= m.n ==> ScatteringLayer(m, lc) }

  /** The part of a layer's optical thickness that is kept. */
  function Kept(o: real, f: real): real { 1.0 - f * o }

  /** The albedo of what is kept. */
  function RescaledAlbedo(o: real, f: real): real
    requires Kept(o, f) != 0.0
  {
    o * (1.0 - f) / Kept(o, f)
  }

  function Shrunk(o: real, f: real, d: real): real { Kept(o, f) * d }

  /** TAUC, TAUCPR and the absorption optical depth at the bottom of layer lc. */
  function Depth(m: Layers, lc: int): real
    decreases lc
  {
    if lc <= 0 then 0.0 else Depth(m, lc - 1) + m.thick(lc)
  }

  function ScaledDepth(m: Layers, lc: int): real
    decreases lc
  {
    if lc <= 0 then 0.0 else ScaledDepth(m, lc - 1) + Shrunk(m.albedo(lc), m.forward(lc), m.thick(lc))
  }

  function Absorbed(o: real, d: real): real { (1.0 - o) * d }

  function AbsorptionDepth(m: Layers, lc: int): real
    decreases lc
  {
    if lc <= 0 then 0.0 else AbsorptionDepth(m, lc - 1) + Absorbed(m.albedo(lc), m.thick(lc))
  }

  lemma KeptRange(o: real, f: real)
    requires 0.0 <= o < 1.0 && -1.0 <= f < 1.0
    ensures Kept(o, f) > 0.0
  {
    if f > 0.0 {
      NonnegativeProduct(f, 1.0 - o);
    } else {
      NonnegativeProduct(-f, o);
    }
  }

  /** The kept part still scatters less than everything. */
  lemma RescaledAlbedoRange(o: real, f: real)
    requires 0.0 <= o < 1.0 && -1.0 <= f < 1.0
    ensures Kept(o, f) > 0.0 && 0.0 <= RescaledAlbedo(o, f) < 1.0
  {
    KeptRange(o, f);
    var k, p := Kept(o, f), RescaledAlbedo(o, f);
    Cancel(k, o * (1.0 - f));
    NonnegativeProduct(o, 1.0 - f);
    if p < 0.0 { PositiveProduct(-p, k, -(p * k)); }
    if p >= 1.0 { NonnegativeProduct(p - 1.0, k); }
  }

  /** Legendre moment chi of the phase function after the forward peak is taken out. */
  function RescaledMoment(f: real, chi: real): real
    requires f != 1.0
  {
    (chi - f) / (1.0 - f)
  }

  /**
   * What a layer takes out of Legendre moment chi of the radiation is unchanged: its thickness times one less albedo
   * times moment is the same before and after scaling.
   */
  lemma Similarity(o: real, f: real, chi: real, d: real)
    requires 0.0 <= o < 1.0 && -1.0 <= f < 1.0
    ensures Kept(o, f) != 0.0
    ensures Shrunk(o, f, d) * (1.0 - RescaledAlbedo(o, f) * RescaledMoment(f, chi)) == d * (1.0 - o * chi)
  {
    KeptRange(o, f);
    var k, p, c := Kept(o, f), RescaledAlbedo(o, f), RescaledMoment(f, chi);
    Cancel(k, o * (1.0 - f));
    Cancel(1.0 - f, chi - f);
    assert k * (p * c) == (k * p) * c == (o * (1.0 - f)) * c == o * ((1.0 - f) * c) == o * (chi - f);
    assert k * (1.0 - p * c) == 1.0 - o * chi;
    assert (k * d) * (1.0 - p * c) == d * (k * (1.0 - p * c));
    SameProduct(d, d, k * (1.0 - p * c), 1.0 - o * chi);
  }

  /** Absorption is what is taken out of the mean, whose moment is 1. */
  lemma LayerAbsorption(o: real, f: real, d: real)
    requires 0.0 <= o < 1.0 && -1.0 <= f < 1.0
    ensures Kept(o, f) != 0.0 && Absorbed(RescaledAlbedo(o, f), Shrunk(o, f, d)) == Absorbed(o, d)
  {
    Similarity(o, f, 1.0, d);
    var c := RescaledMoment(f, 1.0);
    Cancel(1.0 - f, 1.0 - f);
    ZeroFactor(1.0 - f, c - 1.0);
  }

  function ScaledAbsorptionDepth(m: Layers, lc: int): real
    requires forall l :: 1 <= l <= lc ==> ScatteringLayer(m, l)
    decreases lc
  {
    if lc <= 0 then 0.0 else
      assert ScatteringLayer(m, lc);
      RescaledAlbedoRange(m.albedo(lc), m.forward(lc));
      ScaledAbsorptionDepth(m, lc - 1)
      + Absorbed(RescaledAlbedo(m.albedo(lc), m.forward(lc)), Shrunk(m.albedo(lc), m.forward(lc), m.thick(lc)))
  }

  /** Scaling leaves the absorption optical depth of every level alone, so it does not move the cut-off. */
  lemma {:induction false} AbsorptionInvariant(m: Layers, lc: int)
    requires forall l :: 1 <= l <= lc ==> ScatteringLayer(m, l)
    ensures ScaledAbsorptionDepth(m, lc) == AbsorptionDepth(m, lc)
    decreases lc
  {
    hide Absorbed, Shrunk, Kept;
    if lc > 0 {
      assert ScatteringLayer(m, lc);
      AbsorptionInvariant(m, lc - 1);
      LayerAbsorption(m.albedo(lc), m.forward(lc), m.thick(lc));
    }
  }

  lemma LayerSigns(m: Layers, lc: int)
    requires Physical(m) && 1 <= lc <= m.n
    ensures 0.0 <= m.thick(lc) && 0.0 < Kept(m.albedo(lc), m.forward(lc))
    ensures 0.0 <= Shrunk(m.albedo(lc), m.forward(lc), m.thick(lc)) && 0.0 <= Absorbed(m.albedo(lc), m.thick(lc))
    ensures 0.0 < m.thick(lc) ==> 0.0 < Shrunk(m.albedo(lc), m.forward(lc), m.thick(lc))
  {
    assert ScatteringLayer(m, lc);
    KeptRange(m.albedo(lc), m.forward(lc));
    var k, d := Kept(m.albedo(lc), m.forward(lc)), m.thick(lc);
    NonnegativeProduct(k, d);
    NonnegativeProduct(1.0 - m.albedo(lc), d);
    if d > 0.0 { PositiveProduct(k, d, k * d); }
  }

  /** Depths increase downwards, before and after scaling, and in the same places. */
  lemma {:induction false} DepthOrder(m: Layers, i: int, j: int)
    requires Physical(m) && 0 <= i <= j <= m.n
    ensures Depth(m, i) <= Depth(m, j) && ScaledDepth(m, i) <= ScaledDepth(m, j)
    ensures Depth(m, i) < Depth(m, j) <==> ScaledDepth(m, i) < ScaledDepth(m, j)
    ensures AbsorptionDepth(m, i) <= AbsorptionDepth(m, j)
    decreases j
  {
    hide Absorbed, Shrunk, Kept, Physical;
    if i < j {
      DepthOrder(m, i, j - 1);
      LayerSigns(m, j);
      assert m.thick(j) == 0.0 ==> Shrunk(m.albedo(j), m.forward(j), m.thick(j)) == 0.0 by {
        NoThickness(m.albedo(j), m.forward(j), m.thick(j));
      }
    }
  }

  lemma NoThickness(o: real, f: real, d: real)
    ensures d == 0.0 ==> Shrunk(o, f, d) == 0.0
  {
  }

  predicate Contains(m: Layers, lc: int, u: real) { 1 <= lc <= m.n && Depth(m, lc - 1) <= u <= Depth(m, lc) }

  /** UTAUPR of a level at depth u of layer lc. */
  function ScaledLevel(m: Layers, lc: int, u: real): real {
    ScaledDepth(m, lc - 1) + Shrunk(m.albedo(lc), m.forward(lc), u - Depth(m, lc - 1))
  }

  lemma ShrunkOrder(o: real, f: real, d: real, e: real)
    requires Kept(o, f) > 0.0
    ensures d <= e ==> Shrunk(o, f, d) <= Shrunk(o, f, e)
    ensures d < e ==> Shrunk(o, f, d) < Shrunk(o, f, e)
    ensures Shrunk(o, f, 0.0) == 0.0
  {
    var k := Kept(o, f);
    assert k * e - k * d == k * (e - d);
    if d < e { PositiveProduct(k, e - d, k * (e - d)); }
  }

  /** A level in a layer stays in the layer, and strictly inside only if it was. */
  lemma LevelWithin(m: Layers, lc: int, u: real)
    requires Physical(m) && Contains(m, lc, u)
    ensures ScaledDepth(m, lc - 1) <= ScaledLevel(m, lc, u) <= ScaledDepth(m, lc)
    ensures Depth(m, lc - 1) < u ==> ScaledDepth(m, lc - 1) < ScaledLevel(m, lc, u)
    ensures u < Depth(m, lc) ==> ScaledLevel(m, lc, u) < ScaledDepth(m, lc)
    ensures u == Depth(m, lc - 1) ==> ScaledLevel(m, lc, u) == ScaledDepth(m, lc - 1)
    ensures u == Depth(m, lc) ==> ScaledLevel(m, lc, u) == ScaledDepth(m, lc)
  {
    hide Shrunk, Kept, Physical;
    LayerSigns(m, lc);
    var d := u - Depth(m, lc - 1);
    ShrunkOrder(m.albedo(lc), m.forward(lc), 0.0, d);
    ShrunkOrder(m.albedo(lc), m.forward(lc), d, m.thick(lc));
    assert Depth(m, lc) == Depth(m, lc - 1) + m.thick(lc);
  }

  /** Levels keep their order, strictly, whatever layers they are placed in. */
  lemma LevelOrder(m: Layers, lc: int, u: real, lc': int, v: real)
    requires Physical(m) && Contains(m, lc, u) && Contains(m, lc', v)
    ensures u <= v <==> ScaledLevel(m, lc, u) <= ScaledLevel(m, lc', v)
  {
    hide *;
    if u <= v {
      LevelsRise(m, lc, u, lc', v);
    } else {
      LevelsRise(m, lc', v, lc, u);
    }
  }

  lemma LevelsRise(m: Layers, lc: int, u: real, lc': int, v: real)
    requires Physical(m) && Contains(m, lc, u) && Contains(m, lc', v) && u <= v
    ensures ScaledLevel(m, lc, u) <= ScaledLevel(m, lc', v)
    ensures u < v ==> ScaledLevel(m, lc, u) < ScaledLevel(m, lc', v)
  {
    hide Shrunk, Kept, Physical, Depth, ScaledDepth, ScaledLevel;
    LevelWithin(m, lc, u);
    LevelWithin(m, lc', v);
    if lc < lc' {
      DepthOrder(m, lc, lc' - 1);
    } else if lc' < lc {
      DepthOrder(m, lc', lc - 1);
    } else {
      LevelsRiseInLayer(m, lc, u, v);
    }
  }

  lemma LevelsRiseInLayer(m: Layers, lc: int, u: real, v: real)
    requires Physical(m) && 1 <= lc <= m.n && u <= v
    ensures ScaledLevel(m, lc, u) <= ScaledLevel(m, lc, v)
    ensures u < v ==> ScaledLevel(m, lc, u) < ScaledLevel(m, lc, v)
  {
    hide Shrunk, Kept, Physical;
    LayerSigns(m, lc);
    ShrunkOrder(m.albedo(lc), m.forward(lc), u - Depth(m, lc - 1), v - Depth(m, lc - 1));
  }

  /** A level on interfaces gets the same scaled depth from every layer that holds it. */
  lemma LevelIndependentOfLayer(m: Layers, lc: int, lc': int, u: real)
    requires Physical(m) && Contains(m, lc, u) && Contains(m, lc', u)
    ensures ScaledLevel(m, lc, u) == ScaledLevel(m, lc', u)
  {
    hide *;
    LevelOrder(m, lc, u, lc', u);
    LevelOrder(m, lc', u, lc, u);
  }

  /** Without a separated fraction nothing changes. */
  lemma {:induction false} Unscaled(m: Layers, lc: int)
    requires forall l :: 1 <= l <= lc ==> m.forward(l) == 0.0
    ensures ScaledDepth(m, lc) == Depth(m, lc)
    decreases lc
  {
    if lc > 0 { Unscaled(m, lc - 1); }
  }

  lemma UnscaledLevel(m: Layers, lc: int, u: real)
    requires 1 <= lc && forall l :: 1 <= l <= lc ==> m.forward(l) == 0.0
    ensures ScaledLevel(m, lc, u) == u
  {
    Unscaled(m, lc - 1);
  }

  /** The layer that the search finds: the first of 1 .. n - 1 that holds the level, otherwise n. */
  function LayerFrom(m: Layers, lc: int, u: real): int
    decreases m.n - lc
  {
    if lc >= m.n then m.n else if Contains(m, lc, u) then lc else LayerFrom(m, lc + 1, u)
  }

  function LayerFound(m: Layers, u: real): int { LayerFrom(m, 1, u) }

  lemma {:induction false} LayerFromHolds(m: Layers, lc: int, u: real)
    requires 1 <= lc <= m.n && Depth(m, lc - 1) <= u <= Depth(m, m.n)
    ensures lc <= LayerFrom(m, lc, u) <= m.n && Contains(m, LayerFrom(m, lc, u), u)
    ensures forall l :: lc <= l < LayerFrom(m, lc, u) ==> !Contains(m, l, u)
    decreases m.n - lc
  {
    hide Depth;
    if lc < m.n && !Contains(m, lc, u) { LayerFromHolds(m, lc + 1, u); }
  }

  /** Every level of the medium is placed in a layer that holds it, before and after scaling. */
  lemma LevelPlaced(m: Layers, u: real)
    requires Physical(m) && 0.0 <= u <= Depth(m, m.n)
    ensures var lc := LayerFound(m, u);
      && 1 <= lc <= m.n && Contains(m, lc, u)
      && ScaledDepth(m, lc - 1) <= ScaledLevel(m, lc, u) <= ScaledDepth(m, lc)
  {
    hide ScaledLevel, ScaledDepth, LayerFrom;
    LayerFromHolds(m, 1, u);
    LevelWithin(m, LayerFound(m, u), u);
  }

  /** A level is placed in one of the first k layers exactly if it is not below them. */
  lemma PlacedAbove(m: Layers, u: real, k: int)
    requires Physical(m) && 0.0 <= u <= Depth(m, m.n) && 1 <= k <= m.n
    ensures LayerFound(m, u) <= k <==> u <= Depth(m, k)
  {
    hide Depth, LayerFrom, ScaledDepth, ScaledLevel;
    var lc := LayerFound(m, u);
    TopDepth(m);
    LayerFromHolds(m, 1, u);
    if lc <= k {
      DepthOrder(m, lc, k);
    } else if u <= Depth(m, k) {
      var l := HoldingLayer(m, u, k);
    }
  }

  lemma TopDepth(m: Layers)
    ensures Depth(m, 0) == 0.0
  {
  }

  lemma {:induction false} HoldingLayer(m: Layers, u: real, k: int) returns (lc: int)
    requires 1 <= k <= m.n && 0.0 <= u <= Depth(m, k)
    ensures 1 <= lc <= k && Contains(m, lc, u)
    decreases k
  {
    if k == 1 || Depth(m, k - 1) <= u { lc := k; } else { lc := HoldingLayer(m, u, k - 1); }
  }

  const ABSCUT := 10.0

  /** ncut after layers 1 .. lc have been counted: the last of them with less than ABSCUT of absorption above it. */
  function CutLayer(m: Layers, lc: int): int
    decreases lc
  {
    if lc <= 0 then 0 else if AbsorptionDepth(m, lc - 1) < ABSCUT then lc else CutLayer(m, lc - 1)
  }

  /** The layer in which the absorption optical depth reaches ABSCUT, if it does. */
  lemma {:induction false} CutLayerMeaning(m: Layers, lc: int)
    requires Physical(m) && 1 <= lc <= m.n
    ensures 1 <= CutLayer(m, lc) <= lc && AbsorptionDepth(m, CutLayer(m, lc) - 1) < ABSCUT
    ensures AbsorptionDepth(m, lc) >= ABSCUT ==> AbsorptionDepth(m, CutLayer(m, lc)) >= ABSCUT
    decreases lc
  {
    hide Absorbed, Physical;
    if AbsorptionDepth(m, lc - 1) >= ABSCUT { CutLayerMeaning(m, lc - 1); }
  }
}
