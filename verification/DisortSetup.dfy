/** The scaling, cut-off and level-placing parts of c_disort_set, in the arrays the code uses. */
module DisortSetup {
  import opened RealArithmetic
  import opened LinearAlgebra
  import opened DeltaScaling

  /** The caller's layers: SSALB, DTAUC, PMOM by moment and layer, and TAUC from the top down. */
  datatype Inputs = Inputs(nlyr: int, nstr: int, ssalb: array<real>, dtauc: array<real>, pmom: array2<real>,
    tauc: array<real>)

  /** The scaled layers: OPRIM, DTAUCPR, TAUCPR, FLYR, and GL by moment and layer. */
  datatype Outputs = Outputs(oprim: array<real>, dtaucpr: array<real>, taucpr: array<real>, flyr: array<real>,
    gl: array2<real>)

  predicate Sized(s: Inputs, g: Outputs) {
    && 1 <= s.nlyr && 1 <= s.nstr
    && s.nlyr <= s.ssalb.Length && s.nlyr <= s.dtauc.Length && s.nlyr < s.tauc.Length
    && s.nstr < s.pmom.Length0 && s.nlyr <= s.pmom.Length1
    && s.nlyr <= g.oprim.Length && s.nlyr <= g.dtaucpr.Length && s.nlyr <= g.flyr.Length && s.nlyr < g.taucpr.Length
    && s.nstr <= g.gl.Length0 && s.nlyr <= g.gl.Length1
  }

  predicate Separate(s: Inputs, g: Outputs) {
    && g.oprim !in {g.dtaucpr, g.taucpr, g.flyr, s.ssalb, s.dtauc, s.tauc}
    && g.dtaucpr !in {g.taucpr, g.flyr, s.ssalb, s.dtauc, s.tauc}
    && g.taucpr !in {g.flyr, s.ssalb, s.dtauc, s.tauc}
    && g.flyr !in {s.ssalb, s.dtauc, s.tauc}
    && s.pmom != g.gl
  }

  /** The arrays hold the medium m. */
  ghost predicate Describes(m: Layers, deltam: bool, s: Inputs)
    requires 0 <= s.nlyr <= s.ssalb.Length && s.nlyr <= s.dtauc.Length && s.nlyr < s.tauc.Length
    requires 0 <= s.nstr < s.pmom.Length0 && s.nlyr <= s.pmom.Length1
    reads s.ssalb, s.dtauc, s.pmom, s.tauc
  {
    && m.n == s.nlyr
    && (forall l :: 1 <= l <= s.nlyr ==> m.albedo(l) == s.ssalb[l - 1] && m.thick(l) == s.dtauc[l - 1])
    && (forall l :: 1 <= l <= s.nlyr ==> m.forward(l) == if deltam then s.pmom[s.nstr, l - 1] else 0.0)
    && forall i :: 0 <= i <= s.nlyr ==> s.tauc[i] == Depth(m, i)
  }

  /** GL(k, lc): the moments of the scaled phase function, weighted with 2 k + 1 and the scaled albedo. */
  function WeightedMoment(weight: real, scaledAlbedo: real, scaledMoment: real): real {
    weight * scaledAlbedo * scaledMoment
  }

  /** The first k scaled layers are in place. */
  ghost predicate ScaledTo(m: Layers, s: Inputs, g: Outputs, k: int)
    requires Sized(s, g) && 0 <= k <= s.nlyr <= m.n && Physical(m)
    reads g.oprim, g.dtaucpr, g.taucpr, g.flyr
  {
    && (forall i :: 0 <= i < k ==> LayerIs(m, i + 1, g.oprim[i], g.dtaucpr[i], g.flyr[i]))
    && forall i :: 0 <= i <= k ==> g.taucpr[i] == ScaledDepth(m, i)
  }

  ghost predicate LayerIs(m: Layers, lc: int, o: real, d: real, f: real) {
    && Kept(m.albedo(lc), m.forward(lc)) != 0.0 && o == RescaledAlbedo(m.albedo(lc), m.forward(lc))
    && d == Shrunk(m.albedo(lc), m.forward(lc), m.thick(lc)) && f == m.forward(lc)
  }

  /** The moments of the first k layers are in place. */
  ghost predicate MomentsTo(m: Layers, s: Inputs, g: Outputs, k: int)
    requires Sized(s, g) && 0 <= k <= s.nlyr
    reads s.pmom, g.gl
  {
    forall q, i :: 0 <= q < s.nstr && 0 <= i < k ==> MomentIs(m, i + 1, q, g.gl[q, i], s.pmom[q, i])
  }

  ghost predicate MomentIs(m: Layers, lc: int, q: int, w: real, chi: real) {
    && Kept(m.albedo(lc), m.forward(lc)) != 0.0 && m.forward(lc) != 1.0
    && var o, f := m.albedo(lc), m.forward(lc);
       w == WeightedMoment((2 * q + 1) as real, RescaledAlbedo(o, f), RescaledMoment(f, chi))
  }

  lemma NoForward(o: real, d: real)
    ensures Kept(o, 0.0) == 1.0 && RescaledAlbedo(o, 0.0) == o && Shrunk(o, 0.0, d) == d
  {
  }

  lemma MomentForms(a: real, o: real, f: real, chi: real)
    requires f != 1.0
    ensures a * o * (chi - f) / (1.0 - f) == a * o * RescaledMoment(f, chi)
  {
    var b, q := a * o, (chi - f) / (1.0 - f);
    Cancel(1.0 - f, chi - f);
    Cancel(1.0 - f, b * (chi - f));
    assert (1.0 - f) * (b * q) == b * ((1.0 - f) * q);
    var w := b * (chi - f) / (1.0 - f);
    assert (1.0 - f) * (w - b * q) == 0.0;
    ZeroFactor(1.0 - f, w - b * q);
  }

  /** The moments of one layer; moment 0 is set to 1 first. */
  method SetMoments(deltam: bool, s: Inputs, g: Outputs, i: int, o: real, f: real, ghost m: Layers)
    requires Sized(s, g) && Separate(s, g) && 0 <= i < s.nlyr && MomentsTo(m, s, g, i) && f < 1.0
    requires LayerIs(m, i + 1, o, Shrunk(m.albedo(i + 1), m.forward(i + 1), m.thick(i + 1)), f)
    requires (!deltam ==> f == 0.0)
    modifies g.gl
    ensures MomentsTo(m, s, g, i + 1)
  {
    hide WeightedMoment, RescaledAlbedo, RescaledMoment, Kept, Shrunk;
    ghost var lc := i + 1;
    for k := 0 to s.nstr
      invariant MomentsTo(m, s, g, i)
      invariant forall q :: 0 <= q < k ==> MomentIs(m, lc, q, g.gl[q, i], s.pmom[q, i])
    {
      var chi := s.pmom[k, i];
      var weight := (2 * k + 1) as real;
      MomentOf(deltam, weight, o, f, chi);
      if !deltam {
        g.gl[k, i] := weight * o * chi;
      } else {
        g.gl[k, i] := weight * o * (chi - f) / (1.0 - f);
      }
    }
  }

  lemma MomentOf(deltam: bool, weight: real, o: real, f: real, chi: real)
    requires f < 1.0 && (!deltam ==> f == 0.0)
    ensures WeightedMoment(weight, o, RescaledMoment(f, chi)) ==
      if deltam then weight * o * (chi - f) / (1.0 - f) else weight * o * chi
  {
    hide RescaledMoment;
    MomentForms(weight, o, f, chi);
    MomentKept(chi);
    SameProduct(weight * o, weight * o, RescaledMoment(0.0, chi), chi);
  }

  lemma MomentKept(chi: real)
    ensures RescaledMoment(0.0, chi) == chi
  {
  }

  /** OPRIM, DTAUCPR, TAUCPR and FLYR of layer i + 1. */
  method ScaleLayer(deltam: bool, s: Inputs, g: Outputs, i: int, ghost m: Layers) returns (f: real)
    requires Sized(s, g) && Separate(s, g) && Physical(m) && Describes(m, deltam, s)
    requires 0 <= i < s.nlyr && ScaledTo(m, s, g, i)
    modifies g.oprim, g.dtaucpr, g.taucpr, g.flyr
    ensures ScaledTo(m, s, g, i + 1) && f == m.forward(i + 1)
  {
    hide RescaledAlbedo, Shrunk, Kept, Depth, Physical;
    ghost var lc := i + 1;
    var o, d := s.ssalb[i], s.dtauc[i];
    f := if deltam then s.pmom[s.nstr, i] else 0.0;
    LayerValues(deltam, m, lc, o, f, d);
    if !deltam {
      g.oprim[i] := o;
      g.dtaucpr[i] := d;
      g.taucpr[i + 1] := s.tauc[i + 1];
    } else {
      g.oprim[i] := o * (1.0 - f) / (1.0 - f * o);
      g.dtaucpr[i] := (1.0 - f * o) * d;
      g.taucpr[i + 1] := g.taucpr[i] + g.dtaucpr[i];
    }
    g.flyr[i] := f;
  }

  /** What the two branches compute. */
  lemma LayerValues(deltam: bool, m: Layers, lc: int, o: real, f: real, d: real)
    requires Physical(m) && 1 <= lc <= m.n && (!deltam ==> forall l :: 1 <= l <= m.n ==> m.forward(l) == 0.0)
    requires o == m.albedo(lc) && f == m.forward(lc) && d == m.thick(lc)
    ensures 1.0 - f * o != 0.0 && Kept(o, f) != 0.0
    ensures RescaledAlbedo(o, f) == if deltam then o * (1.0 - f) / (1.0 - f * o) else o
    ensures Shrunk(o, f, d) == if deltam then (1.0 - f * o) * d else d
    ensures ScaledDepth(m, lc) == if deltam then ScaledDepth(m, lc - 1) + Shrunk(o, f, d) else Depth(m, lc)
  {
    LayerSigns(m, lc);
    if !deltam {
      NoForward(o, d);
      Unscaled(m, lc);
    }
  }

  /** The moments of one layer, after PMOM(0,lc) is set. */
  method LayerMoments(deltam: bool, s: Inputs, g: Outputs, i: int, f: real, ghost m: Layers)
    requires Sized(s, g) && Separate(s, g) && Physical(m) && s.nlyr <= m.n && 0 <= i < s.nlyr
    requires ScaledTo(m, s, g, i + 1) && MomentsTo(m, s, g, i)
    requires f == m.forward(i + 1) && (!deltam ==> f == 0.0)
    modifies g.gl
    ensures MomentsTo(m, s, g, i + 1)
  {
    hide MomentsTo, Kept;
    assert ScatteringLayer(m, i + 1) && LayerIs(m, i + 1, g.oprim[i], g.dtaucpr[i], g.flyr[i]);
    SetMoments(deltam, s, g, i, g.oprim[i], f, m);
  }

  /** Everything that the loop over layers writes for layer i + 1. */
  method ProcessLayer(deltam: bool, s: Inputs, g: Outputs, i: int, ghost m: Layers)
    requires Sized(s, g) && Separate(s, g) && Physical(m) && Describes(m, deltam, s) && 0 <= i < s.nlyr
    requires ScaledTo(m, s, g, i) && MomentsTo(m, s, g, i)
    modifies s.pmom, g.oprim, g.dtaucpr, g.taucpr, g.flyr, g.gl
    ensures ScaledTo(m, s, g, i + 1) && MomentsTo(m, s, g, i + 1) && Describes(m, deltam, s)
    ensures forall q, l :: 0 <= q < s.pmom.Length0 && 0 <= l < s.pmom.Length1 ==>
      s.pmom[q, l] == if q == 0 && l == i then 1.0 else old(s.pmom[q, l])
  {
    hide Physical, LayerIs, MomentIs, Depth, ScaledDepth;
    s.pmom[0, i] := 1.0;
    var f := ScaleLayer(deltam, s, g, i, m);
    LayerMoments(deltam, s, g, i, f, m);
  }

  /** The absorption above and in layer i + 1, and the layer count as long as it is below the cut-off. */
  method CountLayer(deltam: bool, s: Inputs, i: int, ncut: int, abstau: real, ghost m: Layers)
    returns (ncut': int, abstau': real)
    requires 0 <= i < s.nlyr <= s.ssalb.Length && s.nlyr <= s.dtauc.Length && s.nlyr < s.tauc.Length
    requires 0 <= s.nstr < s.pmom.Length0 && s.nlyr <= s.pmom.Length1 && Describes(m, deltam, s)
    requires ncut == CutLayer(m, i) && abstau == AbsorptionDepth(m, i)
    ensures ncut' == CutLayer(m, i + 1) && abstau' == AbsorptionDepth(m, i + 1)
  {
    hide Absorbed, Depth;
    ncut' := if abstau < ABSCUT then i + 1 else ncut;
    ghost var lc := i + 1;
    assert s.ssalb[i] == m.albedo(lc) && s.dtauc[i] == m.thick(lc);
    abstau' := abstau + Absorbed(s.ssalb[i], s.dtauc[i]);
  }

  /** The loop over layers: scaled layers and moments, and how far down the absorption stays below the cut-off. */
  method ScaleLayers(deltam: bool, s: Inputs, g: Outputs, ghost m: Layers) returns (ncut: int, abstau: real)
    requires Sized(s, g) && Separate(s, g) && Physical(m) && Describes(m, deltam, s)
    modifies s.pmom, g.oprim, g.dtaucpr, g.taucpr, g.flyr, g.gl
    ensures ScaledTo(m, s, g, s.nlyr) && MomentsTo(m, s, g, s.nlyr) && Describes(m, deltam, s)
    ensures forall i :: 0 <= i < s.nlyr ==> s.pmom[0, i] == 1.0
    ensures forall q, i :: 1 <= q <= s.nstr && 0 <= i < s.nlyr ==> s.pmom[q, i] == old(s.pmom[q, i])
    ensures ncut == CutLayer(m, s.nlyr) && abstau == AbsorptionDepth(m, s.nlyr)
  {
    hide Physical, LayerIs, MomentsTo, Depth, AbsorptionDepth, CutLayer;
    NoMoments(m, s, g);
    CountStart(m);
    g.taucpr[0] := 0.0;
    ncut, abstau := 0, 0.0;
    for i := 0 to s.nlyr
      invariant ncut == CutLayer(m, i) && abstau == AbsorptionDepth(m, i)
      invariant ScaledTo(m, s, g, i) && MomentsTo(m, s, g, i) && Describes(m, deltam, s)
      invariant forall l :: 0 <= l < i ==> s.pmom[0, l] == 1.0
      invariant forall q, l :: 1 <= q <= s.nstr && 0 <= l < s.nlyr ==> s.pmom[q, l] == old(s.pmom[q, l])
    {
      ncut, abstau := CountLayer(deltam, s, i, ncut, abstau, m);
      ProcessLayer(deltam, s, g, i, m);
    }
  }

  lemma NoMoments(m: Layers, s: Inputs, g: Outputs)
    requires Sized(s, g)
    ensures MomentsTo(m, s, g, 0)
  {
  }

  lemma CountStart(m: Layers)
    ensures CutLayer(m, 0) == 0 && AbsorptionDepth(m, 0) == 0.0
  {
  }

  /** The search for the layer of a level. */
  method FindLayer(s: Inputs, u: real, ghost m: Layers) returns (lc: int)
    requires 1 <= s.nlyr == m.n && s.nlyr < s.tauc.Length && forall i :: 0 <= i <= s.nlyr ==> s.tauc[i] == Depth(m, i)
    ensures lc == LayerFound(m, u)
  {
    hide Depth;
    lc := 1;
    while lc < s.nlyr && !(u >= s.tauc[lc - 1] && u <= s.tauc[lc])
      invariant 1 <= lc <= s.nlyr && LayerFrom(m, 1, u) == LayerFrom(m, lc, u)
    {
      lc := lc + 1;
    }
  }

  /** Level u is placed in layer lc at the scaled depth v. */
  predicate LevelPlacedAt(m: Layers, u: real, lc: int, v: real) { lc == LayerFound(m, u) && v == ScaledLevel(m, lc, u) }

  /** Layer and scaled depth of one level. */
  method PlaceLevel(deltam: bool, s: Inputs, g: Outputs, u: real, ghost m: Layers) returns (lc: int, v: real)
    requires Sized(s, g) && Physical(m) && Describes(m, deltam, s) && ScaledTo(m, s, g, s.nlyr)
    ensures 1 <= lc <= s.nlyr && LevelPlacedAt(m, u, lc, v)
  {
    hide Depth, ScaledDepth, LayerFrom, Physical, RescaledAlbedo;
    lc := FindLayer(s, u, m);
    LayerFromRange(m, 1, u);
    v := u;
    if deltam {
      assert LayerIs(m, lc - 1 + 1, g.oprim[lc - 1], g.dtaucpr[lc - 1], g.flyr[lc - 1]);
      v := g.taucpr[lc - 1] + (1.0 - s.ssalb[lc - 1] * g.flyr[lc - 1]) * (u - s.tauc[lc - 1]);
      LevelValue(m, lc, u, s.ssalb[lc - 1], g.flyr[lc - 1], u - s.tauc[lc - 1]);
    } else {
      UnscaledLevel(m, lc, u);
    }
  }

  lemma {:induction false} LayerFromRange(m: Layers, lc: int, u: real)
    requires 1 <= lc <= m.n
    ensures lc <= LayerFrom(m, lc, u) <= m.n
    decreases m.n - lc
  {
    if lc < m.n && !Contains(m, lc, u) { LayerFromRange(m, lc + 1, u); }
  }

  lemma LevelValue(m: Layers, lc: int, u: real, o: real, f: real, d: real)
    requires o == m.albedo(lc) && f == m.forward(lc) && d == u - Depth(m, lc - 1)
    ensures ScaledLevel(m, lc, u) == ScaledDepth(m, lc - 1) + (1.0 - o * f) * d
  {
    hide Depth, ScaledDepth;
    SameProduct(Kept(o, f), 1.0 - o * f, d, d);
  }

  /** The loop over user levels. */
  method PlaceLevels(deltam: bool, s: Inputs, g: Outputs, ntau: nat, utau: array<real>, utaupr: array<real>,
      layru: array<int>, ghost m: Layers)
    requires Sized(s, g) && Physical(m) && Describes(m, deltam, s) && ScaledTo(m, s, g, s.nlyr)
    requires ntau <= utau.Length && ntau <= utaupr.Length && ntau <= layru.Length
    requires utaupr !in {utau, s.ssalb, s.dtauc, s.tauc, g.oprim, g.dtaucpr, g.taucpr, g.flyr}
    modifies utaupr, layru
    ensures forall lu :: 0 <= lu < ntau ==>
      1 <= layru[lu] <= s.nlyr && LevelPlacedAt(m, utau[lu], layru[lu], utaupr[lu])
  {
    hide LevelPlacedAt, Physical, Depth, LayerIs;
    for lu := 0 to ntau
      invariant ScaledTo(m, s, g, s.nlyr)
      invariant forall l :: 0 <= l < lu ==> 1 <= layru[l] <= s.nlyr && LevelPlacedAt(m, utau[l], layru[l], utaupr[l])
    {
      layru[lu], utaupr[lu] := PlaceLevel(deltam, s, g, utau[lu], m);
    }
  }

  /** Without user levels, the boundaries of the layers are the levels. */
  method BoundaryLevels(s: Inputs, ntau: nat, utau: array<real>)
    requires ntau <= s.tauc.Length && ntau <= utau.Length && utau != s.tauc
    modifies utau
    ensures forall lu :: 0 <= lu < ntau ==> utau[lu] == s.tauc[lu]
  {
    for lc := 0 to ntau
      invariant forall lu :: 0 <= lu < lc ==> utau[lu] == s.tauc[lu]
    {
      utau[lc] := s.tauc[lc];
    }
  }

  /**
   * What decides whether the medium is cut off: enough absorption, no thermal emission, no special case, several
   * layers.
   */
  predicate CutOff(m: Layers, planck: bool, special: bool) {
    AbsorptionDepth(m, m.n) >= ABSCUT && !planck && !special && m.n > 1
  }

  /** c_disort_set as far as layers and levels go. */
  method DisortSet(deltam: bool, usrtau: bool, planck: bool, special: bool, s: Inputs, g: Outputs, ntau: nat,
      utau: array<real>, utaupr: array<real>, layru: array<int>, ghost m: Layers) returns (ncut: int, lyrcut: bool)
    requires Sized(s, g) && Separate(s, g) && Physical(m) && Describes(m, deltam, s)
    requires ntau <= utau.Length && ntau <= utaupr.Length && ntau <= layru.Length && (!usrtau ==> ntau == s.nlyr + 1)
    requires utau !in {s.ssalb, s.dtauc, s.tauc, g.oprim, g.dtaucpr, g.taucpr, g.flyr, utaupr}
    requires utaupr !in {s.ssalb, s.dtauc, s.tauc, g.oprim, g.dtaucpr, g.taucpr, g.flyr}
    modifies s.pmom, g.oprim, g.dtaucpr, g.taucpr, g.flyr, g.gl, utau, utaupr, layru
    ensures ScaledTo(m, s, g, s.nlyr) && MomentsTo(m, s, g, s.nlyr)
    ensures lyrcut == CutOff(m, planck, special) && ncut == if lyrcut then CutLayer(m, s.nlyr) else s.nlyr
    ensures forall lu :: 0 <= lu < ntau ==> utau[lu] == if usrtau then old(utau[lu]) else Depth(m, lu)
    ensures forall lu :: 0 <= lu < ntau ==>
      1 <= layru[lu] <= s.nlyr && LevelPlacedAt(m, utau[lu], layru[lu], utaupr[lu])
  {
    hide Physical, Depth, LayerIs, MomentsTo, LevelPlacedAt, AbsorptionDepth, CutLayer;
    if !usrtau {
      BoundaryLevels(s, ntau, utau);
    }
    var abstau;
    ncut, abstau := ScaleLayers(deltam, s, g, m);
    lyrcut := false;
    if abstau >= ABSCUT && !planck && !special && s.nlyr > 1 {
      lyrcut := true;
    }
    if !lyrcut { ncut := s.nlyr; }
    PlaceLevels(deltam, s, g, ntau, utau, utaupr, layru, m);
  }
}
