/** Boundary and interface conditions on the n-stream intensities, and their right-hand sides. */
module StreamField {
  import opened RealArithmetic
  import opened LinearAlgebra
  import opened StreamSystem
  import opened StreamContinuity

  /** Attenuation of the direct beam down to depth t. */
  function BeamAt(p: Medium, t: real): real { if p.umu0 == 0.0 then 0.0 else p.exp(-t / p.umu0) }

  /** The beam source in either geometry. */
  function PlaneBeam(p: Medium, jq: int, lc: int, t: real): real { p.zz(jq, lc) * BeamAt(p, t) }

  function SphericalBeam(p: Medium, jq: int, lc: int, t: real): real {
    p.exp(-p.zbeama(lc) * t) * (p.zbeam0(jq, lc) + p.zbeam1(jq, lc) * t)
  }

  function Beam(p: Medium, jq: int, lc: int, t: real): real {
    if p.spher then SphericalBeam(p, jq, lc, t) else PlaneBeam(p, jq, lc, t)
  }

  /** The particular solution: beam source, and thermal source for the azimuthal mean. */
  function Particular(p: Medium, jq: int, lc: int, t: real): real {
    (if p.fbeam > 0.0 then Beam(p, jq, lc, t) else 0.0)
    + (if p.planck && p.mazim == 0 then p.plk0(jq, lc) + p.plk1(jq, lc) * t else 0.0)
  }

  ghost function Intensity(p: Medium, x: Vec, jq: int, lc: int, t: real): real {
    Homogeneous(p, x, jq, lc, t) + Particular(p, jq, lc, t)
  }

  ghost function DownwardIntensity(p: Medium, x: Vec): Vec { k => Intensity(p, x, p.nn + 1 - k, p.ncut, p.tau(p.ncut)) }

  /** What the surface adds to upward stream jq on its own: the reflected beam and thermal emission. */
  function SurfaceSource(p: Medium, jq: int): real {
    (if p.fbeam > 0.0 then p.bdr(jq - p.nn, 0) * p.umu0 * p.fbeam / PI * p.expbea(p.ncut) else 0.0)
    + (if p.mazim == 0 then p.bem(jq - p.nn) * p.bplanck else 0.0)
  }

  ghost predicate ContinuousAt(p: Medium, x: Vec, jq: int, lc: int) {
    Intensity(p, x, jq, lc, p.tau(lc)) == Intensity(p, x, jq, lc + 1, p.tau(lc))
  }

  /** Only the azimuthal mean is illuminated from above. */
  ghost predicate TopCondition(p: Medium, x: Vec, jq: int) {
    Intensity(p, x, jq, 1, p.tau(0)) == if p.mazim == 0 then p.fisot + p.tplanck else 0.0
  }

  /** What the surface reflects of the downward components v into upward stream jq. */
  ghost function Reflection(p: Medium, jq: int, v: Vec): real { (1.0 + p.delm0) * Dot(Weighted(p, jq), v, 1, p.nn + 1) }

  ghost predicate BottomCondition(p: Medium, x: Vec, jq: int) {
    Intensity(p, x, jq, p.ncut, p.tau(p.ncut)) ==
      if NoReflection(p) then 0.0
      else Reflection(p, jq, DownwardIntensity(p, x)) + SurfaceSource(p, jq)
  }

  /** Every stream is continuous at every interface and meets its boundary condition. */
  ghost predicate RadiationField(p: Medium, x: Vec) {
    && (forall jq :: 1 <= jq <= p.nn ==> TopCondition(p, x, jq))
    && (forall jq :: p.nn < jq <= Nstr(p) ==> BottomCondition(p, x, jq))
    && (forall jq, lc :: 1 <= jq <= Nstr(p) && 1 <= lc < p.ncut ==> ContinuousAt(p, x, jq, lc))
  }

  /**
   * c_solve0 is called for azimuthal components only with a beam, thermal sources are zero unless switched on,
   * and in plane-parallel geometry EXPBEA holds the beam's attenuation.
   */
  ghost predicate Consistent(p: Medium) {
    && 0 <= p.mazim && 0.0 <= p.fbeam && (p.mazim > 0 ==> p.fbeam > 0.0)
    && (p.fbeam > 0.0 && !p.spher ==> p.umu0 > 0.0)
    && p.delm0 == (if p.mazim == 0 then 1.0 else 0.0)
    && (!p.planck ==> forall jq, lc :: p.plk0(jq, lc) == 0.0)
    && (!p.planck ==> forall jq, lc :: p.plk1(jq, lc) == 0.0)
    && (p.fbeam > 0.0 && !p.spher ==> forall lc :: 0 <= lc <= p.ncut ==> p.expbea(lc) == BeamAt(p, p.tau(lc)))
  }

  predicate Azimuthal(p: Medium) { p.mazim > 0 && p.fbeam > 0.0 }

  /** The beam source of layer lc at interface l, as c_solve0 computes it. */
  function BeamOf(p: Medium, jq: int, lc: int, l: int): real {
    if p.spher then SphericalBeam(p, jq, lc, p.tau(l)) else p.zz(jq, lc) * p.expbea(l)
  }

  function ThermalOf(p: Medium, jq: int, lc: int, l: int): real { p.plk0(jq, lc) + p.plk1(jq, lc) * p.tau(l) }

  /** The sources that a case of c_solve0 takes into account. */
  function SourceOf(p: Medium, jq: int, lc: int, l: int): real {
    if Azimuthal(p) then BeamOf(p, jq, lc, l)
    else if p.fbeam == 0.0 then ThermalOf(p, jq, lc, l)
    else BeamOf(p, jq, lc, l) + ThermalOf(p, jq, lc, l)
  }

  /** Right-hand side of the top boundary, of an interface, and of the bottom boundary. */
  function TopRhs(p: Medium, jq: int): real {
    var beam := if p.spher then p.zbeam0(jq, 1) else p.zz(jq, 1);
    if Azimuthal(p) then -beam
    else if p.fbeam == 0.0 then -p.plk0(jq, 1) + p.fisot + p.tplanck
    else -beam - p.plk0(jq, 1) + p.fisot + p.tplanck
  }

  function InterfaceRhs(p: Medium, jq: int, lc: int): real { SourceOf(p, jq, lc + 1, lc) - SourceOf(p, jq, lc, lc) }

  function SourceBelow(p: Medium): Vec { k => SourceOf(p, p.nn + 1 - k, p.ncut, p.ncut) }

  function SurfaceBeam(p: Medium, jq: int): real { p.bdr(jq - p.nn, 0) * p.umu0 * p.fbeam / PI * p.expbea(p.ncut) }

  function SurfaceEmission(p: Medium, jq: int): real { p.bem(jq - p.nn) * p.bplanck }

  /** What the surface returns of the downward source d, with its own source. */
  function Returned(p: Medium, jq: int, d: real): real {
    if p.lyrcut || (Azimuthal(p) && p.lamber) then 0.0
    else if Azimuthal(p) then d + SurfaceBeam(p, jq)
    else if p.fbeam == 0.0 then 2.0 * d + SurfaceEmission(p, jq)
    else 2.0 * d + SurfaceBeam(p, jq) + SurfaceEmission(p, jq)
  }

  ghost function BottomRhs(p: Medium, jq: int): real {
    Returned(p, jq, Dot(Weighted(p, jq), SourceBelow(p), 1, p.nn + 1)) - SourceOf(p, jq, p.ncut, p.ncut)
  }

  /** The right-hand side vector: nn top rows, nstr rows for each interface, nn bottom rows. */
  ghost function StreamRhs(p: Medium): Vec
    requires p.nn > 0
  {
    i =>
      if i <= p.nn then TopRhs(p, p.nn + 1 - i)
      else if i > Order(p) - p.nn then BottomRhs(p, i - Base(Nstr(p), p.ncut))
      else InterfaceRhs(p, StreamOf(Nstr(p), i - p.nn - 1), LayerOf(Nstr(p), i - p.nn - 1))
  }

  /** The mean component of a truncated column with a pseudo-spherical beam: c_solve0 has no loop over streams here. */
  predicate LoopMissing(p: Medium) { p.spher && p.lyrcut && !Azimuthal(p) && p.fbeam != 0.0 }

  /** An azimuthal component over a surface that is not Lambertian, which c_solve0 declines in this geometry. */
  predicate NotImplemented(p: Medium) { p.spher && Azimuthal(p) && !p.lyrcut && !p.lamber }

  predicate BottomSet(p: Medium) { !LoopMissing(p) && !NotImplemented(p) }

  /** What c_solve0 leaves in B: zeros in the bottom rows that it does not set. */
  ghost function FilledRhs(p: Medium): Vec
    requires p.nn > 0
  {
    i => if i > Order(p) - p.nn && !BottomSet(p) then 0.0 else StreamRhs(p)(i)
  }

  lemma BeamAtTop(p: Medium, jq: int)
    requires Paired(p) && Consistent(p) && p.fbeam > 0.0
    ensures Beam(p, jq, 1, p.tau(0)) == if p.spher then p.zbeam0(jq, 1) else p.zz(jq, 1)
  {
    if p.umu0 != 0.0 { assert -p.tau(0) / p.umu0 == 0.0; }
    assert -p.zbeama(1) * p.tau(0) == 0.0 && p.zbeam1(jq, 1) * p.tau(0) == 0.0;
    TimesOne(p.exp(0.0), p.zbeam0(jq, 1));
    TimesOne(p.exp(0.0), p.zz(jq, 1));
  }

  lemma TimesOne(e: real, y: real)
    requires e == 1.0
    ensures e * y == y && y * e == y
  {
  }

  lemma TopParticular(p: Medium, jq: int)
    requires Paired(p) && Consistent(p)
    ensures TopRhs(p, jq) == (if p.mazim == 0 then p.fisot + p.tplanck else 0.0) - Particular(p, jq, 1, p.tau(0))
  {
    hide Beam;
    if p.fbeam > 0.0 { BeamAtTop(p, jq); }
    assert p.plk1(jq, 1) * p.tau(0) == 0.0;
  }

  /** The sources c_solve0 takes into account are the particular solution at the interface. */
  lemma SourceIsParticular(p: Medium, jq: int, lc: int, l: int)
    requires Consistent(p) && 0 <= l <= p.ncut
    ensures SourceOf(p, jq, lc, l) == Particular(p, jq, lc, p.tau(l))
  {
    hide BeamAt, SphericalBeam;
    SameProduct(p.zz(jq, lc), p.zz(jq, lc), p.expbea(l), p.expbea(l));
    if p.fbeam > 0.0 && !p.spher { SameProduct(p.zz(jq, lc), p.zz(jq, lc), p.expbea(l), BeamAt(p, p.tau(l))); }
    if !p.planck { SameProduct(p.plk1(jq, lc), 0.0, p.tau(l), p.tau(l)); }
  }

  lemma InterfaceParticular(p: Medium, jq: int, lc: int)
    requires Consistent(p) && 1 <= lc < p.ncut
    ensures InterfaceRhs(p, jq, lc) == Particular(p, jq, lc + 1, p.tau(lc)) - Particular(p, jq, lc, p.tau(lc))
  {
    hide SourceOf, Particular;
    SourceIsParticular(p, jq, lc + 1, lc);
    SourceIsParticular(p, jq, lc, lc);
  }

  ghost function ParticularBelow(p: Medium): Vec { k => Particular(p, p.nn + 1 - k, p.ncut, p.tau(p.ncut)) }

  lemma ReflectedSource(p: Medium, jq: int)
    requires Consistent(p) && 1 <= p.ncut
    ensures Dot(Weighted(p, jq), ParticularBelow(p), 1, p.nn + 1) == Dot(Weighted(p, jq), SourceBelow(p), 1, p.nn + 1)
  {
    hide Particular, SourceOf;
    forall k | 1 <= k < p.nn + 1 ensures SourceBelow(p)(k) == ParticularBelow(p)(k) {
      SourceIsParticular(p, p.nn + 1 - k, p.ncut, p.ncut);
    }
    DotCongruence(Weighted(p, jq), SourceBelow(p), Weighted(p, jq), ParticularBelow(p), 1, p.nn + 1);
  }

  lemma BottomParticular(p: Medium, jq: int)
    requires Consistent(p) && 1 <= p.ncut
    ensures BottomRhs(p, jq) ==
      (if NoReflection(p) then 0.0
       else Reflection(p, jq, ParticularBelow(p)) + SurfaceSource(p, jq))
      - Particular(p, jq, p.ncut, p.tau(p.ncut))
  {
    hide Particular, SourceOf, Dot, Weighted, ParticularBelow, SourceBelow, SurfaceBeam, SurfaceEmission, BeamAt;
    SourceIsParticular(p, jq, p.ncut, p.ncut);
    ReflectedSource(p, jq);
    DoubledMean(Dot(Weighted(p, jq), ParticularBelow(p), 1, p.nn + 1), p.delm0);
    SurfaceSourceParts(p, jq);
  }

  lemma SurfaceSourceParts(p: Medium, jq: int)
    ensures SurfaceSource(p, jq) ==
      (if p.fbeam > 0.0 then SurfaceBeam(p, jq) else 0.0) + (if p.mazim == 0 then SurfaceEmission(p, jq) else 0.0)
  {
  }

  lemma DoubledMean(d: real, delm0: real)
    ensures delm0 == 0.0 ==> (1.0 + delm0) * d == d
    ensures delm0 == 1.0 ==> (1.0 + delm0) * d == 2.0 * d
  {
  }

  lemma FactoredOut(a: real, b: real, c: real)
    ensures (a - b) * c == a * c - b * c && -a * c == -(a * c)
  {
  }
}
