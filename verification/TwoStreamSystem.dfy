/** The two-stream equations: intensities in each layer, and the tridiagonal system that couples the layers. */
module TwoStreamSystem {
  import opened RealArithmetic
  import opened LinearAlgebra

  /**
   * The inputs of c_twostr_solve_bc, one value per layer lc = 1 .. ncut, with tau(0) the top of the column.
   * The exponential is a parameter; what a proof needs of it is stated where it is needed.
   */
  datatype Column = Column(
    ncut: int, exp: real -> real, kk: Vec, rr: Vec, tau: Vec,
    yb0d: Vec, yb1d: Vec, yb0u: Vec, yb1u: Vec, zba: Vec,
    yp0d: Vec, yp1d: Vec, yp0u: Vec, yp1u: Vec, zpa: Vec, expbea: Vec,
    albedo: real, cmu: real, umu0: real, fbeam: real, fisot: real, tplanck: real, bplanck: real,
    lyrcut: bool, planck: bool)

  /** Particular solutions for the beam and the thermal source at optical depth t of layer lc. */
  function BeamDown(p: Column, lc: int, t: real): real { p.exp(-p.zba(lc) * t) * (p.yb0d(lc) + p.yb1d(lc) * t) }
  function BeamUp(p: Column, lc: int, t: real): real { p.exp(-p.zba(lc) * t) * (p.yb0u(lc) + p.yb1u(lc) * t) }
  function ThermalDown(p: Column, lc: int, t: real): real { p.exp(-p.zpa(lc) * t) * (p.yp0d(lc) + p.yp1d(lc) * t) }
  function ThermalUp(p: Column, lc: int, t: real): real { p.exp(-p.zpa(lc) * t) * (p.yp0u(lc) + p.yp1u(lc) * t) }

  function SourceDown(p: Column, lc: int, t: real): real { BeamDown(p, lc, t) + ThermalDown(p, lc, t) }
  function SourceUp(p: Column, lc: int, t: real): real { BeamUp(p, lc, t) + ThermalUp(p, lc, t) }

  /** Attenuation inside layer lc between two depths, and across the whole layer. */
  function Decay(p: Column, lc: int, upper: real, lower: real): real { Attenuation(p.exp, p.kk(lc), upper, lower) }
  function Attenuation(exp: real -> real, k: real, upper: real, lower: real): real { exp(-k * (lower - upper)) }
  function Trans(p: Column, lc: int): real { Decay(p, lc, p.tau(lc - 1), p.tau(lc)) }

  /** Subdiagonal, diagonal and superdiagonal entry and right-hand side of row i. */
  function SubAt(p: Column, i: int): real {
    var lc := i / 2;
    if i == 2 * p.ncut then (if p.lyrcut then 1.0 else 1.0 - 2.0 * p.albedo * p.cmu * p.rr(p.ncut))
    else if i % 2 == 0 then 1.0 - p.rr(lc) * p.rr(lc + 1)
    else (1.0 - p.rr(lc) * p.rr(lc)) * Trans(p, lc)
  }

  function DiagAt(p: Column, i: int): real {
    var lc := i / 2;
    if i == 1 then p.rr(1) * Decay(p, 1, 0.0, p.tau(1))
    else if i == 2 * p.ncut then
      (if p.lyrcut then p.rr(p.ncut) else p.rr(p.ncut) - 2.0 * p.albedo * p.cmu) * Trans(p, p.ncut)
    else if i % 2 == 0 then (p.rr(lc) - p.rr(lc + 1)) * Trans(p, lc)
    else (p.rr(lc) - p.rr(lc + 1)) * Trans(p, lc + 1)
  }

  function SuperAt(p: Column, i: int): real {
    var lc := i / 2;
    if i == 1 then 1.0
    else if i % 2 == 0 then -(1.0 - p.rr(lc + 1) * p.rr(lc + 1)) * Trans(p, lc + 1)
    else -(1.0 - p.rr(lc + 1) * p.rr(lc))
  }

  function JumpDown(p: Column, lc: int): real { SourceDown(p, lc + 1, p.tau(lc)) - SourceDown(p, lc, p.tau(lc)) }
  function JumpUp(p: Column, lc: int): real { SourceUp(p, lc + 1, p.tau(lc)) - SourceUp(p, lc, p.tau(lc)) }

  /** What the surface sends up on its own: the reflected beam and its thermal emission. */
  function SurfaceSource(p: Column): real {
    p.albedo * p.umu0 * p.fbeam / PI * (if p.umu0 <= 0.0 then 0.0 else 1.0) * p.expbea(p.ncut)
    + (1.0 - p.albedo) * p.bplanck
  }

  function RhsAt(p: Column, i: int): real {
    var lc := i / 2;
    if i == 1 then -p.yb0d(1) - p.yp0d(1) + p.fisot + p.tplanck
    else if i == 2 * p.ncut then
      var t := p.tau(p.ncut);
      if p.lyrcut then -SourceUp(p, p.ncut, t)
      else 2.0 * (p.cmu * p.albedo * SourceDown(p, p.ncut, t)) + SurfaceSource(p) - SourceUp(p, p.ncut, t)
    else if i % 2 == 0 then JumpUp(p, lc) - p.rr(lc + 1) * JumpDown(p, lc)
    else JumpDown(p, lc) - p.rr(lc) * JumpUp(p, lc)
  }

  ghost function TriMatrix(p: Column): Mat {
    (i, j) =>
      if j == i then DiagAt(p, i)
      else if j == i - 1 then SubAt(p, i)
      else if j == i + 1 then SuperAt(p, i)
      else 0.0
  }

  ghost function Rhs(p: Column): Vec { i => RhsAt(p, i) }

  /** The intensities at optical depth t of layer lc, from constants of integration x(2 lc - 1) and x(2 lc). */
  function HomogeneousDown(p: Column, x: Vec, lc: int, t: real): real {
    x(2 * lc) * Decay(p, lc, p.tau(lc - 1), t) + p.rr(lc) * (x(2 * lc - 1) * Decay(p, lc, t, p.tau(lc)))
  }

  function HomogeneousUp(p: Column, x: Vec, lc: int, t: real): real {
    x(2 * lc - 1) * Decay(p, lc, t, p.tau(lc)) + p.rr(lc) * (x(2 * lc) * Decay(p, lc, p.tau(lc - 1), t))
  }

  function Down(p: Column, x: Vec, lc: int, t: real): real { SourceDown(p, lc, t) + HomogeneousDown(p, x, lc, t) }
  function Up(p: Column, x: Vec, lc: int, t: real): real { SourceUp(p, lc, t) + HomogeneousUp(p, x, lc, t) }

  /** Both intensities agree across the interface below layer lc. */
  ghost predicate ContinuousAt(p: Column, x: Vec, lc: int) {
    Down(p, x, lc, p.tau(lc)) == Down(p, x, lc + 1, p.tau(lc)) && Up(p, x, lc, p.tau(lc)) == Up(p, x, lc + 1, p.tau(lc))
  }

  ghost predicate TopCondition(p: Column, x: Vec) { Down(p, x, 1, p.tau(0)) == p.fisot + p.tplanck }

  /** The surface reflects what arrives and adds its own source; a truncated column sends nothing up. */
  ghost predicate BottomCondition(p: Column, x: Vec) {
    Up(p, x, p.ncut, p.tau(p.ncut)) ==
      if p.lyrcut then 0.0 else 2.0 * p.albedo * p.cmu * Down(p, x, p.ncut, p.tau(p.ncut)) + SurfaceSource(p)
  }

  ghost predicate RadiationField(p: Column, x: Vec) {
    && TopCondition(p, x) && BottomCondition(p, x)
    && forall lc :: 1 <= lc < p.ncut ==> ContinuousAt(p, x, lc)
  }

  /** The column starts at depth 0 and exp(0) is 1. */
  ghost predicate WellPosed(p: Column) {
    && 1 <= p.ncut && p.tau(0) == 0.0 && p.exp(0.0) == 1.0
    && forall lc :: 1 <= lc < p.ncut ==> Separable(p, lc)
  }

  predicate Separable(p: Column, lc: int) { NotInverse(p.rr(lc), p.rr(lc + 1)) }

  predicate NotInverse(r: real, r': real) { r * r' != 1.0 }

  /** The two combined rows of an interface hold exactly when both continuity equations do. */
  lemma CombinedRows(r: real, r': real, u: real, d: real)
    requires r * r' != 1.0
    ensures u - r' * d == 0.0 && d - r * u == 0.0 <==> u == 0.0 && d == 0.0
  {
    if u - r' * d == 0.0 && d - r * u == 0.0 {
      assert u == r' * (r * u);
      assert (1.0 - r * r') * u == 0.0;
    }
  }

  lemma FirstRow(a: real, b: real, a': real, b': real, r: real, r': real, jd: real, ju: real)
    ensures (1.0 - r * r') * a + (r - r') * b + -(1.0 - r' * r') * a' - (ju - r' * jd)
      == (a + r * b - a' - r' * b' - ju) - r' * (b + r * a - b' - r' * a' - jd)
  {
  }

  lemma SecondRow(a: real, b: real, a': real, b': real, r: real, r': real, jd: real, ju: real)
    ensures (1.0 - r * r) * b + (r - r') * a' + -(1.0 - r' * r) * b' - (jd - r * ju)
      == (b + r * a - b' - r' * a' - jd) - r * (a + r * b - a' - r' * b' - ju)
  {
  }

  lemma InterfaceRows(a: real, b: real, a': real, b': real, r: real, r': real, jd: real, ju: real)
    requires NotInverse(r, r')
    ensures (1.0 - r * r') * a + (r - r') * b + -(1.0 - r' * r') * a' == ju - r' * jd
         && (1.0 - r * r) * b + (r - r') * a' + -(1.0 - r' * r) * b' == jd - r * ju
       <==> a + r * b - a' - r' * b' == ju && b + r * a - b' - r' * a' == jd
  {
    FirstRow(a, b, a', b', r, r', jd, ju);
    SecondRow(a, b, a', b', r, r', jd, ju);
    CombinedRows(r, r', a + r * b - a' - r' * b' - ju, b + r * a - b' - r' * a' - jd);
  }
}
