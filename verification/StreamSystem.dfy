/** The n-stream equations: Fourier intensity components in each layer, and the matrix that couples the layers. */
module StreamSystem {
  import opened RealArithmetic
  import opened LinearAlgebra

  /**
   * What c_set_matrix and c_solve0 read, in plane-parallel or pseudo-spherical geometry. Layers are numbered
   * 1 .. ncut and streams 1 .. 2 nn, the first nn of them downward; gc(jq, iq, lc) is component jq of
   * eigenvector iq of layer lc.
   */
  datatype Medium = Medium(
    nn: int, ncut: int, exp: real -> real, gc: (int, int, int) -> real, kk: Mat, tau: Vec, dtau: Vec,
    zz: Mat, spher: bool, zbeam0: Mat, zbeam1: Mat, zbeama: Vec,
    plk0: Mat, plk1: Mat, expbea: Vec, cwt: Vec, cmu: Vec, bdr: Mat, bem: Vec,
    mazim: int, delm0: real, fbeam: real, umu0: real, fisot: real, tplanck: real, bplanck: real,
    lyrcut: bool, lamber: bool, planck: bool)

  function Nstr(p: Medium): int { 2 * p.nn }

  /** Columns before those of layer lc; column Base + iq belongs to constant iq of layer lc. */
  function Base(nstr: int, lc: int): int { (lc - 1) * nstr }

  /** The layer and the constant of zero-based column c. */
  function LayerOf(nstr: int, c: int): int
    requires nstr > 0
  {
    c / nstr + 1
  }

  function StreamOf(nstr: int, c: int): int
    requires nstr > 0
  {
    c % nstr + 1
  }

  function Order(p: Medium): int { Base(Nstr(p), p.ncut + 1) }

  function Exp(p: Medium, k: real, d: real): real { p.exp(k * d) }

  /** WK(iq) of layer lc: the scaling that keeps growing exponentials out of the matrix. */
  function Scale(p: Medium, lc: int, iq: int): real { Exp(p, p.kk(iq, lc), p.dtau(lc)) }

  /** Factor of constant iq at the bottom and at the top of layer lc, and at the top of the medium. */
  function AtBottom(p: Medium, lc: int, iq: int): real { if iq <= p.nn then 1.0 else Scale(p, lc, Nstr(p) + 1 - iq) }
  function AtTop(p: Medium, lc: int, iq: int): real { if iq <= p.nn then Scale(p, lc, iq) else 1.0 }
  function AtTopOfMedium(p: Medium, iq: int): real { if iq <= p.nn then Exp(p, p.kk(iq, 1), p.tau(1)) else 1.0 }

  /** A Lambertian surface reflects no azimuthal component, and a truncated medium reflects nothing. */
  predicate NoReflection(p: Medium) { p.lyrcut || (p.lamber && p.delm0 == 0.0) }

  function Weighted(p: Medium, jq: int): Vec { k => p.cwt(k) * p.cmu(k) * p.bdr(jq - p.nn, k) }
  function DownwardEigen(p: Medium, iq: int): Vec { k => p.gc(p.nn + 1 - k, iq, p.ncut) }

  /** What is left of upward component jq of eigenvector iq at the surface when the reflected part is taken off. */
  ghost function BottomEigen(p: Medium, jq: int, iq: int): real {
    if NoReflection(p) then p.gc(jq, iq, p.ncut)
    else p.gc(jq, iq, p.ncut) - (1.0 + p.delm0) * Dot(Weighted(p, jq), DownwardEigen(p, iq), 1, p.nn + 1)
  }

  /**
   * Entry t of the stretch of 2 nstr entries that constant iq of layer lc occupies in its column: the upper
   * nstr couple to the interface above, the lower ones to the interface below. The flags say whether the top
   * boundary (first layer) and the bottom boundary (last layer) have been written over the interface entries.
   */
  ghost function Stretch(p: Medium, lc: int, iq: int, t: int, top: bool, bottom: bool): real {
    if t < 0 || t >= 2 * Nstr(p) then 0.0
    else if top && lc == 1 && p.nn <= t < Nstr(p) then p.gc(Nstr(p) - t, iq, 1) * AtTopOfMedium(p, iq)
    else if bottom && lc == p.ncut && Nstr(p) <= t < Nstr(p) + p.nn then BottomEigen(p, t + 1 - p.nn,
        iq) * AtBottom(p, lc, iq)
    else if t < Nstr(p) then -p.gc(t + 1, iq, lc) * AtTop(p, lc, iq)
    else p.gc(t + 1 - Nstr(p), iq, lc) * AtBottom(p, lc, iq)
  }

  /** The coefficient matrix: column j holds a stretch that starts in row Base - nn + 1 of its layer. */
  ghost function StreamMatrix(p: Medium): Mat
    requires p.nn > 0
  {
    (i, j) =>
      var iq := StreamOf(Nstr(p), j - 1);
      Stretch(p, LayerOf(Nstr(p), j - 1), iq, i - j + iq + p.nn - 1, true, true)
  }

  lemma BaseStart(nstr: int)
    ensures Base(nstr, 1) == 0
  {
  }

  lemma BaseNext(nstr: int, lc: int)
    ensures Base(nstr, lc + 1) == Base(nstr, lc) + nstr
  {
  }

  lemma BaseMonotone(nstr: int, lc: int, lc': int)
    requires 0 < nstr && lc <= lc'
    ensures Base(nstr, lc) <= Base(nstr, lc') && (lc < lc' ==> Base(nstr, lc) + nstr <= Base(nstr, lc'))
  {
    assert (lc' - lc) * nstr >= 0 by { MulNonnegative(lc' - lc, nstr); }
    if lc < lc' { MulNonnegative(lc' - lc - 1, nstr); }
    assert (lc' - lc) * nstr == Base(nstr, lc') - Base(nstr, lc);
  }

  lemma MulNonnegative(a: int, b: int)
    requires 0 <= a && 0 <= b
    ensures 0 <= a * b
  {
  }

  /** A column determines its layer and constant. */
  lemma ColumnParts(nstr: int, lc: int, iq: int)
    requires 1 <= iq <= nstr
    ensures LayerOf(nstr, Base(nstr, lc) + iq - 1) == lc && StreamOf(nstr, Base(nstr, lc) + iq - 1) == iq
  {
    DivisionUnique(nstr, lc - 1, iq - 1);
  }

  lemma DivisionUnique(d: int, q: int, r: int)
    requires 0 <= r < d
    ensures (q * d + r) / d == q && (q * d + r) % d == r
  {
    var a := q * d + r;
    assert a == (a / d) * d + a % d;
    assert (a / d - q) * d == r - a % d;
    SmallMultiple(a / d - q, d);
  }

  lemma SmallMultiple(k: int, d: int)
    requires -d < k * d < d
    ensures k == 0
  {
    if k >= 1 { MulNonnegative(k - 1, d); }
    if k <= -1 { MulNonnegative(-k - 1, d); }
  }

  lemma ColumnOf(nstr: int, c: int)
    requires 0 < nstr
    ensures c == Base(nstr, LayerOf(nstr, c)) + StreamOf(nstr, c) - 1 && 1 <= StreamOf(nstr, c) <= nstr
  {
    assert c == (c / nstr) * nstr + c % nstr;
  }
}
