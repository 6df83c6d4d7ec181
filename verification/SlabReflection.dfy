/** How the layers above a depth reflect light that comes from below. */
module SlabReflection {
  import opened RealArithmetic
  import opened LinearAlgebra
  import opened TwoStreamSystem
  import opened TwoStreamContinuity

  /** Under a reflectance rho, the downward constant of a layer is Response times its upward constant at the top. */
  function Response(r: real, rho: real): real { if rho * r == 1.0 then 0.0 else (rho - r) / (1.0 - rho * r) }

  /** What returns to the bottom of a layer of transmission w, from its upper boundary. */
  function Returned(r: real, w: real, rho: real): real { (w * w) * Response(r, rho) }

  /** The reflectance, seen from below, of a layer with coefficient r and transmission w under a reflectance rho. */
  function Through(r: real, w: real, rho: real): real {
    var v := Returned(r, w, rho);
    if Growth(r, v) == 0.0 then 0.0 else (v + r) / Growth(r, v)
  }

  /** The reflectance of layers 1 .. lc, seen from below; above the column there is nothing. */
  function SlabReflectance(p: Column, lc: int): real
    decreases lc
  {
    if lc <= 0 then 0.0 else Through(p.rr(lc), Trans(p, lc), SlabReflectance(p, lc - 1))
  }

  /** A layer attenuates and does not reflect everything. */
  predicate PhysicalLayer(p: Column, lc: int) {
    0.0 <= p.kk(lc) && p.tau(lc - 1) <= p.tau(lc) && 0.0 <= p.rr(lc) < 1.0
  }

  /** exp is positive, at most 1 on nonpositive arguments, and 1 at 0. */
  ghost predicate Exponential(exp: real -> real) {
    exp(0.0) == 1.0 && forall z: real :: exp(z) > 0.0 && (z <= 0.0 ==> exp(z) <= 1.0)
  }

  ghost predicate PhysicalLayers(p: Column) {
    && 1 <= p.ncut && p.tau(0) == 0.0 && Exponential(p.exp)
    && forall lc :: 1 <= lc <= p.ncut ==> PhysicalLayer(p, lc)
  }

  lemma TransmissionRange(p: Column, lc: int)
    requires PhysicalLayers(p) && 1 <= lc <= p.ncut
    ensures 0.0 < Trans(p, lc) <= 1.0
  {
    assert PhysicalLayer(p, lc);
    NonnegativeProduct(p.kk(lc), p.tau(lc) - p.tau(lc - 1));
    var z := -p.kk(lc) * (p.tau(lc) - p.tau(lc - 1));
    assert z <= 0.0;
  }

  lemma FractionRange(x: real, up: real, down: real)
    requires 0.0 < down && x * down == up
    ensures (0.0 <= up ==> 0.0 <= x) && (up < down ==> x < 1.0)
  {
    if x < 0.0 { PositiveProduct(-x, down, -up); }
    if x >= 1.0 { NonnegativeProduct(x - 1.0, down); }
  }

  lemma ProductAtMostOne(a: real, b: real)
    requires 0.0 <= a <= 1.0 && 0.0 <= b <= 1.0
    ensures 0.0 <= a * b <= a && a * b <= b
  {
    NonnegativeProduct(a, b);
    NonnegativeProduct(a, 1.0 - b);
    NonnegativeProduct(1.0 - a, b);
  }

  function Growth(r: real, v: real): real { 1.0 + r * v }

  /** The equations that q, v and rho' satisfy, free of quotients. */
  ghost predicate LayerLaw(r: real, w: real, rho: real, q: real, v: real, rho': real) {
    && 0.0 < 1.0 - rho * r && q * (1.0 - rho * r) == rho - r && v == (w * w) * q
    && 0.0 < Growth(r, v) && rho' * Growth(r, v) == v + r
  }

  lemma ThroughLaw(r: real, w: real, rho: real)
    requires 0.0 <= r < 1.0 && 0.0 < w <= 1.0 && 0.0 <= rho < 1.0
    ensures LayerLaw(r, w, rho, Response(r, rho), Returned(r, w, rho), Through(r, w, rho))
    ensures 0.0 <= Through(r, w, rho) < 1.0
  {
    ResponseRange(r, rho);
    hide Response;
    ProductAtMostOne(w, w);
    ReturnedRange(w * w, Response(r, rho), r, Returned(r, w, rho));
    ThroughRange(r, w, rho);
  }

  lemma ThroughRange(r: real, w: real, rho: real)
    requires 0.0 <= r < 1.0 && -r <= Returned(r, w, rho) < 1.0
    ensures var v := Returned(r, w, rho);
      0.0 <= Through(r, w, rho) < 1.0 && 0.0 < Growth(r, v) && Through(r, w, rho) * Growth(r, v) == v + r
  {
    hide Returned;
    BelowRange(Returned(r, w, rho), r, Through(r, w, rho));
  }

  lemma ResponseRange(r: real, rho: real)
    requires 0.0 <= r < 1.0 && 0.0 <= rho < 1.0
    ensures var q := Response(r, rho); -r <= q < 1.0 && 0.0 < 1.0 - rho * r && q * (1.0 - rho * r) == rho - r
  {
    ProductAtMostOne(rho, r);
    var d := 1.0 - rho * r;
    var q := (rho - r) / d;
    Cancel(d, rho - r);
    QuotientRange(q, r, rho, d);
  }

  lemma QuotientRange(q: real, r: real, rho: real, d: real)
    requires 0.0 <= r < 1.0 && 0.0 <= rho < 1.0 && d == 1.0 - rho * r && d > 0.0 && q * d == rho - r
    ensures -r <= q < 1.0
  {
    ProductAtMostOne(r, r);
    NonnegativeProduct(rho, 1.0 - r * r);
    assert r * d == r - rho * (r * r);
    assert (q + r) * d == rho * (1.0 - r * r);
    FractionRange(q + r, rho * (1.0 - r * r), d);
    PositiveProduct(1.0 - rho, 1.0 + r, d - (rho - r));
    FractionRange(q, rho - r, d);
  }

  lemma ReturnedRange(s: real, q: real, r: real, v: real)
    requires 0.0 <= s <= 1.0 && 0.0 <= r < 1.0 && -r <= q < 1.0 && v == s * q
    ensures -r <= v < 1.0
  {
    NonnegativeProduct(s, q + r);
    NonnegativeProduct(r, 1.0 - s);
    NonnegativeProduct(s, 1.0 - q);
    if s == 1.0 { SameProduct(s, 1.0, q, q); } else if q > 0.0 { NonnegativeProduct(1.0 - s, q); }
  }

  lemma BelowRange(v: real, r: real, rho': real)
    requires 0.0 <= r < 1.0 && -r <= v < 1.0
    requires rho' == if Growth(r, v) == 0.0 then 0.0 else (v + r) / Growth(r, v)
    ensures 0.0 <= rho' < 1.0 && 0.0 < Growth(r, v) && rho' * Growth(r, v) == v + r
  {
    NonnegativeProduct(r, v + r);
    ProductAtMostOne(r, r);
    var up, down := v + r, Growth(r, v);
    assert down > 0.0;
    Cancel(down, up);
    assert rho' * down == up;
    PositiveProduct(1.0 - r, 1.0 - v, down - up);
    FractionRange(rho', up, down);
  }

  /** The reflectance of any stack of physical layers is at least 0 and less than 1. */
  lemma {:induction false} SlabReflectanceRange(p: Column, lc: int)
    requires PhysicalLayers(p) && 0 <= lc <= p.ncut
    ensures 0.0 <= SlabReflectance(p, lc) < 1.0
    decreases lc
  {
    if lc > 0 {
      hide Through, Trans;
      SlabReflectanceRange(p, lc - 1);
      TransmissionRange(p, lc);
      assert PhysicalLayer(p, lc);
      ThroughLaw(p.rr(lc), Trans(p, lc), SlabReflectance(p, lc - 1));
    }
  }

  /** A reflectance above the layer is a relation between its two constants; c is what crosses the layer upwards. */
  lemma TopRelation(b: real, c: real, r: real, rho: real, q: real, dt: real, ut: real)
    requires 0.0 < 1.0 - rho * r && q * (1.0 - rho * r) == rho - r
    requires dt == b + r * c && ut == c + r * b
    ensures dt == rho * ut <==> b == q * c
  {
    var d := 1.0 - rho * r;
    assert rho * ut == rho * c + (rho * r) * b;
    assert dt - rho * ut == d * b - (rho - r) * c;
    assert (rho - r) * c == d * (q * c);
    if dt == rho * ut { ZeroFactor(d, b - q * c); }
  }

  /** Under that relation, the intensities at the bottom of the layer; e is what crosses the layer downwards. */
  lemma BottomRelation(a: real, e: real, r: real, v: real, rho': real, db: real, ub: real)
    requires e == v * a && 0.0 < Growth(r, v) && rho' * Growth(r, v) == v + r
    requires db == e + r * a && ub == a + r * e
    ensures ub == Growth(r, v) * a && db == rho' * ub
    ensures ub == 0.0 ==> a == 0.0
  {
    var m := Growth(r, v);
    assert r * (v * a) == (r * v) * a;
    SameProduct(rho', rho', ub, m * a);
    assert rho' * (m * a) == (rho' * m) * a;
    if ub == 0.0 { ZeroFactor(m, a); }
  }

  lemma Regrouped(w: real, q: real, a: real, b: real, v: real)
    requires b == q * (w * a) && v == (w * w) * q
    ensures w * b == v * a && (a == 0.0 ==> b == 0.0)
  {
    assert w * (q * (w * a)) == ((w * w) * q) * a;
  }

  predicate Reflects(rho: real, down: real, up: real) { down == rho * up }

  /** Nothing but the reflection of layers 1 .. lc - 1 enters layer lc from above. */
  predicate DarkAbove(p: Column, x: Vec, lc: int) {
    var t := p.tau(lc - 1);
    Reflects(SlabReflectance(p, lc - 1), HomogeneousDown(p, x, lc, t), HomogeneousUp(p, x, lc, t))
  }

  /** At the bottom of layer lc, all that comes down is what layers 1 .. lc reflect. */
  predicate DarkThrough(p: Column, x: Vec, lc: int) {
    Reflects(SlabReflectance(p, lc), HomogeneousDown(p, x, lc, p.tau(lc)), HomogeneousUp(p, x, lc, p.tau(lc)))
  }

  /** The downward constant that goes with an upward constant a. */
  function Follow(q: real, w: real, a: real): real { q * (w * a) }

  /** The upward intensity at the bottom for upward constant a. */
  function Magnify(m: real, a: real): real { m * a }

  function DownConstant(p: Column, lc: int, a: real): real {
    Follow(Response(p.rr(lc), SlabReflectance(p, lc - 1)), Trans(p, lc), a)
  }

  function UpAtBottom(p: Column, lc: int, a: real): real {
    Magnify(Growth(p.rr(lc), Returned(p.rr(lc), Trans(p, lc), SlabReflectance(p, lc - 1))), a)
  }

  /** One layer in scalars: c and e are what crosses it upwards and downwards. */
  lemma LayerScalars(a: real, b: real, c: real, e: real, w: real, r: real, rho: real, q: real, v: real, rho': real,
      dt: real, ut: real, db: real, ub: real)
    requires LayerLaw(r, w, rho, q, v, rho') && c == w * a && e == w * b
    requires dt == b + r * c && ut == c + r * b && db == e + r * a && ub == a + r * e
    ensures Reflects(rho, dt, ut) <==> b == Follow(q, w, a)
    ensures Reflects(rho, dt, ut) ==> Reflects(rho', db, ub) && ub == Magnify(Growth(r, v), a)
    ensures Reflects(rho, dt, ut) && ub == 0.0 ==> a == 0.0 == b
  {
    hide Growth;
    TopRelation(b, c, r, rho, q, dt, ut);
    if b == Follow(q, w, a) { LayerBelow(a, b, e, w, r, q, v, rho', db, ub); }
  }

  lemma LayerBelow(a: real, b: real, e: real, w: real, r: real, q: real, v: real, rho': real, db: real, ub: real)
    requires b == Follow(q, w, a) && v == (w * w) * q && e == w * b
    requires 0.0 < Growth(r, v) && rho' * Growth(r, v) == v + r && db == e + r * a && ub == a + r * e
    ensures Reflects(rho', db, ub) && ub == Magnify(Growth(r, v), a) && (ub == 0.0 ==> a == 0.0 == b)
  {
    hide Growth;
    Regrouped(w, q, a, b, v);
    BottomRelation(a, e, r, v, rho', db, ub);
  }

  /**
   * Whatever the reflectance above a layer is, it fixes the layer's two constants up to a factor, and the reflectance
   * below it.
   */
  lemma LayerRelation(p: Column, x: Vec, lc: int)
    requires PhysicalLayers(p) && 1 <= lc <= p.ncut
    ensures DarkAbove(p, x, lc) <==> x(2 * lc) == DownConstant(p, lc, x(2 * lc - 1))
    ensures DarkAbove(p, x, lc) ==> DarkThrough(p, x, lc)
    ensures DarkAbove(p, x, lc) ==> HomogeneousUp(p, x, lc, p.tau(lc)) == UpAtBottom(p, lc, x(2 * lc - 1))
    ensures DarkAbove(p, x, lc) && HomogeneousUp(p, x, lc, p.tau(lc)) == 0.0 ==> x(2 * lc - 1) == 0.0 == x(2 * lc)
  {
    hide Trans, HomogeneousDown, HomogeneousUp, Response, Returned, Through, Reflects, Follow, Magnify, LayerLaw,
      Growth;
    var a, b, r, w := x(2 * lc - 1), x(2 * lc), p.rr(lc), Trans(p, lc);
    var rho := SlabReflectance(p, lc - 1);
    SlabReflectanceRange(p, lc - 1);
    TransmissionRange(p, lc);
    assert PhysicalLayer(p, lc);
    ThroughLaw(r, w, rho);
    LayerTop(p, x, lc);
    LayerBottom(p, x, lc);
    LayerScalars(a, b, w * a, w * b, w, r, rho, Response(r, rho), Returned(r, w, rho), Through(r, w, rho),
      HomogeneousDown(p, x, lc, p.tau(lc - 1)), HomogeneousUp(p, x, lc, p.tau(lc - 1)),
      HomogeneousDown(p, x, lc, p.tau(lc)), HomogeneousUp(p, x, lc, p.tau(lc)));
  }

  /** The upward constant that gives a wanted upward intensity at the bottom. */
  function UpConstant(p: Column, lc: int, u: real): real {
    var m := Growth(p.rr(lc), Returned(p.rr(lc), Trans(p, lc), SlabReflectance(p, lc - 1)));
    if m == 0.0 then 0.0 else u / m
  }

  lemma UpConstantGives(p: Column, lc: int, u: real)
    requires PhysicalLayers(p) && 1 <= lc <= p.ncut
    ensures UpAtBottom(p, lc, UpConstant(p, lc, u)) == u
  {
    hide Trans, Response, Returned, Through, Growth;
    var r, w, rho := p.rr(lc), Trans(p, lc), SlabReflectance(p, lc - 1);
    SlabReflectanceRange(p, lc - 1);
    TransmissionRange(p, lc);
    assert PhysicalLayer(p, lc);
    ThroughLaw(r, w, rho);
    Cancel(Growth(r, Returned(r, w, rho)), u);
  }
}
