/** The intensity at a level does not depend on which of the layers that hold it the level is placed in. */
module FieldLevels {
  import opened LinearAlgebra
  import opened DeltaScaling
  import Two = TwoStreamSystem
  import Many = StreamField
  import Medium = StreamSystem

  ghost predicate Descending(tau: Vec, n: int) { forall i :: 1 <= i <= n ==> tau(i - 1) <= tau(i) }

  lemma {:induction false} DepthsInOrder(tau: Vec, n: int, i: int, j: int)
    requires Descending(tau, n) && 0 <= i <= j <= n
    ensures tau(i) <= tau(j)
    decreases j
  {
    if i < j { DepthsInOrder(tau, n, i, j - 1); }
  }

  /** A depth in two layers is on the lower boundary of the upper one and on every boundary between them. */
  lemma SharedDepth(tau: Vec, n: int, lc: int, lc': int, t: real)
    requires Descending(tau, n) && 1 <= lc < lc' <= n && t <= tau(lc) && tau(lc' - 1) <= t
    ensures tau(lc) == t && t <= tau(lc + 1)
  {
    DepthsInOrder(tau, n, lc, lc' - 1);
    DepthsInOrder(tau, n, lc, lc + 1);
  }

  /** The two intensities at depth t are the same from layer lc and from any lower layer that holds t. */
  lemma {:induction false} TwoStreamSingleValued(p: Two.Column, x: Vec, lc: int, lc': int, t: real)
    requires Two.RadiationField(p, x) && Descending(p.tau, p.ncut) && 1 <= lc <= lc' <= p.ncut
    requires t <= p.tau(lc) && p.tau(lc' - 1) <= t
    ensures Two.Down(p, x, lc, t) == Two.Down(p, x, lc', t) && Two.Up(p, x, lc, t) == Two.Up(p, x, lc', t)
    decreases lc' - lc
  {
    hide Two.Down, Two.Up;
    if lc < lc' {
      SharedDepth(p.tau, p.ncut, lc, lc', t);
      assert Two.ContinuousAt(p, x, lc);
      TwoStreamSingleValued(p, x, lc + 1, lc', t);
    }
  }

  /** Every stream's intensity at depth t is the same from layer lc and from any lower layer that holds t. */
  lemma {:induction false} StreamSingleValued(p: Medium.Medium, x: Vec, jq: int, lc: int, lc': int, t: real)
    requires Many.RadiationField(p, x) && Descending(p.tau, p.ncut) && 1 <= lc <= lc' <= p.ncut
    requires 1 <= jq <= Medium.Nstr(p) && t <= p.tau(lc) && p.tau(lc' - 1) <= t
    ensures Many.Intensity(p, x, jq, lc, t) == Many.Intensity(p, x, jq, lc', t)
    decreases lc' - lc
  {
    hide Many.Intensity;
    if lc < lc' {
      SharedDepth(p.tau, p.ncut, lc, lc', t);
      assert Many.ContinuousAt(p, x, jq, lc);
      StreamSingleValued(p, x, jq, lc + 1, lc', t);
    }
  }

  /** The field is computed on the scaled depths of the first ncut layers of m. */
  ghost predicate OnScaledDepths(tau: Vec, ncut: int, m: Layers) {
    1 <= ncut <= m.n && forall i :: 0 <= i <= ncut ==> tau(i) == ScaledDepth(m, i)
  }

  lemma ScaledDepthsDescend(tau: Vec, ncut: int, m: Layers)
    requires Physical(m) && OnScaledDepths(tau, ncut, m)
    ensures Descending(tau, ncut)
  {
    hide ScaledDepth, Physical;
    forall i | 1 <= i <= ncut ensures tau(i - 1) <= tau(i) { DepthOrder(m, i - 1, i); }
  }

  /**
   * The two-stream intensities at a level of the medium, at the scaled depth the level gets, are the same
   * whichever layer that holds it is used, so in particular those that c_twostr_fluxes takes from the layer found.
   */
  lemma TwoStreamLevel(p: Two.Column, x: Vec, m: Layers, u: real, lc: int)
    requires Two.RadiationField(p, x) && Physical(m) && OnScaledDepths(p.tau, p.ncut, m)
    requires Contains(m, lc, u) && lc <= p.ncut
    ensures var l := LayerFound(m, u);
      && 1 <= l <= p.ncut && Contains(m, l, u)
      && Two.Down(p, x, l, ScaledLevel(m, l, u)) == Two.Down(p, x, lc, ScaledLevel(m, lc, u))
      && Two.Up(p, x, l, ScaledLevel(m, l, u)) == Two.Up(p, x, lc, ScaledLevel(m, lc, u))
  {
    hide Two.Down, Two.Up, Two.RadiationField, ScaledLevel, Physical;
    var l, t := FoundAbove(m, u, lc, p.ncut);
    ScaledDepthsDescend(p.tau, p.ncut, m);
    TwoStreamSingleValued(p, x, l, lc, t);
  }

  /** The layer found is the highest that holds the level, and both give it the same scaled depth. */
  lemma FoundAbove(m: Layers, u: real, lc: int, ncut: int) returns (l: int, t: real)
    requires Physical(m) && Contains(m, lc, u) && lc <= ncut <= m.n
    ensures l == LayerFound(m, u) && 1 <= l <= lc && Contains(m, l, u)
    ensures t == ScaledLevel(m, l, u) == ScaledLevel(m, lc, u)
    ensures ScaledDepth(m, lc - 1) <= t <= ScaledDepth(m, l)
  {
    hide Depth, ScaledDepth, ScaledLevel, Physical, LayerFrom;
    TopDepth(m);
    DepthOrder(m, 0, lc - 1);
    DepthOrder(m, lc, m.n);
    LevelPlaced(m, u);
    LayerFromHolds(m, 1, u);
    l, t := LayerFound(m, u), ScaledLevel(m, lc, u);
    LevelIndependentOfLayer(m, l, lc, u);
    LevelWithin(m, lc, u);
    LevelWithin(m, l, u);
  }

  /** The same for every stream of c_intensity_components. */
  lemma StreamLevel(p: Medium.Medium, x: Vec, m: Layers, jq: int, u: real, lc: int)
    requires Many.RadiationField(p, x) && Physical(m) && OnScaledDepths(p.tau, p.ncut, m)
    requires 1 <= jq <= Medium.Nstr(p) && Contains(m, lc, u) && lc <= p.ncut
    ensures var l := LayerFound(m, u);
      && 1 <= l <= p.ncut && Contains(m, l, u)
      && Many.Intensity(p, x, jq, l, ScaledLevel(m, l, u)) == Many.Intensity(p, x, jq, lc, ScaledLevel(m, lc, u))
  {
    hide Many.Intensity, Many.RadiationField, ScaledLevel, Physical;
    var l, t := FoundAbove(m, u, lc, p.ncut);
    ScaledDepthsDescend(p.tau, p.ncut, m);
    StreamSingleValued(p, x, jq, l, lc, t);
  }
}
