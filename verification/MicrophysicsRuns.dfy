/** Whole runs of the cell step: the smallest-mass floor, and total moisture up to what the floor adds. */
module MicrophysicsRuns {
  import opened Comparisons
  import opened MicrophysicsSpec
  import opened MicrophysicsTheorems

  /** What restore_mass_min adds to one phase. */
  function Added(e: Setting, x: real): real { if Exceeds(e, x, e.eps) then 0.0 else e.eps - x }

  function Restored(e: Setting, q: Phases): Phases {
    Phases(q.vapor + Added(e, q.vapor), q.liquid + Added(e, q.liquid), q.ice + Added(e, q.ice),
           q.rain + Added(e, q.rain), q.snow + Added(e, q.snow))
  }

  function TopUp(e: Setting, q: Phases): real {
    Added(e, q.vapor) + Added(e, q.liquid) + Added(e, q.ice) + Added(e, q.rain) + Added(e, q.snow)
  }

  predicate AtLeast(q: Phases, x: real) {
    q.vapor >= x && q.liquid >= x && q.ice >= x && q.rain >= x && q.snow >= x
  }

  lemma RestoredFloor(e: Setting, q: Phases)
    requires Comparison(e.cmp) && e.eps > 0.0
    ensures AtLeast(Restored(e, q), e.eps) && Total(Restored(e, q)) == Total(q) + TopUp(e, q)
    ensures Exact(e.cmp) ==> TopUp(e, q) >= 0.0 && (TopUp(e, q) == 0.0 <==> AtLeast(q, e.eps))
    ensures Nonnegative(q) ==> TopUp(e, q) <= 5.0 * e.eps
  {
    if Exact(e.cmp) {
      AddedExactly(e, q.vapor);
      AddedExactly(e, q.liquid);
      AddedExactly(e, q.ice);
      AddedExactly(e, q.rain);
      AddedExactly(e, q.snow);
    }
  }

  lemma AddedExactly(e: Setting, x: real)
    requires Comparison(e.cmp) && Exact(e.cmp)
    ensures Added(e, x) >= 0.0 && (Added(e, x) == 0.0 <==> x >= e.eps)
  {
    var c := e.cmp(x, e.eps);
  }

  /** The mass-restoring, instantaneous, finite-rate and mass-restoring steps of one cell. */
  function CellStep(e: Setting, q: Phases): Phases
    requires e.dt > 0.0 && e.rh > 0.0 && e.latent >= 0.0
  {
    Restored(e, FiniteRates(e, Instantaneous(e, Restored(e, q))))
  }

  function StepTopUp(e: Setting, q: Phases): real
    requires e.dt > 0.0 && e.rh > 0.0 && e.latent >= 0.0
  {
    TopUp(e, q) + TopUp(e, FiniteRates(e, Instantaneous(e, Restored(e, q))))
  }

  lemma CellStepKeeps(e: Setting, q: Phases)
    requires Valid(e)
    ensures AtLeast(CellStep(e, q), e.eps)
    ensures Total(CellStep(e, q)) == Total(q) + StepTopUp(e, q)
    ensures Exact(e.cmp) ==> StepTopUp(e, q) >= 0.0
    ensures Nonnegative(q) ==> StepTopUp(e, q) <= 10.0 * e.eps
  {
    hide Restored, FiniteRates, Instantaneous, TopUp, Total;
    var q1 := Restored(e, q);
    var q2 := Instantaneous(e, q1);
    var q3 := FiniteRates(e, q2);
    RestoredFloor(e, q);
    InstantaneousMoves(e, q1);
    FiniteRatesConserve(e, q2);
    FiniteRatesNonnegative(e, q2);
    RestoredFloor(e, q3);
    hide *;
  }

  ghost predicate ValidRun(es: seq<Setting>,
      eps: real) { forall i :: 0 <= i < |es| ==> Valid(es[i]) && es[i].eps == eps }

  ghost function Run(es: seq<Setting>, q: Phases, eps: real): Phases
    requires ValidRun(es, eps)
  {
    if es == [] then q else CellStep(es[|es| - 1], Run(es[..|es| - 1], q, eps))
  }

  /** All that the floor has added during the run. */
  ghost function AllTopUps(es: seq<Setting>, q: Phases, eps: real): real
    requires ValidRun(es, eps)
  {
    if es == [] then 0.0
    else AllTopUps(es[..|es| - 1], q, eps) + StepTopUp(es[|es| - 1], Run(es[..|es| - 1], q, eps))
  }

  /**
   * After any number of steps from any state, every phase is at least the floor and the total is the initial
   * total plus exactly what the floor added; from nonnegative phases that is at most ten floors a step.
   */
  lemma {:induction false} RunsConserve(es: seq<Setting>, q: Phases, eps: real)
    requires ValidRun(es, eps)
    ensures |es| > 0 ==> AtLeast(Run(es, q, eps), eps)
    ensures Total(Run(es, q, eps)) == Total(q) + AllTopUps(es, q, eps)
    ensures (forall i :: 0 <= i < |es| ==> Exact(es[i].cmp)) ==> AllTopUps(es, q, eps) >= 0.0
    ensures Nonnegative(q) && eps > 0.0 ==>
      Nonnegative(Run(es, q, eps)) && AllTopUps(es, q, eps) <= 10.0 * eps * |es| as real
  {
    hide Valid, CellStep, StepTopUp, Total, Exact;
    if es == [] {
    } else {
      var last, before := es[|es| - 1], es[..|es| - 1];
      RunsConserve(before, q, eps);
      CellStepKeeps(last, Run(before, q, eps));
      assert forall i :: 0 <= i < |before| ==> before[i] == es[i];
    }
  }
}
