/** cloud_microphysics in place: the mixing ratios of a layer of cells, one row a cell, and the heating. */
module Microphysics {
  import opened RealArithmetic
  import opened Comparisons
  import opened MicrophysicsSpec
  import opened MicrophysicsBudgets
  import opened MicrophysicsRuns

  const VAPOR := 0
  const LIQUID := 1
  const ICE := 2
  const RAIN := 3
  const SNOW := 4
  const PHASES := 5

  ghost function PhasesAt(q: array2<real>, c: int): Phases
    requires 0 <= c < q.Length0 && q.Length1 == PHASES
    reads q
  {
    Phases(q[c, VAPOR], q[c, LIQUID], q[c, ICE], q[c, RAIN], q[c, SNOW])
  }

  /** Latent heats: of condensation, of sublimation, of fusion. */
  datatype Heats = Heats(lc: real, ls: real, lf: real)

  /** The change in heating that goes with the finite-rate transfers. */
  function HeatChange(e: Setting, r: Rates, l: Heats): real {
    (if Exceeds(e, Abs(r.pcond), e.eps) then -Released(r.pcond, l.lc) else 0.0)
    + (if Exceeds(e, Abs(r.prevap), e.eps) then -Released(r.prevap, l.lc) else 0.0)
    + Released(r.pint + r.pdepi + r.psevap, l.ls)
  }

  function Released(rate: real, latentHeat: real): real { rate * latentHeat }

  method CondenseOrEvaporate(e: Setting, b0: Budget) returns (pcond: real, b: Budget)
    requires e.dt > 0.0 && e.latent >= 0.0 && e.eps > 0.0 && Comparison(e.cmp)
    ensures pcond == Condensation(e, b0) && b == AfterCondensation(e, b0)
  {
    pcond, b := 0.0, b0;
    MassLinear(0.0, 0.0, e.dt);
    if e.warm {
      if e.cmp(e.rh, 1.0) > 0 {
        pcond := b.supersat / (1.0 + e.latent) / e.dt;
        if e.cmp(pcond, e.eps) <= 0 {
          pcond := 0.0;
        } else {
          b := b.(supersat := b.supersat - Mass(pcond, e.dt));
        }
      } else if e.cmp(b.liquid, e.eps) > 0 {
        pcond := b.subsat / (1.0 + e.latent) / e.dt;
        if e.cmp(pcond, e.eps) <= 0 {
          pcond := 0.0;
        } else {
          pcond := -Lesser(pcond, b.liquid / e.dt);
          b := b.(subsat := b.subsat + Mass(pcond, e.dt));
          b := b.(liquid := b.liquid + Mass(pcond, e.dt));
        }
      }
    }
  }

  method FormOrLoseIce(e: Setting, q: Phases, b0: Budget) returns (pint: real, pdepi: real, b: Budget)
    requires e.dt > 0.0 && e.eps > 0.0 && Comparison(e.cmp)
    ensures pint == Initiation(e, q, b0) && pdepi == Deposition(e, q, b0) && b == AfterIce(e, q, b0)
  {
    hide Mass;
    pint, pdepi, b := 0.0, 0.0, b0;
    MassLinear(0.0, 0.0, e.dt);
    if !e.warm {
      if e.cmp(e.rh, 1.0) > 0 {
        if e.cmp(q.ice, e.eps) <= 0 {
          pint := Lesser(e.initiation / e.dt, b.supersat / e.dt);
          if e.cmp(pint, e.eps) <= 0 {
            pint := 0.0;
          } else {
            b := b.(supersat := b.supersat - Mass(pint, e.dt));
          }
        } else if e.cmp(b.supersat, e.eps) > 0 {
          pdepi := Lesser(e.deposition, b.supersat / e.dt);
          if e.cmp(pdepi, e.eps) <= 0 {
            pdepi := 0.0;
          } else {
            b := b.(supersat := b.supersat - Mass(pdepi, e.dt));
          }
        }
      } else if e.cmp(b.ice, e.eps) > 0 {
        pdepi := Lesser(e.sublimation, b.ice / e.dt);
        if e.cmp(pdepi, e.eps) <= 0 { pdepi := 0.0; }
        MassLinear(pdepi, 0.0, e.dt);
        b := b.(subsat := b.subsat - Mass(pdepi, e.dt));
        b := b.(ice := b.ice - Mass(pdepi, e.dt));
        pdepi := -pdepi;
      }
    }
  }

  method FormPrecipitation(e: Setting, b0: Budget) returns (praut: real, psaut: real, b: Budget)
    requires e.dt > 0.0 && !e.nonPrecip
    ensures praut == RainFormation(e, b0) && psaut == SnowFormation(e, b0) && b == AfterFormation(e, b0)
  {
    hide Mass, Autoconversion;
    praut, psaut, b := 0.0, 0.0, b0;
    MassLinear(0.0, 0.0, e.dt);
    if e.cmp(b.liquid, e.liquidThreshold) > 0 {
      praut := Autoconversion(e.alpha, b.liquid - e.liquidThreshold);
      if e.cmp(praut, e.eps) <= 0 {
        praut := 0.0;
      } else {
        b := b.(liquid := b.liquid - Mass(praut, e.dt));
      }
    }
    if e.cmp(b.ice, e.iceThreshold) > 0 {
      psaut := Greater((b.ice - e.iceThreshold) / e.dt, 0.0);
      if e.cmp(psaut, e.eps) <= 0 {
        psaut := 0.0;
      } else {
        b := b.(ice := b.ice - Mass(psaut, e.dt));
      }
    }
  }

  method Collect(e: Setting, q: Phases, b0: Budget) returns (pracw: real, psaci: real, b: Budget)
    requires e.dt > 0.0 && !e.nonPrecip
    ensures pracw == RainCollection(e, q, b0) && psaci == SnowCollection(e, q, b0) && b == AfterCollection(e, q, b0)
  {
    hide Mass;
    pracw, psaci, b := 0.0, 0.0, b0;
    MassLinear(0.0, 0.0, e.dt);
    if e.cmp(q.rain, e.eps) > 0 && e.cmp(b.liquid, e.eps) > 0 {
      pracw := Lesser(b.liquid / e.dt, e.rainCollection);
      if e.cmp(pracw, e.eps) <= 0 {
        pracw := 0.0;
      } else {
        b := b.(liquid := b.liquid - Mass(pracw, e.dt));
      }
    }
    if e.cmp(q.snow, e.eps) > 0 && e.cmp(b.ice, e.eps) > 0 {
      psaci := Lesser(b.ice / e.dt, e.snowCollection);
      if e.cmp(psaci, e.eps) <= 0 {
        psaci := 0.0;
      } else {
        b := b.(ice := b.ice - Mass(psaci, e.dt));
      }
    }
  }

  method ExchangePrecipitation(e: Setting, q: Phases, b0: Budget) returns (prevap: real, psevap: real, b: Budget)
    requires e.dt > 0.0 && e.eps > 0.0 && Comparison(e.cmp) && !e.nonPrecip
    ensures prevap == RainExchange(e, q, b0) && psevap == SnowExchange(e, q, b0)
    ensures b == AfterExchange(e, b0, prevap + psevap)
  {
    hide Mass;
    prevap, psevap, b := 0.0, 0.0, b0;
    MassLinear(0.0, 0.0, e.dt);
    if e.cmp(q.rain, e.eps) > 0 && e.warm {
      if e.cmp(b.subsat, e.eps) > 0 {
        prevap := e.rainEvaporation;
        prevap := Lesser(prevap, b.subsat / e.dt);
        prevap := Lesser(prevap, q.rain / e.dt);
        if e.cmp(prevap, e.eps) <= 0 {
          prevap := 0.0;
        } else {
          MassLinear(prevap, 0.0, e.dt);
          b := b.(subsat := b.subsat - Mass(prevap, e.dt));
          prevap := -prevap;
        }
      } else if e.cmp(b.supersat, e.eps) > 0 {
        prevap := Lesser(e.rainGrowth, b.supersat / e.dt);
        if e.cmp(prevap, e.eps) <= 0 {
          prevap := 0.0;
        } else {
          b := b.(supersat := b.supersat - Mass(prevap, e.dt));
        }
      }
    } else if e.cmp(q.snow, e.eps) > 0 && !e.warm {
      if e.cmp(b.subsat, e.eps) > 0 {
        psevap := e.snowEvaporation;
        if e.cmp(psevap, e.eps) <= 0 {
          psevap := 0.0;
        } else {
          psevap := Lesser(psevap, b.subsat / e.dt);
          psevap := Lesser(psevap, q.snow / e.dt);
          MassLinear(psevap, 0.0, e.dt);
          b := b.(subsat := b.subsat - Mass(psevap, e.dt));
          psevap := -psevap;
        }
      } else if e.cmp(b.supersat, e.eps) > 0 {
        psevap := Lesser(e.snowGrowth, b.supersat / e.dt);
        if e.cmp(psevap, e.eps) <= 0 {
          psevap := 0.0;
        } else {
          b := b.(supersat := b.supersat - Mass(psevap, e.dt));
        }
      }
    }
  }

  /** All rates of one cell, from budgets that shrink as they are spent. */
  method ComputeRates(e: Setting, q: Phases) returns (r: Rates)
    requires Usable(e)
    ensures r == AllRates(e, q)
  {
    hide Mass, Condensation, Initiation, Deposition, RainFormation, SnowFormation, RainCollection, SnowCollection;
    hide RainExchange, SnowExchange, AfterCondensation, AfterIce, AfterFormation, AfterCollection, AfterExchange,
        Comparison;
    ghost var k := Books(e, q);
    var b := Opening(e, q);
    var pcond, pint, pdepi, praut, psaut, pracw, psaci, prevap, psevap := 0.0, 0.0, 0.0, 0.0, 0.0, 0.0, 0.0, 0.0, 0.0;
    pcond, b := CondenseOrEvaporate(e, b);
    pint, pdepi, b := FormOrLoseIce(e, q, b);
    if !e.nonPrecip {
      praut, psaut, b := FormPrecipitation(e, b);
      pracw, psaci, b := Collect(e, q, b);
      prevap, psevap, b := ExchangePrecipitation(e, q, b);
    } else {
      NoPrecipitation(e, q, k.iced);
      NoPrecipitation(e, q, k.formed);
      NoPrecipitation(e, q, k.collected);
    }
    r := Rates(pcond, pint, pdepi, praut, psaut, pracw, psaci, prevap, psevap);
  }

  lemma NoPrecipitation(e: Setting, q: Phases, b: Budget)
    requires e.dt > 0.0 && e.nonPrecip
    ensures RainFormation(e, b) == 0.0 && SnowFormation(e, b) == 0.0
    ensures RainCollection(e, q, b) == 0.0 && SnowCollection(e, q, b) == 0.0
    ensures RainExchange(e, q, b) == 0.0 && SnowExchange(e, q, b) == 0.0
  {
  }

  ghost predicate Layer(q: array2<real>, heat: array<real>)
  {
    q.Length1 == PHASES && heat.Length == q.Length0
  }

  /** The transfers applied to row c, phase by phase. */
  method ApplyTransfers(q: array2<real>, c: int, r: Rates, dt: real)
    requires q.Length1 == PHASES && 0 <= c < q.Length0
    modifies q
    ensures PhasesAt(q, c) == Transferred(old(PhasesAt(q, c)), r, dt)
    ensures forall i, p :: 0 <= i < q.Length0 && 0 <= p < PHASES && i != c ==> q[i, p] == old(q[i, p])
  {
    hide Mass;
    q[c, VAPOR] := q[c, VAPOR] - Mass(r.pcond, dt);
    q[c, LIQUID] := q[c, LIQUID] + Mass(r.pcond, dt);
    q[c, VAPOR] := q[c, VAPOR] - Mass(r.pint + r.pdepi, dt);
    q[c, ICE] := q[c, ICE] + Mass(r.pint + r.pdepi, dt);
    q[c, LIQUID] := q[c, LIQUID] - Mass(r.praut + r.pracw, dt);
    q[c, RAIN] := q[c, RAIN] + Mass(r.praut + r.pracw, dt);
    q[c, ICE] := q[c, ICE] - Mass(r.psaut + r.psaci, dt);
    q[c, SNOW] := q[c, SNOW] + Mass(r.psaut + r.psaci, dt);
    q[c, RAIN] := q[c, RAIN] + Mass(r.prevap, dt);
    q[c, VAPOR] := q[c, VAPOR] - Mass(r.prevap, dt);
    q[c, SNOW] := q[c, SNOW] + Mass(r.psevap, dt);
    q[c, VAPOR] := q[c, VAPOR] - Mass(r.psevap, dt);
  }

  /** The heating that goes with the transfers. */
  method ApplyHeating(heat: array<real>, c: int, e: Setting, r: Rates, l: Heats)
    requires 0 <= c < heat.Length
    modifies heat
    ensures heat[c] == old(heat[c]) + HeatChange(e, r, l)
    ensures forall i :: 0 <= i < heat.Length && i != c ==> heat[i] == old(heat[i])
  {
    hide Released, Abs;
    if e.cmp(Abs(r.pcond), e.eps) > 0 { heat[c] := heat[c] - Released(r.pcond, l.lc); }
    if e.cmp(Abs(r.prevap), e.eps) > 0 { heat[c] := heat[c] - Released(r.prevap, l.lc); }
    heat[c] := heat[c] + Released(r.pint + r.pdepi + r.psevap, l.ls);
  }

  /** One cell: the finite-rate transfers and their heating. */
  method FiniteRateProcesses(q: array2<real>, heat: array<real>, c: int, e: Setting, l: Heats, noHeating: bool)
    requires Layer(q, heat) && 0 <= c < q.Length0 && Usable(e)
    modifies q, heat
    ensures PhasesAt(q, c) == FiniteRates(e, old(PhasesAt(q, c)))
    ensures forall r, p :: 0 <= r < q.Length0 && 0 <= p < PHASES && r != c ==> q[r, p] == old(q[r, p])
    ensures heat[c] == old(heat[c]) + if noHeating then 0.0 else HeatChange(e, AllRates(e, old(PhasesAt(q, c))), l)
    ensures forall r :: 0 <= r < heat.Length && r != c ==> heat[r] == old(heat[r])
  {
    hide AllRates, Transferred, HeatChange, Comparison;
    var here := Phases(q[c, VAPOR], q[c, LIQUID], q[c, ICE], q[c, RAIN], q[c, SNOW]);
    var r := ComputeRates(e, here);
    ApplyTransfers(q, c, r, e.dt);
    if !noHeating { ApplyHeating(heat, c, e, r, l); }
  }

  /** Melting above the triple point, freezing below it, of everything at once. */
  method InstantaneousProcesses(q: array2<real>, heat: array<real>, c: int, e: Setting, l: Heats, noHeating: bool)
    requires Layer(q, heat) && 0 <= c < q.Length0 && Comparison(e.cmp) && e.dt > 0.0 && e.eps > 0.0
    modifies q, heat
    ensures PhasesAt(q, c) == Instantaneous(e, old(PhasesAt(q, c)))
    ensures forall r, p :: 0 <= r < q.Length0 && 0 <= p < PHASES && r != c ==> q[r, p] == old(q[r, p])
    ensures heat[c] == old(heat[c]) - if noHeating then 0.0 else
      Released(CloudMelting(e, old(PhasesAt(q, c))) + PrecipitationMelting(e, old(PhasesAt(q, c))), l.lf)
    ensures forall r :: 0 <= r < heat.Length && r != c ==> heat[r] == old(heat[r])
  {
    hide Mass, Comparison, Released, CloudMelting, PrecipitationMelting;
    var psmlti, psmlts := MeltingRates(e, Phases(q[c, VAPOR], q[c, LIQUID], q[c, ICE], q[c, RAIN], q[c, SNOW]));
    q[c, LIQUID] := q[c, LIQUID] + Mass(psmlti, e.dt);
    q[c, ICE] := q[c, ICE] - Mass(psmlti, e.dt);
    q[c, RAIN] := q[c, RAIN] + Mass(psmlts, e.dt);
    q[c, SNOW] := q[c, SNOW] - Mass(psmlts, e.dt);
    if !noHeating { heat[c] := heat[c] - Released(psmlti + psmlts, l.lf); }
  }

  method MeltingRates(e: Setting, q: Phases) returns (psmlti: real, psmlts: real)
    requires e.dt > 0.0 && Comparison(e.cmp) && e.eps > 0.0
    ensures psmlti == CloudMelting(e, q) && psmlts == PrecipitationMelting(e, q)
  {
    psmlti, psmlts := 0.0, 0.0;
    if e.warm && e.cmp(q.ice, e.eps) > 0 {
      psmlti := q.ice / e.dt;
      if e.cmp(psmlti, e.eps) != 1 { psmlti := 0.0; }
    } else if !e.warm && e.cmp(q.liquid, e.eps) > 0 {
      psmlti := q.liquid / e.dt;
      if e.cmp(psmlti, e.eps) != 1 { psmlti := 0.0; } else { psmlti := -psmlti; }
    }
    if !e.nonPrecip {
      if e.warm && e.cmp(q.snow, e.eps) > 0 {
        psmlts := q.snow / e.dt;
        if e.cmp(psmlts, e.eps) != 1 { psmlts := 0.0; }
      } else if !e.warm && e.cmp(q.rain, e.eps) > 0 {
        psmlts := q.rain / e.dt;
        if e.cmp(psmlts, e.eps) != 1 { psmlts := 0.0; } else { psmlts := -psmlts; }
      }
    }
  }

  /** Every phase of every cell brought up to the floor. */
  method RestoreMassMin(q: array2<real>, e: Setting)
    requires q.Length1 == PHASES
    modifies q
    ensures forall c, p :: 0 <= c < q.Length0 && 0 <= p < PHASES ==> q[c, p] == old(q[c, p]) + Added(e, old(q[c, p]))
  {
    for c := 0 to q.Length0
      invariant forall r, p :: 0 <= r < c && 0 <= p < PHASES ==> q[r, p] == old(q[r, p]) + Added(e, old(q[r, p]))
      invariant forall r, p :: c <= r < q.Length0 && 0 <= p < PHASES ==> q[r, p] == old(q[r, p])
    {
      for ip := 0 to PHASES
        invariant forall r, p :: 0 <= r < c && 0 <= p < PHASES ==> q[r, p] == old(q[r, p]) + Added(e, old(q[r, p]))
        invariant forall r, p :: c < r < q.Length0 && 0 <= p < PHASES ==> q[r, p] == old(q[r, p])
        invariant forall p :: 0 <= p < ip ==> q[c, p] == old(q[c, p]) + Added(e, old(q[c, p]))
        invariant forall p :: ip <= p < PHASES ==> q[c, p] == old(q[c, p])
      {
        if e.cmp(q[c, ip], e.eps) <= 0 { q[c, ip] := e.eps; }
      }
    }
  }

  /** The settings of the cells of a layer: they share the comparison and the floor. */
  ghost predicate SameFloor(es: seq<Setting>, floor: Setting) {
    forall c :: 0 <= c < |es| ==> Usable(es[c]) && es[c].cmp == floor.cmp && es[c].eps == floor.eps
  }

  /**
   * What a cell with phases q adds to the heating in one step: melting and freezing first, then the finite-rate
   * transfers.
   */
  function StepHeat(e: Setting, q: Phases, l: Heats): real
    requires e.dt > 0.0 && e.rh > 0.0 && e.latent >= 0.0
  {
    CellHeat(e, Restored(e, q), l)
  }

  /** The same for phases that are at the floor already. */
  function CellHeat(e: Setting, q: Phases, l: Heats): real
    requires e.dt > 0.0 && e.rh > 0.0 && e.latent >= 0.0
  {
    HeatChange(e, AllRates(e, Instantaneous(e, q)), l)
    - Released(CloudMelting(e, q) + PrecipitationMelting(e, q), l.lf)
  }

  /** Melting and the finite-rate transfers, cell by cell. */
  method ProcessCells(q: array2<real>, heat: array<real>, es: seq<Setting>, ls: seq<Heats>, floor: Setting)
    requires Layer(q, heat) && |es| == |ls| == q.Length0 && SameFloor(es, floor)
    modifies q, heat
    ensures forall c :: 0 <= c < q.Length0 ==>
      PhasesAt(q, c) == FiniteRates(es[c], Instantaneous(es[c], old(PhasesAt(q, c))))
    ensures forall c :: 0 <= c < q.Length0 ==> heat[c] == old(heat[c]) + CellHeat(es[c], old(PhasesAt(q, c)), ls[c])
  {
    hide FiniteRates, Instantaneous, Comparison, HeatChange, AllRates, CloudMelting, PrecipitationMelting, Released;
    for c := 0 to q.Length0
      invariant forall r :: 0 <= r < c ==>
        PhasesAt(q, r) == FiniteRates(es[r], Instantaneous(es[r], old(PhasesAt(q, r))))
      invariant forall r :: c <= r < q.Length0 ==> PhasesAt(q, r) == old(PhasesAt(q, r))
      invariant forall r :: 0 <= r < c ==> heat[r] == old(heat[r]) + CellHeat(es[r], old(PhasesAt(q, r)), ls[r])
      invariant forall r :: c <= r < q.Length0 ==> heat[r] == old(heat[r])
    {
      InstantaneousProcesses(q, heat, c, es[c], ls[c], false);
      FiniteRateProcesses(q, heat, c, es[c], ls[c], false);
    }
  }

  /** One layer of one species: floor, then melting and the finite-rate transfers cell by cell, then the floor again. */
  method CloudMicrophysics(q: array2<real>, heat: array<real>, es: seq<Setting>, ls: seq<Heats>, floor: Setting)
    requires Layer(q, heat) && |es| == |ls| == q.Length0 && SameFloor(es, floor)
    modifies q, heat
    ensures forall c :: 0 <= c < q.Length0 ==> PhasesAt(q, c) == CellStep(es[c], old(PhasesAt(q, c)))
    ensures forall c :: 0 <= c < q.Length0 ==> heat[c] == old(heat[c]) + StepHeat(es[c], old(PhasesAt(q, c)), ls[c])
  {
    hide FiniteRates, Instantaneous, Added, Comparison, CellHeat;
    RestoreMassMin(q, floor);
    RowsRestored(es, floor);
    ProcessCells(q, heat, es, ls, floor);
    RestoreMassMin(q, floor);
  }

  lemma RowsRestored(es: seq<Setting>, floor: Setting)
    requires SameFloor(es, floor)
    ensures forall c, x :: 0 <= c < |es| ==> Added(es[c], x) == Added(floor, x)
  {
  }
}
