/**
 * The transfers of moisture between the phases of a cloud cell: the rate of every process, and the budgets of
 * available moisture that the processes share. Where the source computes a rate from a closure formula, the
 * value of the formula is a field of the setting.
 */
module MicrophysicsSpec {
  import opened RealArithmetic
  import opened Comparisons

  datatype Phases = Phases(vapor: real, liquid: real, ice: real, rain: real, snow: real)

  function Total(q: Phases): real { q.vapor + q.liquid + q.ice + q.rain + q.snow }

  predicate Nonnegative(q: Phases) {
    q.vapor >= 0.0 && q.liquid >= 0.0 && q.ice >= 0.0 && q.rain >= 0.0 && q.snow >= 0.0
  }

  /**
   * What the processes see of a cell: time step, smallest mass, relative humidity, temperature side, closure values.
   */
  datatype Setting = Setting(
    cmp: Compare, dt: real, eps: real, rh: real, warm: bool, nonPrecip: bool,
    latent: real, initiation: real, deposition: real, sublimation: real,
    alpha: real, liquidThreshold: real, iceThreshold: real, rainCollection: real, snowCollection: real,
    rainEvaporation: real, rainGrowth: real, snowEvaporation: real, snowGrowth: real)

  /** What the formulas need to be defined. */
  ghost predicate Usable(e: Setting) {
    Comparison(e.cmp) && e.dt > 0.0 && e.eps > 0.0 && e.rh > 0.0 && e.latent >= 0.0
  }

  /**
   * What keeps the conversions to precipitation within the cloud: no more than all of it in a step, thresholds
   * not below zero.
   */
  ghost predicate Valid(e: Setting) {
    Usable(e) && e.alpha * e.dt <= 1.0 && e.liquidThreshold >= 0.0 && e.iceThreshold >= 0.0
  }

  predicate Exceeds(e: Setting, x: real, y: real) { e.cmp(x, y) > 0 }

  predicate Saturated(e: Setting) { Exceeds(e, e.rh, 1.0) }

  /** The mass a rate moves in one time step. */
  function Mass(rate: real, dt: real): real { rate * dt }

  /** A rate below the smallest mass counts as none. */
  function Noticed(e: Setting, rate: real): real { if Exceeds(e, rate, e.eps) then rate else 0.0 }

  /** What is left to condense, to evaporate, of cloud ice and of cloud liquid. */
  datatype Budget = Budget(supersat: real, subsat: real, ice: real, liquid: real)

  function Supersaturation(vapor: real, rh: real): real
    requires rh > 0.0
  {
    Greater(vapor * (1.0 - 1.0 / rh), 0.0)
  }

  function Subsaturation(vapor: real, rh: real): real
    requires rh > 0.0
  {
    Greater(vapor * (1.0 / rh - 1.0), 0.0)
  }

  function Opening(e: Setting, q: Phases): Budget
    requires e.rh > 0.0
  {
    Budget(Supersaturation(q.vapor, e.rh), Subsaturation(q.vapor, e.rh), q.ice, q.liquid)
  }

  /** Condensation on cloud liquid when positive, evaporation of it when negative. */
  function Condensation(e: Setting, b: Budget): real
    requires e.dt > 0.0 && e.latent >= 0.0
  {
    if !e.warm then 0.0
    else if Saturated(e) then Noticed(e, b.supersat / (1.0 + e.latent) / e.dt)
    else if Exceeds(e, b.liquid, e.eps) then
      var p := Noticed(e, b.subsat / (1.0 + e.latent) / e.dt);
      if p == 0.0 then 0.0 else -Lesser(p, b.liquid / e.dt)
    else 0.0
  }

  function AfterCondensation(e: Setting, b: Budget): Budget
    requires e.dt > 0.0 && e.latent >= 0.0
  {
    var m := Mass(Condensation(e, b), e.dt);
    if Saturated(e) then b.(supersat := b.supersat - m) else b.(subsat := b.subsat + m, liquid := b.liquid + m)
  }

  /** The first ice out of supersaturated vapor. */
  function Initiation(e: Setting, q: Phases, b: Budget): real
    requires e.dt > 0.0
  {
    if !e.warm && Saturated(e) && !Exceeds(e, q.ice, e.eps) then
      Noticed(e, Lesser(e.initiation / e.dt, b.supersat / e.dt))
    else 0.0
  }

  /** Growth of cloud ice when positive, sublimation of it when negative. */
  function Deposition(e: Setting, q: Phases, b: Budget): real
    requires e.dt > 0.0
  {
    if e.warm then 0.0
    else if Saturated(e) then
      if Exceeds(e, q.ice, e.eps) && Exceeds(e, b.supersat, e.eps) then
        Noticed(e, Lesser(e.deposition, b.supersat / e.dt))
      else 0.0
    else if Exceeds(e, b.ice, e.eps) then -Noticed(e, Lesser(e.sublimation, b.ice / e.dt))
    else 0.0
  }

  function AfterIce(e: Setting, q: Phases, b: Budget): Budget
    requires e.dt > 0.0
  {
    var m := Mass(Initiation(e, q, b), e.dt) + Mass(Deposition(e, q, b), e.dt);
    if Saturated(e) then b.(supersat := b.supersat - m) else b.(subsat := b.subsat + m, ice := b.ice + m)
  }

  function Autoconversion(alpha: real, surplus: real): real { Greater(alpha * surplus, 0.0) }

  /** Cloud liquid turning into rain. */
  function RainFormation(e: Setting, b: Budget): real {
    if !e.nonPrecip && Exceeds(e, b.liquid, e.liquidThreshold) then
      Noticed(e, Autoconversion(e.alpha, b.liquid - e.liquidThreshold))
    else 0.0
  }

  /** Cloud ice turning into snow. */
  function SnowFormation(e: Setting, b: Budget): real
    requires e.dt > 0.0
  {
    if !e.nonPrecip && Exceeds(e, b.ice, e.iceThreshold) then
      Noticed(e, Greater((b.ice - e.iceThreshold) / e.dt, 0.0))
    else 0.0
  }

  function AfterFormation(e: Setting, b: Budget): Budget
    requires e.dt > 0.0
  {
    b.(liquid := b.liquid - Mass(RainFormation(e, b), e.dt), ice := b.ice - Mass(SnowFormation(e, b), e.dt))
  }

  /** Cloud liquid collected by rain. */
  function RainCollection(e: Setting, q: Phases, b: Budget): real
    requires e.dt > 0.0
  {
    if !e.nonPrecip && Exceeds(e, q.rain, e.eps) && Exceeds(e, b.liquid, e.eps) then
      Noticed(e, Lesser(b.liquid / e.dt, e.rainCollection))
    else 0.0
  }

  /** Cloud ice collected by snow. */
  function SnowCollection(e: Setting, q: Phases, b: Budget): real
    requires e.dt > 0.0
  {
    if !e.nonPrecip && Exceeds(e, q.snow, e.eps) && Exceeds(e, b.ice, e.eps) then
      Noticed(e, Lesser(b.ice / e.dt, e.snowCollection))
    else 0.0
  }

  function AfterCollection(e: Setting, q: Phases, b: Budget): Budget
    requires e.dt > 0.0
  {
    b.(liquid := b.liquid - Mass(RainCollection(e, q, b), e.dt), ice := b.ice - Mass(SnowCollection(e, q, b), e.dt))
  }

  /** Growth of rain out of vapor when positive, evaporation when negative. */
  function RainExchange(e: Setting, q: Phases, b: Budget): real
    requires e.dt > 0.0
  {
    if e.nonPrecip || !e.warm || !Exceeds(e, q.rain, e.eps) then 0.0
    else if Exceeds(e, b.subsat, e.eps) then
      -Noticed(e, Lesser(Lesser(e.rainEvaporation, b.subsat / e.dt), q.rain / e.dt))
    else if Exceeds(e, b.supersat, e.eps) then Noticed(e, Lesser(e.rainGrowth, b.supersat / e.dt))
    else 0.0
  }

  /** Growth of snow out of vapor when positive, evaporation when negative. */
  function SnowExchange(e: Setting, q: Phases, b: Budget): real
    requires e.dt > 0.0
  {
    if e.nonPrecip || e.warm || !Exceeds(e, q.snow, e.eps) then 0.0
    else if Exceeds(e, b.subsat, e.eps) then
      var p := Noticed(e, e.snowEvaporation);
      if p == 0.0 then 0.0 else -Lesser(Lesser(p, b.subsat / e.dt), q.snow / e.dt)
    else if Exceeds(e, b.supersat, e.eps) then Noticed(e, Lesser(e.snowGrowth, b.supersat / e.dt))
    else 0.0
  }

  function AfterExchange(e: Setting, b: Budget, rate: real): Budget {
    var m := Mass(rate, e.dt);
    if Exceeds(e, b.subsat, e.eps) then b.(subsat := b.subsat + m) else b.(supersat := b.supersat - m)
  }

  datatype Rates = Rates(pcond: real, pint: real, pdepi: real, praut: real, psaut: real, pracw: real, psaci: real,
    prevap: real, psevap: real)

  /** The budgets after each group of processes. */
  datatype Ledger = Ledger(opening: Budget, condensed: Budget, iced: Budget, formed: Budget, collected: Budget,
      closing: Budget)

  function Books(e: Setting, q: Phases): Ledger
    requires e.dt > 0.0 && e.rh > 0.0 && e.latent >= 0.0
  {
    var b0 := Opening(e, q);
    var b1 := AfterCondensation(e, b0);
    var b2 := AfterIce(e, q, b1);
    var b3 := AfterFormation(e, b2);
    var b4 := AfterCollection(e, q, b3);
    Ledger(b0, b1, b2, b3, b4, AfterExchange(e, b4, RainExchange(e, q, b4) + SnowExchange(e, q, b4)))
  }

  function AllRates(e: Setting, q: Phases): Rates
    requires e.dt > 0.0 && e.rh > 0.0 && e.latent >= 0.0
  {
    var k := Books(e, q);
    Rates(Condensation(e, k.opening), Initiation(e, q, k.condensed), Deposition(e, q, k.condensed),
          RainFormation(e, k.iced), SnowFormation(e, k.iced),
          RainCollection(e, q, k.formed), SnowCollection(e, q, k.formed),
          RainExchange(e, q, k.collected), SnowExchange(e, q, k.collected))
  }

  /** The phases after the transfers. */
  function Transferred(q: Phases, r: Rates, dt: real): Phases {
    Phases(q.vapor - Mass(r.pcond, dt) - Mass(r.pint + r.pdepi, dt) - Mass(r.prevap, dt) - Mass(r.psevap, dt),
           q.liquid + Mass(r.pcond, dt) - Mass(r.praut + r.pracw, dt),
           q.ice + Mass(r.pint + r.pdepi, dt) - Mass(r.psaut + r.psaci, dt),
           q.rain + Mass(r.praut + r.pracw, dt) + Mass(r.prevap, dt),
           q.snow + Mass(r.psaut + r.psaci, dt) + Mass(r.psevap, dt))
  }

  function FiniteRates(e: Setting, q: Phases): Phases
    requires e.dt > 0.0 && e.rh > 0.0 && e.latent >= 0.0
  {
    Transferred(q, AllRates(e, q), e.dt)
  }

  /** The rate at which cloud ice melts when positive, cloud liquid freezes when negative. */
  function CloudMelting(e: Setting, q: Phases): real
    requires e.dt > 0.0
  {
    if e.warm then (if Exceeds(e, q.ice, e.eps) then Noticed(e, q.ice / e.dt) else 0.0)
    else if Exceeds(e, q.liquid, e.eps) then -Noticed(e, q.liquid / e.dt) else 0.0
  }

  function PrecipitationMelting(e: Setting, q: Phases): real
    requires e.dt > 0.0
  {
    if e.nonPrecip then 0.0
    else if e.warm then (if Exceeds(e, q.snow, e.eps) then Noticed(e, q.snow / e.dt) else 0.0)
    else if Exceeds(e, q.rain, e.eps) then -Noticed(e, q.rain / e.dt) else 0.0
  }

  function Instantaneous(e: Setting, q: Phases): Phases
    requires e.dt > 0.0
  {
    var i, s := Mass(CloudMelting(e, q), e.dt), Mass(PrecipitationMelting(e, q), e.dt);
    Phases(q.vapor, q.liquid + i, q.ice - i, q.rain + s, q.snow - s)
  }
}
