/** What the transfers guarantee for a cell: moisture is conserved, no phase is overspent, saturation is respected. */
module MicrophysicsTheorems {
  import opened RealArithmetic
  import opened Comparisons
  import opened MicrophysicsSpec
  import opened MicrophysicsBudgets

  lemma FiniteRatesConserve(e: Setting, q: Phases)
    requires e.dt > 0.0 && e.rh > 0.0 && e.latent >= 0.0
    ensures Total(FiniteRates(e, q)) == Total(q)
  {
    hide AllRates, Mass;
  }

  /** Every group of processes, booked against the budgets it starts from. */
  ghost predicate Booked(e: Setting, q: Phases, k: Ledger, r: Rates)
  {
    && InCredit(k.opening) && k.opening.subsat >= 0.0 && k.opening.ice == q.ice && k.opening.liquid == q.liquid
    && Settles(k.opening, k.condensed, Mass(r.pcond, e.dt))
    && k.condensed.ice == q.ice && k.condensed.liquid <= q.liquid + Mass(r.pcond, e.dt)
    && Settles(k.condensed, k.iced, Mass(r.pint + r.pdepi, e.dt))
    && k.iced.liquid == k.condensed.liquid && k.iced.ice <= q.ice + Mass(r.pint + r.pdepi, e.dt)
    && k.formed == k.iced.(liquid := k.iced.liquid - Mass(r.praut, e.dt), ice := k.iced.ice - Mass(r.psaut, e.dt))
    && k.collected ==
       k.formed.(liquid := k.formed.liquid - Mass(r.pracw, e.dt), ice := k.formed.ice - Mass(r.psaci, e.dt))
    && InCredit(k.collected) && Mass(r.praut, e.dt) >= 0.0 && Mass(r.psaut, e.dt) >= 0.0
    && Mass(r.pracw, e.dt) >= 0.0 && Mass(r.psaci, e.dt) >= 0.0
    && Settles(k.collected, k.closing, Mass(r.prevap + r.psevap, e.dt))
    && Mass(r.prevap, e.dt) >= -q.rain && Mass(r.psevap, e.dt) >= -q.snow
  }

  lemma BooksBalance(e: Setting, q: Phases)
    requires Valid(e) && Nonnegative(q)
    ensures Booked(e, q, Books(e, q), AllRates(e, q))
  {
    hide Mass, Valid, Opening, AfterCondensation, AfterIce, AfterFormation, AfterCollection, AfterExchange;
    hide Condensation, Initiation, Deposition, RainFormation, SnowFormation, RainCollection, SnowCollection;
    hide RainExchange, SnowExchange;
    ValidPositive(e);
    var k := Books(e, q);
    OpeningBalance(e, q);
    OpeningStocks(e, q);
    CondensationSettles(e, k.opening);
    IceSettles(e, q, k.condensed);
    FormationSettles(e, k.iced);
    CollectionSettles(e, q, k.formed);
    ClosingSettles(e, q, k.collected);
  }

  lemma ValidPositive(e: Setting)
    requires Valid(e)
    ensures e.dt > 0.0 && e.rh > 0.0 && e.latent >= 0.0 && e.eps > 0.0
  {
  }

  lemma OpeningStocks(e: Setting, q: Phases)
    requires e.rh > 0.0
    ensures Opening(e, q).ice == q.ice && Opening(e, q).liquid == q.liquid
  {
  }

  lemma ClosingSettles(e: Setting, q: Phases, b: Budget)
    requires Valid(e) && InCredit(b) && q.rain >= 0.0 && q.snow >= 0.0
    ensures var x, y := RainExchange(e, q, b), SnowExchange(e, q, b);
      && Settles(b, AfterExchange(e, b, x + y), Mass(x + y, e.dt))
      && Mass(x, e.dt) >= -q.rain && Mass(y, e.dt) >= -q.snow
      && (b.subsat >= 0.0 ==> AfterExchange(e, b, x + y).subsat >= 0.0)
  {
    hide Mass, RainExchange, SnowExchange, AfterExchange;
    PrecipitationSettles(e, q, b);
    MassLinear(0.0, 0.0, e.dt);
  }

  /** No phase gives more than it has. */
  lemma FiniteRatesNonnegative(e: Setting, q: Phases)
    requires Valid(e) && Nonnegative(q)
    ensures Nonnegative(FiniteRates(e, q))
  {
    hide Mass, Valid, Books, AllRates;
    ValidPositive(e);
    BooksBalance(e, q);
    SaturationGap(e, q);
    var r, dt := AllRates(e, q), e.dt;
    MassLinear(r.praut, r.pracw, dt);
    MassLinear(r.psaut, r.psaci, dt);
  }

  /** What the vapor ends above its saturation value is what is left of the two budgets. */
  lemma SaturationGap(e: Setting, q: Phases)
    requires Valid(e) && Nonnegative(q)
    ensures var k := Books(e, q);
      && FiniteRates(e, q).vapor == q.vapor / e.rh + k.closing.supersat - k.closing.subsat
      && FiniteRates(e, q).vapor >= 0.0
      && k.closing.supersat >= 0.0 && k.closing.supersat <= k.opening.supersat && k.closing.subsat <= k.opening.subsat
  {
    hide Mass, Valid, Books, AllRates;
    ValidPositive(e);
    BooksBalance(e, q);
    BooksOpen(e, q);
    OpeningBalance(e, q);
    var r := AllRates(e, q);
    MassLinear(r.prevap, r.psevap, e.dt);
    hide Opening;
  }

  lemma BooksOpen(e: Setting, q: Phases)
    requires e.dt > 0.0 && e.rh > 0.0 && e.latent >= 0.0
    ensures Books(e, q).opening == Opening(e, q)
  {
  }

  /** A supersaturated cell is never dried below saturation. */
  lemma SupersaturationNotCrossed(e: Setting, q: Phases)
    requires Valid(e) && Nonnegative(q) && e.rh >= 1.0
    ensures FiniteRates(e, q).vapor >= q.vapor / e.rh
  {
    hide Valid, Books, FiniteRates, Opening;
    ValidPositive(e);
    SaturationGap(e, q);
    BooksOpen(e, q);
    OpeningBalance(e, q);
  }

  /**
   * Exactly when a subsaturated cell stays at or below saturation: always if warm, else if sublimation keeps within.
   */
  ghost predicate SublimationWithin(e: Setting, q: Phases)
    requires Valid(e)
  {
    e.warm || !Exceeds(e, q.ice, e.eps)
    || Mass(Noticed(e, Lesser(e.sublimation, q.ice / e.dt)), e.dt) <= Subsaturation(q.vapor, e.rh)
  }

  lemma IcedSubsaturation(e: Setting, q: Phases)
    requires Valid(e) && Nonnegative(q) && e.rh <= 1.0
    ensures Books(e, q).iced.subsat >= 0.0 <==> SublimationWithin(e, q)
  {
    hide Mass, Valid, AfterCondensation, SublimationWithin, AfterFormation, AfterCollection, AfterExchange, AfterIce;
    hide Condensation, RainFormation, SnowFormation, RainCollection, SnowCollection, RainExchange, SnowExchange;
    hide Subsaturation, Supersaturation;
    ValidPositive(e);
    var b := Opening(e, q);
    OpeningBalance(e, q);
    CondensationSettles(e, b);
    if !e.warm { ColdCondensesNothing(e, b); }
    SublimationDecides(e, q, AfterCondensation(e, b));
  }

  lemma ClosingSubsaturation(e: Setting, q: Phases)
    requires Valid(e) && Nonnegative(q) && e.rh <= 1.0
    ensures var k := Books(e, q); k.closing.supersat == 0.0 && (k.closing.subsat >= 0.0 <==> SublimationWithin(e, q))
  {
    hide Mass, Valid, Books, AllRates, SublimationWithin, Opening, FiniteRates, AfterExchange;
    ValidPositive(e);
    OpeningBalance(e, q);
    BooksOpen(e, q);
    SaturationGap(e, q);
    BooksBalance(e, q);
    IcedSubsaturation(e, q);
    BooksClose(e, q);
    ClosingSettles(e, q, Books(e, q).collected);
  }

  lemma BooksClose(e: Setting, q: Phases)
    requires e.dt > 0.0 && e.rh > 0.0 && e.latent >= 0.0
    ensures var k := Books(e, q);
      k.closing == AfterExchange(e, k.collected, RainExchange(e, q, k.collected) + SnowExchange(e, q, k.collected))
  {
  }

  lemma ColdCondensesNothing(e: Setting, b: Budget)
    requires Valid(e) && !e.warm
    ensures AfterCondensation(e, b) == b
  {
    MassLinear(0.0, 0.0, e.dt);
  }

  lemma SublimationDecides(e: Setting, q: Phases, b: Budget)
    requires Valid(e) && b.subsat >= 0.0 && e.rh <= 1.0
    requires !e.warm ==> b.subsat == Subsaturation(q.vapor, e.rh) && b.ice == q.ice
    ensures AfterIce(e, q, b).subsat >= 0.0 <==> SublimationWithin(e, q)
  {
    hide Mass, Noticed, Subsaturation;
    MassLinear(0.0, 0.0, e.dt);
    MassLinear(Noticed(e, Lesser(e.sublimation, b.ice / e.dt)), 0.0, e.dt);
    assert !Saturated(e);
  }

  lemma SubsaturationNotCrossed(e: Setting, q: Phases)
    requires Valid(e) && Nonnegative(q) && e.rh <= 1.0
    ensures FiniteRates(e, q).vapor <= q.vapor / e.rh <==> SublimationWithin(e, q)
  {
    hide Valid, Books, FiniteRates, SublimationWithin;
    ValidPositive(e);
    SaturationGap(e, q);
    ClosingSubsaturation(e, q);
  }

  /** Comparison of exact values. */
  function ExactCompare(): (cmp: Compare)
    ensures Comparison(cmp) && Exact(cmp)
  {
    (x, y) => if x > y then 1 else if x < y then -1 else 0
  }

  function ColdSetting(): Setting {
    Setting(ExactCompare(), 1.0, 0.001, 0.8, false, false, 1.0, 0.0, 0.0, 3.0, 0.0, 0.0, 100.0, 0.0, 0.0, 0.0, 0.0,
        0.0, 0.0)
  }

  lemma ColdSettingSublimates()
    ensures Valid(ColdSetting()) && !SublimationWithin(ColdSetting(), Phases(4.0, 0.0, 5.0, 0.0, 0.0))
  {
    var e := ColdSetting();
    assert 1.0 / 0.8 == 1.25;
    assert 5.0 / e.dt == 5.0;
    assert Subsaturation(4.0, 0.8) == 1.0;
    assert Noticed(e, Lesser(3.0, 5.0)) == 3.0;
    assert Mass(3.0, e.dt) == 3.0;
  }

  /** In a cold cell at 80% humidity, sublimation of cloud ice alone carries the vapor past saturation. */
  lemma ColdSublimationCanCross()
    ensures var e, q := ColdSetting(), Phases(4.0, 0.0, 5.0, 0.0, 0.0);
      Valid(e) && Nonnegative(q) && !e.warm && e.rh < 1.0 && FiniteRates(e, q).vapor > q.vapor / e.rh
  {
    hide FiniteRates, SublimationWithin;
    ColdSettingSublimates();
    SubsaturationNotCrossed(ColdSetting(), Phases(4.0, 0.0, 5.0, 0.0, 0.0));
    hide Valid;
  }

  /** Melting and freezing move moisture between a liquid and its frozen phase, all of it or none. */
  lemma InstantaneousMoves(e: Setting, q: Phases)
    requires Comparison(e.cmp) && e.dt > 0.0 && e.eps > 0.0
    ensures var q' := Instantaneous(e, q);
      && Total(q') == Total(q) && q'.vapor == q.vapor && (Nonnegative(q) ==> Nonnegative(q'))
      && q'.liquid + q'.ice == q.liquid + q.ice && q'.rain + q'.snow == q.rain + q.snow
      && (if e.warm then q'.ice in {q.ice, 0.0} && q'.snow in {q.snow, 0.0}
          else q'.liquid in {q.liquid, 0.0} && q'.rain in {q.rain, 0.0})
  {
    hide Mass, Noticed;
    MassLinear(0.0, 0.0, e.dt);
    WholeOrNone(e, q.ice);
    WholeOrNone(e, q.liquid);
    WholeOrNone(e, q.snow);
    WholeOrNone(e, q.rain);
  }

  lemma WholeOrNone(e: Setting, x: real)
    requires e.dt > 0.0
    ensures var r := Noticed(e, x / e.dt);
      (Mass(r, e.dt) == 0.0 || Mass(r, e.dt) == x) && Mass(-r, e.dt) == -Mass(r, e.dt)
  {
    hide Mass;
    MassLinear(0.0, 0.0, e.dt);
    MassLinear(Noticed(e, x / e.dt), 0.0, e.dt);
    MassOfShare(x, e.dt);
  }

  /** The bound on the conversion rate cannot be dropped: above it, some cell overspends its cloud liquid. */
  lemma FastConversionOverspends(e: Setting)
    requires Usable(e) && e.liquidThreshold >= 0.0 && Exact(e.cmp) && !e.nonPrecip && e.alpha * e.dt > 1.0
    ensures exists q: Phases :: Nonnegative(q) && FiniteRates(e, q).liquid < 0.0
  {
    var p := e.alpha * e.dt;
    assert e.alpha != 0.0 && p - 1.0 != 0.0;
    var u, v := e.liquidThreshold / (p - 1.0), e.eps / e.alpha;
    assert u * (p - 1.0) == e.liquidThreshold && v * e.alpha == e.eps;
    var t := u + v + 1.0;
    SurplusEnough(e.alpha, e.dt, e.liquidThreshold, e.eps, p, u, v, t);
    var q := Phases(0.0, e.liquidThreshold + t, 0.0, 0.0, 0.0);
    DryCellOverspends(e, q, t);
    assert Nonnegative(q);
    hide FiniteRates;
  }

  lemma SurplusEnough(alpha: real, dt: real, threshold: real, eps: real, p: real, u: real, v: real, t: real)
    requires dt > 0.0 && p == alpha * dt && p > 1.0 && threshold >= 0.0 && eps > 0.0
    requires u * (p - 1.0) == threshold && v * alpha == eps && t == u + v + 1.0
    ensures t > 0.0 && alpha * t > eps && Mass(alpha * t, dt) > threshold + t
  {
    if alpha < 0.0 { NegativeProduct(alpha, dt); }
    if u < 0.0 { NegativeProduct(u, p - 1.0); }
    if v < 0.0 { NegativeProduct(v, alpha); }
    assert alpha * t == alpha * u + eps + alpha && alpha * u >= 0.0;
    assert (alpha * t) * dt == t * p == t * (p - 1.0) + t;
    assert t * (p - 1.0) == threshold + v * (p - 1.0) + (p - 1.0) && v * (p - 1.0) >= 0.0;
  }

  lemma DryCellOverspends(e: Setting, q: Phases, t: real)
    requires Usable(e) && e.liquidThreshold >= 0.0 && Exact(e.cmp) && !e.nonPrecip && t > 0.0
    requires q == Phases(0.0, e.liquidThreshold + t, 0.0, 0.0, 0.0)
    requires e.alpha * t > e.eps && Mass(e.alpha * t, e.dt) > q.liquid
    ensures FiniteRates(e, q).liquid < 0.0
  {
    hide Mass, AfterFormation, AfterCollection, AfterExchange, SnowFormation, RainCollection, SnowCollection;
    hide RainExchange, SnowExchange, Condensation, RainFormation, Initiation, Deposition, AfterCondensation, AfterIce;
    var k, r := Books(e, q), AllRates(e, q);
    DryBudgets(e, q);
    DryRain(e, k.iced, t);
    DryCollection(e, q, k.formed);
    MassLinear(r.praut, r.pracw, e.dt);
    hide Opening;
  }

  lemma DryBudgets(e: Setting, q: Phases)
    requires Usable(e) && q.vapor == 0.0 && q.ice == 0.0
    ensures var k := Books(e, q); k.iced.liquid == q.liquid && Mass(Condensation(e, k.opening), e.dt) == 0.0
  {
    hide Mass, AfterFormation, AfterCollection, AfterExchange, Deposition, Initiation;
    MassLinear(0.0, 0.0, e.dt);
    var b := Opening(e, q);
    assert b == Budget(0.0, 0.0, 0.0, q.liquid);
    assert 0.0 / (1.0 + e.latent) / e.dt == 0.0;
    assert e.cmp(0.0, e.eps) <= 0;
    assert Condensation(e, b) == 0.0;
    DryIce(e, q, AfterCondensation(e, b));
    hide AfterIce;
  }

  lemma DryIce(e: Setting, q: Phases, b: Budget)
    requires e.dt > 0.0
    ensures AfterIce(e, q, b).liquid == b.liquid
  {
  }

  lemma DryRain(e: Setting, b: Budget, t: real)
    requires Exact(e.cmp) && !e.nonPrecip && t > 0.0 && b.liquid == e.liquidThreshold + t && e.eps > 0.0
    requires Comparison(e.cmp) && e.alpha * t > e.eps
    ensures RainFormation(e, b) == e.alpha * t
  {
    var s := b.liquid - e.liquidThreshold;
    assert s == t && e.alpha * s == e.alpha * t;
    assert e.cmp(b.liquid, e.liquidThreshold) != 0 && e.cmp(Autoconversion(e.alpha, s), e.eps) != 0;
  }

  lemma DryCollection(e: Setting, q: Phases, b: Budget)
    requires e.dt > 0.0 && Comparison(e.cmp) && e.eps > 0.0
    ensures Mass(RainCollection(e, q, b), e.dt) >= 0.0
  {
    hide Mass;
    MassLinear(0.0, 0.0, e.dt);
    MassMonotone(0.0, RainCollection(e, q, b), e.dt);
  }
}
