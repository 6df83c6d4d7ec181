/** Every group of processes stays within the budgets, and the budgets account for all exchange with vapor. */
module MicrophysicsBudgets {
  import opened RealArithmetic
  import opened Comparisons
  import opened MicrophysicsSpec

  lemma MassOfShare(x: real, dt: real)
    requires dt > 0.0
    ensures Mass(x / dt, dt) == x
  {
  }

  lemma MassMonotone(r: real, r': real, dt: real)
    requires dt > 0.0 && r <= r'
    ensures Mass(r, dt) <= Mass(r', dt)
  {
    assert (r' - r) * dt >= 0.0;
  }

  lemma MassLinear(r: real, r': real, dt: real)
    ensures Mass(r + r', dt) == Mass(r, dt) + Mass(r', dt) && Mass(-r, dt) == -Mass(r, dt) && Mass(0.0, dt) == 0.0
  {
  }

  /** A share x / dt, a smaller one, or none, moves between nothing and x. */
  lemma NoticedShare(e: Setting, r: real, x: real)
    requires Valid(e) && x >= 0.0 && r <= x / e.dt
    ensures 0.0 <= Mass(Noticed(e, r), e.dt) <= x && Noticed(e, r) >= 0.0
  {
    hide Mass;
    MassLinear(0.0, 0.0, e.dt);
    MassOfShare(x, e.dt);
    if Exceeds(e, r, e.eps) {
      MassMonotone(0.0, r, e.dt);
      MassMonotone(r, x / e.dt, e.dt);
    }
  }

  /** Spreading an amount over a divisor above one leaves less of it. */
  lemma DividedShare(x: real, latent: real, dt: real)
    requires x >= 0.0 && latent >= 0.0 && dt > 0.0
    ensures 0.0 <= x / (1.0 + latent) / dt <= x / dt
  {
    var y := x / (1.0 + latent);
    assert y * (1.0 + latent) == x;
    assert y >= 0.0 && y * latent >= 0.0;
    Quotients(y, x, dt);
  }

  lemma Quotients(y: real, x: real, dt: real)
    requires 0.0 <= y <= x && dt > 0.0
    ensures 0.0 <= y / dt <= x / dt
  {
    var p, q := y / dt, x / dt;
    assert p * dt == y && q * dt == x;
    if p < 0.0 { NegativeProduct(p, dt); }
    if p > q { NegativeProduct(q - p, dt); }
  }

  lemma NegativeProduct(p: real, dt: real)
    requires p < 0.0 && dt > 0.0
    ensures p * dt < 0.0
  {
  }

  /** Nothing is overdrawn, and supersaturation less subsaturation falls by what is taken out of the vapor. */
  ghost predicate Settles(b: Budget, b': Budget, uptake: real) {
    && b'.supersat >= 0.0 && b'.ice >= 0.0 && b'.liquid >= 0.0
    && b'.supersat - b'.subsat == b.supersat - b.subsat - uptake
    && b'.supersat <= b.supersat
    && b'.subsat <= b.subsat
  }

  ghost predicate InCredit(b: Budget) { b.supersat >= 0.0 && b.ice >= 0.0 && b.liquid >= 0.0 }

  lemma OpeningBalance(e: Setting, q: Phases)
    requires Valid(e) && Nonnegative(q)
    ensures var b := Opening(e, q);
      && InCredit(b) && b.subsat >= 0.0
      && q.vapor - (b.supersat - b.subsat) == q.vapor / e.rh && q.vapor - b.supersat >= 0.0
      && (e.rh >= 1.0 ==> b.subsat == 0.0) && (e.rh <= 1.0 ==> b.supersat == 0.0)
  {
    var v, r := q.vapor, 1.0 / e.rh;
    assert r * e.rh == 1.0 && r > 0.0;
    assert v * r >= 0.0;
    assert v * (1.0 - r) == v - v * r && v * (r - 1.0) == v * r - v;
    assert v * r == v / e.rh by { Reciprocal(v, e.rh, r); }
    if e.rh >= 1.0 { SignAbove(v, 1.0 - r, r, e.rh); }
    if e.rh <= 1.0 { SignBelow(v, r - 1.0, r, e.rh); }
  }

  lemma Reciprocal(v: real, h: real, r: real)
    requires h > 0.0 && r == 1.0 / h
    ensures v * r == v / h
  {
    assert (v / h) * h == v && (v * r) * h == v * (r * h);
  }

  lemma SignAbove(v: real, d: real, r: real, h: real)
    requires v >= 0.0 && h >= 1.0 && r > 0.0 && r * h == 1.0 && d == 1.0 - r
    ensures v * d >= 0.0 && v * -d <= 0.0
  {
    assert r * (h - 1.0) >= 0.0;
    assert d >= 0.0;
  }

  lemma SignBelow(v: real, d: real, r: real, h: real)
    requires v >= 0.0 && 0.0 < h <= 1.0 && r > 0.0 && r * h == 1.0 && d == r - 1.0
    ensures v * d >= 0.0 && v * -d <= 0.0
  {
    assert r * (1.0 - h) >= 0.0;
    assert d >= 0.0;
  }

  lemma CondensationSettles(e: Setting, b: Budget)
    requires Valid(e) && InCredit(b) && b.subsat >= 0.0
    ensures var b', m := AfterCondensation(e, b), Mass(Condensation(e, b), e.dt);
      Settles(b, b', m) && b'.subsat >= 0.0 && b'.ice == b.ice && b'.liquid <= b.liquid + m
  {
    hide Mass, Noticed;
    MassLinear(0.0, 0.0, e.dt);
    if e.warm && Saturated(e) {
      DividedShare(b.supersat, e.latent, e.dt);
      NoticedShare(e, b.supersat / (1.0 + e.latent) / e.dt, b.supersat);
    } else if e.warm && Exceeds(e, b.liquid, e.eps) {
      EvaporationShare(e, b);
    }
  }

  lemma EvaporationShare(e: Setting, b: Budget)
    requires Valid(e) && b.subsat >= 0.0 && b.liquid >= 0.0 && e.warm && !Saturated(e) && Exceeds(e, b.liquid, e.eps)
    ensures var m := Mass(Condensation(e, b), e.dt); m <= 0.0 && -m <= b.subsat && -m <= b.liquid
  {
    hide Mass, Noticed;
    var p := Noticed(e, b.subsat / (1.0 + e.latent) / e.dt);
    MassLinear(Lesser(p, b.liquid / e.dt), 0.0, e.dt);
    DividedShare(b.subsat, e.latent, e.dt);
    NoticedShare(e, b.subsat / (1.0 + e.latent) / e.dt, b.subsat);
    MassOfShare(b.liquid, e.dt);
    Quotients(0.0, b.liquid, e.dt);
    MassMonotone(0.0, Lesser(p, b.liquid / e.dt), e.dt);
    MassMonotone(Lesser(p, b.liquid / e.dt), p, e.dt);
    MassMonotone(Lesser(p, b.liquid / e.dt), b.liquid / e.dt, e.dt);
  }

  /** Ice exchange keeps within its budgets too, except that sublimation is not held to the subsaturation. */
  lemma IceSettles(e: Setting, q: Phases, b: Budget)
    requires Valid(e) && InCredit(b)
    ensures var b', m := AfterIce(e, q, b), Mass(Initiation(e, q, b) + Deposition(e, q, b), e.dt);
      && Settles(b, b', m) && b'.liquid == b.liquid && b'.ice <= b.ice + m
      && (e.warm || Saturated(e) ==> b'.subsat == b.subsat)
  {
    hide Mass, Noticed;
    MassLinear(0.0, 0.0, e.dt);
    MassLinear(Initiation(e, q, b), Deposition(e, q, b), e.dt);
    if !e.warm {
      if Saturated(e) {
        NoticedShare(e, Lesser(e.initiation / e.dt, b.supersat / e.dt), b.supersat);
        NoticedShare(e, Lesser(e.deposition, b.supersat / e.dt), b.supersat);
      } else {
        var r := Lesser(e.sublimation, b.ice / e.dt);
        NoticedShare(e, r, b.ice);
        MassLinear(Noticed(e, r), 0.0, e.dt);
      }
    }
  }

  lemma FormationSettles(e: Setting, b: Budget)
    requires Valid(e) && InCredit(b)
    ensures var l, i := Mass(RainFormation(e, b), e.dt), Mass(SnowFormation(e, b), e.dt);
      && 0.0 <= l <= b.liquid && 0.0 <= i <= b.ice
      && AfterFormation(e, b) == b.(liquid := b.liquid - l, ice := b.ice - i)
  {
    hide Mass, Noticed, Autoconversion;
    MassLinear(0.0, 0.0, e.dt);
    if Exceeds(e, b.liquid, e.liquidThreshold) {
      ConversionShare(e, b.liquid - e.liquidThreshold);
      NoticedShare(e, Autoconversion(e.alpha, b.liquid - e.liquidThreshold), b.liquid - e.liquidThreshold);
    }
    if Exceeds(e, b.ice, e.iceThreshold) {
      Quotients(0.0, b.ice - e.iceThreshold, e.dt);
      NoticedShare(e, Greater((b.ice - e.iceThreshold) / e.dt, 0.0), b.ice - e.iceThreshold);
    }
  }

  lemma ConversionShare(e: Setting, x: real)
    requires Valid(e) && x >= 0.0
    ensures Autoconversion(e.alpha, x) <= x / e.dt
  {
    hide Comparison;
    var s := x / e.dt;
    assert s * e.dt == x;
    Quotients(0.0, x, e.dt);
    assert e.alpha * x == (e.alpha * e.dt) * s;
    assert (1.0 - e.alpha * e.dt) * s >= 0.0;
  }

  lemma CollectionSettles(e: Setting, q: Phases, b: Budget)
    requires Valid(e) && InCredit(b)
    ensures var l, i := Mass(RainCollection(e, q, b), e.dt), Mass(SnowCollection(e, q, b), e.dt);
      && 0.0 <= l <= b.liquid && 0.0 <= i <= b.ice
      && AfterCollection(e, q, b) == b.(liquid := b.liquid - l, ice := b.ice - i)
  {
    hide Mass, Noticed;
    MassLinear(0.0, 0.0, e.dt);
    NoticedShare(e, Lesser(b.liquid / e.dt, e.rainCollection), b.liquid);
    NoticedShare(e, Lesser(b.ice / e.dt, e.snowCollection), b.ice);
  }

  /** One exchange of precipitation with vapor: within the budgets and within what has fallen. */
  ghost predicate ExchangeSettles(e: Setting, b: Budget, rate: real, fallen: real) {
    var b', m := AfterExchange(e, b, rate), Mass(rate, e.dt);
    && Settles(b, b', m) && b'.liquid == b.liquid && b'.ice == b.ice && m >= -fallen
    && (b.subsat >= 0.0 ==> b'.subsat >= 0.0)
  }

  lemma NoExchange(e: Setting, b: Budget, fallen: real)
    requires InCredit(b) && fallen >= 0.0
    ensures ExchangeSettles(e, b, 0.0, fallen)
  {
    MassLinear(0.0, 0.0, e.dt);
  }

  lemma RainSettles(e: Setting, q: Phases, b: Budget)
    requires Valid(e) && InCredit(b) && q.rain >= 0.0
    ensures ExchangeSettles(e, b, RainExchange(e, q, b), q.rain)
  {
    hide Mass, Noticed;
    NoExchange(e, b, q.rain);
    if Exceeds(e, b.subsat, e.eps) {
      var r := Lesser(Lesser(e.rainEvaporation, b.subsat / e.dt), q.rain / e.dt);
      NoticedShare(e, r, b.subsat);
      NoticedShare(e, r, q.rain);
      MassLinear(Noticed(e, r), 0.0, e.dt);
    } else {
      NoticedShare(e, Lesser(e.rainGrowth, b.supersat / e.dt), b.supersat);
    }
  }

  lemma SnowSettles(e: Setting, q: Phases, b: Budget)
    requires Valid(e) && InCredit(b) && q.snow >= 0.0
    ensures ExchangeSettles(e, b, SnowExchange(e, q, b), q.snow)
  {
    hide Mass;
    NoExchange(e, b, q.snow);
    if Exceeds(e, b.subsat, e.eps) {
      SnowEvaporationShare(e, q, b);
    } else {
      NoticedShare(e, Lesser(e.snowGrowth, b.supersat / e.dt), b.supersat);
    }
  }

  lemma SnowEvaporationShare(e: Setting, q: Phases, b: Budget)
    requires Valid(e) && InCredit(b) && q.snow >= 0.0 && Exceeds(e, b.subsat, e.eps)
    ensures var m := Mass(SnowExchange(e, q, b), e.dt); m <= 0.0 && -m <= b.subsat && -m <= q.snow
  {
    hide Mass;
    var p := Noticed(e, e.snowEvaporation);
    var r := Lesser(Lesser(p, b.subsat / e.dt), q.snow / e.dt);
    MassLinear(r, 0.0, e.dt);
    MassOfShare(b.subsat, e.dt);
    MassOfShare(q.snow, e.dt);
    Quotients(0.0, b.subsat, e.dt);
    Quotients(0.0, q.snow, e.dt);
    MassMonotone(0.0, r, e.dt);
    MassMonotone(r, b.subsat / e.dt, e.dt);
    MassMonotone(r, q.snow / e.dt, e.dt);
  }

  /** Rain and snow never both exchange with vapor. */
  lemma PrecipitationSettles(e: Setting, q: Phases, b: Budget)
    requires Valid(e) && InCredit(b) && q.rain >= 0.0 && q.snow >= 0.0
    ensures ExchangeSettles(e, b, RainExchange(e, q, b) + SnowExchange(e, q, b), if e.warm then q.rain else q.snow)
    ensures if e.warm then SnowExchange(e, q, b) == 0.0 else RainExchange(e, q, b) == 0.0
  {
    hide ExchangeSettles;
    RainSettles(e, q, b);
    SnowSettles(e, q, b);
  }
}
