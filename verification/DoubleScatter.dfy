/** prep_double_scat_integr: angles that divide the area under the magnitude of a residual phase function equally. */
module DoubleScatter {
  import opened LinearAlgebra
  import opened CroutSolve
  import opened DoubleScatterTheory

  /** Column c of the table, one-based. */
  ghost predicate PhaseHolds(phas2: array2<real>, c: int, p: Vec, n: int)
    reads phas2
  {
    0 <= n <= phas2.Length0 && 0 <= c < phas2.Length1 && forall r :: 0 <= r < n ==> phas2[r, c] == p(r + 1)
  }

  ghost predicate AreasHold(area: array<real>, mu: Vec, p: Vec, n: int)
    reads area
  {
    0 <= n <= area.Length && forall k :: 0 <= k < n ==> area[k] == Cumulative(mu, p, k + 1)
  }

  method Accumulate(mup: array<real>, phas2: array2<real>, c: int, n: int, area: array<real>, ghost mu: Vec,
      ghost p: Vec)
    requires VecHolds(mup, mu, n) && PhaseHolds(phas2, c, p, n) && 1 <= n <= area.Length && area != mup
    modifies area
    ensures AreasHold(area, mu, p, n)
  {
    hide Area;
    area[0] := 0.0;
    for it := 1 to n
      invariant VecHolds(mup, mu, n) && AreasHold(area, mu, p, it)
    {
      area[it] := area[it - 1] + Area(mup[it - 1], mup[it], phas2[it - 1, c], phas2[it, c]);
    }
  }

  /** Some place in the table divides off the area f at the angle x. */
  ghost predicate DividesOff(mu: Vec, p: Vec, n: int, f: real, x: real, neg: bool) {
    exists k, w :: Divides(mu, p, n, k, w, f, x, neg)
  }

  /** The search index only advances, and stops at an interval that reaches f. */
  method Advance(area: array<real>, n: int, start: int, f: real, ghost mu: Vec, ghost p: Vec) returns (it: int)
    requires AreasHold(area, mu, p, n) && 1 <= start < n
    requires Cumulative(mu, p, start) < f < Cumulative(mu, p, n)
    ensures start <= it < n && Cumulative(mu, p, it) < f <= Cumulative(mu, p, it + 1)
  {
    hide Cumulative;
    it := start;
    while area[it] < f
      invariant start <= it < n && Cumulative(mu, p, it) < f
      decreases n - it
    {
      it := it + 1;
    }
  }

  /** Whether the function interpolated at the fraction w is not positive; equal signs need no interpolation. */
  method Sign(p0: real, p1: real, w: real) returns (neg: bool)
    requires 0.0 < w <= 1.0
    ensures neg <==> Mix(p0, p1, w) <= 0.0
  {
    hide Mix;
    MixBetween(p0, p1, w);
    if p0 > 0.0 && p1 > 0.0 {
      neg := false;
    } else if p0 < 0.0 && p1 < 0.0 {
      neg := true;
    } else if Mix(p0, p1, w) > 0.0 {
      neg := false;
    } else {
      neg := true;
    }
  }

  /** One angle: inverse interpolation in the interval found. No divisor is zero. */
  method Place(mup: array<real>, phas2: array2<real>, c: int, area: array<real>, n: int, it: int, f: real,
      ghost mu: Vec, ghost p: Vec)
    returns (x: real, neg: bool, ghost w: real)
    requires VecHolds(mup, mu, n) && PhaseHolds(phas2, c, p, n) && AreasHold(area, mu, p, n) && 1 <= it < n
    requires Cumulative(mu, p, it) < f <= Cumulative(mu, p, it + 1)
    ensures Divides(mu, p, n, it, w, f, x, neg) && DividesOff(mu, p, n, f, x, neg)
  {
    hide Cumulative, Mix;
    var fraction := (f - area[it - 1]) / (area[it] - area[it - 1]);
    w := fraction;
    FractionFound(area[it - 1], area[it], f, fraction);
    x := Mix(mup[it - 1], mup[it], fraction);
    neg := Sign(phas2[it - 1, c], phas2[it, c], fraction);
  }

  lemma AboveFirst(mu: Vec, p: Vec, n: int, k: int, w: real, f: real, x: real, neg: bool)
    requires Rising(mu, n) && Divides(mu, p, n, k, w, f, x, neg)
    ensures mu(1) < x
  {
    hide Mix;
    assert mu(k) < mu(k + 1);
    MixBetween(mu(k), mu(k + 1), w);
    if 1 < k { RisingOrder(mu, n, 1, k); }
  }

  lemma BelowLast(mu: Vec, p: Vec, n: int, k: int, w: real, f: real, x: real, neg: bool)
    requires Rising(mu, n) && Divides(mu, p, n, k, w, f, x, neg) && f < Cumulative(mu, p, n)
    requires Cumulative(mu, p, k) < Cumulative(mu, p, k + 1)
    ensures x < mu(n)
  {
    hide Mix, Cumulative;
    assert mu(k) < mu(k + 1);
    MixBetween(mu(k), mu(k + 1), w);
    if k + 1 < n {
      RisingOrder(mu, n, k + 1, n);
    } else {
      MixEnd(Cumulative(mu, p, k), Cumulative(mu, p, n));
      SameInterval(Cumulative(mu, p, k), Cumulative(mu, p, n), w, 1.0);
      MixEnd(mu(k), mu(n));
      MixStrict(mu(k), mu(n), w, 1.0);
    }
  }

  lemma MixEnd(a: real, b: real)
    ensures Mix(a, b, 1.0) == b
  {
  }

  /** The i-th of nf equal areas, counted from zero. */
  function Share(total: real, nf: int, i: int): real
    requires nf >= 2
  {
    i as real * (total / (nf - 1) as real)
  }

  lemma ShareOrder(total: real, nf: int, i: int)
    requires nf >= 2 && total > 0.0
    ensures Share(total, nf, 0) == 0.0 && Share(total, nf, nf - 1) == total
    ensures Share(total, nf, i + 1) == Share(total, nf, i) + total / (nf - 1) as real
    ensures Share(total, nf, i) < Share(total, nf, i + 1)
  {
    var m, df := (nf - 1) as real, total / (nf - 1) as real;
    assert m * df == total;
    assert (i + 1) as real == i as real + 1.0;
    if df <= 0.0 { NonpositiveProduct(m, df); }
  }

  lemma NonpositiveProduct(m: real, df: real)
    requires m > 0.0 && df <= 0.0
    ensures m * df <= 0.0
  {
  }

  lemma {:induction false} ShareBelowTotal(total: real, nf: int, i: int)
    requires nf >= 2 && total > 0.0 && 0 <= i < nf - 1
    ensures Share(total, nf, i) < total
    decreases nf - i
  {
    hide Share;
    ShareOrder(total, nf, i);
    if i + 1 < nf - 1 { ShareBelowTotal(total, nf, i + 1); }
  }

  /** Points 1..i of column c: rising from the first angle, each at its share of the area. */
  ghost predicate Divided(muEq: array2<real>, negPhas: array2<bool>, c: int, mu: Vec, p: Vec, n: int, nf: int, i: int)
    requires nf >= 2 && 0 <= c < muEq.Length1 && c < negPhas.Length1 && nf <= muEq.Length0 && nf <= negPhas.Length0
    requires 1 <= i <= nf
    reads muEq, negPhas
  {
    && muEq[0, c] == -1.0 && (negPhas[0, c] <==> p(1) <= 0.0)
    && (forall r, s :: 0 <= r < s < i ==> muEq[r, c] < muEq[s, c])
    && (forall r :: 1 <= r < i && r < nf - 1 ==>
          DividesOff(mu, p, n, Share(Cumulative(mu, p, n), nf, r), muEq[r, c], negPhas[r, c]))
  }

  /** The table of angles, the phase function and its areas for one level, as the search reads them. */
  ghost predicate Level(mup: array<real>, phas2: array2<real>, area: array<real>, c: int, mu: Vec, p: Vec, n: int)
    reads mup, phas2, area
  {
    && n >= 2 && VecHolds(mup, mu, n) && PhaseHolds(phas2, c, p, n) && AreasHold(area, mu, p, n)
    && Rising(mu, n) && mu(1) == -1.0 && mu(n) == 1.0 && Cumulative(mu, p, n) > 0.0
  }

  /** What is known of the last angle placed: it is in the interval the search has reached. */
  ghost predicate LastPlaced(mu: Vec, p: Vec, n: int, it: int, w: real, f: real, x: real, neg: bool) {
    Divides(mu, p, n, it, w, f, x, neg) && Cumulative(mu, p, it) < f <= Cumulative(mu, p, it + 1)
  }

  /** Search for the next area and place its angle, beyond the last. */
  method NextAngle(mup: array<real>, phas2: array2<real>, area: array<real>, c: int, n: int, start: int, f0: real,
      f: real,
      ghost mu: Vec, ghost p: Vec, ghost w0: real, ghost x0: real, ghost neg0: bool)
    returns (it: int, x: real, neg: bool, ghost w: real)
    requires Level(mup, phas2, area, c, mu, p, n) && 1 <= start < n && f0 < f < Cumulative(mu, p, n)
    requires (start == 1 && f0 == 0.0 && x0 == -1.0) || LastPlaced(mu, p, n, start, w0, f0, x0, neg0)
    ensures start <= it < n && LastPlaced(mu, p, n, it, w, f, x, neg) && x0 < x < 1.0
  {
    hide Divides;
    it := Advance(area, n, start, f, mu, p);
    x, neg, w := Place(mup, phas2, c, area, n, it, f, mu, p);
    AboveFirst(mu, p, n, it, w, f, x, neg);
    BelowLast(mu, p, n, it, w, f, x, neg);
    if x0 != -1.0 || start != 1 || f0 != 0.0 {
      DividesInOrder(mu, p, n, start, w0, f0, x0, neg0, it, w, f, x, neg);
    }
  }

  /** Write the next angle of column c. */
  method StoreAngle(muEq: array2<real>, negPhas: array2<bool>, c: int, i: int, x: real, neg: bool,
      ghost mu: Vec, ghost p: Vec, ghost n: int, ghost nf: int)
    requires nf >= 2 && 0 <= c < muEq.Length1 && c < negPhas.Length1 && nf <= muEq.Length0 && nf <= negPhas.Length0
    requires 1 <= i < nf && Divided(muEq, negPhas, c, mu, p, n, nf, i) && muEq[i - 1, c] < x
    requires i < nf - 1 ==> DividesOff(mu, p, n, Share(Cumulative(mu, p, n), nf, i), x, neg)
    modifies muEq, negPhas
    ensures Divided(muEq, negPhas, c, mu, p, n, nf, i + 1) && muEq[i, c] == x && negPhas[i, c] == neg
    ensures forall r, k :: 0 <= r < muEq.Length0 && 0 <= k < muEq.Length1 && k != c ==> muEq[r, k] == old(muEq[r, k])
    ensures forall r, k :: 0 <= r < negPhas.Length0 && 0 <= k < negPhas.Length1 && k != c ==>
      negPhas[r, k] == old(negPhas[r, k])
  {
    hide Cumulative, Share, DividesOff;
    muEq[i, c] := x;
    negPhas[i, c] := neg;
  }

  method FirstAngle(muEq: array2<real>, negPhas: array2<bool>, c: int, neg: bool,
      ghost mu: Vec, ghost p: Vec, ghost n: int, ghost nf: int)
    requires nf >= 2 && 0 <= c < muEq.Length1 && c < negPhas.Length1 && nf <= muEq.Length0 && nf <= negPhas.Length0
    requires neg <==> p(1) <= 0.0
    modifies muEq, negPhas
    ensures Divided(muEq, negPhas, c, mu, p, n, nf, 1) && muEq[0, c] == -1.0
    ensures forall r, k :: 0 <= r < muEq.Length0 && 0 <= k < muEq.Length1 && k != c ==> muEq[r, k] == old(muEq[r, k])
    ensures forall r, k :: 0 <= r < negPhas.Length0 && 0 <= k < negPhas.Length1 && k != c ==>
      negPhas[r, k] == old(negPhas[r, k])
  {
    muEq[0, c] := -1.0;
    negPhas[0, c] := neg;
  }

  /** The angles of one level. */
  method DivideLevel(mup: array<real>, phas2: array2<real>, area: array<real>, c: int, n: int, nf: int,
      muEq: array2<real>, negPhas: array2<bool>, ghost mu: Vec, ghost p: Vec)
    requires Level(mup, phas2, area, c, mu, p, n) && muEq != phas2 && nf >= 2
    requires 0 <= c < muEq.Length1 && c < negPhas.Length1 && nf <= muEq.Length0 && nf <= negPhas.Length0
    modifies muEq, negPhas
    ensures Divided(muEq, negPhas, c, mu, p, n, nf, nf) && muEq[nf - 1, c] == 1.0
    ensures (negPhas[nf - 1, c] <==> p(n) <= 0.0)
    ensures forall r, k :: 0 <= r < muEq.Length0 && 0 <= k < muEq.Length1 && k != c ==> muEq[r, k] == old(muEq[r, k])
    ensures forall r, k :: 0 <= r < negPhas.Length0 && 0 <= k < negPhas.Length1 && k != c ==>
      negPhas[r, k] == old(negPhas[r, k])
  {
    hide Cumulative, Share, DividesOff, LastPlaced, Divided, Level;
    ghost var total := Cumulative(mu, p, n);
    LevelEnds(mup, phas2, area, c, mu, p, n);
    var f := 0.0;
    var df := area[n - 1] / (nf - 1) as real;
    ShareOrder(total, nf, 0);
    FirstAngle(muEq, negPhas, c, !(phas2[0, c] > 0.0), mu, p, n, nf);
    var it := 1;
    ghost var w := 0.0;
    for i := 1 to nf - 1
      invariant Level(mup, phas2, area, c, mu, p, n) && Divided(muEq, negPhas, c, mu, p, n, nf, i)
      invariant f == Share(total, nf, i - 1) && 1 <= it < n && muEq[i - 1, c] < 1.0
      invariant (it == 1 && f == 0.0 && muEq[i - 1, c] == -1.0)
        || LastPlaced(mu, p, n, it, w, f, muEq[i - 1, c], negPhas[i - 1, c])
      invariant forall r, k :: 0 <= r < muEq.Length0 && 0 <= k < muEq.Length1 && k != c ==>
        muEq[r, k] == old(muEq[r, k])
      invariant forall r, k :: 0 <= r < negPhas.Length0 && 0 <= k < negPhas.Length1 && k != c ==>
        negPhas[r, k] == old(negPhas[r, k])
    {
      ShareOrder(total, nf, i - 1);
      ShareBelowTotal(total, nf, i);
      var x, neg;
      it, x, neg, w := NextAngle(mup, phas2, area, c, n, it, f, f + df, mu, p, w, muEq[i - 1, c], negPhas[i - 1, c]);
      f := f + df;
      PlacedDivides(mu, p, n, it, w, f, x, neg);
      StoreAngle(muEq, negPhas, c, i, x, neg, mu, p, n, nf);
    }
    LevelEnds(mup, phas2, area, c, mu, p, n);
    StoreAngle(muEq, negPhas, c, nf - 1, 1.0, !(phas2[n - 1, c] > 0.0), mu, p, n, nf);
  }

  lemma LevelEnds(mup: array<real>, phas2: array2<real>, area: array<real>, c: int, mu: Vec, p: Vec, n: int)
    requires Level(mup, phas2, area, c, mu, p, n)
    ensures 2 <= n <= phas2.Length0 && n <= area.Length && 0 <= c < phas2.Length1 && Cumulative(mu, p, n) > 0.0
    ensures phas2[0, c] == p(1) && phas2[n - 1, c] == p(n) && area[n - 1] == Cumulative(mu, p, n)
  {
  }

  lemma PlacedDivides(mu: Vec, p: Vec, n: int, it: int, w: real, f: real, x: real, neg: bool)
    requires LastPlaced(mu, p, n, it, w, f, x, neg)
    ensures DividesOff(mu, p, n, f, x, neg)
  {
  }

  /** All angles of column c, up to the last angle of the table, and its normalization. */
  ghost predicate Finished(muEq: array2<real>, negPhas: array2<bool>, norm: array<real>, c: int,
      mu: Vec, p: Vec, n: int, nf: int, pi: real)
    requires nf >= 2 && pi > 0.0 && 0 <= c < muEq.Length1 && c < negPhas.Length1 && c < norm.Length
    requires nf <= muEq.Length0 && nf <= negPhas.Length0
    reads muEq, negPhas, norm
  {
    && Divided(muEq, negPhas, c, mu, p, n, nf, nf)
    && muEq[nf - 1, c] == 1.0 && (negPhas[nf - 1, c] <==> p(n) <= 0.0)
    && norm[c] == Normalization(Cumulative(mu, p, n), nf, pi)
  }

  function Normalization(total: real, nf: int, pi: real): real
    requires nf >= 2 && pi > 0.0
  {
    PositiveDivisor(nf, pi);
    total / ((nf - 1) as real * pi)
  }

  lemma PositiveDivisor(nf: int, pi: real)
    requires nf >= 2 && pi > 0.0
    ensures (nf - 1) as real * pi > 0.0
  {
  }

  /** Column c of the outputs belongs to level c + 1 of the phase function. */
  ghost predicate LevelFinished(muEq: array2<real>, negPhas: array2<bool>, norm: array<real>, c: int,
      mu: Vec, ps: Mat, n: int, nf: int, pi: real)
    requires nf >= 2 && pi > 0.0 && 0 <= c < muEq.Length1 && c < negPhas.Length1 && c < norm.Length
    requires nf <= muEq.Length0 && nf <= negPhas.Length0
    reads muEq, negPhas, norm
  {
    Finished(muEq, negPhas, norm, c, mu, Col(ps, c + 1), n, nf, pi)
  }

  ghost predicate Tables(mup: array<real>, phas2: array2<real>, mu: Vec, ps: Mat, n: int, ntau: int)
    reads mup, phas2
  {
    && n >= 2 && VecHolds(mup, mu, n) && n <= phas2.Length0 && 0 <= ntau <= phas2.Length1
    && (forall r, c :: 0 <= r < n && 0 <= c < ntau ==> phas2[r, c] == ps(r + 1, c + 1))
    && Rising(mu, n) && mu(1) == -1.0 && mu(n) == 1.0
    && (forall c :: 1 <= c <= ntau ==> Cumulative(mu, Col(ps, c), n) > 0.0)
  }

  /** Angles, signs and normalization for every level. */
  method PrepDoubleScatIntegr(n: int, ntau: int, nf: int, mup: array<real>, phas2: array2<real>,
      muEq: array2<real>, negPhas: array2<bool>, norm: array<real>, pi: real, ghost mu: Vec, ghost ps: Mat)
    requires Tables(mup, phas2, mu, ps, n, ntau) && muEq != phas2 && norm != mup && nf >= 2 && pi > 0.0
    requires ntau <= muEq.Length1 && ntau <= negPhas.Length1 && ntau <= norm.Length
    requires nf <= muEq.Length0 && nf <= negPhas.Length0
    modifies muEq, negPhas, norm
    ensures forall c :: 0 <= c < ntau ==> LevelFinished(muEq, negPhas, norm, c, mu, ps, n, nf, pi)
  {
    hide LevelFinished, Finished, Cumulative;
    var area := new real[n];
    for lu := 0 to ntau
      invariant Tables(mup, phas2, mu, ps, n, ntau)
      invariant forall c :: 0 <= c < lu ==> LevelFinished(muEq, negPhas, norm, c, mu, ps, n, nf, pi)
    {
      TablesLevel(mup, phas2, mu, ps, n, ntau, lu);
      OneLevel(n, nf, mup, phas2, lu, area, muEq, negPhas, norm, pi, mu, ps);
    }
  }

  lemma TablesLevel(mup: array<real>, phas2: array2<real>, mu: Vec, ps: Mat, n: int, ntau: int, c: int)
    requires Tables(mup, phas2, mu, ps, n, ntau) && 0 <= c < ntau
    ensures PhaseHolds(phas2, c, Col(ps, c + 1), n) && Cumulative(mu, Col(ps, c + 1), n) > 0.0
    ensures n >= 2 && VecHolds(mup, mu, n) && Rising(mu, n) && mu(1) == -1.0 && mu(n) == 1.0
  {
    hide Cumulative;
  }

  lemma LevelIsFinished(muEq: array2<real>, negPhas: array2<bool>, norm: array<real>, c: int,
      mu: Vec, ps: Mat, n: int, nf: int, pi: real)
    requires nf >= 2 && pi > 0.0 && 0 <= c < muEq.Length1 && c < negPhas.Length1 && c < norm.Length
    requires nf <= muEq.Length0 && nf <= negPhas.Length0
    requires Finished(muEq, negPhas, norm, c, mu, Col(ps, c + 1), n, nf, pi)
    ensures LevelFinished(muEq, negPhas, norm, c, mu, ps, n, nf, pi)
  {
  }

  /** One level, on top of the levels already done. */
  method OneLevel(n: int, nf: int, mup: array<real>, phas2: array2<real>, c: int, area: array<real>,
      muEq: array2<real>, negPhas: array2<bool>, norm: array<real>, pi: real, ghost mu: Vec, ghost ps: Mat)
    requires n >= 2 && VecHolds(mup, mu, n) && PhaseHolds(phas2, c, Col(ps, c + 1), n) && n <= area.Length
    requires Rising(mu, n) && mu(1) == -1.0 && mu(n) == 1.0 && Cumulative(mu, Col(ps, c + 1), n) > 0.0
    requires muEq != phas2 && norm != mup && area != mup && area != norm && nf >= 2 && pi > 0.0
    requires 0 <= c < muEq.Length1 && c < negPhas.Length1 && c < norm.Length && nf <= muEq.Length0
    requires nf <= negPhas.Length0
    requires forall k :: 0 <= k < c ==> LevelFinished(muEq, negPhas, norm, k, mu, ps, n, nf, pi)
    modifies muEq, negPhas, norm, area
    ensures forall k :: 0 <= k < c + 1 ==> LevelFinished(muEq, negPhas, norm, k, mu, ps, n, nf, pi)
  {
    hide Cumulative, Share, DividesOff, Normalization, Rising;
    ghost var p := Col(ps, c + 1);
    Accumulate(mup, phas2, c, n, area, mu, p);
    DivideLevel(mup, phas2, area, c, n, nf, muEq, negPhas, mu, p);
    norm[c] := Normalization(area[n - 1], nf, pi);
    LevelIsFinished(muEq, negPhas, norm, c, mu, ps, n, nf, pi);
    forall k | 0 <= k < c ensures LevelFinished(muEq, negPhas, norm, k, mu, ps, n, nf, pi) {
      assert old(LevelFinished(muEq, negPhas, norm, k, mu, ps, n, nf, pi));
    }
  }
}
