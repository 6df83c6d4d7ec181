/** c_compact_integration: a running integral on an uneven grid, exact for cubics inside and for lines throughout. */
module CompactIntegration {
  import opened HermitePiece
  import opened PchipTable
  import opened PchipInterpolant
  import opened CompactRule
  import opened RealArithmetic

  lemma RootsVanish(r: real, s: real, t: real)
    ensures var p := WithRoots(r, s, t); p.At(r) == 0.0 && p.At(s) == 0.0 && p.At(t) == 0.0
  {
    hide Cubic.At, WithRoots;
    WithRootsAt(r, s, t, r);
    WithRootsAt(r, s, t, s);
    WithRootsAt(r, s, t, t);
  }

  /** The interpolating cubic takes the given values at the nodes. */
  lemma LagrangeInterpolates(x0: real, x1: real, x2: real, x3: real, y0: real, y1: real, y2: real, y3: real,
        l0: real, l1: real, l2: real, l3: real)
    requires l0 * WithRoots(x1, x2, x3).At(x0) == y0 && l1 * WithRoots(x0, x2, x3).At(x1) == y1
    requires l2 * WithRoots(x0, x1, x3).At(x2) == y2 && l3 * WithRoots(x0, x1, x2).At(x3) == y3
    ensures var p := Lagrange(x0, x1, x2, x3, l0, l1, l2, l3);
      p.At(x0) == y0 && p.At(x1) == y1 && p.At(x2) == y2 && p.At(x3) == y3
  {
    hide Cubic.At, WithRoots, Lagrange;
    RootsVanish(x1, x2, x3);
    RootsVanish(x0, x2, x3);
    RootsVanish(x0, x1, x3);
    RootsVanish(x0, x1, x2);
    LagrangeAt(x0, x1, x2, x3, l0, l1, l2, l3, x0);
    LagrangeAt(x0, x1, x2, x3, l0, l1, l2, l3, x1);
    LagrangeAt(x0, x1, x2, x3, l0, l1, l2, l3, x2);
    LagrangeAt(x0, x1, x2, x3, l0, l1, l2, l3, x3);
  }

  /** With the origin at the second point, the step is the integral of the cubic through the four points. */
  lemma LocalStepExact(s: Cubic, a: real, b: real, c: real)
    requires Spread(a, b, c)
    ensures CompactStep(s.At(-a), s.At(0.0), s.At(b), s.At(c + b), a, b, c) == s.Integral(b)
  {
    hide Cubic.At, Cubic.Integral, WithRoots, Lagrange, OuterWeight, InnerWeight;
    var d := c + b;
    var y0, y1, y2, y3 := s.At(-a), s.At(0.0), s.At(b), s.At(d);
    FirstShare(a, b, c, y0);
    SecondShare(a, b, c, y1);
    ThirdShare(a, b, c, y2);
    FourthShare(a, b, c, y3);
    var l0, l1 := y0 / WithRoots(0.0, b, d).At(-a), y1 / WithRoots(-a, b, d).At(0.0);
    var l2, l3 := y2 / WithRoots(-a, 0.0, d).At(b), y3 / WithRoots(-a, 0.0, b).At(d);
    LagrangeInterpolates(-a, 0.0, b, d, y0, y1, y2, y3, l0, l1, l2, l3);
    CubicsAgree(Lagrange(-a, 0.0, b, d, l0, l1, l2, l3), s, -a, 0.0, b, d);
    LagrangeAt(-a, 0.0, b, d, l0, l1, l2, l3, b);
  }

  lemma StepExact(q: Cubic, x0: real, x1: real, x2: real, x3: real)
    requires Spread(x1 - x0, x2 - x1, x3 - x2)
    ensures CompactStep(q.At(x0), q.At(x1), q.At(x2), q.At(x3), x1 - x0, x2 - x1, x3 - x2)
      == q.Integral(x2) - q.Integral(x1)
  {
    hide Cubic.At, Cubic.Integral, Cubic.Shifted, CompactStep;
    var s, a, b, c := q.Shifted(x1), x1 - x0, x2 - x1, x3 - x2;
    ShiftedAt(q, x1, -a);
    ShiftedAt(q, x1, 0.0);
    ShiftedAt(q, x1, b);
    ShiftedAt(q, x1, c + b);
    ShiftedIntegral(q, x1, b);
    LocalStepExact(s, a, b, c);
  }

  function Trapezoid(left: Triplet, right: Triplet): real { 0.5 * (left.y + right.y) * (right.x - left.x) }

  /** What the table's integral gains from point k to the next. */
  function Gain(t: seq<Triplet>, k: nat, ghost ascend: bool): real
    requires k + 1 < |t| && Strict(t, ascend)
  {
    if k == 0 || k == |t| - 2 then Trapezoid(t[k], t[k + 1])
    else
      GapsSpread(t, k, ascend);
      CompactStep(t[k - 1].y, t[k].y, t[k + 1].y, t[k + 2].y, Gap(t, k - 1), Gap(t, k), Gap(t, k + 1))
  }

  lemma GapsSpread(t: seq<Triplet>, k: nat, ascend: bool)
    requires 1 <= k && k + 2 < |t| && Strict(t, ascend)
    ensures Spread(Gap(t, k - 1), Gap(t, k), Gap(t, k + 1))
  {
    if ascend {
      assert t[k - 1].x < t[k].x < t[k + 1].x < t[k + 2].x;
    } else {
      assert t[k - 1].x > t[k].x > t[k + 1].x > t[k + 2].x;
    }
  }

  /** u carries the running integral of t. */
  ghost predicate Integrated(t: seq<Triplet>, u: seq<Triplet>, k: nat, ascend: bool)
    requires Strict(t, ascend)
  {
    && |u| == |t| && (forall i :: 0 <= i < |t| ==> u[i].x == t[i].x && u[i].y == t[i].y)
    && (|t| > 0 ==> u[0].z == t[0].z)
    && forall i :: 0 <= i < k && i < |t| - 1 ==> u[i + 1].z == u[i].z + Gain(t, i, ascend)
  }

  ghost predicate Sampled(t: seq<Triplet>, q: Cubic) { forall i :: 0 <= i < |t| ==> t[i].y == q.At(t[i].x) }

  lemma InteriorGain(t: seq<Triplet>, k: nat, ascend: bool, q: Cubic)
    requires Strict(t, ascend) && Sampled(t, q) && 1 <= k && k + 2 < |t|
    ensures Gain(t, k, ascend) == q.Integral(t[k + 1].x) - q.Integral(t[k].x)
  {
    hide Cubic.At, Cubic.Integral, CompactStep;
    GapsSpread(t, k, ascend);
    assert t[k - 1].y == q.At(t[k - 1].x) && t[k + 2].y == q.At(t[k + 2].x);
    StepExact(q, t[k - 1].x, t[k].x, t[k + 1].x, t[k + 2].x);
  }

  /** On any strictly monotone grid, samples of a cubic integrate exactly from the second to the last point but one. */
  lemma {:induction false} CubicsExact(t: seq<Triplet>, u: seq<Triplet>, ascend: bool, q: Cubic, k: nat)
    requires Strict(t, ascend) && Sampled(t, q) && Integrated(t, u, |t|, ascend) && 1 <= k <= |t| - 2
    ensures u[k].z - u[1].z == q.Integral(t[k].x) - q.Integral(t[1].x)
  {
    hide Cubic.At, Cubic.Integral, Gain, Strict, Sampled;
    if k == 1 {
    } else {
      CubicsExact(t, u, ascend, q, k - 1);
      InteriorGain(t, k - 1, ascend, q);
      assert u[k - 1 + 1].z == u[k - 1].z + Gain(t, k - 1, ascend);
    }
  }

  lemma TrapezoidExact(q: Cubic, left: Triplet, right: Triplet)
    requires q.c2 == 0.0 && q.c3 == 0.0 && left.y == q.At(left.x) && right.y == q.At(right.x)
    ensures Trapezoid(left, right) == q.Integral(right.x) - q.Integral(left.x)
  {
    assert q.At(left.x) == q.c0 + left.x * q.c1 && q.At(right.x) == q.c0 + right.x * q.c1;
    assert q.Integral(left.x) == left.x * (q.c0 + left.x * (q.c1 / 2.0));
    assert q.Integral(right.x) == right.x * (q.c0 + right.x * (q.c1 / 2.0));
  }

  /** Samples of a straight line integrate exactly over the whole table. */
  lemma {:induction false} LinesExact(t: seq<Triplet>, u: seq<Triplet>, ascend: bool, q: Cubic, k: nat)
    requires Strict(t, ascend) && Sampled(t, q) && Integrated(t, u, |t|, ascend) && k < |t|
    requires q.c2 == 0.0 && q.c3 == 0.0
    ensures u[k].z - u[0].z == q.Integral(t[k].x) - q.Integral(t[0].x)
  {
    hide Cubic.At, Cubic.Integral, Strict, CompactStep, Trapezoid;
    if k == 0 {
    } else {
      LinesExact(t, u, ascend, q, k - 1);
      if k - 1 == 0 || k == |t| - 1 {
        TrapezoidExact(q, t[k - 1], t[k]);
      } else {
        InteriorGain(t, k - 1, ascend, q);
      }
      assert u[k - 1 + 1].z == u[k - 1].z + Gain(t, k - 1, ascend);
    }
  }

  /** AdvanceIntegral the integral by one gain. */
  method AdvanceIntegral(table: array<Triplet>, k: nat, dz: real, ghost t: seq<Triplet>, ghost ascend: bool)
    requires Strict(t, ascend) && k + 1 < table.Length && Integrated(t, table[..], k, ascend)
    requires dz == Gain(t, k, ascend)
    modifies table
    ensures Integrated(t, table[..], k + 1, ascend)
  {
    hide Gain, Strict;
    ghost var u := table[..];
    table[k + 1] := table[k + 1].(z := table[k].z + dz);
    assert table[..] == u[k + 1 := u[k + 1].(z := u[k].z + dz)];
  }

  lemma NothingIntegrated(t: seq<Triplet>, ascend: bool, k: nat)
    requires Strict(t, ascend) && (k == 0 || |t| < 2)
    ensures Integrated(t, t, k, ascend)
  {
  }

  lemma AllIntegrated(t: seq<Triplet>, u: seq<Triplet>, ascend: bool)
    requires Strict(t, ascend) && |t| >= 1 && Integrated(t, u, |t| - 1, ascend)
    ensures Integrated(t, u, |t|, ascend)
  {
    hide Gain;
  }

  /** The running integral in place; a table of fewer than two points is left alone. */
  method CompactIntegrate(table: array<Triplet>, ghost ascend: bool)
    requires Strict(table[..], ascend)
    modifies table
    ensures Integrated(old(table[..]), table[..], table.Length, ascend)
  {
    hide Strict, Gain, Integrated;
    ghost var t := table[..];
    var n := table.Length;
    NothingIntegrated(t, ascend, if n < 2 then n else 0);
    if n < 2 { return; }
    var dz := EndStep(table, 0, t, ascend);
    AdvanceIntegral(table, 0, dz, t, ascend);
    if n == 2 {
      AllIntegrated(t, table[..], ascend);
      return;
    }
    if n > 3 {
      for k := 1 to n - 2
        invariant Integrated(t, table[..], k, ascend)
      {
        dz := InteriorStep(table, k, t, ascend);
        AdvanceIntegral(table, k, dz, t, ascend);
      }
    }
    dz := EndStep(table, n - 2, t, ascend);
    AdvanceIntegral(table, n - 2, dz, t, ascend);
    AllIntegrated(t, table[..], ascend);
  }

  method EndStep(table: array<Triplet>, k: nat, ghost t: seq<Triplet>, ghost ascend: bool) returns (dz: real)
    requires Strict(t, ascend) && k + 1 < table.Length && (k == 0 || k == table.Length - 2)
    requires Integrated(t, table[..], k, ascend)
    ensures dz == Gain(t, k, ascend)
  {
    hide Gain, Strict;
    ghost var u := table[..];
    assert u[k] == table[k] && u[k + 1] == table[k + 1];
    EndGain(t, k, ascend, table[k], table[k + 1]);
    dz := 0.5 * (table[k].y + table[k + 1].y) * (table[k + 1].x - table[k].x);
  }

  lemma EndGain(t: seq<Triplet>, k: nat, ascend: bool, left: Triplet, right: Triplet)
    requires Strict(t, ascend) && k + 1 < |t| && (k == 0 || k == |t| - 2)
    requires left.x == t[k].x && left.y == t[k].y && right.x == t[k + 1].x && right.y == t[k + 1].y
    ensures Gain(t, k, ascend) == 0.5 * (left.y + right.y) * (right.x - left.x)
  {
    hide CompactStep;
    SameProduct(0.5 * (left.y + right.y), 0.5 * (t[k].y + t[k + 1].y), right.x - left.x, t[k + 1].x - t[k].x);
  }

  method InteriorStep(table: array<Triplet>, k: nat, ghost t: seq<Triplet>, ghost ascend: bool) returns (dz: real)
    requires Strict(t, ascend) && 1 <= k && k + 2 < table.Length && Integrated(t, table[..], k, ascend)
    ensures dz == Gain(t, k, ascend)
  {
    hide OuterWeight, InnerWeight;
    ghost var u := table[..];
    assert u[k - 1] == table[k - 1] && u[k] == table[k] && u[k + 1] == table[k + 1] && u[k + 2] == table[k + 2];
    GapsSpread(t, k, ascend);
    var dx10 := table[k].x - table[k - 1].x;
    var dx21 := table[k + 1].x - table[k].x;
    var dx32 := table[k + 2].x - table[k + 1].x;
    dz := CompactStep(table[k - 1].y, table[k].y, table[k + 1].y, table[k + 2].y, dx10, dx21, dx32);
  }
}
