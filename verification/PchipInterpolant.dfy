/** The interpolant of a table: continuous, between its data, monotone where the data are. */
module PchipInterpolant {
  import opened RealArithmetic
  import opened HermitePiece
  import opened PchipTable

  /** The piece on interval i, evaluated at x. */
  function Interpolate(t: seq<Triplet>, i: nat, x: real): real
    requires i + 1 < |t| && t[i + 1].x != t[i].x
  {
    Splint(x, t[i], t[i + 1], t[i + 1].x - t[i].x)
  }

  ghost predicate Between(a: real, x: real, b: real) { a <= x <= b || b <= x <= a }

  ghost predicate Brackets(t: seq<Triplet>, i: int, x: real) { 0 <= i < |t| - 1 && Between(t[i].x, x, t[i + 1].x) }

  /** Strictly increasing or strictly decreasing abscissas. */
  ghost predicate Strict(t: seq<Triplet>, ascend: bool) {
    forall i, j :: 0 <= i < j < |t| ==> if ascend then t[i].x < t[j].x else t[i].x > t[j].x
  }

  lemma {:induction false} IncreasingIsStrict(t: seq<Triplet>, i: int, j: int)
    requires Increasing(t) && 0 <= i < j < |t|
    ensures t[i].x < t[j].x
    decreases j
  {
    assert t[j - 1].x < t[j - 1 + 1].x;
    if i < j - 1 { IncreasingIsStrict(t, i, j - 1); }
  }

  /** A piece passes through both of its entries. */
  lemma EndsInterpolated(left: Triplet, right: Triplet, h: real)
    requires h != 0.0 && h == right.x - left.x
    ensures Splint(left.x, left, right, h) == left.y && Splint(right.x, left, right, h) == right.y
  {
    hide Splint;
    var delta := (right.y - left.y) / h;
    SplintIsRise(left.x, left, right, h, 0.0);
    SplintIsRise(right.x, left, right, h, 1.0);
    RiseEnds(delta, left.z, right.z);
    Cancel(h, right.y - left.y);
  }

  lemma RiseEnds(delta: real, z0: real, z1: real)
    ensures Rise(delta, z0, z1, 0.0) == 0.0 && Rise(delta, z0, z1, 1.0) == delta
  {
  }

  /** Adjacent pieces agree at their shared entry, so the value does not depend on the interval chosen. */
  lemma ValueIndependentOfInterval(t: seq<Triplet>, ascend: bool, i: int, j: int, x: real)
    requires Strict(t, ascend) && Brackets(t, i, x) && Brackets(t, j, x)
    ensures Interpolate(t, i, x) == Interpolate(t, j, x)
  {
    hide Splint;
    if i < j {
      NeighbourValue(t, ascend, i, j, x);
    } else if j < i {
      NeighbourValue(t, ascend, j, i, x);
    }
  }

  lemma NeighbourValue(t: seq<Triplet>, ascend: bool, i: int, j: int, x: real)
    requires Strict(t, ascend) && Brackets(t, i, x) && Brackets(t, j, x) && i < j
    ensures Interpolate(t, i, x) == Interpolate(t, j, x)
  {
    hide Splint;
    assert j == i + 1 && x == t[j].x;
    EndsInterpolated(t[i], t[j], t[j].x - t[i].x);
    EndsInterpolated(t[j], t[j + 1], t[j + 1].x - t[j].x);
  }

  /** A shaped piece moves towards its right end only. */
  lemma PieceMonotone(left: Triplet, right: Triplet, u: real, v: real)
    requires PieceShaped(left, right) && left.x <= u <= v <= right.x
    ensures var h := right.x - left.x;
      && (left.y <= right.y ==> Splint(u, left, right, h) <= Splint(v, left, right, h))
      && (left.y >= right.y ==> Splint(u, left, right, h) >= Splint(v, left, right, h))
  {
    hide Splint, Rise, Lifted;
    var h := right.x - left.x;
    var delta, s, r := (right.y - left.y) / h, (u - left.x) / h, (v - left.x) / h;
    Fraction(h, u - left.x, s);
    Fraction(h, v - left.x, r);
    FractionOrder(h, s, r, u - left.x, v - left.x);
    SplintIsRise(u, left, right, h, s);
    SplintIsRise(v, left, right, h, r);
    SecantSign(h, right.y - left.y, delta);
    if delta >= 0.0 {
      RiseMonotone(delta, left.z, right.z, s, r);
      LiftedMonotone(left.y, h, Rise(delta, left.z, right.z, s), Rise(delta, left.z, right.z, r));
    }
    if delta <= 0.0 {
      RiseMonotone(-delta, -left.z, -right.z, s, r);
      RiseNegated(delta, left.z, right.z, s);
      RiseNegated(delta, left.z, right.z, r);
      LiftedMonotone(left.y, h, Rise(delta, left.z, right.z, r), Rise(delta, left.z, right.z, s));
    }
  }

  lemma LiftedMonotone(y: real, h: real, r: real, r': real)
    requires h >= 0.0 && r <= r'
    ensures Lifted(y, h, r) <= Lifted(y, h, r')
  {
    ProductMonotone(h, r, r');
  }

  lemma Fraction(h: real, d: real, s: real)
    requires h > 0.0 && 0.0 <= d <= h && s == d / h
    ensures 0.0 <= s <= 1.0 && d == s * h
  {
    Cancel(h, d);
    if s < 0.0 { PositiveProduct(h, -s, h * (-s)); }
    if s > 1.0 { PositiveProduct(h, s - 1.0, h * (s - 1.0)); }
  }

  lemma FractionOrder(h: real, s: real, r: real, d: real, e: real)
    requires h > 0.0 && d == s * h && e == r * h && d <= e
    ensures s <= r
  {
    if s > r { PositiveProduct(h, s - r, h * (s - r)); }
  }

  lemma SecantSign(h: real, d: real, delta: real)
    requires h > 0.0 && delta == d / h
    ensures (d >= 0.0 <==> delta >= 0.0) && (d <= 0.0 <==> delta <= 0.0)
  {
    Cancel(h, d);
    if delta > 0.0 { PositiveProduct(h, delta, h * (delta)); }
    if delta < 0.0 { PositiveProduct(h, -delta, h * (-delta)); }
  }

  /** Within an interval the interpolant never leaves the range of its two ordinates. */
  lemma PieceInRange(left: Triplet, right: Triplet, u: real)
    requires PieceShaped(left, right) && left.x <= u <= right.x
    ensures Between(left.y, Splint(u, left, right, right.x - left.x), right.y)
  {
    hide Splint;
    EndsInterpolated(left, right, right.x - left.x);
    PieceMonotone(left, right, left.x, u);
    PieceMonotone(left, right, u, right.x);
  }

  /** For ordinates that never fall, neither does the interpolant, whichever intervals are used. */
  lemma InterpolantMonotone(t: seq<Triplet>, i: int, j: int, u: real, v: real)
    requires Increasing(t) && Shaped(t) && Brackets(t, i, u) && Brackets(t, j, v) && u <= v
    requires forall k :: 0 <= k < |t| - 1 ==> t[k].y <= t[k + 1].y
    ensures Interpolate(t, i, u) <= Interpolate(t, j, v)
  {
    hide Splint, PieceShaped;
    assert PieceShaped(t[i], t[i + 1]) && PieceShaped(t[j], t[j + 1]);
    assert t[i].x < t[i + 1].x && t[j].x < t[j + 1].x && t[i].y <= t[i + 1].y && t[j].y <= t[j + 1].y;
    if i == j {
      PieceMonotone(t[i], t[i + 1], u, v);
    } else if i < j {
      PieceInRange(t[i], t[i + 1], u);
      PieceInRange(t[j], t[j + 1], v);
      OrdinatesRise(t, i + 1, j);
    } else {
      SharedPoint(t, j, i, v, u);
      EndsInterpolated(t[i], t[i + 1], t[i + 1].x - t[i].x);
      EndsInterpolated(t[j], t[j + 1], t[j + 1].x - t[j].x);
    }
  }

  /** For ordinates that never rise, neither does the interpolant. */
  lemma InterpolantFalls(t: seq<Triplet>, i: int, j: int, u: real, v: real)
    requires Increasing(t) && Shaped(t) && Brackets(t, i, u) && Brackets(t, j, v) && u <= v
    requires forall k :: 0 <= k < |t| - 1 ==> t[k].y >= t[k + 1].y
    ensures Interpolate(t, i, u) >= Interpolate(t, j, v)
  {
    hide Splint, PieceShaped;
    assert PieceShaped(t[i], t[i + 1]) && PieceShaped(t[j], t[j + 1]);
    assert t[i].x < t[i + 1].x && t[j].x < t[j + 1].x && t[i].y >= t[i + 1].y && t[j].y >= t[j + 1].y;
    if i == j {
      PieceMonotone(t[i], t[i + 1], u, v);
    } else if i < j {
      PieceInRange(t[i], t[i + 1], u);
      PieceInRange(t[j], t[j + 1], v);
      OrdinatesFall(t, i + 1, j);
    } else {
      SharedPoint(t, j, i, v, u);
      EndsInterpolated(t[i], t[i + 1], t[i + 1].x - t[i].x);
      EndsInterpolated(t[j], t[j + 1], t[j + 1].x - t[j].x);
    }
  }

  /** Points whose intervals are in the opposite order lie on a shared entry. */
  lemma SharedPoint(t: seq<Triplet>, j: int, i: int, v: real, u: real)
    requires Increasing(t) && Brackets(t, i, u) && Brackets(t, j, v) && j < i && u <= v
    ensures i == j + 1 && u == v == t[i].x
  {
    assert t[i].x < t[i + 1].x && t[j].x < t[j + 1].x;
    if j + 1 < i { IncreasingIsStrict(t, j + 1, i); }
  }

  lemma {:induction false} OrdinatesRise(t: seq<Triplet>, i: int, j: int)
    requires 0 <= i <= j < |t| && forall k :: 0 <= k < |t| - 1 ==> t[k].y <= t[k + 1].y
    ensures t[i].y <= t[j].y
    decreases j
  {
    if i < j {
      OrdinatesRise(t, i, j - 1);
      assert t[j - 1].y <= t[j - 1 + 1].y;
    }
  }

  lemma {:induction false} OrdinatesFall(t: seq<Triplet>, i: int, j: int)
    requires 0 <= i <= j < |t| && forall k :: 0 <= k < |t| - 1 ==> t[k].y >= t[k + 1].y
    ensures t[i].y >= t[j].y
    decreases j
  {
    if i < j {
      OrdinatesFall(t, i, j - 1);
      assert t[j - 1].y >= t[j - 1 + 1].y;
    }
  }
}
