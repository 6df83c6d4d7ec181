/** c_spline_pchip: the slopes of a whole table, and what the interpolant they determine guarantees. */
module PchipTable {
  import opened HermitePiece
  import opened PchipSlopes

  datatype TableCheck = TooFewPoints | NotIncreasing(i: nat) | SlopesSet

  ghost predicate Increasing(t: seq<Triplet>) { forall i :: 0 <= i < |t| - 1 ==> t[i].x < t[i + 1].x }

  function Gap(t: seq<Triplet>, i: nat): real
    requires i + 1 < |t|
  {
    t[i + 1].x - t[i].x
  }

  function Secant(t: seq<Triplet>, i: nat): real
    requires i + 1 < |t| && Gap(t, i) != 0.0
  {
    (t[i + 1].y - t[i].y) / Gap(t, i)
  }

  /** The slope the table gets at point i, from the abscissas and ordinates alone. */
  function Slope(t: seq<Triplet>, i: nat): real
    requires i < |t| && |t| >= 2 && Increasing(t)
  {
    var last := |t| - 1;
    if |t| == 2 then Secant(t, 0)
    else if i == 0 then EndSlope(Gap(t, 0), Gap(t, 1), Secant(t, 0), Secant(t, 1))
    else if i == last then EndSlope(Gap(t, last - 1), Gap(t, last - 2), Secant(t, last - 1), Secant(t, last - 2))
    else InteriorSlope(Gap(t, i - 1), Gap(t, i), Secant(t, i - 1), Secant(t, i))
  }

  /** Every stored slope suits both neighbouring secants. */
  ghost predicate Shaped(t: seq<Triplet>) {
    forall i :: 0 <= i < |t| - 1 ==> PieceShaped(t[i], t[i + 1])
  }

  predicate PieceShaped(left: Triplet, right: Triplet) {
    left.x < right.x && Within(left.z, (right.y - left.y) / (right.x - left.x))
    && Within(right.z, (right.y - left.y) / (right.x - left.x))
  }

  lemma SlopeWithin(t: seq<Triplet>, i: nat)
    requires |t| >= 2 && Increasing(t) && i + 1 < |t|
    ensures Within(Slope(t, i), Secant(t, i)) && Within(Slope(t, i + 1), Secant(t, i))
  {
    hide EndSlope, InteriorSlope;
    if |t| > 2 {
      SlopeAtLeft(t, i);
      SlopeAtRight(t, i);
    }
  }

  lemma SlopeAtLeft(t: seq<Triplet>, i: nat)
    requires |t| > 2 && Increasing(t) && i + 1 < |t|
    ensures Within(Slope(t, i), Secant(t, i))
  {
    hide EndSlope, InteriorSlope, Within, Secant;
    if i == 0 {
      EndWithin(Gap(t, 0), Gap(t, 1), Secant(t, 0), Secant(t, 1));
    } else {
      InteriorWithin(Gap(t, i - 1), Gap(t, i), Secant(t, i - 1), Secant(t, i));
    }
  }

  lemma SlopeAtRight(t: seq<Triplet>, i: nat)
    requires |t| > 2 && Increasing(t) && i + 1 < |t|
    ensures Within(Slope(t, i + 1), Secant(t, i))
  {
    hide EndSlope, InteriorSlope, Within, Secant;
    if i + 1 == |t| - 1 {
      EndWithin(Gap(t, i), Gap(t, i - 1), Secant(t, i), Secant(t, i - 1));
    } else {
      InteriorWithin(Gap(t, i), Gap(t, i + 1), Secant(t, i), Secant(t, i + 1));
    }
  }

  /** The same abscissas and ordinates. */
  ghost predicate SamePoints(t: seq<Triplet>, u: seq<Triplet>) {
    |t| == |u| && forall i :: 0 <= i < |t| ==> t[i].x == u[i].x && t[i].y == u[i].y
  }

  /** A table with the computed slopes is shaped. */
  lemma SlopesShape(t: seq<Triplet>, u: seq<Triplet>)
    requires |t| >= 2 && Increasing(t) && SamePoints(t, u) && forall i :: 0 <= i < |t| ==> u[i].z == Slope(t, i)
    ensures Shaped(u) && Increasing(u)
  {
    hide Slope, Within;
    forall i | 0 <= i < |u| - 1 ensures PieceShaped(u[i], u[i + 1]) { SlopeWithin(t, i); }
  }

  method CheckPoints(table: array<Triplet>) returns (outcome: TableCheck)
    ensures outcome.TooFewPoints? <==> table.Length < 2
    ensures outcome.NotIncreasing? ==>
      1 <= outcome.i < table.Length && table[outcome.i].x <= table[outcome.i - 1].x && Increasing(table[..outcome.i])
    ensures outcome.SlopesSet? <==> table.Length >= 2 && Increasing(table[..])
  {
    if table.Length < 2 { return TooFewPoints; }
    for i := 1 to table.Length
      invariant Increasing(table[..i])
    {
      if table[i].x <= table[i - 1].x {
        assert table[..][i - 1 + 1].x <= table[..][i - 1].x;
        return NotIncreasing(i);
      }
    }
    assert table[..table.Length] == table[..];
    return SlopesSet;
  }

  /** All slopes, or an error that leaves the table as it was. */
  method SplinePchip(table: array<Triplet>) returns (outcome: TableCheck)
    modifies table
    ensures outcome.TooFewPoints? <==> table.Length < 2
    ensures outcome.SlopesSet? <==> table.Length >= 2 && Increasing(old(table[..]))
    ensures outcome.NotIncreasing? ==>
      1 <= outcome.i < table.Length && old(table[outcome.i].x <= table[outcome.i - 1].x)
    ensures !outcome.SlopesSet? ==> table[..] == old(table[..])
    ensures outcome.SlopesSet? ==>
      && SamePoints(old(table[..]), table[..])
      && (forall i :: 0 <= i < table.Length ==> table[i].z == Slope(old(table[..]), i))
      && Shaped(table[..])
  {
    outcome := CheckPoints(table);
    if !outcome.SlopesSet? { return; }
    SetSlopes(table);
    SlopesShape(old(table[..]), table[..]);
  }

  /** The length of interval i and its secant. */
  method Interval(table: array<Triplet>, i: nat, ghost t: seq<Triplet>) returns (h: real, del: real)
    requires SamePoints(t, table[..]) && Increasing(t) && i + 1 < table.Length
    ensures h == Gap(t, i) && h > 0.0 && del == Secant(t, i)
  {
    assert table[i].x == t[i].x && table[i + 1].x == t[i + 1].x && table[i].y == t[i].y && table[i + 1].y == t[i + 1].y;
    h := table[i + 1].x - table[i].x;
    del := (table[i + 1].y - table[i].y) / h;
  }

  method SetSlope(table: array<Triplet>, k: nat, z: real, ghost t: seq<Triplet>)
    requires SamePoints(t, table[..]) && k < table.Length
    modifies table
    ensures SamePoints(t, table[..]) && table[k].z == z
    ensures forall i :: 0 <= i < table.Length && i != k ==> table[i] == old(table[i])
  {
    assert table[..][k] == table[k];
    table[k] := table[k].(z := z);
    assert forall i :: 0 <= i < |t| && i != k ==> table[..][i] == old(table[..])[i];
  }

  method SetSlopes(table: array<Triplet>)
    requires table.Length >= 2 && Increasing(table[..])
    modifies table
    ensures SamePoints(old(table[..]), table[..])
    ensures forall i :: 0 <= i < table.Length ==> table[i].z == Slope(old(table[..]), i)
  {
    hide EndSlope, InteriorSlope, SamePoints, Gap, Secant;
    ghost var t := table[..];
    PointsKept(t);
    var n := table.Length;
    var h1, del1 := Interval(table, 0, t);
    if n == 2 {
      SetSlope(table, 0, del1, t);
      SetSlope(table, 1, del1, t);
      return;
    }
    var h2, del2 := Interval(table, 1, t);
    SetSlope(table, 0, EndSlope(h1, h2, del1, del2), t);
    for i := 2 to n
      invariant SamePoints(t, table[..])
      invariant forall k :: 0 <= k < i - 1 ==> table[k].z == Slope(t, k)
      invariant h1 > 0.0 && h2 > 0.0 && Loaded(t, if i == 2 then 1 else i - 2, h1, h2, del1, del2)
    {
      if 2 < i {
        h1, del1 := h2, del2;
        h2, del2 := Interval(table, i - 1, t);
      }
      SetSlope(table, i - 1, InteriorSlope(h1, h2, del1, del2), t);
    }
    SetSlope(table, n - 1, EndSlope(h2, h1, del2, del1), t);
  }

  lemma PointsKept(t: seq<Triplet>)
    ensures SamePoints(t, t)
  {
  }

  /** The lengths and secants of the intervals on both sides of point k. */
  ghost predicate Loaded(t: seq<Triplet>, k: int, h1: real, h2: real, del1: real, del2: real) {
    && 1 <= k < |t| - 1 && Increasing(t)
    && h1 == Gap(t, k - 1) && h2 == Gap(t, k) && del1 == Secant(t, k - 1) && del2 == Secant(t, k)
  }
}
