/** c_hunt_place_in_table: an exponential hunt from a guessed interval, then bisection. */
module HuntTable {
  import opened Comparisons
  import opened HermitePiece
  import opened PchipInterpolant

  /** x lies on the high side of entry i, as the code tests it. */
  predicate Above(t: seq<Triplet>, x: real, i: int, ascend: bool)
    requires 0 <= i < |t|
  {
    (x >= t[i].x) == ascend
  }

  /** The end intervals claim x, by the possibly tolerant comparison. */
  function EndInterval(t: seq<Triplet>, x: real, cmp: Compare): (il: int)
    requires |t| >= 2
    ensures il == -1 || il == 0 || il == |t| - 2
  {
    var n := |t|;
    var ascend := t[n - 1].x >= t[0].x;
    var cmplo, cmphi := cmp(x, t[0].x), cmp(x, t[n - 1].x);
    if (ascend && cmplo <= 0) || (!ascend && cmplo >= 0) then 0
    else if (ascend && cmphi >= 0) || (!ascend && cmphi <= 0) then n - 2
    else -1
  }

  /** x is strictly inside the table. */
  ghost predicate Inside(t: seq<Triplet>, x: real, ascend: bool)
    requires |t| >= 2
  {
    if ascend then t[0].x < x < t[|t| - 1].x else t[|t| - 1].x < x < t[0].x
  }

  lemma NoEndIsInside(t: seq<Triplet>, x: real, cmp: Compare)
    requires |t| >= 2 && Comparison(cmp) && EndInterval(t, x, cmp) == -1
    ensures Inside(t, x, t[|t| - 1].x >= t[0].x)
  {
    var cmplo, cmphi := cmp(x, t[0].x), cmp(x, t[|t| - 1].x);
  }

  /** The position il is not above x and the position iu is not below it; -1 and n stand for the outside. */
  ghost predicate Straddles(t: seq<Triplet>, x: real, ascend: bool, il: int, iu: int) {
    && -1 <= il < iu <= |t|
    && (il >= 0 ==> if ascend then t[il].x <= x else x <= t[il].x)
    && (iu < |t| ==> if ascend then x <= t[iu].x else t[iu].x <= x)
  }

  /** Adjacent positions that straddle a point inside the table are an interval of it. */
  lemma StraddlesIsBracket(t: seq<Triplet>, x: real, ascend: bool, il: int)
    requires |t| >= 2 && Inside(t, x, ascend) && Straddles(t, x, ascend, il, il + 1)
    ensures Brackets(t, il, x)
  {
  }

  /** Upwards from il: double the step until the upper position is past x or past the end. */
  method HuntUp(t: array<Triplet>, x: real, ascend: bool, start: int) returns (il: int, iu: int)
    requires t.Length >= 2 && 0 <= start < t.Length - 1 && Above(t[..], x, start, ascend)
    ensures Straddles(t[..], x, ascend, il, iu)
  {
    var n := t.Length;
    il := start;
    var inc := 1;
    iu := il + 1;
    while Above(t[..], x, iu, ascend)
      invariant 0 <= il < iu < n && inc >= 1 && Above(t[..], x, il, ascend)
      decreases n - iu
    {
      il := iu;
      inc := inc + inc;
      iu := il + inc;
      if iu > n - 1 {
        iu := n;
        break;
      }
    }
  }

  /** Downwards from il: double the step until the lower position is before x or before the start. */
  method HuntDown(t: array<Triplet>, x: real, ascend: bool, start: int) returns (il: int, iu: int)
    requires 0 < start < t.Length && !Above(t[..], x, start, ascend)
    ensures Straddles(t[..], x, ascend, il, iu)
  {
    iu := start;
    il := start - 1;
    var inc := 1;
    while (x <= t[il].x) == ascend
      invariant 0 <= il < iu < t.Length && inc >= 1
      invariant if ascend then x <= t[iu].x else t[iu].x <= x
      decreases il
    {
      iu := il;
      inc := inc * 2;
      if inc >= iu {
        il := -1;
        break;
      } else {
        il := iu - inc;
      }
    }
  }

  /** From positions that straddle x to adjacent ones. */
  method Bisect(t: array<Triplet>, x: real, ascend: bool, lo: int, hi: int) returns (il: int)
    requires Straddles(t[..], x, ascend, lo, hi)
    ensures Straddles(t[..], x, ascend, il, il + 1)
  {
    il := lo;
    var iu := hi;
    while iu - il > 1
      invariant Straddles(t[..], x, ascend, il, iu)
    {
      var im := (iu + il) / 2;
      if Above(t[..], x, im, ascend) {
        il := im;
      } else {
        iu := im;
      }
    }
  }

  /**
   * The interval for x, from any guess: the end interval outside the table or where the comparison sees no
   * difference from an end, otherwise an interval that holds x; its length is always returned.
   */
  method HuntPlaceInTable(t: array<Triplet>, x: real, guess: int, cmp: Compare) returns (il: int, dx: real)
    requires t.Length >= 2 && Comparison(cmp)
    ensures 0 <= il <= t.Length - 2 && dx == t[il + 1].x - t[il].x
    ensures EndInterval(t[..], x, cmp) != -1 ==> il == EndInterval(t[..], x, cmp)
    ensures EndInterval(t[..], x, cmp) == -1 ==> Brackets(t[..], il, x)
  {
    hide Comparison, Inside;
    var n := t.Length;
    var ascend := t[n - 1].x >= t[0].x;
    il := EndInterval(t[..], x, cmp);
    if il != -1 {
      dx := t[il + 1].x - t[il].x;
      return;
    }
    NoEndIsInside(t[..], x, cmp);
    var iu;
    if guess <= -1 || guess > n - 1 {
      il, iu := -1, n;
    } else if Above(t[..], x, guess, ascend) {
      InsideBelowLast(t[..], x, ascend, guess);
      il, iu := HuntUp(t, x, ascend, guess);
    } else {
      InsideAboveFirst(t[..], x, ascend, guess);
      il, iu := HuntDown(t, x, ascend, guess);
    }
    il := Bisect(t, x, ascend, il, iu);
    StraddlesIsBracket(t[..], x, ascend, il);
    dx := t[il + 1].x - t[il].x;
  }

  /** The early exit of the upward hunt, which would leave the length unset, is never taken. */
  lemma InsideBelowLast(t: seq<Triplet>, x: real, ascend: bool, i: int)
    requires |t| >= 2 && Inside(t, x, ascend) && 0 <= i < |t| && Above(t, x, i, ascend)
    ensures i != |t| - 1
  {
  }

  /** Nor is the early exit of the downward hunt. */
  lemma InsideAboveFirst(t: seq<Triplet>, x: real, ascend: bool, i: int)
    requires |t| >= 2 && Inside(t, x, ascend) && 0 <= i < |t| && !Above(t, x, i, ascend)
    ensures i != 0
  {
  }

  /** With an exact comparison every x in range gets an interval that holds it. */
  lemma ExactBrackets(t: seq<Triplet>, x: real, cmp: Compare, il: int)
    requires |t| >= 2 && Comparison(cmp) && Exact(cmp) && Strict(t, t[|t| - 1].x >= t[0].x)
    requires Between(t[0].x, x, t[|t| - 1].x) && 0 <= il <= |t| - 2
    requires if EndInterval(t, x, cmp) != -1 then il == EndInterval(t, x, cmp) else Brackets(t, il, x)
    ensures Brackets(t, il, x)
  {
    var first, last := t[0].x, t[|t| - 1].x;
    assert first != last;
    var cmplo, cmphi := cmp(x, first), cmp(x, last);
  }

  /**
   * Two hunts for the same x, from any two guesses and with any comparison, lead to the same interpolated value:
   * that of the end interval where the comparison puts x there, otherwise that of an interval that holds x. With
   * an exact comparison the latter is true of every x in range.
   */
  method TwoGuesses(t: array<Triplet>, x: real, guess: int, guess': int, cmp: Compare)
    returns (v: real, v': real)
    requires t.Length >= 2 && Comparison(cmp) && Strict(t[..], t[t.Length - 1].x >= t[0].x)
    ensures v == v'
    ensures EndInterval(t[..], x, cmp) != -1 ==> v == Interpolate(t[..], EndInterval(t[..], x, cmp), x)
    ensures EndInterval(t[..], x, cmp) == -1 || (Exact(cmp) && Between(t[0].x, x, t[t.Length - 1].x)) ==>
      exists i :: Brackets(t[..], i, x) && v == Interpolate(t[..], i, x)
  {
    hide Comparison, Exact, Splint;
    var il, dx := HuntPlaceInTable(t, x, guess, cmp);
    var il', dx' := HuntPlaceInTable(t, x, guess', cmp);
    ghost var ascend := t[t.Length - 1].x >= t[0].x;
    assert t[il].x != t[il + 1].x && t[il'].x != t[il' + 1].x;
    v := Splint(x, t[il], t[il + 1], dx);
    v' := Splint(x, t[il'], t[il' + 1], dx');
    if EndInterval(t[..], x, cmp) == -1 { ValueIndependentOfInterval(t[..], ascend, il, il', x); }
    if Exact(cmp) && Between(t[0].x, x, t[t.Length - 1].x) { ExactBrackets(t[..], x, cmp, il); }
    assert v == Interpolate(t[..], il, x);
  }
}
