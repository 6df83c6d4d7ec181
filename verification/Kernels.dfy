/**
 * The unrolled vector kernels. A pointer into a column is the triple (array, row, column) with the
 * zero-based position of its first element, so &A(i,j) is (a, i - 1, j - 1); a plain vector is a
 * one-column array. Each kernel first cleans up n % 4 elements and then works in groups of four.
 */
module Kernels {
  import opened RealArithmetic
  import opened LinearAlgebra

  /** n consecutive elements starting at row r of column c exist. */
  predicate InColumn(a: array2<real>, r: int, c: int, n: int) {
    0 <= r && r + n <= a.Length0 && 0 <= c < a.Length1
  }

  /** The column slice of length n at (r, c) holds v(lo), v(lo+1), ... */
  ghost predicate SliceHolds(a: array2<real>, r: int, c: int, n: int, v: Vec, lo: int)
    requires n > 0 ==> InColumn(a, r, c, n)
    reads a
  {
    forall p :: r <= p < r + n ==> a[p, c] == v(p - r + lo)
  }

  /** y := sa * x + y on n elements of two different columns. */
  method Saxpy(n: int, sa: real, x: array2<real>, xr: int, xc: int, y: array2<real>, yr: int, yc: int)
    requires n > 0 ==> InColumn(x, xr, xc, n) && InColumn(y, yr, yc, n)
    requires n > 0 && x == y ==> xc != yc
    modifies y
    ensures forall r :: yr <= r < yr + n ==> y[r, yc] == old(y[r, yc]) + sa * old(x[r - yr + xr, xc])
    ensures forall r, c :: 0 <= r < y.Length0 && 0 <= c < y.Length1 && !(c == yc && yr <= r < yr + n) ==>
      y[r, c] == old(y[r, c])
  {
    if n <= 0 || sa == 0.0 { return; }
    var m := n % 4;
    SaxpyGroup(m, 0, sa, x, xr, xc, y, yr, yc);
    var i := m;
    while i < n
      invariant m <= i <= n && (n - i) % 4 == 0
      invariant forall r :: yr <= r < yr + i ==> y[r, yc] == old(y[r, yc]) + sa * old(x[r - yr + xr, xc])
      invariant forall r, c :: 0 <= r < y.Length0 && 0 <= c < y.Length1 && !(c == yc && yr <= r < yr + i) ==>
        y[r, c] == old(y[r, c])
    {
      SaxpyGroup(4, i, sa, x, xr, xc, y, yr, yc);
      i := i + 4;
    }
  }

  /** Elements i .. i+len-1 of the slices, one after the other. */
  method SaxpyGroup(len: int, i: int, sa: real, x: array2<real>, xr: int, xc: int, y: array2<real>, yr: int, yc: int)
    requires 0 <= i && 0 <= len && InColumn(x, xr, xc, i + len) && InColumn(y, yr, yc, i + len)
    requires x == y ==> xc != yc
    modifies y
    ensures forall r :: yr + i <= r < yr + i + len ==> y[r, yc] == old(y[r, yc]) + sa * old(x[r - yr + xr, xc])
    ensures forall r, c :: 0 <= r < y.Length0 && 0 <= c < y.Length1 && !(c == yc && yr + i <= r < yr + i + len) ==>
      y[r, c] == old(y[r, c])
  {
    for k := i to i + len
      invariant forall r :: yr + i <= r < yr + k ==> y[r, yc] == old(y[r, yc]) + sa * old(x[r - yr + xr, xc])
      invariant forall r, c :: 0 <= r < y.Length0 && 0 <= c < y.Length1 && !(c == yc && yr + i <= r < yr + k) ==>
        y[r, c] == old(y[r, c])
    {
      y[yr + k, yc] := y[yr + k, yc] + sa * x[xr + k, xc];
    }
  }

  /** x := sa * x on n elements of a column. */
  method Sscal(n: int, sa: real, x: array2<real>, xr: int, xc: int)
    requires n > 0 ==> InColumn(x, xr, xc, n)
    modifies x
    ensures forall r :: xr <= r < xr + n ==> x[r, xc] == old(x[r, xc]) * sa
    ensures forall r, c :: 0 <= r < x.Length0 && 0 <= c < x.Length1 && !(c == xc && xr <= r < xr + n) ==>
      x[r, c] == old(x[r, c])
  {
    if n <= 0 { return; }
    var m := n % 4;
    SscalGroup(m, 0, sa, x, xr, xc);
    var i := m;
    while i < n
      invariant m <= i <= n && (n - i) % 4 == 0
      invariant forall r :: xr <= r < xr + i ==> x[r, xc] == old(x[r, xc]) * sa
      invariant forall r, c :: 0 <= r < x.Length0 && 0 <= c < x.Length1 && !(c == xc && xr <= r < xr + i) ==>
        x[r, c] == old(x[r, c])
    {
      SscalGroup(4, i, sa, x, xr, xc);
      i := i + 4;
    }
  }

  method SscalGroup(len: int, i: int, sa: real, x: array2<real>, xr: int, xc: int)
    requires 0 <= i && 0 <= len && InColumn(x, xr, xc, i + len)
    modifies x
    ensures forall r :: xr + i <= r < xr + i + len ==> x[r, xc] == old(x[r, xc]) * sa
    ensures forall r, c :: 0 <= r < x.Length0 && 0 <= c < x.Length1 && !(c == xc && xr + i <= r < xr + i + len) ==>
      x[r, c] == old(x[r, c])
  {
    for k := i to i + len
      invariant forall r :: xr + i <= r < xr + k ==> x[r, xc] == old(x[r, xc]) * sa
      invariant forall r, c :: 0 <= r < x.Length0 && 0 <= c < x.Length1 && !(c == xc && xr + i <= r < xr + k) ==>
        x[r, c] == old(x[r, c])
    {
      x[xr + k, xc] := x[xr + k, xc] * sa;
    }
  }

  /** The inner product of two column slices that hold u and v from index lo on. */
  method Sdot(n: int, x: array2<real>, xr: int, xc: int, y: array2<real>, yr: int, yc: int,
              ghost u: Vec, ghost v: Vec, ghost lo: int) returns (ans: real)
    requires n > 0 ==> InColumn(x, xr, xc, n) && InColumn(y, yr, yc, n)
    requires SliceHolds(x, xr, xc, n, u, lo) && SliceHolds(y, yr, yc, n, v, lo)
    ensures ans == Dot(u, v, lo, lo + n)
  {
    ans := 0.0;
    if n <= 0 { return; }
    hide SliceHolds;
    ans := SdotGroup(n % 4, 0, ans, x, xr, xc, y, yr, yc, u, v, lo, n);
    ans := SdotGroups(n, n % 4, ans, x, xr, xc, y, yr, yc, u, v, lo);
  }

  method SdotGroups(n: int, m: int, acc: real, x: array2<real>, xr: int, xc: int, y: array2<real>, yr: int, yc: int,
                    ghost u: Vec, ghost v: Vec, ghost lo: int) returns (ans: real)
    requires 0 <= m <= n && (n - m) % 4 == 0 && InColumn(x, xr, xc, n) && InColumn(y, yr, yc, n)
    requires SliceHolds(x, xr, xc, n, u, lo) && SliceHolds(y, yr, yc, n, v, lo)
    requires acc == Dot(u, v, lo, lo + m)
    ensures ans == Dot(u, v, lo, lo + n)
  {
    hide SliceHolds, Dot;
    ans := acc;
    var i := m;
    while i < n
      invariant m <= i <= n && (n - i) % 4 == 0
      invariant ans == Dot(u, v, lo, lo + i)
    {
      ans := SdotGroup(4, i, ans, x, xr, xc, y, yr, yc, u, v, lo, n);
      i := i + 4;
    }
  }

  /** Continues an inner product of the first i elements over the next len ones. */
  method SdotGroup(len: int, i: int, acc: real, x: array2<real>, xr: int, xc: int, y: array2<real>, yr: int, yc: int,
                   ghost u: Vec, ghost v: Vec, ghost lo: int, ghost n: int) returns (ans: real)
    requires 0 <= i && 0 <= len && i + len <= n && InColumn(x, xr, xc, n) && InColumn(y, yr, yc, n)
    requires SliceHolds(x, xr, xc, n, u, lo) && SliceHolds(y, yr, yc, n, v, lo)
    requires acc == Dot(u, v, lo, lo + i)
    ensures ans == Dot(u, v, lo, lo + (i + len))
  {
    ans := acc;
    for k := i to i + len
      invariant ans == Dot(u, v, lo, lo + k)
    {
      assert x[xr + k, xc] == u(k + lo) && y[yr + k, yc] == v(k + lo);
      ans := ans + x[xr + k, xc] * y[yr + k, yc];
    }
  }

  /** The first index in [lo, hi) of the entry largest in magnitude, or lo - 1 when every entry is zero. */
  ghost function FirstMax(v: Vec, lo: int, hi: int): int
    decreases hi - lo
  {
    if hi <= lo then lo - 1
    else
      var p := FirstMax(v, lo, hi - 1);
      if (if p == lo - 1 then 0.0 else Abs(v(p))) < Abs(v(hi - 1)) then hi - 1 else p
  }

  /** FirstMax is what it is named after; it fails to name an entry exactly on an all-zero slice. */
  lemma {:induction false} FirstMaxIsFirstMaximum(v: Vec, lo: int, hi: int)
    ensures var p := FirstMax(v, lo, hi);
      && (p == lo - 1 <==> forall i :: lo <= i < hi ==> v(i) == 0.0)
      && (p != lo - 1 ==>
            && lo <= p < hi && v(p) != 0.0
            && (forall i :: lo <= i < hi ==> Abs(v(i)) <= Abs(v(p)))
            && (forall i :: lo <= i < p ==> Abs(v(i)) < Abs(v(p))))
    decreases hi - lo
  {
    if lo < hi {
      FirstMaxIsFirstMaximum(v, lo, hi - 1);
    }
  }

  /** A slice and a longer slice that continues with zeros have the same first maximum. */
  lemma {:induction false} FirstMaxIgnoresZeros(v: Vec, w: Vec, lo: int, mid: int, hi: int)
    requires lo <= mid <= hi
    requires forall i :: lo <= i < mid ==> v(i) == w(i)
    requires forall i :: mid <= i < hi ==> w(i) == 0.0
    ensures FirstMax(v, lo, mid) == FirstMax(w, lo, hi)
    decreases hi - lo
  {
    if mid < hi {
      FirstMaxIgnoresZeros(v, w, lo, mid, hi - 1);
      FirstMaxIsFirstMaximum(w, lo, hi - 1);
    } else if lo < mid {
      FirstMaxIsFirstMaximum(v, lo, mid - 1);
      FirstMaxIgnoresZeros(v, w, lo, mid - 1, hi - 1);
    }
  }

  /** c_isamax: on a slice of more than one element that is all zero the answer is 0, not an index. */
  method Isamax(n: int, x: array2<real>, xr: int, xc: int, ghost v: Vec, ghost lo: int) returns (ans: int)
    requires n > 0 ==> InColumn(x, xr, xc, n)
    requires SliceHolds(x, xr, xc, n, v, lo)
    ensures ans == if n <= 0 then 0 else if n == 1 then 1 else FirstMax(v, lo, lo + n) - lo + 1
  {
    ans := 0;
    if n <= 0 {
      ans := 0;
    } else if n == 1 {
      ans := 1;
    } else {
      var smax := 0.0;
      for i := 1 to n + 1
        invariant ans == FirstMax(v, lo, lo + i - 1) - lo + 1
        invariant smax == if ans == 0 then 0.0 else Abs(v(lo + ans - 1))
      {
        var xmag := Abs(x[xr + i - 1, xc]);
        assert x[xr + i - 1, xc] == v(lo + i - 1);
        if smax < xmag {
          smax := xmag;
          ans := i;
        }
      }
    }
  }
}
