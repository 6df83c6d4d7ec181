/** c_set_matrix: the band array, filled column by column and then overwritten at the two boundaries. */
module StreamMatrixFill {
  import opened LinearAlgebra
  import opened StreamSystem

  /** Rows of the band array. */
  function Rows(p: Medium): int { 9 * p.nn - 2 }

  /** Number of diagonals on either side. */
  function Diagonals(p: Medium): int { 3 * p.nn - 1 }

  /** Where row r (counted from 0) lies in the stretch of constant iq. */
  function Offset(p: Medium, iq: int, r: int): int { r + 1 - 5 * p.nn + iq }

  /** What (r, c) holds once cols columns are filled, with the boundaries written in columns below top and bottom. */
  ghost function Cell(p: Medium, r: int, c: int, cols: int, top: int, bottom: int): real
    requires 1 <= p.nn
  {
    if c >= cols then 0.0
    else
      var iq := StreamOf(Nstr(p), c);
      Stretch(p, LayerOf(Nstr(p), c), iq, Offset(p, iq, r), c < top, c < bottom)
  }

  ghost predicate Filled(cband: array2<real>, p: Medium, cols: int, top: int, bottom: int)
    reads cband
  {
    && 1 <= p.nn && 1 <= p.ncut && Rows(p) == cband.Length0 && Order(p) <= cband.Length1
    && forall r, c :: 0 <= r < Rows(p) && 0 <= c < Order(p) ==> cband[r, c] == Cell(p, r, c, cols, top, bottom)
  }

  /** The first done entries of each half of a stretch. */
  ghost function PartialStretch(p: Medium, lc: int, iq: int, t: int, done: int): real {
    if 0 <= t < done || Nstr(p) <= t < Nstr(p) + done then Stretch(p, lc, iq, t, false, false) else 0.0
  }

  /** The coefficients of the interfaces above and below for constant iq of layer lc. */
  method FillStretch(cband: array2<real>, p: Medium, c: int, lc: int, iq: int, wk: array<real>)
    requires 1 <= p.nn && 1 <= iq <= Nstr(p) && Rows(p) == cband.Length0 && 0 <= c < cband.Length1
    requires p.nn <= wk.Length && forall q :: 0 <= q < p.nn ==> wk[q] == Scale(p, lc, q + 1)
    requires forall r :: 0 <= r < Rows(p) ==> cband[r, c] == 0.0
    modifies cband
    ensures forall r :: 0 <= r < Rows(p) ==> cband[r, c] == Stretch(p, lc, iq, Offset(p, iq, r), false, false)
    ensures forall r, c' :: 0 <= r < cband.Length0 && 0 <= c' < cband.Length1 && c' != c ==>
      cband[r, c'] == old(cband[r, c'])
  {
    hide Scale, Stretch;
    var irow, nstr := 5 * p.nn - 1 - iq, Nstr(p);
    for jq := 1 to nstr + 1
      invariant irow == 5 * p.nn - 2 - iq + jq
      invariant forall r :: 0 <= r < Rows(p) ==> cband[r, c] == PartialStretch(p, lc, iq, Offset(p, iq, r), jq - 1)
      invariant forall r, c' :: 0 <= r < cband.Length0 && 0 <= c' < cband.Length1 && c' != c ==>
        cband[r, c'] == old(cband[r, c'])
    {
      StretchEntries(p, lc, iq, jq);
      if iq <= p.nn {
        cband[irow + nstr, c] := p.gc(jq, iq, lc);
        cband[irow, c] := -p.gc(jq, iq, lc) * wk[iq - 1];
      } else {
        cband[irow + nstr, c] := p.gc(jq, iq, lc) * wk[nstr - iq];
        cband[irow, c] := -p.gc(jq, iq, lc);
      }
      irow := irow + 1;
    }
    forall t ensures PartialStretch(p, lc, iq, t, nstr) == Stretch(p, lc, iq, t, false, false) {
      OutsideStretch(p, lc, iq, t);
    }
  }

  lemma OutsideStretch(p: Medium, lc: int, iq: int, t: int)
    ensures t < 0 || t >= 2 * Nstr(p) ==> forall top, bottom :: Stretch(p, lc, iq, t, top, bottom) == 0.0
  {
  }

  lemma StretchEntries(p: Medium, lc: int, iq: int, jq: int)
    requires 1 <= p.nn && 1 <= jq <= Nstr(p)
    ensures Stretch(p, lc, iq, jq - 1, false, false)
      == (if iq <= p.nn then -p.gc(jq, iq, lc) * Scale(p, lc, iq) else -p.gc(jq, iq, lc))
    ensures Stretch(p, lc, iq, Nstr(p) + jq - 1, false, false)
      == if iq <= p.nn then p.gc(jq, iq, lc) else p.gc(jq, iq, lc) * Scale(p, lc, Nstr(p) + 1 - iq)
  {
    hide Scale;
  }

  method FillColumn(cband: array2<real>, p: Medium, ncol: int, lc: int, iq: int, wk: array<real>)
    requires Filled(cband, p, ncol, 0, 0) && 1 <= p.nn && 1 <= iq <= Nstr(p) && ncol == Base(Nstr(p), lc) + iq - 1
    requires 0 <= ncol < Order(p) <= cband.Length1 && Rows(p) == cband.Length0
    requires p.nn <= wk.Length && forall q :: 0 <= q < p.nn ==> wk[q] == Scale(p, lc, q + 1)
    modifies cband
    ensures Filled(cband, p, ncol + 1, 0, 0)
  {
    hide Scale, Stretch, Base, LayerOf, StreamOf;
    ColumnParts(Nstr(p), lc, iq);
    FillStretch(cband, p, ncol, lc, iq, wk);
  }

  /** All columns with their interface coefficients, in order; wk keeps the scalings of the last layer. */
  method FillInterfaces(cband: array2<real>, p: Medium, wk: array<real>)
    requires Filled(cband, p, 0, 0, 0) && p.nn <= wk.Length
    modifies cband, wk
    ensures Filled(cband, p, Order(p), 0, 0)
    ensures forall q :: 0 <= q < p.nn ==> wk[q] == Scale(p, p.ncut, q + 1)
  {
    hide Scale, Stretch, Base, Cell;
    var ncol := 0;
    BaseStart(Nstr(p));
    for lc := 1 to p.ncut + 1
      invariant Filled(cband, p, ncol, 0, 0) && ncol == Base(Nstr(p), lc)
      invariant lc > 1 ==> forall q :: 0 <= q < p.nn ==> wk[q] == Scale(p, lc - 1, q + 1)
    {
      FillLayer(cband, p, ncol, lc, wk);
      BaseNext(Nstr(p), lc);
      ncol := ncol + Nstr(p);
    }
  }

  method SetScalings(p: Medium, lc: int, wk: array<real>)
    requires 1 <= p.nn <= wk.Length
    modifies wk
    ensures forall q :: 0 <= q < p.nn ==> wk[q] == Scale(p, lc, q + 1)
  {
    hide Scale;
    for iq := 0 to p.nn
      invariant forall q :: 0 <= q < iq ==> wk[q] == Scale(p, lc, q + 1)
    {
      wk[iq] := Scale(p, lc, iq + 1);
    }
  }

  method FillLayer(cband: array2<real>, p: Medium, ncol: int, lc: int, wk: array<real>)
    requires Filled(cband, p, ncol, 0, 0) && 1 <= p.nn <= wk.Length && 1 <= lc <= p.ncut && ncol == Base(Nstr(p), lc)
    modifies cband, wk
    ensures Filled(cband, p, ncol + Nstr(p), 0, 0)
    ensures forall q :: 0 <= q < p.nn ==> wk[q] == Scale(p, lc, q + 1)
  {
    hide Scale, Stretch, Base, Cell;
    SetScalings(p, lc, wk);
    FilledShape(cband, p, ncol);
    BaseStart(Nstr(p));
    BaseMonotone(Nstr(p), 1, lc);
    BaseMonotone(Nstr(p), lc, p.ncut + 1);
    FillLayerColumns(cband, p, ncol, lc, wk);
  }

  lemma FilledShape(cband: array2<real>, p: Medium, cols: int)
    requires Filled(cband, p, cols, 0, 0)
    ensures Order(p) <= cband.Length1 && Rows(p) == cband.Length0
  {
  }

  method FillLayerColumns(cband: array2<real>, p: Medium, ncol: int, lc: int, wk: array<real>)
    requires Filled(cband, p, ncol, 0, 0) && 1 <= p.nn <= wk.Length && ncol == Base(Nstr(p), lc)
    requires 0 <= ncol && ncol + Nstr(p) <= Order(p) <= cband.Length1 && Rows(p) == cband.Length0
    requires forall q :: 0 <= q < p.nn ==> wk[q] == Scale(p, lc, q + 1)
    modifies cband
    ensures Filled(cband, p, ncol + Nstr(p), 0, 0)
  {
    hide Scale, Stretch, Base, Filled, Order, Rows;
    for iq := 1 to Nstr(p) + 1
      invariant Filled(cband, p, ncol + iq - 1, 0, 0)
    {
      FillColumn(cband, p, ncol + iq - 1, lc, iq, wk);
    }
  }

  /** The column of constant iq of the first layer with the first k of its nn top boundary entries written. */
  ghost function TopPartial(p: Medium, iq: int, t: int, k: int): real {
    if p.nn <= t < p.nn + k then p.gc(Nstr(p) - t, iq, 1) * AtTopOfMedium(p, iq) else Stretch(p, 1, iq, t, false, false)
  }

  lemma TopComplete(p: Medium, iq: int, t: int)
    ensures TopPartial(p, iq, t, 0) == Stretch(p, 1, iq, t, false, false)
    ensures TopPartial(p, iq, t, p.nn) == Stretch(p, 1, iq, t, true, false)
  {
    hide AtTopOfMedium, AtTop, AtBottom, BottomEigen;
  }

  /** The top boundary in the column of constant iq of the first layer. */
  method FillTopStretch(cband: array2<real>, p: Medium, iq: int)
    requires 1 <= p.nn && 1 <= iq <= Nstr(p) && Rows(p) == cband.Length0 && iq <= cband.Length1
    requires forall r :: 0 <= r < Rows(p) ==> cband[r, iq - 1] == Stretch(p, 1, iq, Offset(p, iq, r), false, false)
    modifies cband
    ensures forall r :: 0 <= r < Rows(p) ==> cband[r, iq - 1] == Stretch(p, 1, iq, Offset(p, iq, r), true, false)
    ensures forall r, c :: 0 <= r < cband.Length0 && 0 <= c < cband.Length1 && c != iq - 1 ==>
      cband[r, c] == old(cband[r, c])
  {
    hide Stretch, AtTopOfMedium;
    var irow, expa, c := 6 * p.nn - 1 - iq, AtTopOfMedium(p, iq), iq - 1;
    forall t ensures TopPartial(p, iq, t, 0) == Stretch(p, 1, iq, t, false, false) { TopComplete(p, iq, t); }
    for k := 0 to p.nn
      invariant irow == 6 * p.nn - 1 - iq + k
      invariant forall r :: 0 <= r < Rows(p) ==> cband[r, c] == TopPartial(p, iq, Offset(p, iq, r), k)
      invariant forall r, c' :: 0 <= r < cband.Length0 && 0 <= c' < cband.Length1 && c' != c ==>
        cband[r, c'] == old(cband[r, c'])
    {
      cband[irow, c] := p.gc(p.nn - k, iq, 1) * expa;
      irow := irow + 1;
    }
    forall t ensures TopPartial(p, iq, t, p.nn) == Stretch(p, 1, iq, t, true, false) { TopComplete(p, iq, t); }
  }

  method FillTopColumn(cband: array2<real>, p: Medium, iq: int)
    requires Filled(cband, p, Order(p), iq - 1, 0) && 1 <= iq <= Nstr(p)
    modifies cband
    ensures Filled(cband, p, Order(p), iq, 0)
  {
    hide Stretch, Base, Order, LayerOf, StreamOf;
    FirstColumns(p, iq);
    ghost var z := iq - 1;
    assert forall r :: 0 <= r < Rows(p) ==> cband[r, z] == Stretch(p, 1, iq, Offset(p, iq, r), false, false);
    FillTopStretch(cband, p, iq);
  }

  lemma FirstColumns(p: Medium, iq: int)
    requires 1 <= p.nn && 1 <= p.ncut && 1 <= iq <= Nstr(p)
    ensures LayerOf(Nstr(p), iq - 1) == 1 && StreamOf(Nstr(p), iq - 1) == iq && iq - 1 < Order(p)
  {
    BaseStart(Nstr(p));
    ColumnParts(Nstr(p), 1, iq);
    BaseMonotone(Nstr(p), 1, p.ncut + 1);
  }

  /** The column of constant iq of the last layer with the first k of its nn bottom boundary entries written. */
  ghost function BottomPartial(p: Medium, iq: int, t: int, top: bool, k: int): real {
    if Nstr(p) <= t < Nstr(p) + k then BottomEigen(p, t + 1 - p.nn, iq) * AtBottom(p, p.ncut, iq)
    else Stretch(p, p.ncut, iq, t, top, false)
  }

  lemma BottomComplete(p: Medium, iq: int, t: int, top: bool)
    ensures BottomPartial(p, iq, t, top, 0) == Stretch(p, p.ncut, iq, t, top, false)
    ensures 0 <= p.nn ==> BottomPartial(p, iq, t, top, p.nn) == Stretch(p, p.ncut, iq, t, top, true)
  {
    hide AtTopOfMedium, AtTop, AtBottom, BottomEigen;
  }

  /** The bottom boundary coefficient of stream jq for constant iq of the last layer, before its exponential. */
  method BottomCoefficient(p: Medium, jq: int, iq: int) returns (e: real)
    requires 0 <= p.nn
    ensures e == BottomEigen(p, jq, iq)
  {
    if p.lyrcut || (p.lamber && p.delm0 == 0.0) {
      e := p.gc(jq, iq, p.ncut);
    } else {
      var sum := 0.0;
      for k := 1 to p.nn + 1
        invariant sum == Dot(Weighted(p, jq), DownwardEigen(p, iq), 1, k)
      {
        sum := sum + p.cwt(k) * p.cmu(k) * p.bdr(jq - p.nn, k) * p.gc(p.nn + 1 - k, iq, p.ncut);
      }
      e := p.gc(jq, iq, p.ncut) - (1.0 + p.delm0) * sum;
    }
  }

  method FillBottomStretch(cband: array2<real>, p: Medium, nncol: int, iq: int, wk: array<real>, ghost top: bool)
    requires 1 <= p.nn <= wk.Length && 1 <= iq <= Nstr(p) && Rows(p) == cband.Length0 && 0 <= nncol < cband.Length1
    requires forall q :: 0 <= q < p.nn ==> wk[q] == Scale(p, p.ncut, q + 1)
    requires forall r :: 0 <= r < Rows(p) ==> cband[r, nncol] == Stretch(p, p.ncut, iq, Offset(p, iq, r), top, false)
    modifies cband
    ensures forall r :: 0 <= r < Rows(p) ==> cband[r, nncol] == Stretch(p, p.ncut, iq, Offset(p, iq, r), top, true)
    ensures forall r, c :: 0 <= r < cband.Length0 && 0 <= c < cband.Length1 && c != nncol ==>
      cband[r, c] == old(cband[r, c])
  {
    hide Stretch, Scale, BottomEigen;
    var irow, expa := 7 * p.nn - 1 - iq, if iq <= p.nn then 1.0 else wk[Nstr(p) - iq];
    forall t ensures BottomPartial(p, iq, t, top, 0) == Stretch(p, p.ncut, iq, t, top, false) {
      BottomComplete(p, iq, t, top);
    }
    for k := 0 to p.nn
      invariant irow == 7 * p.nn - 1 - iq + k
      invariant forall r :: 0 <= r < Rows(p) ==> cband[r, nncol] == BottomPartial(p, iq, Offset(p, iq, r), top, k)
      invariant forall r, c :: 0 <= r < cband.Length0 && 0 <= c < cband.Length1 && c != nncol ==>
        cband[r, c] == old(cband[r, c])
    {
      var e := BottomCoefficient(p, p.nn + 1 + k, iq);
      cband[irow, nncol] := e * expa;
      irow := irow + 1;
    }
    forall t ensures BottomPartial(p, iq, t, top, p.nn) == Stretch(p, p.ncut, iq, t, top, true) {
      BottomComplete(p, iq, t, top);
    }
  }

  method FillBottomColumn(cband: array2<real>, p: Medium, nncol: int, iq: int, wk: array<real>)
    requires Filled(cband, p, Order(p), Nstr(p), nncol) && 1 <= p.nn <= wk.Length && 1 <= iq <= Nstr(p)
    requires nncol == Base(Nstr(p), p.ncut) + iq - 1 && 0 <= nncol < Order(p)
    requires forall q :: 0 <= q < p.nn ==> wk[q] == Scale(p, p.ncut, q + 1)
    modifies cband
    ensures Filled(cband, p, Order(p), Nstr(p), nncol + 1)
  {
    hide Stretch, Base, Order, LayerOf, StreamOf, Scale;
    ColumnParts(Nstr(p), p.ncut, iq);
    FillBottomStretch(cband, p, nncol, iq, wk, nncol < Nstr(p));
  }
}
