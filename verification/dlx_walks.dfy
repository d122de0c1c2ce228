/**
 * The ring walks of `cover` and `uncover` (Algo-Reynalde/main.cpp,
 * lines 19-25 and 30-36) read against the value model: while `cover(c)`
 * runs, column c's own ring and every row ring stay as they were, so the
 * walk `row = row->down`, `node = node->right` visits exactly the nodes
 * CoverOps lists, in that order, and `uncover` visits them in reverse.
 */
module DlxWalks {
  import opened Seqs
  import opened Links
  import opened DlxModel

  /** The unlinks for the first q rows come first among those for all of them. */
  lemma {:induction false} OpsPrefix(sh: Shape, s: Links, col: seq<int>, q: int)
    requires Layout(sh, s) && (forall i :: 0 <= i < |col| ==> IsCell(sh, s, col[i])) && 0 <= q <= |col|
    ensures RowsOps(sh, s, col[..q]) <= RowsOps(sh, s, col)
    decreases |col|
  {
    if q < |col| {
      var init := col[..|col| - 1];
      assert init[..q] == col[..q];
      OpsPrefix(sh, s, init, q);
    } else {
      assert col[..q] == col;
    }
  }

  /** Row q + 1 adds the other cells of its row. */
  lemma RowOps(sh: Shape, s: Links, col: seq<int>, q: int)
    requires Layout(sh, s) && (forall i :: 0 <= i < |col| ==> IsCell(sh, s, col[i])) && 0 <= q < |col|
    ensures RowsOps(sh, s, col[..q + 1]) == RowsOps(sh, s, col[..q]) + RowRest(sh, s, col[q])
  {
    assert col[..q + 1][..q] == col[..q];
  }

  /** The q-th cell of column c's ring. */
  ghost function RowOf(sh: Shape, s: Links, a: Abs, c: int, q: int): (r: int)
    requires Inv(sh, s, a) && c in a.hdr && 0 <= q < |a.cols[c - 1]|
    ensures IsCell(sh, s, r) && s.C[r] == c
  {
    ColumnCells(sh, s, a, c - 1);
    a.cols[c - 1][q]
  }

  /** The other cells of that row, in the order `node = node->right` visits them. */
  ghost function RestOf(sh: Shape, s: Links, a: Abs, c: int, q: int): seq<int>
    requires Inv(sh, s, a) && c in a.hdr && 0 <= q < |a.cols[c - 1]|
  {
    RowRest(sh, s, RowOf(sh, s, a, c, q))
  }

  /** How many nodes `cover(c)` has unlinked once it is done with the first q rows of column c. */
  ghost function Done(sh: Shape, s: Links, a: Abs, c: int, q: int): (k: int)
    requires Inv(sh, s, a) && c in a.hdr && 0 <= q <= |a.cols[c - 1]|
    ensures 0 <= k <= |CoverOps(sh, s, a, c)|
  {
    ColumnCells(sh, s, a, c - 1);
    OpsPrefix(sh, s, a.cols[c - 1], q);
    |RowsOps(sh, s, a.cols[c - 1][..q])|
  }

  /**
   * Row q's unlinks follow those of the rows before it: they are the other
   * cells of row q, in walking order.
   */
  lemma DoneStep(sh: Shape, s: Links, a: Abs, c: int, q: int)
    requires Inv(sh, s, a) && c in a.hdr && 0 <= q < |a.cols[c - 1]|
    ensures Done(sh, s, a, c, q + 1) == Done(sh, s, a, c, q) + |RestOf(sh, s, a, c, q)|
    ensures forall m :: 0 <= m < |RestOf(sh, s, a, c, q)| ==>
              CoverOps(sh, s, a, c)[Done(sh, s, a, c, q) + m] == RestOf(sh, s, a, c, q)[m]
  {
    ColumnCells(sh, s, a, c - 1);
    RowsOpsStep(sh, s, a.cols[c - 1], q);
  }

  /** The unlinks for row q follow those for the rows above it. */
  lemma RowsOpsStep(sh: Shape, s: Links, col: seq<int>, q: int)
    requires Layout(sh, s) && (forall i :: 0 <= i < |col| ==> IsCell(sh, s, col[i])) && 0 <= q < |col|
    ensures RowsOps(sh, s, col[..q + 1]) <= RowsOps(sh, s, col)
    ensures |RowsOps(sh, s, col[..q + 1])| == |RowsOps(sh, s, col[..q])| + |RowRest(sh, s, col[q])|
    ensures forall m :: 0 <= m < |RowRest(sh, s, col[q])| ==>
              RowsOps(sh, s, col)[|RowsOps(sh, s, col[..q])| + m] == RowRest(sh, s, col[q])[m]
  {
    OpsPrefix(sh, s, col, q + 1);
    RowOps(sh, s, col, q);
  }

  /** Before any row and after the last one. */
  lemma DoneEnds(sh: Shape, s: Links, a: Abs, c: int)
    requires Inv(sh, s, a) && c in a.hdr
    ensures Done(sh, s, a, c, 0) == 0
    ensures Done(sh, s, a, c, |a.cols[c - 1]|) == |CoverOps(sh, s, a, c)|
  {
    var col := a.cols[c - 1];
    assert col[..|col|] == col;
    assert col[..0] == [];
  }

  /** Before the first unlink, only the header has been spliced out. */
  lemma PartialStart(sh: Shape, s: Links, a: Abs, c: int)
    requires Inv(sh, s, a) && c in a.hdr
    ensures CoverPartial(sh, s, a, c, 0) == HUnlink(s, c)
  {
    assert CoverOps(sh, s, a, c)[..0] == [];
  }

  /**
   * Step k of `cover(c)` (lines 21-23) unlinks node k of CoverOps from its
   * column; the matching step of `uncover(c)` (lines 32-34) relinks it and
   * gives back the state before it went.
   */
  lemma StepAt(sh: Shape, s: Links, a: Abs, c: int, k: int, k1: int)
    requires Inv(sh, s, a) && c in a.hdr && 0 <= k < |CoverOps(sh, s, a, c)| && k1 == k + 1
    ensures InColumn(CoverPartial(sh, s, a, c, k), CoverOps(sh, s, a, c)[k])
    ensures VUnlink(CoverPartial(sh, s, a, c, k), CoverOps(sh, s, a, c)[k]) == CoverPartial(sh, s, a, c, k1)
    ensures InColumn(CoverPartial(sh, s, a, c, k1), CoverOps(sh, s, a, c)[k])
    ensures VRelink(CoverPartial(sh, s, a, c, k1), CoverOps(sh, s, a, c)[k]) == CoverPartial(sh, s, a, c, k)
  {
    var H, ops := HUnlink(s, c), CoverOps(sh, s, a, c);
    CoverEnd(sh, s, a, c);
    UnlinkAllSnoc(H, ops, k);
    SymAlongAt(H, ops, k);
    RelinkUndoesUnlink(UnlinkAll(H, ops[..k]), ops[k]);
  }

  /** Column c's own ring is left alone all through `cover(c)`. */
  lemma OwnColumnIntact(sh: Shape, s: Links, a: Abs, c: int, k: int)
    requires Inv(sh, s, a) && c in a.hdr && 0 <= k <= |CoverOps(sh, s, a, c)|
    ensures Ring(CoverPartial(sh, s, a, c, k).U, CoverPartial(sh, s, a, c, k).D, c, a.cols[c - 1])
  {
    var ops := CoverOps(sh, s, a, c);
    var col := a.cols[c - 1];
    CoverMidway(sh, s, a, c, k);
    assert ColumnOK(sh, CoverPartial(sh, s, a, c, k), Without(col, ops[..k]), c - 1);
    OwnColumnKept(sh, s, a, c, k);
  }

  /** None of column c's own cells is among the unlinks of `cover(c)`. */
  lemma OwnColumnKept(sh: Shape, s: Links, a: Abs, c: int, k: int)
    requires Inv(sh, s, a) && c in a.hdr && 0 <= k <= |CoverOps(sh, s, a, c)|
    ensures Without(a.cols[c - 1], CoverOps(sh, s, a, c)[..k]) == a.cols[c - 1]
  {
    var ops := CoverOps(sh, s, a, c);
    var col := a.cols[c - 1];
    assert ColumnOK(sh, s, col, c - 1);
    forall i | 0 <= i < |col|
      ensures col[i] !in ops[..k]
    {
      assert s.C[col[i]] == c;
    }
    WithoutNone(col, ops[..k]);
  }

  /** The down and up links `row = row->down` and `row = row->up` follow in column c. */
  lemma ColumnLinks(sh: Shape, s: Links, a: Abs, c: int, k: int, q: int)
    requires Inv(sh, s, a) && c in a.hdr && 0 <= k <= |CoverOps(sh, s, a, c)|
    requires -1 <= q < |a.cols[c - 1]|
    ensures var t, col := CoverPartial(sh, s, a, c, k), a.cols[c - 1];
            var x := if q < 0 then c else col[q];
            0 <= x < |t.D|
            && t.D[x] == (if q + 1 < |col| then col[q + 1] else c)
            && t.U[x] == (if q == 0 || (q < 0 && col == []) then c else if q < 0 then col[|col| - 1] else col[q - 1])
  {
    OwnColumnIntact(sh, s, a, c, k);
    if q >= 0 {
      RingAt(CoverPartial(sh, s, a, c, k).U, CoverPartial(sh, s, a, c, k).D, c, a.cols[c - 1], q);
    }
  }

  /**
   * The right and left links `node = node->right` and `node = node->left`
   * follow round the row of the q-th cell of column c, while c is out of the
   * header ring; m = -1 stands for that cell itself.
   */
  lemma RowLinks(sh: Shape, s: Links, a: Abs, c: int, q: int, m: int)
    requires Inv(sh, s, a) && c in a.hdr && 0 <= q < |a.cols[c - 1]|
    requires -1 <= m < |RestOf(sh, s, a, c, q)|
    ensures var H, r, rr := HUnlink(s, c), RowOf(sh, s, a, c, q), RestOf(sh, s, a, c, q);
            var x := if m < 0 then r else rr[m];
            IsCell(sh, s, x)
            && H.R[x] == (if m + 1 < |rr| then rr[m + 1] else r)
            && H.L[x] == (if m == 0 || (m < 0 && rr == []) then r else if m < 0 then rr[|rr| - 1] else rr[m - 1])
  {
    var r, rr := RowOf(sh, s, a, c, q), RestOf(sh, s, a, c, q);
    var x := if m < 0 then r else rr[m];
    RowRing(sh, s, r, m);
    assert IsCell(sh, s, x) by {
      RowRestFacts(sh, s, r);
    }
    CellsKeepRowLinks(sh, s, a, c, x);
  }

  /** Splicing a header out leaves the left and right links of every cell. */
  lemma CellsKeepRowLinks(sh: Shape, s: Links, a: Abs, c: int, x: int)
    requires Inv(sh, s, a) && c in a.hdr && IsCell(sh, s, x)
    ensures HUnlink(s, c).L[x] == s.L[x] && HUnlink(s, c).R[x] == s.R[x]
  {
    HeaderOut(sh, s, a.hdr, c);
  }

  /** The links round the row of cell r, at its position m (-1 for r itself). */
  lemma RowRing(sh: Shape, s: Links, r: int, m: int)
    requires Layout(sh, s) && IsCell(sh, s, r) && -1 <= m < |RowRest(sh, s, r)|
    ensures var rr := RowRest(sh, s, r);
            var x := if m < 0 then r else rr[m];
            s.R[x] == (if m + 1 < |rr| then rr[m + 1] else r)
            && s.L[x] == (if m == 0 || (m < 0 && rr == []) then r else if m < 0 then rr[|rr| - 1] else rr[m - 1])
  {
    var rr := RowRest(sh, s, r);
    RowRestFacts(sh, s, r);
    if m >= 0 {
      RingAt(s.L, s.R, r, rr, m);
    }
  }

  /**
   * Step m of the inner loops on row q: node m of the row goes (lines
   * 21-23) or comes back (lines 32-34), and the walk moves on to its right
   * (`cover`) or its left (`uncover`).
   */
  lemma CoverStep(sh: Shape, s: Links, a: Abs, c: int, q: int, m: int, k: int, k1: int)
    requires Inv(sh, s, a) && c in a.hdr && 0 <= q < |a.cols[c - 1]|
    requires 0 <= m < |RestOf(sh, s, a, c, q)| && k == Done(sh, s, a, c, q) + m && k1 == k + 1
    ensures var rr := RestOf(sh, s, a, c, q);
            k < |CoverOps(sh, s, a, c)|
            && InColumn(CoverPartial(sh, s, a, c, k), rr[m])
            && VUnlink(CoverPartial(sh, s, a, c, k), rr[m]) == CoverPartial(sh, s, a, c, k1)
            && InColumn(CoverPartial(sh, s, a, c, k1), rr[m])
            && VRelink(CoverPartial(sh, s, a, c, k1), rr[m]) == CoverPartial(sh, s, a, c, k)
  {
    DoneStep(sh, s, a, c, q);
    assert CoverOps(sh, s, a, c)[k] == RestOf(sh, s, a, c, q)[m];
    StepAt(sh, s, a, c, k, k1);
  }

  /** Node m of row q is not the row's own cell, and its right and left neighbours are the walk's next nodes. */
  lemma StepLinks(sh: Shape, s: Links, a: Abs, c: int, q: int, m: int, k: int)
    requires Inv(sh, s, a) && c in a.hdr && 0 <= q < |a.cols[c - 1]|
    requires 0 <= m < |RestOf(sh, s, a, c, q)| && 0 <= k <= |CoverOps(sh, s, a, c)|
    ensures var r, rr := RowOf(sh, s, a, c, q), RestOf(sh, s, a, c, q);
            rr[m] != r && 0 <= rr[m] < |s.L|
            && CoverPartial(sh, s, a, c, k).R[rr[m]] == (if m + 1 < |rr| then rr[m + 1] else r)
            && CoverPartial(sh, s, a, c, k).L[rr[m]] == (if m > 0 then rr[m - 1] else r)
  {
    RowLinks(sh, s, a, c, q, m);
    RowRestFacts(sh, s, RowOf(sh, s, a, c, q));
  }

  /** Where the walk of row q starts: right of its cell for `cover`, left of it for `uncover`. */
  lemma RowEnds(sh: Shape, s: Links, a: Abs, c: int, q: int, k: int)
    requires Inv(sh, s, a) && c in a.hdr && 0 <= q < |a.cols[c - 1]| && 0 <= k <= |CoverOps(sh, s, a, c)|
    ensures var r, rr := RowOf(sh, s, a, c, q), RestOf(sh, s, a, c, q);
            CoverPartial(sh, s, a, c, k).R[r] == (if rr == [] then r else rr[0])
            && CoverPartial(sh, s, a, c, k).L[r] == (if rr == [] then r else rr[|rr| - 1])
            && (rr != [] ==> rr[0] != r && rr[|rr| - 1] != r)
  {
    RowLinks(sh, s, a, c, q, -1);
    RowRestFacts(sh, s, RowOf(sh, s, a, c, q));
  }

  /** Where the walk of column c goes from row q (or from the header when q is -1 or the end). */
  lemma ColumnNext(sh: Shape, s: Links, a: Abs, c: int, q: int, k: int)
    requires Inv(sh, s, a) && c in a.hdr && -1 <= q < |a.cols[c - 1]| && 0 <= k <= |CoverOps(sh, s, a, c)|
    ensures var col := a.cols[c - 1];
            var x := if q < 0 then c else col[q];
            0 <= x < |CoverPartial(sh, s, a, c, k).D|
            && CoverPartial(sh, s, a, c, k).D[x] == (if q + 1 < |col| then col[q + 1] else c)
            && (q + 1 < |col| ==> col[q + 1] != c)
  {
    ColumnLinks(sh, s, a, c, k, q);
    if q + 1 < |a.cols[c - 1]| {
      var r := RowOf(sh, s, a, c, q + 1);
    }
  }

  /** Where the walk of column c goes upward from row q (or from the header when q is |col|). */
  lemma ColumnPrev(sh: Shape, s: Links, a: Abs, c: int, q: int, k: int)
    requires Inv(sh, s, a) && c in a.hdr && 0 <= q <= |a.cols[c - 1]| && 0 <= k <= |CoverOps(sh, s, a, c)|
    ensures var col := a.cols[c - 1];
            var x := if q == |col| then c else col[q];
            0 <= x < |CoverPartial(sh, s, a, c, k).U|
            && CoverPartial(sh, s, a, c, k).U[x] == (if q > 0 then col[q - 1] else c)
            && (q > 0 ==> col[q - 1] != c)
  {
    if q == |a.cols[c - 1]| {
      ColumnLinks(sh, s, a, c, k, -1);
    } else {
      ColumnLinks(sh, s, a, c, k, q);
    }
    if q > 0 {
      var r := RowOf(sh, s, a, c, q - 1);
    }
  }

  // ---------------------------------------------------------------------
  // The walks as sequences of states
  // ---------------------------------------------------------------------

  /**
   * Step m of the walk along a row whose own cell is r and whose other cells
   * are rr: going right, `cover` unlinks rr[m] from tr[m] and gets tr[m + 1];
   * going left, `uncover` relinks it and gets tr[m] back. Either way the
   * next node it reads is the right one.
   */
  ghost predicate CellStep(tr: seq<Links>, rr: seq<int>, r: int, m: int)
    requires |tr| == |rr| + 1 && 0 <= m < |rr|
  {
    InColumn(tr[m], rr[m]) && VUnlink(tr[m], rr[m]) == tr[m + 1]
    && InColumn(tr[m + 1], rr[m]) && VRelink(tr[m + 1], rr[m]) == tr[m]
    && tr[m + 1].R[rr[m]] == (if m + 1 < |rr| then rr[m + 1] else r)
    && tr[m].L[rr[m]] == (if m > 0 then rr[m - 1] else r)
  }

  /** The states tr[0], ..., tr[|rr|] of the walk along a row, and where each end of it starts. */
  ghost predicate RowWalk(tr: seq<Links>, rr: seq<int>, r: int)
  {
    |tr| == |rr| + 1 && r !in rr
    && Sane(tr[0]) && 0 <= r < |tr[0].R| && tr[0].R[r] == (if rr == [] then r else rr[0])
    && Sane(tr[|rr|]) && 0 <= r < |tr[|rr|].L| && tr[|rr|].L[r] == (if rr == [] then r else rr[|rr| - 1])
    && forall m {:trigger CellStep(tr, rr, r, m)} :: 0 <= m < |rr| ==> CellStep(tr, rr, r, m)
  }

  /**
   * Step q of the walk down column c: row col[q] takes the state from ts[q]
   * to ts[q + 1] through the states trs[q], and the column's links lead on
   * to the next row downward in ts[q + 1] and upward in ts[q].
   */
  ghost predicate RowStep(ts: seq<Links>, trs: seq<seq<Links>>, rrs: seq<seq<int>>, col: seq<int>, c: int, q: int)
    requires |ts| == |col| + 1 && |trs| == |col| && |rrs| == |col| && 0 <= q < |col|
  {
    RowWalk(trs[q], rrs[q], col[q]) && trs[q][0] == ts[q] && trs[q][|rrs[q]|] == ts[q + 1]
    && 0 <= col[q] < |ts[q + 1].D| && ts[q + 1].D[col[q]] == (if q + 1 < |col| then col[q + 1] else c)
    && 0 <= col[q] < |ts[q].U| && ts[q].U[col[q]] == (if q > 0 then col[q - 1] else c)
  }

  /** The states ts[0], ..., ts[|col|] of the walk down column c, row by row. */
  ghost predicate ColumnWalk(ts: seq<Links>, trs: seq<seq<Links>>, rrs: seq<seq<int>>, col: seq<int>, c: int)
  {
    |ts| == |col| + 1 && |trs| == |col| && |rrs| == |col| && c !in col
    && 0 <= c < |ts[0].D| && ts[0].D[c] == (if col == [] then c else col[0])
    && 0 <= c < |ts[|col|].U| && ts[|col|].U[c] == (if col == [] then c else col[|col| - 1])
    && forall q {:trigger RowStep(ts, trs, rrs, col, c, q)} :: 0 <= q < |col| ==> RowStep(ts, trs, rrs, col, c, q)
  }

  /** The states of `cover(c)` while it works on row q of column c. */
  ghost function RowStates(sh: Shape, s: Links, a: Abs, c: int, q: int): (tr: seq<Links>)
    requires Inv(sh, s, a) && c in a.hdr && 0 <= q < |a.cols[c - 1]|
    ensures |tr| == |RestOf(sh, s, a, c, q)| + 1
  {
    DoneStep(sh, s, a, c, q);
    var k := Done(sh, s, a, c, q);
    seq(|RestOf(sh, s, a, c, q)| + 1, m requires 0 <= m <= |RestOf(sh, s, a, c, q)| => CoverPartial(sh, s, a, c, k + m))
  }

  lemma RowStatesAt(sh: Shape, s: Links, a: Abs, c: int, q: int, m: int, k: int)
    requires Inv(sh, s, a) && c in a.hdr && 0 <= q < |a.cols[c - 1]| && 0 <= m <= |RestOf(sh, s, a, c, q)|
    requires k == Done(sh, s, a, c, q) + m
    ensures k <= |CoverOps(sh, s, a, c)|
    ensures RowStates(sh, s, a, c, q)[m] == CoverPartial(sh, s, a, c, k)
  {
    DoneStep(sh, s, a, c, q);
  }

  /** Each step of row q's walk, forward and backward. */
  lemma CellStepOf(sh: Shape, s: Links, a: Abs, c: int, q: int, m: int)
    requires Inv(sh, s, a) && c in a.hdr && 0 <= q < |a.cols[c - 1]| && 0 <= m < |RestOf(sh, s, a, c, q)|
    ensures CellStep(RowStates(sh, s, a, c, q), RestOf(sh, s, a, c, q), RowOf(sh, s, a, c, q), m)
  {
    RowStatesAt(sh, s, a, c, q, m, Done(sh, s, a, c, q) + m);
    RowStatesAt(sh, s, a, c, q, m + 1, Done(sh, s, a, c, q) + (m + 1));
    CellStepFrom(sh, s, a, c, q, m, Done(sh, s, a, c, q) + m, Done(sh, s, a, c, q) + (m + 1),
                 RowStates(sh, s, a, c, q), RestOf(sh, s, a, c, q));
  }

  /** Step m of row q's walk, for any list of states that agrees with `cover(c)` there. */
  lemma CellStepFrom(sh: Shape, s: Links, a: Abs, c: int, q: int, m: int, k: int, k1: int, tr: seq<Links>, rr: seq<int>)
    requires Inv(sh, s, a) && c in a.hdr && 0 <= q < |a.cols[c - 1]|
    requires rr == RestOf(sh, s, a, c, q) && 0 <= m < |rr| && |tr| == |rr| + 1
    requires k == Done(sh, s, a, c, q) + m && k1 == k + 1 && k < |CoverOps(sh, s, a, c)|
    requires tr[m] == CoverPartial(sh, s, a, c, k) && tr[m + 1] == CoverPartial(sh, s, a, c, k1)
    ensures CellStep(tr, rr, RowOf(sh, s, a, c, q), m)
  {
    CoverStep(sh, s, a, c, q, m, k, k1);
    StepLinks(sh, s, a, c, q, m, k);
    StepLinks(sh, s, a, c, q, m, k1);
  }

  /** Row q's walk, end to end. */
  lemma RowWalkOf(sh: Shape, s: Links, a: Abs, c: int, q: int)
    requires Inv(sh, s, a) && c in a.hdr && 0 <= q < |a.cols[c - 1]|
    ensures RowWalk(RowStates(sh, s, a, c, q), RestOf(sh, s, a, c, q), RowOf(sh, s, a, c, q))
    ensures RowStates(sh, s, a, c, q)[0] == CoverPartial(sh, s, a, c, Done(sh, s, a, c, q))
    ensures RowStates(sh, s, a, c, q)[|RestOf(sh, s, a, c, q)|] == CoverPartial(sh, s, a, c, Done(sh, s, a, c, q + 1))
  {
    var rr := RestOf(sh, s, a, c, q);
    RowStatesEnds(sh, s, a, c, q);
    RowEnds(sh, s, a, c, q, Done(sh, s, a, c, q));
    RowEnds(sh, s, a, c, q, Done(sh, s, a, c, q + 1));
    RowRestFacts(sh, s, RowOf(sh, s, a, c, q));
    forall m | 0 <= m < |rr|
      ensures CellStep(RowStates(sh, s, a, c, q), rr, RowOf(sh, s, a, c, q), m)
    {
      CellStepOf(sh, s, a, c, q, m);
    }
  }

  /** Row q's walk starts where the rows before it left off and ends where row q + 1 starts. */
  lemma RowStatesEnds(sh: Shape, s: Links, a: Abs, c: int, q: int)
    requires Inv(sh, s, a) && c in a.hdr && 0 <= q < |a.cols[c - 1]|
    ensures RowStates(sh, s, a, c, q)[0] == CoverPartial(sh, s, a, c, Done(sh, s, a, c, q))
    ensures RowStates(sh, s, a, c, q)[|RestOf(sh, s, a, c, q)|] == CoverPartial(sh, s, a, c, Done(sh, s, a, c, q + 1))
  {
    var n := |RestOf(sh, s, a, c, q)|;
    DoneStep(sh, s, a, c, q);
    RowStatesAt(sh, s, a, c, q, 0, Done(sh, s, a, c, q));
    RowStatesAt(sh, s, a, c, q, n, Done(sh, s, a, c, q + 1));
  }

  /** The states of `cover(c)` as it moves down column c, one per row boundary. */
  ghost function ColumnStates(sh: Shape, s: Links, a: Abs, c: int): (ts: seq<Links>)
    requires Inv(sh, s, a) && c in a.hdr
    ensures |ts| == |a.cols[c - 1]| + 1
  {
    seq(|a.cols[c - 1]| + 1, q requires 0 <= q <= |a.cols[c - 1]| => CoverPartial(sh, s, a, c, Done(sh, s, a, c, q)))
  }

  /** Row q of column c, walked between the column's states q and q + 1. */
  lemma RowStepOf(sh: Shape, s: Links, a: Abs, c: int, q: int, trs: seq<seq<Links>>, rrs: seq<seq<int>>)
    requires Inv(sh, s, a) && c in a.hdr && 0 <= q < |a.cols[c - 1]|
    requires |trs| == |rrs| == |a.cols[c - 1]|
    requires trs[q] == RowStates(sh, s, a, c, q) && rrs[q] == RestOf(sh, s, a, c, q)
    ensures RowStep(ColumnStates(sh, s, a, c), trs, rrs, a.cols[c - 1], c, q)
    ensures a.cols[c - 1][q] != c
  {
    RowWalkOf(sh, s, a, c, q);
    ColumnNext(sh, s, a, c, q - 1, 0);
    ColumnNext(sh, s, a, c, q, Done(sh, s, a, c, q + 1));
    ColumnPrev(sh, s, a, c, q, Done(sh, s, a, c, q));
    var r := RowOf(sh, s, a, c, q);
  }

  /** Column c's walk, given the walks of its rows. */
  lemma ColumnWalkOf(sh: Shape, s: Links, a: Abs, c: int, trs: seq<seq<Links>>, rrs: seq<seq<int>>)
    requires Inv(sh, s, a) && c in a.hdr && |trs| == |a.cols[c - 1]| && |rrs| == |a.cols[c - 1]|
    requires forall q :: 0 <= q < |a.cols[c - 1]| ==> trs[q] == RowStates(sh, s, a, c, q) && rrs[q] == RestOf(sh, s, a, c, q)
    ensures ColumnWalk(ColumnStates(sh, s, a, c), trs, rrs, a.cols[c - 1], c)
  {
    var col := a.cols[c - 1];
    ColumnEnds(sh, s, a, c);
    forall q | 0 <= q < |col|
      ensures RowStep(ColumnStates(sh, s, a, c), trs, rrs, col, c, q) && col[q] != c
    {
      RowStepOf(sh, s, a, c, q, trs, rrs);
    }
  }

  /** The walk down column c starts at the header's `down` and the walk up at its `up`. */
  lemma ColumnEnds(sh: Shape, s: Links, a: Abs, c: int)
    requires Inv(sh, s, a) && c in a.hdr
    ensures var ts, col := ColumnStates(sh, s, a, c), a.cols[c - 1];
            0 <= c < |ts[0].D| && ts[0].D[c] == (if col == [] then c else col[0])
            && 0 <= c < |ts[|col|].U| && ts[|col|].U[c] == (if col == [] then c else col[|col| - 1])
            && ts[0] == HUnlink(s, c) && ts[|col|] == CoverLinks(sh, s, a, c)
  {
    ColumnFirst(sh, s, a, c);
    ColumnLast(sh, s, a, c);
  }

  /** The first state of column c's walk, and its header's `down`. */
  lemma ColumnFirst(sh: Shape, s: Links, a: Abs, c: int)
    requires Inv(sh, s, a) && c in a.hdr
    ensures var t, col := ColumnStates(sh, s, a, c)[0], a.cols[c - 1];
            0 <= c < |t.D| && t.D[c] == (if col == [] then c else col[0]) && t == HUnlink(s, c)
  {
    DoneEnds(sh, s, a, c);
    PartialStart(sh, s, a, c);
    ColumnNext(sh, s, a, c, -1, 0);
  }

  /** The last state of column c's walk, and its header's `up`. */
  lemma ColumnLast(sh: Shape, s: Links, a: Abs, c: int)
    requires Inv(sh, s, a) && c in a.hdr
    ensures var col := a.cols[c - 1];
            var t := ColumnStates(sh, s, a, c)[|col|];
            0 <= c < |t.U| && t.U[c] == (if col == [] then c else col[|col| - 1]) && t == CoverLinks(sh, s, a, c)
  {
    DoneEnds(sh, s, a, c);
    CoverEnd(sh, s, a, c);
    ColumnPrev(sh, s, a, c, |a.cols[c - 1]|, |CoverOps(sh, s, a, c)|);
  }

  /**
   * The whole of `cover(c)` below line 17 and of `uncover(c)` above line 38
   * as a walk: it starts from the state with c out of the header ring and
   * ends in CoverLinks.
   */
  lemma CoverWalk(sh: Shape, s: Links, a: Abs, c: int) returns (ts: seq<Links>, trs: seq<seq<Links>>, rrs: seq<seq<int>>)
    requires Inv(sh, s, a) && c in a.hdr
    ensures ColumnWalk(ts, trs, rrs, a.cols[c - 1], c)
    ensures ts[0] == HUnlink(s, c) && ts[|a.cols[c - 1]|] == CoverLinks(sh, s, a, c)
  {
    var col := a.cols[c - 1];
    ts := ColumnStates(sh, s, a, c);
    trs := seq(|col|, q requires 0 <= q < |col| => RowStates(sh, s, a, c, q));
    rrs := seq(|col|, q requires 0 <= q < |col| => RestOf(sh, s, a, c, q));
    ColumnEnds(sh, s, a, c);
    ColumnWalkOf(sh, s, a, c, trs, rrs);
  }
}
