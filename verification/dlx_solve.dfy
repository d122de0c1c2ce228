/**
 * What `solve` (Algo-Reynalde/main.cpp, lines 43-78) promises, stated on
 * the matrix: exact covers of a set of columns, the columns a row hits, and
 * the facts about the arena that the search relies on between calls.
 */
module DlxSolve {
  import opened Seqs
  import opened Links
  import opened DlxModel
  import opened DlxWalks

  /** The columns (0-based) in which row i has a 1. */
  ghost function HitCols(M: seq<seq<int>>, i: int): (r: set<int>)
    requires 0 <= i < |M|
    ensures forall j :: j in r <==> Hit(M, i, j)
  {
    set j | 0 <= j < |M[i]| && M[i][j] == 1
  }

  /** The columns (0-based) whose headers are in the header ring `hdr`. */
  ghost function ActiveCols(hdr: seq<int>): (A: set<int>)
    ensures forall j :: j in A <==> j + 1 in hdr
  {
    set h | h in hdr :: h - 1
  }

  /**
   * The rows `rows` of M form an exact cover of the columns A: they hit no
   * column outside A, and every column of A is hit by exactly one of them.
   */
  ghost predicate ExactCover(M: seq<seq<int>>, rows: seq<int>, A: set<int>)
  {
    (forall k :: 0 <= k < |rows| ==> 0 <= rows[k] < |M|)
    && (forall k, j :: 0 <= k < |rows| && Hit(M, rows[k], j) ==> j in A)
    && (forall j :: j in A ==> exists k :: 0 <= k < |rows| && Hit(M, rows[k], j))
    && (forall k, k', j :: 0 <= k < k' < |rows| && Hit(M, rows[k], j) ==> !Hit(M, rows[k'], j))
  }

  /** With no column left, no row is needed (line 45). */
  lemma CoverNothing(M: seq<seq<int>>)
    ensures ExactCover(M, [], ActiveCols([]))
  {
  }

  /**
   * Choosing row i, whose columns are all in A, in front of an exact cover
   * of the columns of A that row i leaves open, gives an exact cover of A.
   */
  lemma ExtendCover(M: seq<seq<int>>, i: int, rest: seq<int>, A: set<int>)
    requires 0 <= i < |M| && HitCols(M, i) <= A
    requires ExactCover(M, rest, A - HitCols(M, i))
    ensures ExactCover(M, [i] + rest, A)
  {
    var rows := [i] + rest;
    forall j | j in A
      ensures exists k :: 0 <= k < |rows| && Hit(M, rows[k], j)
    {
      if Hit(M, i, j) {
        assert Hit(M, rows[0], j);
      } else {
        assert j in A - HitCols(M, i);
        var k :| 0 <= k < |rest| && Hit(M, rest[k], j);
        assert rows[k + 1] == rest[k];
      }
    }
    forall k, k', j | 0 <= k < k' < |rows| && Hit(M, rows[k], j)
      ensures !Hit(M, rows[k'], j)
    {
      assert rows[k'] == rest[k' - 1];
      if k > 0 {
        assert rows[k] == rest[k - 1];
      } else {
        assert j in HitCols(M, i);
      }
    }
    forall k, j | 0 <= k < |rows| && Hit(M, rows[k], j)
      ensures j in A
    {
      if k > 0 {
        assert rows[k] == rest[k - 1];
        assert Hit(M, rest[k - 1], j);
        assert j in A - HitCols(M, i);
      } else {
        assert rows[0] == i;
        assert j in HitCols(M, i);
      }
    }
  }

  /** The column headers of the cells xs. */
  ghost function RowCols(C: seq<int>, xs: seq<int>): (r: seq<int>)
    requires forall k :: 0 <= k < |xs| ==> 0 <= xs[k] < |C|
    ensures |r| == |xs| && forall k :: 0 <= k < |xs| ==> r[k] == C[xs[k]]
  {
    seq(|xs|, k requires 0 <= k < |xs| => C[xs[k]])
  }

  /** A sequence that lists the columns of the cells xs is RowCols of xs. */
  lemma RowColsOf(C: seq<int>, xs: seq<int>, cs: seq<int>)
    requires forall k :: 0 <= k < |xs| ==> 0 <= xs[k] < |C|
    requires |cs| == |xs| && forall k :: 0 <= k < |xs| ==> cs[k] == C[xs[k]]
    ensures cs == RowCols(C, xs)
  {
  }

  /**
   * Row q of column c: its row number names a row of the matrix, its 1s are
   * column c and the columns of the other cells of the row, those columns
   * are distinct, differ from c and are all active.
   */
  lemma RowCells(sh: Shape, s: Links, a: Abs, c: int, q: int)
    requires Inv(sh, s, a) && c in a.hdr && 0 <= q < |a.cols[c - 1]|
    ensures var r, rr := RowOf(sh, s, a, c, q), RestOf(sh, s, a, c, q);
            (forall k :: 0 <= k < |rr| ==> IsCell(sh, s, rr[k]))
            && 0 <= s.Row[r] < |sh.M|
            && (forall j :: Hit(sh.M, s.Row[r], j) <==> j == c - 1 || j + 1 in RowCols(s.C, rr))
            && (forall k :: 0 <= k < |rr| ==> s.C[rr[k]] in a.hdr && s.C[rr[k]] != c)
            && Unique(RowCols(s.C, rr))
  {
    var r, rr := RowOf(sh, s, a, c, q), RestOf(sh, s, a, c, q);
    RowRestFacts(sh, s, r);
    RowRestOutside(sh, s, c, r);
    assert CellOK(sh, s, r);
    RowHits(sh, s, r, rr);
    RowLiveOf(sh, s, a, c, q);
    var cs := RowCols(s.C, rr);
    forall k, k' | 0 <= k < k' < |cs|
      ensures cs[k] != cs[k']
    {
      SameRowColumns(sh, s, rr[k], rr[k']);
    }
  }

  /** The cells of column c's ring lie in rows all of whose cells are in active columns. */
  lemma RowLiveOf(sh: Shape, s: Links, a: Abs, c: int, q: int)
    requires Inv(sh, s, a) && c in a.hdr && 0 <= q < |a.cols[c - 1]|
    ensures RowLive(sh, s, a, RowOf(sh, s, a, c, q))
    ensures forall k :: 0 <= k < |RestOf(sh, s, a, c, q)| ==> s.C[RestOf(sh, s, a, c, q)[k]] in a.hdr
  {
    var r, rr := RowOf(sh, s, a, c, q), RestOf(sh, s, a, c, q);
    assert RowLive(sh, s, a, a.cols[c - 1][q]);
    RowRestFacts(sh, s, r);
    forall k | 0 <= k < |rr|
      ensures s.C[rr[k]] in a.hdr
    {
      RowLiveAt(sh, s, a, r, rr[k]);
    }
  }

  /** The 1s of r's row are exactly the columns of r and of the other cells of its row. */
  lemma RowHits(sh: Shape, s: Links, r: int, rr: seq<int>)
    requires Layout(sh, s) && IsCell(sh, s, r) && rr == RowRest(sh, s, r)
    requires forall k :: 0 <= k < |rr| ==> IsCell(sh, s, rr[k]) && s.Row[rr[k]] == s.Row[r]
    requires 0 <= s.Row[r] < |sh.M|
    ensures forall j :: Hit(sh.M, s.Row[r], j) <==> j == s.C[r] - 1 || j + 1 in RowCols(s.C, rr)
  {
    assert CellOK(sh, s, r);
    forall j | Hit(sh.M, s.Row[r], j)
      ensures j == s.C[r] - 1 || j + 1 in RowCols(s.C, rr)
    {
      HitHasCell(sh, s, r, rr, j);
    }
    forall j | j + 1 in RowCols(s.C, rr)
      ensures Hit(sh.M, s.Row[r], j)
    {
      CellHasHit(sh, s, r, rr, j);
    }
  }

  /** Each 1 of r's row stands for r or for one of the other cells of its row. */
  lemma HitHasCell(sh: Shape, s: Links, r: int, rr: seq<int>, j: int)
    requires Layout(sh, s) && IsCell(sh, s, r) && rr == RowRest(sh, s, r)
    requires forall k :: 0 <= k < |rr| ==> IsCell(sh, s, rr[k]) && s.Row[rr[k]] == s.Row[r]
    requires 0 <= s.Row[r] < |sh.M| && Hit(sh.M, s.Row[r], j)
    ensures j == s.C[r] - 1 || j + 1 in RowCols(s.C, rr)
  {
    var i := s.Row[r];
    assert CellOf(sh, s, i, j);
    var y := sh.cellOf[i][j];
    RangeRest(Start(sh, s, r), End(sh, s, r), r);
    if y != r {
      assert y in rr;
      var k := IndexOf(rr, y);
      assert RowCols(s.C, rr)[k] == j + 1;
    }
  }

  /** Each other cell of r's row stands for a 1 of the row. */
  lemma CellHasHit(sh: Shape, s: Links, r: int, rr: seq<int>, j: int)
    requires Layout(sh, s) && IsCell(sh, s, r) && rr == RowRest(sh, s, r)
    requires forall k :: 0 <= k < |rr| ==> IsCell(sh, s, rr[k]) && s.Row[rr[k]] == s.Row[r]
    requires j + 1 in RowCols(s.C, rr)
    ensures 0 <= s.Row[r] < |sh.M| && Hit(sh.M, s.Row[r], j)
  {
    var k := IndexOf(RowCols(s.C, rr), j + 1);
    assert CellOK(sh, s, rr[k]);
  }

  /**
   * After the other cells' columns of a row are covered as well, the active
   * columns are those before, minus the ones the row hits.
   */
  lemma ActiveAfterRow(M: seq<seq<int>>, i: int, hdr0: seq<int>, hdr1: seq<int>, c: int, cs: seq<int>)
    requires 0 <= i < |M|
    requires forall h :: h in hdr1 <==> h in hdr0 && h != c && h !in cs
    requires forall j :: Hit(M, i, j) <==> j == c - 1 || j + 1 in cs
    ensures ActiveCols(hdr1) == ActiveCols(hdr0) - HitCols(M, i)
  {
  }

  /** The row's 1s are all in active columns. */
  lemma RowActive(M: seq<seq<int>>, i: int, hdr: seq<int>, c: int, cs: seq<int>)
    requires 0 <= i < |M| && c in hdr && forall k :: 0 <= k < |cs| ==> cs[k] in hdr
    requires forall j :: Hit(M, i, j) <==> j == c - 1 || j + 1 in cs
    ensures HitCols(M, i) <= ActiveCols(hdr)
  {
  }

  /**
   * A chain of `cover` calls: from state k, covering column cs[k] gives
   * state k + 1.
   */
  ghost predicate Chain(sh: Shape, ss: seq<Links>, aa: seq<Abs>, cs: seq<int>)
  {
    |ss| == |aa| == |cs| + 1
    && forall k {:trigger ChainLink(sh, ss, aa, cs, k)} :: 0 <= k < |cs| ==> ChainLink(sh, ss, aa, cs, k)
  }

  /** Link k of a chain of `cover` calls. */
  ghost predicate ChainLink(sh: Shape, ss: seq<Links>, aa: seq<Abs>, cs: seq<int>, k: int)
    requires |ss| == |aa| == |cs| + 1 && 0 <= k < |cs|
  {
    Inv(sh, ss[k], aa[k]) && cs[k] in aa[k].hdr
    && ss[k + 1] == CoverLinks(sh, ss[k], aa[k], cs[k])
    && aa[k + 1] == CoverAbs(sh, ss[k], aa[k], cs[k])
  }

  /** One more `cover` call extends a chain. */
  lemma ChainSnoc(sh: Shape, ss: seq<Links>, aa: seq<Abs>, cs: seq<int>, c: int, t: Links, b: Abs)
    requires Chain(sh, ss, aa, cs)
    requires Inv(sh, ss[|cs|], aa[|cs|]) && c in aa[|cs|].hdr
    requires t == CoverLinks(sh, ss[|cs|], aa[|cs|], c) && b == CoverAbs(sh, ss[|cs|], aa[|cs|], c)
    ensures Chain(sh, ss + [t], aa + [b], cs + [c])
  {
    var ss', aa', cs' := ss + [t], aa + [b], cs + [c];
    forall k | 0 <= k < |cs'|
      ensures ChainLink(sh, ss', aa', cs', k)
    {
      if k < |cs| {
        assert ChainLink(sh, ss, aa, cs, k);
        assert ss'[k] == ss[k] && ss'[k + 1] == ss[k + 1] && aa'[k] == aa[k] && aa'[k + 1] == aa[k + 1] && cs'[k] == cs[k];
      }
    }
  }

  /**
   * Along a chain of `cover` calls, the header ring loses exactly the
   * covered columns, one per call.
   */
  lemma ChainHeaders(sh: Shape, ss: seq<Links>, aa: seq<Abs>, cs: seq<int>)
    requires Chain(sh, ss, aa, cs)
    ensures forall h :: h in aa[|cs|].hdr <==> h in aa[0].hdr && h !in cs
    ensures |aa[|cs|].hdr| == |aa[0].hdr| - |cs|
  {
    HeadersUpTo(sh, ss, aa, cs, |cs|);
    assert cs[..|cs|] == cs;
  }

  /** The first n calls of a chain take the first n covered columns out of the header ring. */
  lemma {:induction false} HeadersUpTo(sh: Shape, ss: seq<Links>, aa: seq<Abs>, cs: seq<int>, n: int)
    requires Chain(sh, ss, aa, cs) && 0 <= n <= |cs|
    ensures forall h :: h in aa[n].hdr <==> h in aa[0].hdr && h !in cs[..n]
    ensures |aa[n].hdr| == |aa[0].hdr| - n
    decreases n
  {
    if n > 0 {
      HeadersUpTo(sh, ss, aa, cs, n - 1);
      CallHeaders(sh, ss, aa, cs, n - 1);
      assert cs[..n] == cs[..n - 1] + [cs[n - 1]];
    }
  }

  /** Call k of a chain takes cs[k], and only it, out of the header ring. */
  lemma CallHeaders(sh: Shape, ss: seq<Links>, aa: seq<Abs>, cs: seq<int>, k: int)
    requires Chain(sh, ss, aa, cs) && 0 <= k < |cs|
    ensures |aa[k + 1].hdr| == |aa[k].hdr| - 1
    ensures forall h :: h in aa[k + 1].hdr <==> h in aa[k].hdr && h != cs[k]
  {
    assert ChainLink(sh, ss, aa, cs, k);
    CoverHdr(sh, ss[k], aa[k], cs[k]);
  }

  /**
   * The next column of a row, among distinct columns all active before the
   * row's first `cover` call, is still active before its own.
   */
  lemma ColumnStillActive(sh: Shape, ss: seq<Links>, aa: seq<Abs>, cols: seq<int>, cs: seq<int>)
    requires |cs| < |cols| && cs == cols[..|cs|] && Unique(cols) && Chain(sh, ss, aa, cs)
    requires forall k :: 0 <= k < |cols| ==> cols[k] in aa[0].hdr
    ensures cols[|cs|] in aa[|cs|].hdr
  {
    ChainHeaders(sh, ss, aa, cs);
    UniqueFresh(cols, |cs|);
    var c, n := cols[|cs|], |cs|;
    assert c in aa[n].hdr <==> c in aa[0].hdr && c !in cs;
  }

  /** The state at the end of a chain of `cover` calls from a valid state is valid. */
  lemma ChainEnd(sh: Shape, ss: seq<Links>, aa: seq<Abs>, cs: seq<int>)
    requires Chain(sh, ss, aa, cs) && Inv(sh, ss[0], aa[0])
    ensures Inv(sh, ss[|cs|], aa[|cs|])
  {
    if cs != [] {
      var n := |cs| - 1;
      assert ChainLink(sh, ss, aa, cs, n);
      CoverSound(sh, ss[n], aa[n], cs[n]);
    }
  }

  /** `cover` leaves the left and right links of every cell alone. */
  lemma CoverKeepsRows(sh: Shape, s: Links, a: Abs, c: int, x: int)
    requires Inv(sh, s, a) && c in a.hdr && IsCell(sh, s, x)
    ensures CoverLinks(sh, s, a, c).L[x] == s.L[x] && CoverLinks(sh, s, a, c).R[x] == s.R[x]
  {
    HeaderOut(sh, s, a.hdr, c);
  }

  /** Any two states with the same layout agree on the left and right links of cells. */
  lemma SameRowLinks(sh: Shape, s: Links, t: Links, x: int)
    requires Layout(sh, s) && Layout(sh, t) && t.Row == s.Row && |t.L| == |s.L| && IsCell(sh, s, x)
    ensures t.L[x] == s.L[x] && t.R[x] == s.R[x]
  {
    assert CellOK(sh, s, x);
    assert CellOK(sh, t, x);
  }

  /** A row's other cells depend only on the layout. */
  lemma RowRestSame(sh: Shape, s: Links, t: Links, r: int)
    requires Layout(sh, s) && Layout(sh, t) && t.Row == s.Row && |t.L| == |s.L| && IsCell(sh, s, r)
    ensures RowRest(sh, t, r) == RowRest(sh, s, r)
  {
    assert Start(sh, t, r) == Start(sh, s, r) && End(sh, t, r) == End(sh, s, r);
  }

  /** The header ring is empty exactly when the root's right link is the root (line 44). */
  lemma HeaderEmpty(sh: Shape, s: Links, a: Abs)
    requires Inv(sh, s, a)
    ensures s.R[0] == 0 <==> a.hdr == []
  {
  }

  /** An active column's size field counts the cells in its ring. */
  lemma SizeIsLength(sh: Shape, s: Links, a: Abs, h: int)
    requires Inv(sh, s, a) && h in a.hdr
    ensures 1 <= h <= sh.ncols && s.Size[h] == |a.cols[h - 1]|
  {
    assert ColumnOK(sh, s, a.cols[h - 1], h - 1);
  }

  /**
   * After `cover(c)`, column c's own ring is as before, so the loop of
   * lines 58-74 visits c's rows top down and comes back to c.
   */
  lemma CoveredColumnLinks(sh: Shape, s: Links, a: Abs, c: int, q: int)
    requires Inv(sh, s, a) && c in a.hdr && -1 <= q < |a.cols[c - 1]|
    ensures var t, col := CoverLinks(sh, s, a, c), a.cols[c - 1];
            var x := if q < 0 then c else col[q];
            0 <= x < |t.D| && t.D[x] == (if q + 1 < |col| then col[q + 1] else c)
            && (q + 1 < |col| ==> col[q + 1] != c)
  {
    CoverEnd(sh, s, a, c);
    ColumnNext(sh, s, a, c, q, |CoverOps(sh, s, a, c)|);
  }

  /**
   * The header ring seen from the root, as the loop of lines 49-54 walks it:
   * left to right, in increasing column order, back to the root; each
   * header's size counts the cells of its column.
   */
  lemma HeaderWalk(sh: Shape, s: Links, a: Abs)
    requires Inv(sh, s, a)
    ensures s.R[0] == (if a.hdr == [] then 0 else a.hdr[0])
    ensures forall p :: 0 <= p < |a.hdr| ==> 0 < a.hdr[p] < |s.R| && s.R[a.hdr[p]] == (if p + 1 < |a.hdr| then a.hdr[p + 1] else 0)
    ensures forall p, p' :: 0 <= p < p' < |a.hdr| ==> a.hdr[p] < a.hdr[p']
    ensures forall h :: h in a.hdr ==> 1 <= h <= sh.ncols && s.Size[h] == |a.cols[h - 1]|
  {
    assert Above(0, a.hdr);
    forall h | h in a.hdr
      ensures 1 <= h <= sh.ncols && s.Size[h] == |a.cols[h - 1]|
    {
      SizeIsLength(sh, s, a, h);
    }
  }

  /** The right links round the row of cell row, in the order the walk of lines 61-63 takes them. */
  lemma RowAhead(sh: Shape, s: Links, row: int, rr: seq<int>)
    requires Layout(sh, s) && IsCell(sh, s, row) && rr == RowRest(sh, s, row)
    ensures s.R[row] == (if rr == [] then row else rr[0])
    ensures forall k :: 0 <= k < |rr| ==> sh.ncols < rr[k] < |s.R| && rr[k] != row
    ensures forall k :: 0 <= k < |rr| ==> s.R[rr[k]] == (if k + 1 < |rr| then rr[k + 1] else row)
  {
    RowRestFacts(sh, s, row);
    RowRing(sh, s, row, -1);
    forall k | 0 <= k < |rr|
      ensures s.R[rr[k]] == (if k + 1 < |rr| then rr[k + 1] else row)
    {
      RowRing(sh, s, row, k);
    }
  }

  /** The left links round the row of cell row, in the order the walk of lines 71-73 takes them. */
  lemma RowBehind(sh: Shape, s: Links, row: int, rr: seq<int>)
    requires Layout(sh, s) && IsCell(sh, s, row) && rr == RowRest(sh, s, row)
    ensures s.L[row] == (if rr == [] then row else rr[|rr| - 1])
    ensures forall k :: 0 <= k < |rr| ==> sh.ncols < rr[k] < |s.L| && rr[k] != row
    ensures forall k :: 0 <= k < |rr| ==> s.L[rr[k]] == (if k > 0 then rr[k - 1] else row)
  {
    RowRestFacts(sh, s, row);
    RowRing(sh, s, row, -1);
    forall k | 0 <= k < |rr|
      ensures s.L[rr[k]] == (if k > 0 then rr[k - 1] else row)
    {
      RowRing(sh, s, row, k);
    }
  }

  /** Two states with the same layout agree on the left and right links of every cell. */
  lemma SameCellLinks(sh: Shape, s: Links, t: Links)
    requires Layout(sh, s) && Layout(sh, t) && t.Row == s.Row && |t.L| == |s.L|
    ensures forall y :: sh.ncols < y < |s.L| ==> t.L[y] == s.L[y] && t.R[y] == s.R[y]
  {
    forall y | sh.ncols < y < |s.L|
      ensures t.L[y] == s.L[y] && t.R[y] == s.R[y]
    {
      SameRowLinks(sh, s, t, y);
    }
  }

  /**
   * Row q of column c, once c is covered from s0, a0 (the state s1, a1 at
   * line 59): its cell row is still a cell with the same other cells rr,
   * whose columns are distinct and all still active; its 1s are column c
   * and those columns.
   */
  lemma RowReady(sh: Shape, s0: Links, a0: Abs, c: int, q: int, s1: Links, a1: Abs, row: int, rr: seq<int>)
    requires Inv(sh, s0, a0) && c in a0.hdr && 0 <= q < |a0.cols[c - 1]|
    requires s1 == CoverLinks(sh, s0, a0, c) && a1 == CoverAbs(sh, s0, a0, c)
    requires row == a0.cols[c - 1][q] && rr == RestOf(sh, s0, a0, c, q)
    ensures Inv(sh, s1, a1) && IsCell(sh, s1, row) && rr == RowRest(sh, s1, row)
    ensures forall k :: 0 <= k < |rr| ==> 0 <= rr[k] < |s0.C| && s0.C[rr[k]] in a1.hdr
    ensures Unique(RowCols(s0.C, rr))
    ensures 0 <= s0.Row[row] < |sh.M|
    ensures forall j :: Hit(sh.M, s0.Row[row], j) <==> j == c - 1 || j + 1 in RowCols(s0.C, rr)
    ensures forall h :: h in a1.hdr <==> h in a0.hdr && h != c
  {
    RowCells(sh, s0, a0, c, q);
    CoverSound(sh, s0, a0, c);
    RowRestSame(sh, s0, s1, row);
  }

  /**
   * FoundRow on the solution list: once row i was pushed behind sol0 and the
   * recursive search appended an exact cover of what was left, the rows
   * behind sol0 cover the columns of hdr0.
   */
  lemma PushFound(M: seq<seq<int>>, sol0: seq<int>, i: int, sol: seq<int>, hdr0: seq<int>, hdr1: seq<int>, hdr2: seq<int>, c: int, cs: seq<int>)
    requires 0 <= i < |M| && c in hdr0
    requires forall h :: h in hdr1 <==> h in hdr0 && h != c
    requires forall h :: h in hdr2 <==> h in hdr1 && h !in cs
    requires forall k :: 0 <= k < |cs| ==> cs[k] in hdr1
    requires forall j :: Hit(M, i, j) <==> j == c - 1 || j + 1 in cs
    requires sol0 + [i] <= sol && ExactCover(M, sol[|sol0| + 1..], ActiveCols(hdr2))
    ensures sol0 <= sol && ExactCover(M, sol[|sol0|..], ActiveCols(hdr0))
  {
    FoundRow(M, i, hdr0, hdr1, hdr2, c, cs, sol[|sol0| + 1..]);
    DropOneLess(sol, |sol0|);
  }

  /**
   * A successful branch of lines 58-74: the row i taken for column c, then
   * an exact cover of what its `cover` calls left active, is an exact
   * cover of the columns active before c was covered.
   */
  lemma FoundRow(M: seq<seq<int>>, i: int, hdr0: seq<int>, hdr1: seq<int>, hdr2: seq<int>, c: int, cs: seq<int>, rest: seq<int>)
    requires 0 <= i < |M| && c in hdr0
    requires forall h :: h in hdr1 <==> h in hdr0 && h != c
    requires forall h :: h in hdr2 <==> h in hdr1 && h !in cs
    requires forall k :: 0 <= k < |cs| ==> cs[k] in hdr1
    requires forall j :: Hit(M, i, j) <==> j == c - 1 || j + 1 in cs
    requires ExactCover(M, rest, ActiveCols(hdr2))
    ensures ExactCover(M, [i] + rest, ActiveCols(hdr0))
  {
    forall k | 0 <= k < |cs|
      ensures cs[k] in hdr0
    {
      var h := cs[k];
      assert h in hdr1 <==> h in hdr0 && h != c;
    }
    ActiveAfterRow(M, i, hdr0, hdr2, c, cs);
    RowActive(M, i, hdr0, c, cs);
    ExtendCover(M, i, rest, ActiveCols(hdr0));
  }
}
