/**
 * What a Dancing Links arena built from a 0/1 matrix looks like
 * (Algo-Reynalde/main.cpp), and what `cover` does to it, on values.
 *
 * Node numbering follows the order in which `create_dancing_links` allocates
 * nodes: node 0 is the root header, nodes 1..ncols are the column headers
 * (column j has header j + 1), and the cells follow row by row, so that the
 * cells of matrix row i are the block rowFirst[i] .. rowFirst[i + 1] - 1,
 * ordered by column.
 */
module DlxModel {
  import opened Seqs
  import opened Links

  /**
   * The matrix, its number of columns, where each row's block starts, and
   * for every 1 of the matrix the cell that stands for it.
   */
  datatype Shape = Shape(M: seq<seq<int>>, ncols: nat, rowFirst: seq<int>, cellOf: seq<seq<int>>)

  /**
   * The abstract state: the headers still in the root's ring, in ring
   * order, and, per column, the cells still in its vertical ring, top down.
   */
  datatype Abs = Abs(hdr: seq<int>, cols: seq<seq<int>>)

  /** Entry (i, j) of the matrix is a 1 (`matrix[i][j] == 1`). */
  ghost predicate Hit(M: seq<seq<int>>, i: int, j: int)
  {
    0 <= i < |M| && 0 <= j < |M[i]| && M[i][j] == 1
  }

  /** The matrix shape `create_dancing_links` can index: no row longer than row 0. */
  ghost predicate MatrixShape(M: seq<seq<int>>)
  {
    |M| >= 1 && forall i :: 0 <= i < |M| ==> |M[i]| <= |M[0]|
  }

  ghost predicate IsCell(sh: Shape, s: Links, x: int)
  {
    sh.ncols < x < |s.L|
  }

  /** Row blocks cover the cells in order. */
  ghost predicate Blocks(sh: Shape, n: int)
  {
    |sh.rowFirst| == |sh.M| + 1 && sh.rowFirst[0] == sh.ncols + 1 && sh.rowFirst[|sh.M|] == n
    && (forall i, i' :: 0 <= i <= i' <= |sh.M| ==> sh.rowFirst[i] <= sh.rowFirst[i'])
  }

  /**
   * A cell lies in the block of its row, sits in a column where its row has
   * a 1, and its left/right links go round its block.
   */
  ghost predicate CellOK(sh: Shape, s: Links, x: int)
    requires Sane(s) && Blocks(sh, |s.L|) && IsCell(sh, s, x)
  {
    0 <= s.Row[x] < |sh.M|
    && var st, en := sh.rowFirst[s.Row[x]], sh.rowFirst[s.Row[x] + 1];
       st <= x < en
       && 1 <= s.C[x] <= sh.ncols && Hit(sh.M, s.Row[x], s.C[x] - 1)
       && s.R[x] == (if x + 1 < en then x + 1 else st)
       && s.L[x] == (if x > st then x - 1 else en - 1)
       && (x + 1 < en ==> s.C[x] < s.C[x + 1])
  }

  /** The parts of the arena that neither `cover` nor `uncover` change. */
  ghost predicate Layout(sh: Shape, s: Links)
  {
    Sane(s) && Blocks(sh, |s.L|) && sh.ncols < |s.L|
    && MatrixShape(sh.M) && |sh.M[0]| == sh.ncols
    && s.C[0] == -1 && s.Row[0] == -1
    && (forall h :: 1 <= h <= sh.ncols ==> s.C[h] == h && s.Row[h] == -1)
    && (forall x {:trigger CellOK(sh, s, x)} :: IsCell(sh, s, x) ==> CellOK(sh, s, x))
    && |sh.cellOf| == |sh.M| && (forall i :: 0 <= i < |sh.M| ==> |sh.cellOf[i]| == |sh.M[i]|)
    && (forall i, j :: Hit(sh.M, i, j) ==> CellOf(sh, s, i, j))
  }

  /** The cell standing for entry (i, j) lies in row i's block, in column j. */
  ghost predicate CellOf(sh: Shape, s: Links, i: int, j: int)
    requires Sane(s) && Blocks(sh, |s.L|) && |sh.cellOf| == |sh.M|
    requires 0 <= i < |sh.M| && |sh.cellOf[i]| == |sh.M[i]| && 0 <= j < |sh.M[i]|
  {
    var y := sh.cellOf[i][j];
    sh.rowFirst[i] <= y < sh.rowFirst[i + 1] && s.C[y] == j + 1
  }

  /** First cell of x's row block. */
  ghost function Start(sh: Shape, s: Links, x: int): (st: int)
    requires Layout(sh, s) && IsCell(sh, s, x)
    ensures sh.ncols < st <= x
  {
    assert CellOK(sh, s, x);
    assert sh.rowFirst[0] <= sh.rowFirst[s.Row[x]];
    sh.rowFirst[s.Row[x]]
  }

  /** One past the last cell of x's row block. */
  ghost function End(sh: Shape, s: Links, x: int): (en: int)
    requires Layout(sh, s) && IsCell(sh, s, x)
    ensures x < en <= |s.L|
  {
    assert CellOK(sh, s, x);
    assert sh.rowFirst[s.Row[x] + 1] <= sh.rowFirst[|sh.M|];
    sh.rowFirst[s.Row[x] + 1]
  }

  /**
   * Column j's vertical ring holds exactly the cells of `col`, top down, all
   * of column j, and its header's size field counts them.
   */
  ghost predicate ColumnOK(sh: Shape, s: Links, col: seq<int>, j: int)
    requires Sane(s) && 0 <= j && j + 1 < |s.L|
  {
    Ring(s.U, s.D, j + 1, col) && Above(sh.ncols, col)
    && (forall k :: 0 <= k < |col| ==> col[k] < |s.L| && s.C[col[k]] == j + 1)
    && s.Size[j + 1] == |col|
  }

  /** Every cell of x's row is still in its column's ring, and that column is active. */
  ghost predicate RowLive(sh: Shape, s: Links, a: Abs, x: int)
    requires Sane(s) && IsCell(sh, s, x)
  {
    forall y :: IsCell(sh, s, y) && s.Row[y] == s.Row[x] ==>
      s.C[y] in a.hdr && 1 <= s.C[y] <= |a.cols| && y in a.cols[s.C[y] - 1]
  }

  lemma RowLiveAt(sh: Shape, s: Links, a: Abs, x: int, y: int)
    requires Sane(s) && IsCell(sh, s, x) && RowLive(sh, s, a, x)
    requires IsCell(sh, s, y) && s.Row[y] == s.Row[x]
    ensures s.C[y] in a.hdr && 1 <= s.C[y] <= |a.cols| && y in a.cols[s.C[y] - 1]
  {
  }

  /** The links that `cover` and `uncover` change agree with the abstract state. */
  ghost predicate Active(sh: Shape, s: Links, a: Abs)
    requires Layout(sh, s)
  {
    Ring(s.L, s.R, 0, a.hdr) && Above(0, a.hdr)
    && (forall k :: 0 <= k < |a.hdr| ==> a.hdr[k] <= sh.ncols)
    && |a.cols| == sh.ncols
    && (forall j {:trigger ColumnOK(sh, s, a.cols[j], j)} :: 0 <= j < sh.ncols ==> ColumnOK(sh, s, a.cols[j], j))
    && (forall j, k {:trigger RowLive(sh, s, a, a.cols[j][k])} :: 0 <= j < sh.ncols && j + 1 in a.hdr && 0 <= k < |a.cols[j]| ==> IsCell(sh, s, a.cols[j][k]) && RowLive(sh, s, a, a.cols[j][k]))
  }

  /** The invariant of the arena between calls of `cover`, `uncover` and `solve`. */
  ghost predicate Inv(sh: Shape, s: Links, a: Abs)
  {
    Layout(sh, s) && Active(sh, s, a)
  }

  // ---------------------------------------------------------------------
  // Rows
  // ---------------------------------------------------------------------

  /** lo, lo + 1, ..., hi - 1. */
  ghost function Range(lo: int, hi: int): (r: seq<int>)
    requires lo <= hi
    ensures |r| == hi - lo && forall k :: 0 <= k < |r| ==> r[k] == lo + k
  {
    seq(hi - lo, k => lo + k)
  }

  /**
   * The other cells of r's row in the order `node = node->right` visits
   * them from r: those after r in the block, then those before it.
   */
  ghost function RowRest(sh: Shape, s: Links, r: int): seq<int>
    requires Layout(sh, s) && IsCell(sh, s, r)
  {
    Range(r + 1, End(sh, s, r)) + Range(Start(sh, s, r), r)
  }

  /** The nodes `cover` unlinks for the rows `rows` of the covered column, in order. */
  ghost function RowsOps(sh: Shape, s: Links, rows: seq<int>): seq<int>
    requires Layout(sh, s) && forall q :: 0 <= q < |rows| ==> IsCell(sh, s, rows[q])
    decreases |rows|
  {
    if rows == [] then []
    else RowsOps(sh, s, rows[..|rows| - 1]) + RowRest(sh, s, rows[|rows| - 1])
  }

  /** The row numbers of the cells in `rows`. */
  ghost function RowNums(s: Links, rows: seq<int>): seq<int>
    requires forall q :: 0 <= q < |rows| ==> 0 <= rows[q] < |s.Row|
  {
    seq(|rows|, q requires 0 <= q < |rows| => s.Row[rows[q]])
  }

  /** The rows of the cells in column c's ring. */
  ghost function ColRows(sh: Shape, s: Links, a: Abs, c: int): seq<int>
    requires Inv(sh, s, a) && 1 <= c <= sh.ncols
  {
    assert ColumnOK(sh, s, a.cols[c - 1], c - 1);
    RowNums(s, a.cols[c - 1])
  }

  /** A cell shares r's row exactly when it lies in r's block. */
  lemma BlockRow(sh: Shape, s: Links, r: int, z: int)
    requires Layout(sh, s) && IsCell(sh, s, r)
    ensures IsCell(sh, s, z) && s.Row[z] == s.Row[r] <==> Start(sh, s, r) <= z < End(sh, s, r)
  {
    assert CellOK(sh, s, r);
    assert sh.rowFirst[0] <= sh.rowFirst[s.Row[r]];
    assert sh.rowFirst[s.Row[r] + 1] <= sh.rowFirst[|sh.M|];
    if IsCell(sh, s, z) {
      assert CellOK(sh, s, z);
      if Start(sh, s, r) <= z < End(sh, s, r) {
        assert s.Row[z] == s.Row[r];
      }
    }
  }

  /**
   * The other cells of r's row are exactly the cells `node = node->right`
   * visits from r, each once, and they form a ring anchored at r.
   */
  lemma RowRestFacts(sh: Shape, s: Links, r: int)
    requires Layout(sh, s) && IsCell(sh, s, r)
    ensures var rr := RowRest(sh, s, r);
            (forall k :: 0 <= k < |rr| ==> IsCell(sh, s, rr[k]) && s.Row[rr[k]] == s.Row[r] && rr[k] != r)
            && (forall z :: z in rr <==> IsCell(sh, s, z) && s.Row[z] == s.Row[r] && z != r)
            && Unique(rr)
            && Ring(s.L, s.R, r, rr)
  {
    var st, en := Start(sh, s, r), End(sh, s, r);
    var rr := RowRest(sh, s, r);
    assert CellOK(sh, s, r);
    RangeRest(st, en, r);
    forall z
      ensures st <= z < en <==> IsCell(sh, s, z) && s.Row[z] == s.Row[r]
    {
      BlockRow(sh, s, r, z);
    }
    forall x | st <= x < en
      ensures s.R[x] == (if x + 1 < en then x + 1 else st)
      ensures s.L[x] == (if x > st then x - 1 else en - 1)
    {
      BlockRow(sh, s, r, x);
      assert CellOK(sh, s, x);
    }
    RangeRing(s.L, s.R, st, en, r);
  }

  /** The cells of a block other than r, from r + 1 round to r - 1. */
  lemma RangeRest(st: int, en: int, r: int)
    requires st <= r < en
    ensures var rr := Range(r + 1, en) + Range(st, r);
            |rr| == en - st - 1
            && (forall k :: 0 <= k < |rr| ==> rr[k] == if k < en - r - 1 then r + 1 + k else st + k - (en - r - 1))
            && (forall k :: 0 <= k < |rr| ==> st <= rr[k] < en && rr[k] != r)
            && (forall z :: z in rr <==> st <= z < en && z != r)
            && Unique(rr)
  {
    var rr := Range(r + 1, en) + Range(st, r);
    var m := en - r - 1;
    forall k | 0 <= k < |rr|
      ensures rr[k] == if k < m then r + 1 + k else st + k - m
    {
    }
    forall z | st <= z < en && z != r
      ensures z in rr
    {
      var k := if z > r then z - r - 1 else z - st + m;
      assert rr[k] == z;
    }
  }

  /** A block whose left/right links go round it is a ring anchored at any of its cells. */
  lemma RangeRing(L: seq<int>, R: seq<int>, st: int, en: int, r: int)
    requires st <= r < en <= |R| && |L| == |R| && 0 <= st
    requires forall x :: st <= x < en ==> R[x] == (if x + 1 < en then x + 1 else st)
    requires forall x :: st <= x < en ==> L[x] == (if x > st then x - 1 else en - 1)
    ensures Ring(L, R, r, Range(r + 1, en) + Range(st, r))
  {
    var rr := Range(r + 1, en) + Range(st, r);
    RangeEnds(L, R, st, en, r);
    forall k | 0 <= k < |rr|
      ensures 0 <= rr[k] < |R|
      ensures R[rr[k]] == if k + 1 < |rr| then rr[k + 1] else r
      ensures L[rr[k]] == if k == 0 then r else rr[k - 1]
    {
      RangeRingAt(L, R, st, en, r, k);
    }
  }

  /** The anchor r links to the first and the last cell after it, or to itself when alone. */
  lemma RangeEnds(L: seq<int>, R: seq<int>, st: int, en: int, r: int)
    requires st <= r < en <= |R| && |L| == |R| && 0 <= st
    requires forall x :: st <= x < en ==> R[x] == (if x + 1 < en then x + 1 else st)
    requires forall x :: st <= x < en ==> L[x] == (if x > st then x - 1 else en - 1)
    ensures var rr := Range(r + 1, en) + Range(st, r);
            R[r] == (if rr == [] then r else rr[0])
            && L[r] == (if rr == [] then r else rr[|rr| - 1])
  {
    RangeRest(st, en, r);
  }

  /** The links of the k-th cell after r, going round the block. */
  lemma RangeRingAt(L: seq<int>, R: seq<int>, st: int, en: int, r: int, k: int)
    requires st <= r < en <= |R| && |L| == |R| && 0 <= st && 0 <= k < en - st - 1
    requires forall x :: st <= x < en ==> R[x] == (if x + 1 < en then x + 1 else st)
    requires forall x :: st <= x < en ==> L[x] == (if x > st then x - 1 else en - 1)
    ensures var rr := Range(r + 1, en) + Range(st, r);
            0 <= rr[k] < |R|
            && R[rr[k]] == (if k + 1 < |rr| then rr[k + 1] else r)
            && L[rr[k]] == (if k == 0 then r else rr[k - 1])
  {
    var rr := Range(r + 1, en) + Range(st, r);
    var m := en - r - 1;
    RangeRest(st, en, r);
    if k < m {
      var x := r + 1 + k;
      assert rr[k] == x && st <= x < en;
      if k + 1 < m {
        assert rr[k + 1] == x + 1;
      } else if k + 1 < |rr| {
        assert x + 1 == en && rr[k + 1] == st;
      }
      if k > 0 {
        assert rr[k - 1] == x - 1;
      }
    } else {
      var x := st + k - m;
      assert rr[k] == x && st <= x < r;
      if k + 1 < |rr| {
        assert rr[k + 1] == x + 1;
      }
      if k > m {
        assert rr[k - 1] == x - 1;
      } else if k > 0 {
        assert x == st && rr[k - 1] == en - 1;
      }
    }
  }

  /** Along a row block the column numbers increase. */
  lemma {:induction false} ColumnsIncrease(sh: Shape, s: Links, x: int, y: int)
    requires Layout(sh, s) && IsCell(sh, s, x) && IsCell(sh, s, y)
    requires s.Row[x] == s.Row[y] && x < y
    ensures s.C[x] < s.C[y]
    decreases y - x
  {
    BlockRow(sh, s, x, y);
    BlockRow(sh, s, x, x + 1);
    assert CellOK(sh, s, x);
    if x + 1 < y {
      ColumnsIncrease(sh, s, x + 1, y);
    }
  }

  /** Two cells of one row lie in different columns. */
  lemma SameRowColumns(sh: Shape, s: Links, x: int, y: int)
    requires Layout(sh, s) && IsCell(sh, s, x) && IsCell(sh, s, y)
    requires s.Row[x] == s.Row[y] && x != y
    ensures s.C[x] != s.C[y]
  {
    if x < y {
      ColumnsIncrease(sh, s, x, y);
    } else {
      ColumnsIncrease(sh, s, y, x);
    }
  }

  /** RowNums lists exactly the rows of the given cells. */
  lemma RowNumsMember(s: Links, rows: seq<int>, q: int)
    requires forall q :: 0 <= q < |rows| ==> 0 <= rows[q] < |s.Row|
    requires 0 <= q < |rows|
    ensures s.Row[rows[q]] in RowNums(s, rows)
  {
    assert RowNums(s, rows)[q] == s.Row[rows[q]];
  }

  lemma RowNumsSnoc(s: Links, rows: seq<int>)
    requires forall q :: 0 <= q < |rows| ==> 0 <= rows[q] < |s.Row|
    requires rows != []
    ensures RowNums(s, rows) == RowNums(s, rows[..|rows| - 1]) + [s.Row[rows[|rows| - 1]]]
  {
  }

  /**
   * For cells `rows` of column c, in ring order, the nodes that `cover`
   * unlinks are the cells of those rows outside column c, each once.
   */
  lemma {:induction false} RowsOpsFacts(sh: Shape, s: Links, c: int, rows: seq<int>)
    requires Layout(sh, s) && Above(sh.ncols, rows)
    requires forall q :: 0 <= q < |rows| ==> rows[q] < |s.L| && s.C[rows[q]] == c
    ensures var ops := RowsOps(sh, s, rows);
            (forall z :: z in ops <==> IsCell(sh, s, z) && s.Row[z] in RowNums(s, rows) && s.C[z] != c)
            && Unique(ops)
    decreases |rows|
  {
    if rows != [] {
      var init, last := rows[..|rows| - 1], rows[|rows| - 1];
      assert Above(sh.ncols, init);
      RowsOpsFacts(sh, s, c, init);
      RowRestOutside(sh, s, c, last);
      LastRowNew(sh, s, c, rows);
      RowNumsSnoc(s, rows);
      OpsStep(s.Row, s.C, sh.ncols, RowsOps(sh, s, init), RowRest(sh, s, last), RowNums(s, init), s.Row[last], c);
    }
  }

  /** The other cells of a row of column c are its cells outside column c. */
  lemma RowRestOutside(sh: Shape, s: Links, c: int, r: int)
    requires Layout(sh, s) && IsCell(sh, s, r) && s.C[r] == c
    ensures var rr := RowRest(sh, s, r);
            Unique(rr) && forall z :: z in rr <==> sh.ncols < z < |s.Row| && s.Row[z] == s.Row[r] && s.C[z] != c
  {
    RowRestFacts(sh, s, r);
    forall z | IsCell(sh, s, z) && s.Row[z] == s.Row[r] && z != r
      ensures s.C[z] != c
    {
      SameRowColumns(sh, s, z, r);
    }
  }

  /** Distinct cells of one column lie in distinct rows. */
  lemma LastRowNew(sh: Shape, s: Links, c: int, rows: seq<int>)
    requires Layout(sh, s) && Above(sh.ncols, rows) && rows != []
    requires forall q :: 0 <= q < |rows| ==> rows[q] < |s.L| && s.C[rows[q]] == c
    ensures s.Row[rows[|rows| - 1]] !in RowNums(s, rows[..|rows| - 1])
  {
    var init, last := rows[..|rows| - 1], rows[|rows| - 1];
    forall q | 0 <= q < |init|
      ensures s.Row[init[q]] != s.Row[last]
    {
      assert init[q] < last;
      if s.Row[init[q]] == s.Row[last] {
        SameRowColumns(sh, s, init[q], last);
      }
    }
  }

  /** Appending the unlinks of one more row, on plain sequences. */
  lemma OpsStep(Row: seq<int>, C: seq<int>, lo: int, prefix: seq<int>, rr: seq<int>, nums: seq<int>, rlast: int, c: int)
    requires |C| == |Row| && 0 <= lo
    requires forall z :: z in prefix <==> lo < z < |Row| && Row[z] in nums && C[z] != c
    requires forall z :: z in rr <==> lo < z < |Row| && Row[z] == rlast && C[z] != c
    requires rlast !in nums
    requires Unique(prefix) && Unique(rr)
    ensures forall z :: z in prefix + rr <==> lo < z < |Row| && Row[z] in nums + [rlast] && C[z] != c
    ensures Unique(prefix + rr)
  {
    forall z
      ensures z in prefix + rr <==> lo < z < |Row| && Row[z] in nums + [rlast] && C[z] != c
    {
      assert z in prefix + rr <==> z in prefix || z in rr;
      if lo < z < |Row| {
        assert Row[z] in nums + [rlast] <==> Row[z] in nums || Row[z] == rlast;
      }
    }
    forall k | 0 <= k < |rr|
      ensures rr[k] !in prefix
    {
      assert rr[k] in rr;
    }
    UniqueConcat(prefix, rr);
  }

  // ---------------------------------------------------------------------
  // cover, on values
  // ---------------------------------------------------------------------

  /** Column j's cells are cells of the arena. */
  lemma ColumnCells(sh: Shape, s: Links, a: Abs, j: int)
    requires Inv(sh, s, a) && 0 <= j < sh.ncols
    ensures ColumnOK(sh, s, a.cols[j], j)
    ensures forall q :: 0 <= q < |a.cols[j]| ==> IsCell(sh, s, a.cols[j][q])
  {
  }

  /** The nodes `cover(c)` unlinks, in the order it unlinks them (lines 19-25): cells outside column c. */
  ghost function CoverOps(sh: Shape, s: Links, a: Abs, c: int): (ops: seq<int>)
    requires Inv(sh, s, a) && 1 <= c <= sh.ncols
    ensures forall k :: 0 <= k < |ops| ==> IsCell(sh, s, ops[k]) && 1 <= s.C[ops[k]] <= sh.ncols && s.C[ops[k]] != c
  {
    ColumnCells(sh, s, a, c - 1);
    RowsOpsFacts(sh, s, c, a.cols[c - 1]);
    CellColumns(sh, s, c, RowsOps(sh, s, a.cols[c - 1]));
    RowsOps(sh, s, a.cols[c - 1])
  }

  /** Cells that are members of `ops` lie in real columns. */
  lemma CellColumns(sh: Shape, s: Links, c: int, ops: seq<int>)
    requires Layout(sh, s)
    requires forall z :: z in ops ==> IsCell(sh, s, z) && s.C[z] != c
    ensures forall k :: 0 <= k < |ops| ==> IsCell(sh, s, ops[k]) && 1 <= s.C[ops[k]] <= sh.ncols && s.C[ops[k]] != c
  {
    forall k | 0 <= k < |ops|
      ensures IsCell(sh, s, ops[k]) && 1 <= s.C[ops[k]] <= sh.ncols && s.C[ops[k]] != c
    {
      assert ops[k] in ops;
      assert CellOK(sh, s, ops[k]);
    }
  }

  /** What `cover(c)` unlinks is all of the cells of the covered rows outside column c, each once. */
  lemma CoverOpsFacts(sh: Shape, s: Links, a: Abs, c: int)
    requires Inv(sh, s, a) && 1 <= c <= sh.ncols
    ensures var ops := CoverOps(sh, s, a, c);
            (forall z :: z in ops <==> IsCell(sh, s, z) && s.Row[z] in ColRows(sh, s, a, c) && s.C[z] != c)
            && Unique(ops)
  {
    ColumnCells(sh, s, a, c - 1);
    RowsOpsFacts(sh, s, c, a.cols[c - 1]);
  }

  /** The state `cover(c)` leaves (lines 15-26). */
  ghost function CoverLinks(sh: Shape, s: Links, a: Abs, c: int): (r: Links)
    requires Inv(sh, s, a) && c in a.hdr
  {
    CoverOpsFacts(sh, s, a, c);
    UnlinkAll(HUnlink(s, c), CoverOps(sh, s, a, c))
  }

  /** The abstract state after `cover(c)`: c leaves the header ring, the unlinked cells their columns. */
  ghost function CoverAbs(sh: Shape, s: Links, a: Abs, c: int): Abs
    requires Inv(sh, s, a) && c in a.hdr
  {
    var ops := CoverOps(sh, s, a, c);
    Abs(Without(a.hdr, [c]), seq(|a.cols|, j requires 0 <= j < |a.cols| => Without(a.cols[j], ops)))
  }

  lemma CoverAbsParts(sh: Shape, s: Links, a: Abs, c: int)
    requires Inv(sh, s, a) && c in a.hdr
    ensures CoverAbs(sh, s, a, c).hdr == Without(a.hdr, [c]) && |CoverAbs(sh, s, a, c).cols| == |a.cols|
    ensures forall i :: 0 <= i < |a.cols| ==> CoverAbs(sh, s, a, c).cols[i] == Without(a.cols[i], CoverOps(sh, s, a, c))
  {
  }

  /** A member of an active column's row, unlinked by `cover(c)`, sits in its own column's ring. */
  lemma OpLive(sh: Shape, s: Links, a: Abs, c: int, y: int)
    requires Inv(sh, s, a) && c in a.hdr && y in CoverOps(sh, s, a, c)
    ensures IsCell(sh, s, y) && s.C[y] != c && s.C[y] in a.hdr && y in a.cols[s.C[y] - 1]
  {
    CoverOpsFacts(sh, s, a, c);
    ColumnCells(sh, s, a, c - 1);
    var col := a.cols[c - 1];
    var q := IndexOf(RowNums(s, col), s.Row[y]);
    var r := col[q];
    assert s.Row[r] == s.Row[y];
    assert IsCell(sh, s, r) && RowLive(sh, s, a, r);
    RowLiveAt(sh, s, a, r, y);
  }

  /** Unlinking the member at position p of column j's ring leaves the ring of the others. */
  lemma ColumnStep(sh: Shape, t: Links, W: seq<int>, j: int, p: int)
    requires Sane(t) && 0 <= j < sh.ncols && j + 1 < |t.L| && t.C[j + 1] == j + 1
    requires ColumnOK(sh, t, W, j) && 0 <= p < |W|
    ensures InColumn(t, W[p]) && VSym(t, W[p])
    ensures t.C[t.D[W[p]]] == j + 1 && t.C[t.U[W[p]]] == j + 1
    ensures ColumnOK(sh, VUnlink(t, W[p]), W[..p] + W[p + 1..], j)
  {
    var y := W[p];
    assert Above(j + 1, W);
    RingRemove(t.U, t.D, j + 1, W, p);
    RingAt(t.U, t.D, j + 1, W, p);
    var W' := W[..p] + W[p + 1..];
    forall k | 0 <= k < |W'|
      ensures W'[k] in W
    {
      if k < p { assert W'[k] == W[k]; } else { assert W'[k] == W[k + 1]; }
    }
  }

  /** Unlinking a node of another column leaves column j's ring as it was. */
  lemma OtherColumn(sh: Shape, t: Links, y: int, j: int, W: seq<int>)
    requires InColumn(t, y) && 0 <= j && j + 1 < |t.L| && t.C[j + 1] == j + 1
    requires ColumnOK(sh, t, W, j) && t.C[y] != j + 1
    requires t.C[t.D[y]] == t.C[y] && t.C[t.U[y]] == t.C[y]
    ensures ColumnOK(sh, VUnlink(t, y), W, j)
  {
    var t' := VUnlink(t, y);
    RingFrame(t.U, t.D, t'.U, t'.D, j + 1, W);
  }

  /** Every column's ring holds its cells `cols[j]` minus the nodes `done` already unlinked. */
  ghost predicate ColumnsOK(sh: Shape, t: Links, cols: seq<seq<int>>, done: seq<int>)
    requires Sane(t) && sh.ncols < |t.L| && |cols| == sh.ncols
  {
    forall j :: 0 <= j < sh.ncols ==> ColumnOK(sh, t, Without(cols[j], done), j)
  }

  /** Nodes to unlink: distinct, each a member of its own column's ring. */
  ghost predicate OpsInColumns(sh: Shape, t: Links, cols: seq<seq<int>>, ops: seq<int>)
    requires Sane(t) && |cols| == sh.ncols
  {
    Unique(ops)
    && (forall q {:trigger OpOK(sh, t, cols, ops, q)} :: 0 <= q < |ops| ==> OpOK(sh, t, cols, ops, q))
    && (forall j :: 0 <= j < sh.ncols ==> Unique(cols[j]))
    && (forall h :: 1 <= h <= sh.ncols && h < |t.L| ==> t.C[h] == h)
  }

  /** The node at position q of ops is a member of its own column's ring. */
  ghost predicate OpOK(sh: Shape, t: Links, cols: seq<seq<int>>, ops: seq<int>, q: int)
    requires Sane(t) && |cols| == sh.ncols && 0 <= q < |ops|
  {
    0 <= ops[q] < |t.L| && 1 <= t.C[ops[q]] <= sh.ncols && ops[q] in cols[t.C[ops[q]] - 1]
  }

  /** Unlinking one more node y of column C[y] keeps every ring in step. */
  lemma UnlinkStep(sh: Shape, t: Links, cols: seq<seq<int>>, done: seq<int>, y: int)
    requires Sane(t) && sh.ncols < |t.L| && |cols| == sh.ncols
    requires ColumnsOK(sh, t, cols, done)
    requires 0 <= y < |t.L| && 1 <= t.C[y] <= sh.ncols && y in cols[t.C[y] - 1] && y !in done
    requires Unique(cols[t.C[y] - 1]) && forall h :: 1 <= h <= sh.ncols ==> t.C[h] == h
    ensures InColumn(t, y) && VSym(t, y) && ColumnsOK(sh, VUnlink(t, y), cols, done + [y])
  {
    UnlinkColumn(sh, t, cols, done, y, t.C[y] - 1);
    forall j | 0 <= j < sh.ncols
      ensures ColumnOK(sh, VUnlink(t, y), Without(cols[j], done + [y]), j)
    {
      UnlinkColumn(sh, t, cols, done, y, j);
    }
  }

  /** Column j's ring after unlinking y, whether y is in that column or not. */
  lemma UnlinkColumn(sh: Shape, t: Links, cols: seq<seq<int>>, done: seq<int>, y: int, j: int)
    requires Sane(t) && sh.ncols < |t.L| && |cols| == sh.ncols && 0 <= j < sh.ncols
    requires ColumnsOK(sh, t, cols, done)
    requires 0 <= y < |t.L| && 1 <= t.C[y] <= sh.ncols && y in cols[t.C[y] - 1] && y !in done
    requires Unique(cols[t.C[y] - 1]) && forall h :: 1 <= h <= sh.ncols ==> t.C[h] == h
    ensures InColumn(t, y) && VSym(t, y)
    ensures ColumnOK(sh, VUnlink(t, y), Without(cols[j], done + [y]), j)
  {
    var jy := t.C[y] - 1;
    assert ColumnOK(sh, t, Without(cols[jy], done), jy);
    assert ColumnOK(sh, t, Without(cols[j], done), j);
    assert t.C[j + 1] == j + 1;
    UnlinkOwn(sh, t, cols[jy], done, y, jy);
    if j != jy {
      UnlinkOther(sh, t, cols[j], done, y, j);
    }
  }

  /** Unlinking y from its own column j takes it out of that column's ring. */
  lemma UnlinkOwn(sh: Shape, t: Links, col: seq<int>, done: seq<int>, y: int, j: int)
    requires Sane(t) && 0 <= j < sh.ncols && j + 1 < |t.L| && t.C[j + 1] == j + 1
    requires ColumnOK(sh, t, Without(col, done), j) && Unique(col) && y in col && y !in done
    ensures InColumn(t, y) && VSym(t, y)
    ensures t.C[t.D[y]] == j + 1 && t.C[t.U[y]] == j + 1
    ensures ColumnOK(sh, VUnlink(t, y), Without(col, done + [y]), j)
  {
    var W := Without(col, done);
    WithoutMember(col, done, y);
    var p := IndexOf(W, y);
    ColumnStep(sh, t, W, j, p);
    WithoutStep(col, done, y, p);
  }

  /** Unlinking y leaves the ring of any other column j as it was. */
  lemma UnlinkOther(sh: Shape, t: Links, col: seq<int>, done: seq<int>, y: int, j: int)
    requires InColumn(t, y) && y !in done && 0 <= j && j + 1 < |t.L| && t.C[j + 1] == j + 1
    requires ColumnOK(sh, t, Without(col, done), j) && t.C[y] != j + 1
    requires t.C[t.D[y]] == t.C[y] && t.C[t.U[y]] == t.C[y]
    ensures ColumnOK(sh, VUnlink(t, y), Without(col, done + [y]), j)
  {
    WithoutMember(col, done, y);
    WithoutIrrelevant(col, done, y);
    OtherColumn(sh, t, y, j, Without(col, done));
  }

  /**
   * Unlinking distinct members of the column rings one after another keeps
   * every ring in step, and each node is linked both ways when it goes.
   */
  lemma {:induction false} UnlinkAllSim(sh: Shape, H: Links, cols: seq<seq<int>>, ops: seq<int>, k: int)
    requires Sane(H) && sh.ncols < |H.L| && |cols| == sh.ncols
    requires ColumnsOK(sh, H, cols, []) && OpsInColumns(sh, H, cols, ops) && 0 <= k <= |ops|
    ensures AllInColumns(H, ops) && SymAlong(H, ops[..k]) && ColumnsOK(sh, UnlinkAll(H, ops[..k]), cols, ops[..k])
  {
    OpsAllIn(sh, H, cols, ops);
    if k == 0 {
      assert ops[..0] == [];
    } else {
      var done, y := ops[..k - 1], ops[k - 1];
      UnlinkAllSim(sh, H, cols, ops, k - 1);
      OpsAt(sh, H, cols, ops, k - 1);
      UnlinkAllSimStep(sh, H, cols, done, y);
      SimRewrite(sh, H, cols, ops, k);
    }
  }

  lemma SimRewrite(sh: Shape, H: Links, cols: seq<seq<int>>, ops: seq<int>, k: int)
    requires Sane(H) && sh.ncols < |H.L| && |cols| == sh.ncols && AllInColumns(H, ops) && 0 < k <= |ops|
    requires AllInColumns(H, ops[..k - 1] + [ops[k - 1]]) && SymAlong(H, ops[..k - 1] + [ops[k - 1]])
    requires ColumnsOK(sh, UnlinkAll(H, ops[..k - 1] + [ops[k - 1]]), cols, ops[..k - 1] + [ops[k - 1]])
    ensures SymAlong(H, ops[..k]) && ColumnsOK(sh, UnlinkAll(H, ops[..k]), cols, ops[..k])
  {
    TakeOneMore(ops, k - 1);
  }

  /** What OpsInColumns says about the node at position q. */
  lemma OpsAt(sh: Shape, H: Links, cols: seq<seq<int>>, ops: seq<int>, q: int)
    requires Sane(H) && |cols| == sh.ncols && OpsInColumns(sh, H, cols, ops) && 0 <= q < |ops|
    ensures 0 <= ops[q] < |H.L| && 1 <= H.C[ops[q]] <= sh.ncols && ops[q] in cols[H.C[ops[q]] - 1]
    ensures Unique(cols[H.C[ops[q]] - 1]) && ops[q] !in ops[..q]
  {
    assert OpOK(sh, H, cols, ops, q);
    NotDoneYet(ops, q);
  }

  lemma OpsAllIn(sh: Shape, H: Links, cols: seq<seq<int>>, ops: seq<int>)
    requires Sane(H) && |cols| == sh.ncols && OpsInColumns(sh, H, cols, ops)
    ensures AllInColumns(H, ops)
  {
    forall q | 0 <= q < |ops|
      ensures 0 <= ops[q] < |H.L| && 0 <= H.C[ops[q]]
    {
      assert OpOK(sh, H, cols, ops, q);
    }
  }

  /** The node at position k of a sequence without repeats is not among those before it. */
  lemma NotDoneYet(ops: seq<int>, k: int)
    requires Unique(ops) && 0 <= k < |ops|
    ensures ops[k] !in ops[..k]
  {
    forall i | 0 <= i < k
      ensures ops[..k][i] != ops[k]
    {
      assert ops[..k][i] == ops[i];
    }
  }

  lemma UnlinkAllSimStep(sh: Shape, H: Links, cols: seq<seq<int>>, done: seq<int>, y: int)
    requires Sane(H) && sh.ncols < |H.L| && |cols| == sh.ncols
    requires AllInColumns(H, done) && SymAlong(H, done) && ColumnsOK(sh, UnlinkAll(H, done), cols, done)
    requires 0 <= y < |H.L| && 1 <= H.C[y] <= sh.ncols && y in cols[H.C[y] - 1] && y !in done
    requires Unique(cols[H.C[y] - 1]) && forall h :: 1 <= h <= sh.ncols && h < |H.L| ==> H.C[h] == h
    ensures AllInColumns(H, done + [y]) && SymAlong(H, done + [y])
    ensures ColumnsOK(sh, UnlinkAll(H, done + [y]), cols, done + [y])
  {
    UnlinkStep(sh, UnlinkAll(H, done), cols, done, y);
    UnlinkSnoc(H, done, y);
  }

  /** The state after `cover(c)` has spliced out c and unlinked the first k of its nodes. */
  ghost function CoverPartial(sh: Shape, s: Links, a: Abs, c: int, k: int): Links
    requires Inv(sh, s, a) && c in a.hdr && 0 <= k <= |CoverOps(sh, s, a, c)|
  {
    CoverOpsFacts(sh, s, a, c);
    UnlinkAll(HUnlink(s, c), CoverOps(sh, s, a, c)[..k])
  }

  /** Before the first unlink, every column's ring holds its cells, which are distinct. */
  lemma CoverColumnsStart(sh: Shape, s: Links, a: Abs, c: int)
    requires Inv(sh, s, a) && c in a.hdr
    ensures ColumnsOK(sh, HUnlink(s, c), a.cols, [])
    ensures forall j :: 0 <= j < sh.ncols ==> Unique(a.cols[j])
  {
    forall j | 0 <= j < sh.ncols
      ensures ColumnOK(sh, HUnlink(s, c), Without(a.cols[j], []), j) && Unique(a.cols[j])
    {
      ColumnStart(sh, s, a.cols[j], j, c);
    }
  }

  lemma ColumnStart(sh: Shape, s: Links, col: seq<int>, j: int, c: int)
    requires Sane(s) && 0 <= j && j + 1 < |s.L| && ColumnOK(sh, s, col, j) && 0 <= c < |s.L|
    ensures ColumnOK(sh, HUnlink(s, c), Without(col, []), j) && Unique(col)
  {
    WithoutNone(col, []);
    AboveDistinct(sh.ncols, col);
  }

  /** The unlinks of `cover(c)` meet the conditions of UnlinkAllSim. */
  lemma CoverOpsInColumns(sh: Shape, s: Links, a: Abs, c: int)
    requires Inv(sh, s, a) && c in a.hdr
    ensures ColumnsOK(sh, HUnlink(s, c), a.cols, [])
    ensures OpsInColumns(sh, HUnlink(s, c), a.cols, CoverOps(sh, s, a, c))
  {
    CoverColumnsStart(sh, s, a, c);
    CoverOpsFacts(sh, s, a, c);
    forall q | 0 <= q < |CoverOps(sh, s, a, c)|
      ensures OpOK(sh, HUnlink(s, c), a.cols, CoverOps(sh, s, a, c), q)
    {
      OpLiveAt(sh, s, a, c, q);
    }
  }

  lemma OpLiveAt(sh: Shape, s: Links, a: Abs, c: int, q: int)
    requires Inv(sh, s, a) && c in a.hdr && 0 <= q < |CoverOps(sh, s, a, c)|
    ensures OpOK(sh, HUnlink(s, c), a.cols, CoverOps(sh, s, a, c), q)
  {
    CoverOpsFacts(sh, s, a, c);
    OpLive(sh, s, a, c, CoverOps(sh, s, a, c)[q]);
  }

  /**
   * Halfway through `cover(c)`: every node unlinked so far was linked both
   * ways when it went, and every column's ring holds its cells minus those.
   */
  lemma CoverMidway(sh: Shape, s: Links, a: Abs, c: int, k: int)
    requires Inv(sh, s, a) && c in a.hdr && 0 <= k <= |CoverOps(sh, s, a, c)|
    ensures AllInColumns(HUnlink(s, c), CoverOps(sh, s, a, c))
    ensures SymAlong(HUnlink(s, c), CoverOps(sh, s, a, c)[..k])
    ensures ColumnsOK(sh, CoverPartial(sh, s, a, c, k), a.cols, CoverOps(sh, s, a, c)[..k])
  {
    CoverOpsInColumns(sh, s, a, c);
    UnlinkAllSim(sh, HUnlink(s, c), a.cols, CoverOps(sh, s, a, c), k);
  }

  /**
   * Headers stay headers and cells keep their row links: the layout holds in
   * any state that agrees with s on the columns, the rows and the cells'
   * left/right links.
   */
  lemma LayoutFrame(sh: Shape, s: Links, t: Links)
    requires Layout(sh, s) && Sane(t) && |t.L| == |s.L| && t.C == s.C && t.Row == s.Row
    requires forall x :: IsCell(sh, s, x) ==> t.L[x] == s.L[x] && t.R[x] == s.R[x]
    ensures Layout(sh, t)
  {
    forall x | IsCell(sh, t, x)
      ensures CellOK(sh, t, x)
    {
      assert CellOK(sh, s, x);
    }
    forall i, j | Hit(sh.M, i, j)
      ensures CellOf(sh, t, i, j)
    {
      assert CellOf(sh, s, i, j);
    }
  }

  /** Taking header c out of the root's ring: the ring of the others, and no cell's links change. */
  lemma HeaderOut(sh: Shape, s: Links, hdr: seq<int>, c: int)
    requires Sane(s) && Ring(s.L, s.R, 0, hdr) && Above(0, hdr) && c in hdr
    requires forall k :: 0 <= k < |hdr| ==> hdr[k] <= sh.ncols
    ensures HSym(s, c)
    ensures Ring(HUnlink(s, c).L, HUnlink(s, c).R, 0, Without(hdr, [c]))
    ensures Above(0, Without(hdr, [c])) && |Without(hdr, [c])| == |hdr| - 1
    ensures forall x :: IsCell(sh, s, x) ==> HUnlink(s, c).L[x] == s.L[x] && HUnlink(s, c).R[x] == s.R[x]
  {
    var p := IndexOf(hdr, c);
    HeaderOutRing(s.L, s.R, hdr, p, sh.ncols);
    WithoutNone(hdr, []);
    WithoutStep(hdr, [], c, p);
    assert [] + [c] == [c];
    var W := hdr[..p] + hdr[p + 1..];
    assert Without(hdr, [c]) == W;
    var l1, r1 := s.L[s.R[c] := s.L[c]], s.R[s.L[c] := s.R[c]];
    assert HUnlink(s, c).L == l1 && HUnlink(s, c).R == r1;
    assert Ring(l1, r1, 0, W);
    WithoutOrdered(hdr, [c], 0);
    HeaderOutCells(sh, s, c);
  }

  /** Splicing out a header whose neighbours are headers leaves the cells' left and right links alone. */
  lemma HeaderOutCells(sh: Shape, s: Links, c: int)
    requires Sane(s) && 0 <= c < |s.L| && s.L[c] <= sh.ncols && s.R[c] <= sh.ncols
    ensures forall x :: IsCell(sh, s, x) ==> HUnlink(s, c).L[x] == s.L[x] && HUnlink(s, c).R[x] == s.R[x]
  {
  }

  lemma HeaderOutRing(L: seq<int>, R: seq<int>, hdr: seq<int>, p: int, ncols: int)
    requires Ring(L, R, 0, hdr) && Above(0, hdr) && 0 <= p < |hdr|
    requires forall k :: 0 <= k < |hdr| ==> hdr[k] <= ncols
    ensures var c := hdr[p];
            0 <= L[c] < |R| && 0 <= R[c] < |R| && L[R[c]] == c && R[L[c]] == c
            && L[R[c] := L[c]][c] == L[c]
            && Ring(L[R[c] := L[c]], R[L[c] := R[c]], 0, hdr[..p] + hdr[p + 1..])
            && L[c] <= ncols && R[c] <= ncols
  {
    RingRemove(L, R, 0, hdr, p);
    RingAt(L, R, 0, hdr, p);
  }

  /** A cell of a column's ring lies in one of the rows that ring lists. */
  lemma RowOfMember(s: Links, col: seq<int>, y: int)
    requires forall q :: 0 <= q < |col| ==> 0 <= col[q] < |s.Row|
    ensures y in col ==> 0 <= y < |s.Row| && s.Row[y] in RowNums(s, col)
  {
    if y in col {
      RowNumsMember(s, col, IndexOf(col, y));
    }
  }

  /** The whole of `cover(c)`, read on the abstract state, as the last of its partial states. */
  lemma CoverEnd(sh: Shape, s: Links, a: Abs, c: int)
    requires Inv(sh, s, a) && c in a.hdr
    ensures CoverPartial(sh, s, a, c, |CoverOps(sh, s, a, c)|) == CoverLinks(sh, s, a, c)
    ensures AllInColumns(HUnlink(s, c), CoverOps(sh, s, a, c))
    ensures SymAlong(HUnlink(s, c), CoverOps(sh, s, a, c))
    ensures ColumnsOK(sh, CoverLinks(sh, s, a, c), a.cols, CoverOps(sh, s, a, c))
  {
    var ops := CoverOps(sh, s, a, c);
    assert ops[..|ops|] == ops;
    CoverMidway(sh, s, a, c, |ops|);
  }

  /**
   * Unlinking the n-th node of `ops` touches neither link of a cell x
   * unlinked before it: it splices between members of a ring x has
   * already left, or that ring's header.
   */
  lemma AvoidsDone(sh: Shape, H: Links, cols: seq<seq<int>>, ops: seq<int>, n: int, x: int)
    requires Sane(H) && sh.ncols < |H.L| && |cols| == sh.ncols
    requires ColumnsOK(sh, H, cols, []) && OpsInColumns(sh, H, cols, ops)
    requires 0 <= n < |ops| && x in ops[..n] && sh.ncols < x
    ensures AllInColumns(H, ops) && SpliceAvoids(H, ops, n, x)
  {
    RingsAt(sh, H, cols, ops, n);
    OpsAt(sh, H, cols, ops, n);
    AvoidsAt(sh, UnlinkAll(H, ops[..n]), cols, ops[..n], H.C[ops[n]] - 1, ops[n], x);
  }

  /** The rings after the first n unlinks of `ops`. */
  lemma RingsAt(sh: Shape, H: Links, cols: seq<seq<int>>, ops: seq<int>, n: int)
    requires Sane(H) && sh.ncols < |H.L| && |cols| == sh.ncols
    requires ColumnsOK(sh, H, cols, []) && OpsInColumns(sh, H, cols, ops) && 0 <= n <= |ops|
    ensures AllInColumns(H, ops) && AllInColumns(H, ops[..n])
    ensures ColumnsOK(sh, UnlinkAll(H, ops[..n]), cols, ops[..n])
  {
    OpsAllIn(sh, H, cols, ops);
    AllInPrefixes(H, ops);
    UnlinkAllSim(sh, H, cols, ops, n);
  }

  /** The same for any state whose rings are in step with `cols` less `done`. */
  lemma AvoidsAt(sh: Shape, t: Links, cols: seq<seq<int>>, done: seq<int>, j: int, y: int, x: int)
    requires Sane(t) && sh.ncols < |t.L| && |cols| == sh.ncols && ColumnsOK(sh, t, cols, done)
    requires 0 <= j < sh.ncols && y in cols[j] && y !in done && x in done && sh.ncols < x
    ensures 0 <= y < |t.L| && x != t.D[y] && x != t.U[y]
  {
    assert ColumnOK(sh, t, Without(cols[j], done), j);
    ColumnAvoids(sh, t, cols[j], done, j, y, x);
  }

  /** The same for one column: y is still in its ring, x has left it. */
  lemma ColumnAvoids(sh: Shape, t: Links, col: seq<int>, done: seq<int>, j: int, y: int, x: int)
    requires Sane(t) && 0 <= j && j + 1 <= sh.ncols < x && j + 1 < |t.L|
    requires ColumnOK(sh, t, Without(col, done), j)
    requires y in col && y !in done && x in done
    ensures 0 <= y < |t.L| && x != t.D[y] && x != t.U[y]
  {
    WithoutMember(col, done, y);
    WithoutMember(col, done, x);
    RingNeighbours(t.U, t.D, j + 1, Without(col, done), y);
  }

  /**
   * Every cell `cover(c)` removes ends with the `up` and `down` it had just
   * before it was unlinked: lines 21-22 write only its neighbours' links,
   * and no later unlink writes its own. This is what lets `uncover` put it
   * back between those neighbours.
   */
  lemma UnlinkedKeepLinks(sh: Shape, s: Links, a: Abs, c: int, k: int)
    requires Inv(sh, s, a) && c in a.hdr && 0 <= k < |CoverOps(sh, s, a, c)|
    ensures var x := CoverOps(sh, s, a, c)[k];
            CoverLinks(sh, s, a, c).U[x] == CoverPartial(sh, s, a, c, k).U[x]
            && CoverLinks(sh, s, a, c).D[x] == CoverPartial(sh, s, a, c, k).D[x]
  {
    var ops, H := CoverOps(sh, s, a, c), HUnlink(s, c);
    CoverEnd(sh, s, a, c);
    CoverOpsInColumns(sh, s, a, c);
    forall n | k < n < |ops|
      ensures SpliceAvoids(H, ops, n, ops[k])
    {
      assert ops[..n][k] == ops[k];
      AvoidsDone(sh, H, a.cols, ops, n, ops[k]);
    }
    SplicesAvoid(H, ops, k, |ops|);
    assert ops[..|ops|] == ops;
    UnlinkAllSnoc(H, ops, k);
    VUnlinkFrame(CoverPartial(sh, s, a, c, k), ops[k], ops[k]);
  }

  /** After `cover(c)` every column's ring holds what the abstract state says. */
  lemma CoverColumns(sh: Shape, s: Links, a: Abs, c: int)
    requires Inv(sh, s, a) && c in a.hdr
    ensures forall j :: 0 <= j < sh.ncols ==> ColumnOK(sh, CoverLinks(sh, s, a, c), CoverAbs(sh, s, a, c).cols[j], j)
  {
    var t, b := CoverLinks(sh, s, a, c), CoverAbs(sh, s, a, c);
    CoverEnd(sh, s, a, c);
    forall j | 0 <= j < sh.ncols
      ensures ColumnOK(sh, t, b.cols[j], j)
    {
      assert b.cols[j] == Without(a.cols[j], CoverOps(sh, s, a, c));
    }
  }

  /** `cover(c)` leaves column c's own ring alone: no cell it unlinks is in column c. */
  lemma CoverKeepsColumn(sh: Shape, s: Links, a: Abs, c: int)
    requires Inv(sh, s, a) && c in a.hdr
    ensures CoverAbs(sh, s, a, c).cols[c - 1] == a.cols[c - 1]
  {
    var ops := CoverOps(sh, s, a, c);
    assert ColumnOK(sh, s, a.cols[c - 1], c - 1);
    Disjoint(s.C, a.cols[c - 1], ops, c);
    WithoutNone(a.cols[c - 1], ops);
  }

  /** Nodes of column c are none of the nodes outside it. */
  lemma Disjoint(C: seq<int>, col: seq<int>, ops: seq<int>, c: int)
    requires forall k :: 0 <= k < |col| ==> 0 <= col[k] < |C| && C[col[k]] == c
    requires forall q :: 0 <= q < |ops| ==> 0 <= ops[q] < |C| && C[ops[q]] != c
    ensures forall k :: 0 <= k < |col| ==> col[k] !in ops
  {
  }

  /**
   * A cell x still in an active column after `cover(c)` belongs to a row that
   * `cover(c)` left alone, so all of its row is still in place.
   */
  lemma CoverLive(sh: Shape, s: Links, a: Abs, c: int, j: int, x: int)
    requires Inv(sh, s, a) && c in a.hdr && 0 <= j < sh.ncols
    requires j + 1 in Without(a.hdr, [c]) && x in Without(a.cols[j], CoverOps(sh, s, a, c))
    ensures IsCell(sh, s, x) && RowLive(sh, CoverLinks(sh, s, a, c), CoverAbs(sh, s, a, c), x)
  {
    UntouchedRow(sh, s, a, c, j, x);
    LiveRowStays(sh, s, a, c, x);
  }

  /** A live row none of whose cells lies in a row of column c stays live through `cover(c)`. */
  lemma LiveRowStays(sh: Shape, s: Links, a: Abs, c: int, x: int)
    requires Inv(sh, s, a) && c in a.hdr
    requires IsCell(sh, s, x) && RowLive(sh, s, a, x) && s.Row[x] !in ColRows(sh, s, a, c)
    ensures RowLive(sh, CoverLinks(sh, s, a, c), CoverAbs(sh, s, a, c), x)
  {
    var ops := CoverOps(sh, s, a, c);
    var t, b := CoverLinks(sh, s, a, c), CoverAbs(sh, s, a, c);
    ColumnCells(sh, s, a, c - 1);
    var nums := ColRows(sh, s, a, c);
    CoverOpsRows(sh, s, a, c);
    ColumnRows(s, a.cols[c - 1]);
    CoverAbsParts(sh, s, a, c);
    RowSurvives(sh, s, t, a, b, c, ops, nums, x, a.cols[c - 1]);
  }

  /** RowNums lists the row of every given cell. */
  lemma ColumnRows(s: Links, col: seq<int>)
    requires forall q :: 0 <= q < |col| ==> 0 <= col[q] < |s.Row|
    ensures forall q :: 0 <= q < |col| ==> s.Row[col[q]] in RowNums(s, col)
  {
    forall q | 0 <= q < |col|
      ensures s.Row[col[q]] in RowNums(s, col)
    {
      RowNumsMember(s, col, q);
    }
  }

  /** The row of x, none of whose cells `cover(c)` unlinked, is still all in place afterwards. */
  lemma RowSurvives(sh: Shape, s: Links, t: Links, a: Abs, b: Abs, c: int, ops: seq<int>, nums: seq<int>, x: int, col: seq<int>)
    requires Sane(s) && Sane(t) && t.C == s.C && t.Row == s.Row && |t.L| == |s.L|
    requires IsCell(sh, s, x) && RowLive(sh, s, a, x) && s.Row[x] !in nums
    requires forall z :: z in ops ==> 0 <= z < |s.Row| && s.Row[z] in nums
    requires 1 <= c <= |a.cols| && col == a.cols[c - 1]
    requires forall q :: 0 <= q < |col| ==> 0 <= col[q] < |s.Row| && s.Row[col[q]] in nums
    requires b.hdr == Without(a.hdr, [c]) && |b.cols| == |a.cols|
    requires forall i :: 0 <= i < |a.cols| ==> b.cols[i] == Without(a.cols[i], ops)
    ensures RowLive(sh, t, b, x)
  {
    forall y | IsCell(sh, t, y) && t.Row[y] == t.Row[x]
      ensures t.C[y] in b.hdr && 1 <= t.C[y] <= |b.cols| && y in b.cols[t.C[y] - 1]
    {
      KeptCell(sh, s, a, c, ops, nums, x, y);
    }
  }

  /** The cells `cover(c)` unlinks lie in the rows of column c. */
  lemma CoverOpsRows(sh: Shape, s: Links, a: Abs, c: int)
    requires Inv(sh, s, a) && 1 <= c <= sh.ncols
    ensures forall z :: z in CoverOps(sh, s, a, c) ==> 0 <= z < |s.Row| && s.Row[z] in ColRows(sh, s, a, c)
  {
    CoverOpsFacts(sh, s, a, c);
  }

  /** A cell of another active column that `cover(c)` did not unlink is in a row of no cell of column c. */
  lemma UntouchedRow(sh: Shape, s: Links, a: Abs, c: int, j: int, x: int)
    requires Inv(sh, s, a) && c in a.hdr && 0 <= j < sh.ncols
    requires j + 1 in Without(a.hdr, [c]) && x in Without(a.cols[j], CoverOps(sh, s, a, c))
    ensures IsCell(sh, s, x) && RowLive(sh, s, a, x)
    ensures s.Row[x] !in ColRows(sh, s, a, c)
  {
    WithoutMember(a.hdr, [c], j + 1);
    WithoutMember(a.cols[j], CoverOps(sh, s, a, c), x);
    ActiveCell(sh, s, a, j, x);
    UnlinkedRows(sh, s, a, c, x);
  }

  /** A cell in the ring of an active column is a cell of that column whose whole row is in place. */
  lemma ActiveCell(sh: Shape, s: Links, a: Abs, j: int, x: int)
    requires Inv(sh, s, a) && 0 <= j < sh.ncols && j + 1 in a.hdr && x in a.cols[j]
    ensures IsCell(sh, s, x) && RowLive(sh, s, a, x) && s.C[x] == j + 1
  {
    var k := IndexOf(a.cols[j], x);
    assert ColumnOK(sh, s, a.cols[j], j);
  }

  /** A cell outside column c that `cover(c)` does not unlink lies in none of column c's rows. */
  lemma UnlinkedRows(sh: Shape, s: Links, a: Abs, c: int, x: int)
    requires Inv(sh, s, a) && 1 <= c <= sh.ncols && IsCell(sh, s, x) && s.C[x] != c
    requires x !in CoverOps(sh, s, a, c)
    ensures s.Row[x] !in ColRows(sh, s, a, c)
  {
    CoverOpsFacts(sh, s, a, c);
  }

  /** A cell in the row of such an x survives `cover(c)` in its column, which stays active. */
  lemma KeptCell(sh: Shape, s: Links, a: Abs, c: int, ops: seq<int>, nums: seq<int>, x: int, y: int)
    requires Sane(s) && IsCell(sh, s, x) && RowLive(sh, s, a, x)
    requires IsCell(sh, s, y) && s.Row[y] == s.Row[x] && s.Row[x] !in nums
    requires forall z :: z in ops ==> 0 <= z < |s.Row| && s.Row[z] in nums
    requires 1 <= c <= |a.cols| && (y in a.cols[c - 1] ==> s.Row[y] in nums)
    ensures s.C[y] in Without(a.hdr, [c]) && 1 <= s.C[y] <= |a.cols| && y in Without(a.cols[s.C[y] - 1], ops)
  {
    RowLiveAt(sh, s, a, x, y);
    WithoutMember(a.hdr, [c], s.C[y]);
    WithoutMember(a.cols[s.C[y] - 1], ops, y);
  }

  /** `cover(c)` keeps the invariant, with c gone from the header ring and its rows gone from the other columns. */
  lemma CoverSound(sh: Shape, s: Links, a: Abs, c: int)
    requires Inv(sh, s, a) && c in a.hdr
    ensures Inv(sh, CoverLinks(sh, s, a, c), CoverAbs(sh, s, a, c))
    ensures |CoverAbs(sh, s, a, c).hdr| == |a.hdr| - 1
    ensures forall h :: h in CoverAbs(sh, s, a, c).hdr <==> h in a.hdr && h != c
    ensures CoverAbs(sh, s, a, c).cols[c - 1] == a.cols[c - 1]
  {
    var t, b := CoverLinks(sh, s, a, c), CoverAbs(sh, s, a, c);
    CoverHeaders(sh, s, a, c);
    CoverColumns(sh, s, a, c);
    CoverKeepsColumn(sh, s, a, c);
    forall j, k | 0 <= j < sh.ncols && j + 1 in b.hdr && 0 <= k < |b.cols[j]|
      ensures IsCell(sh, t, b.cols[j][k]) && RowLive(sh, t, b, b.cols[j][k])
    {
      CoverLive(sh, s, a, c, j, b.cols[j][k]);
    }
  }

  /** After `cover(c)` the root's ring lists the active columns but c, and the cells keep their rows. */
  lemma CoverHeaders(sh: Shape, s: Links, a: Abs, c: int)
    requires Inv(sh, s, a) && c in a.hdr
    ensures var t, b := CoverLinks(sh, s, a, c), CoverAbs(sh, s, a, c);
            Layout(sh, t) && Ring(t.L, t.R, 0, b.hdr) && Above(0, b.hdr)
            && (forall k :: 0 <= k < |b.hdr| ==> b.hdr[k] <= sh.ncols)
            && |b.cols| == sh.ncols && |b.hdr| == |a.hdr| - 1
            && (forall h :: h in b.hdr <==> h in a.hdr && h != c)
  {
    var t, b := CoverLinks(sh, s, a, c), CoverAbs(sh, s, a, c);
    HeaderOut(sh, s, a.hdr, c);
    LayoutFrame(sh, s, t);
    CoverHdr(sh, s, a, c);
    forall k | 0 <= k < |b.hdr|
      ensures b.hdr[k] <= sh.ncols
    {
      assert b.hdr[k] in a.hdr;
    }
  }

  /** `cover(c)` takes c, and only c, out of the active columns. */
  lemma CoverHdr(sh: Shape, s: Links, a: Abs, c: int)
    requires Inv(sh, s, a) && c in a.hdr
    ensures |CoverAbs(sh, s, a, c).hdr| == |a.hdr| - 1
    ensures forall h :: h in CoverAbs(sh, s, a, c).hdr <==> h in a.hdr && h != c
  {
    HeaderOut(sh, s, a.hdr, c);
    forall h
      ensures h in CoverAbs(sh, s, a, c).hdr <==> h in a.hdr && h != c
    {
      WithoutMember(a.hdr, [c], h);
    }
  }

  /** `uncover(c)` after `cover(c)` gives back the arena as it was (lines 29-40). */
  lemma CoverUndone(sh: Shape, s: Links, a: Abs, c: int)
    requires Inv(sh, s, a) && c in a.hdr
    ensures AllInColumns(CoverLinks(sh, s, a, c), CoverOps(sh, s, a, c))
    ensures HRelink(RelinkAll(CoverLinks(sh, s, a, c), CoverOps(sh, s, a, c)), c) == s
  {
    HeaderOut(sh, s, a.hdr, c);
    CoverEnd(sh, s, a, c);
    RelinkAllUndoesUnlinkAll(HUnlink(s, c), CoverOps(sh, s, a, c));
    HRelinkUndoesHUnlink(s, c);
  }
}
