/**
 * The Dancing Links solver of Algo-Reynalde/main.cpp on a node arena: the
 * pointer fields of `struct Node` become one array per field, indexed by
 * node number, with node 0 the root header. `cover`, `uncover` and `solve`
 * change the arrays in place, as the source changes the nodes' fields; each
 * is proved against the value model (CoverLinks, CoverAbs, ExactCover).
 */
module Dlx {
  import opened Seqs
  import opened Links
  import opened DlxModel
  import opened DlxWalks
  import opened DlxSolve
  import opened DlxBuild

  class DancingLinks {
    /** `left`, `right`, `up`, `down` of every node. */
    const L: array<int>
    const R: array<int>
    const U: array<int>
    const D: array<int>
    /** `col_header`: the header's node number, -1 for the root (`nullptr`). */
    const C: array<int>
    /** `row`: the matrix row of a cell, -1 for headers. */
    const Row: array<int>
    /** `size`: used by column headers. */
    const Size: array<int>

    /** The matrix the arena was built from and where its cells lie. */
    ghost const sh: Shape
    /** The headers still in the root's ring and each column's ring. */
    ghost var abs: Abs
    /** The row numbers chosen so far (the `solution` vector). */
    var solution: seq<int>

    /** The arena as a value. */
    ghost function Snap(): Links
      reads L, R, U, D, C, Row, Size
    {
      Links(L[..], R[..], U[..], D[..], C[..], Row[..], Size[..])
    }

    /** Seven distinct arrays of one length. */
    ghost predicate Arrays()
    {
      L != R && L != U && L != D && L != C && L != Row && L != Size
      && R != U && R != D && R != C && R != Row && R != Size
      && U != D && U != C && U != Row && U != Size
      && D != C && D != Row && D != Size
      && C != Row && C != Size && Row != Size
    }

    /** The arena is well formed and agrees with the abstract state. */
    ghost predicate Valid()
      reads this, L, R, U, D, C, Row, Size
    {
      Arrays() && Inv(sh, Snap(), abs)
    }

    /**
     * `create_dancing_links` (lines 81-129): `new Node()` for every node the
     * matrix needs (links to itself, no column header, row -1, size 0), then
     * the header loop and the row loop. Every header ends up in the root's
     * ring, in column order, and column c's ring lists one cell for each 1 of
     * column c, top down.
     */
    constructor (matrix: seq<seq<int>>)
      requires MatrixShape(matrix)
      ensures BuiltFrom(matrix) && solution == []
    {
      var n := NodeCount(matrix);
      L := new int[n](y => y);
      R := new int[n](y => y);
      U := new int[n](y => y);
      D := new int[n](y => y);
      C := new int[n](y => -1);
      Row := new int[n](y => -1);
      Size := new int[n](y => 0);
      sh := BuildShape(matrix);
      abs := Abs([], []);
      solution := [];
      new;
      NewNodesAre(Snap(), n);
      Link(matrix);
    }

    /**
     * The arena as `create_dancing_links` leaves it for matrix M: well
     * formed, with one node per header and per 1 of M; every column is in the
     * root's ring, in order, and column c's ring holds, top down, a cell for
     * each row with a 1 in column c.
     */
    ghost predicate BuiltFrom(M: seq<seq<int>>)
      reads this, L, R, U, D, C, Row, Size
    {
      && Valid() && MatrixShape(M) && sh == BuildShape(M) && L.Length == NodeCount(M)
      && abs.hdr == Range(1, |M[0]| + 1)
      && forall c :: 1 <= c <= |M[0]| ==> ColRows(sh, Snap(), abs, c) == HitRows(M, c - 1)
    }

    /** Lines 86-128 on fresh nodes: the header loop, the row loop, and the rings they leave. */
    method Link(M: seq<seq<int>>)
      requires Arrays() && MatrixShape(M) && sh == BuildShape(M) && L.Length == NodeCount(M) && NewNodes(Snap())
      modifies this, L, R, U, D, C, Row, Size
      ensures BuiltFrom(M) && solution == old(solution)
    {
      LinkHeaders(M);
      ghost var cols := LinkRows(M);
      BuiltInv(M, Snap(), cols);
      abs := Abs(Range(1, |M[0]| + 1), cols);
    }

    /** Lines 86-93: each header in turn goes at the tail of the root's ring and is its own column header. */
    method LinkHeaders(M: seq<seq<int>>)
      requires Arrays() && MatrixShape(M) && L.Length == NodeCount(M) && NewNodes(Snap())
      modifies L, R, C
      ensures HeadersDone(M, Snap())
    {
      ghost var s0 := Snap();
      HeadersStart(s0);
      var j := 0;
      while j < |M[0]|
        invariant 0 <= j <= |M[0]| && HeadersSoFar(Snap(), j)
      {
        HeaderStepped(Snap(), j);
        AppendHeader(j + 1);
        j := j + 1;
      }
      HeadersFinished(M, s0, Snap());
    }

    /** Lines 87-92: header h goes between the root's last header and the root. */
    method AppendHeader(h: int)
      requires Arrays() && Sane(Snap()) && 0 < h < L.Length
      modifies L, R, C
      ensures Snap() == AddHeader(old(Snap()), h)
    {
      R[h] := 0;
      L[h] := L[0];
      R[L[0]] := h;
      L[0] := h;
      C[h] := h;
    }

    /** Lines 96-126: the rows in turn, x being the next node to allocate; returns each column's ring. */
    method LinkRows(M: seq<seq<int>>) returns (ghost cols: seq<seq<int>>)
      requires Arrays() && HeadersDone(M, Snap())
      modifies L, R, U, D, C, Row, Size
      ensures Built(M, Snap(), |M|, 0, L.Length, cols)
    {
      StartBuilt(M, Snap());
      cols := seq(|M[0]|, c => []);
      var x := |M[0]| + 1;
      var i := 0;
      while i < |M|
        invariant 0 <= i <= |M| && Built(M, Snap(), i, 0, x, cols)
      {
        x, cols := LinkRow(M, i, x, cols);
        i := i + 1;
      }
    }

    /**
     * Lines 97-125: the cells of row i, from x0 on, with `row_header` and
     * `prev_node` (-1 for `nullptr`).
     */
    method LinkRow(M: seq<seq<int>>, i: int, x0: int, ghost cols0: seq<seq<int>>) returns (x: int, ghost cols: seq<seq<int>>)
      requires Arrays() && 0 <= i < |M| && Built(M, Snap(), i, 0, x0, cols0)
      modifies L, R, U, D, C, Row, Size
      ensures Built(M, Snap(), i + 1, 0, x, cols)
    {
      var rowHeader, prevNode := -1, -1;
      x, cols := x0, cols0;
      assert M[i][..0] == [];
      var j := 0;
      while j < |M[i]|
        invariant 0 <= j <= |M[i]| && Built(M, Snap(), i, j, x, cols)
        invariant RowHeads(M, i, x, rowHeader, prevNode)
      {
        x, cols, rowHeader, prevNode := LinkEntry(M, i, j, x, cols, rowHeader, prevNode);
        j := j + 1;
      }
      RowBuilt(M, Snap(), i, x, cols);
    }

    /** Lines 100-121: entry (i, j), a cell for it if it is a 1. */
    method LinkEntry(M: seq<seq<int>>, i: int, j: int, x0: int, ghost cols0: seq<seq<int>>, first0: int, prev0: int)
      returns (x: int, ghost cols: seq<seq<int>>, first: int, prev: int)
      requires Arrays() && 0 <= i < |M| && 0 <= j < |M[i]| && Built(M, Snap(), i, j, x0, cols0)
      requires RowHeads(M, i, x0, first0, prev0)
      modifies L, R, U, D, C, Row, Size
      ensures Built(M, Snap(), i, j + 1, x, cols) && RowHeads(M, i, x, first, prev)
    {
      if M[i][j] == 1 {
        x, cols, first, prev := LinkOne(M, i, j, x0, cols0, first0, prev0);
      } else {
        x, cols, first, prev := x0, cols0, first0, prev0;
        SkipBuilt(M, Snap(), i, j, x, cols);
      }
    }

    /** Lines 101-121: the 1 at (i, j) gets node x0 as its cell. */
    method LinkOne(M: seq<seq<int>>, i: int, j: int, x0: int, ghost cols0: seq<seq<int>>, first0: int, prev0: int)
      returns (x: int, ghost cols: seq<seq<int>>, first: int, prev: int)
      requires Arrays() && 0 <= i < |M| && 0 <= j < |M[i]| && M[i][j] == 1 && Built(M, Snap(), i, j, x0, cols0)
      requires RowHeads(M, i, x0, first0, prev0)
      modifies L, R, U, D, C, Row, Size
      ensures x == x0 + 1 && cols == cols0[j := cols0[j] + [x0]]
      ensures Built(M, Snap(), i, j + 1, x, cols) && RowHeads(M, i, x, first, prev)
    {
      StepBounds(M, Snap(), i, j, x0, cols0, first0, prev0);
      ghost var s := Snap();
      LinkCell(x0, i, j, first0, prev0);
      StepBuilt(M, s, Snap(), i, j, x0, cols0, first0, prev0);
      cols := cols0[j := cols0[j] + [x0]];
      first := if first0 == -1 then x0 else first0;
      prev := x0;
      x := x0 + 1;
    }

    /**
     * Lines 101-121 for the 1 at (i, j): cell x goes to the bottom of column
     * j's ring and, unless it is its row's first cell, between `prev_node`
     * and `row_header`.
     */
    method LinkCell(x: int, i: int, j: int, first: int, prev: int)
      requires Arrays() && Sane(Snap()) && 0 <= x < L.Length && 0 <= j + 1 < L.Length && x != j + 1
      requires first == -1 || (0 <= first < L.Length && 0 <= prev < L.Length && first != x && prev != x)
      modifies L, R, U, D, C, Row, Size
      ensures Snap() == AddCell(old(Snap()), x, i, j, first, prev)
    {
      LinkBelow(x, i, j);
      if first != -1 {
        LinkBeside(x, first, prev);
      }
    }

    /** Lines 101-111: cell x joins the bottom of column j + 1 as part of row i. */
    method LinkBelow(x: int, i: int, j: int)
      requires Arrays() && Sane(Snap()) && 0 <= x < L.Length && 0 <= j + 1 < L.Length && x != j + 1
      modifies U, D, C, Row, Size
      ensures ColumnPart(old(Snap()), Snap(), x, i, j)
    {
      var h := j + 1;
      Row[x] := i;
      C[x] := h;
      U[x] := U[h];
      D[x] := h;
      D[U[h]] := x;
      U[h] := x;
      Size[h] := Size[h] + 1;
    }

    /** Lines 117-120: cell x joins its row's ring between prev and first. */
    method LinkBeside(x: int, first: int, prev: int)
      requires Arrays() && R.Length == L.Length && 0 <= x < L.Length && 0 <= first < L.Length && 0 <= prev < L.Length && first != x && prev != x
      modifies L, R
      ensures L[..] == old(L[..])[x := prev][first := x] && R[..] == old(R[..])[x := first][prev := x]
    {
      L[x] := prev;
      R[x] := first;
      R[prev] := x;
      L[first] := x;
    }

    /** Lines 16-17: splice header c out of the root's ring. */
    method HDetach(c: int)
      requires Arrays() && Sane(Snap()) && 0 <= c < L.Length
      modifies L, R
      ensures Snap() == HUnlink(old(Snap()), c)
    {
      L[R[c]] := L[c];
      R[L[c]] := R[c];
    }

    /** Lines 38-39: splice header c back between its own neighbours. */
    method HReattach(c: int)
      requires Arrays() && Sane(Snap()) && 0 <= c < L.Length
      modifies L, R
      ensures Snap() == HRelink(old(Snap()), c)
    {
      L[R[c]] := c;
      R[L[c]] := c;
    }

    /** Lines 21-23: take node x out of its column and count it off. */
    method Detach(x: int)
      requires Arrays() && InColumn(Snap(), x)
      modifies U, D, Size
      ensures Snap() == VUnlink(old(Snap()), x)
    {
      U[D[x]] := U[x];
      D[U[x]] := D[x];
      Size[C[x]] := Size[C[x]] - 1;
    }

    /** Lines 32-34: count node x back in and put it back into its column. */
    method Reattach(x: int)
      requires Arrays() && InColumn(Snap(), x)
      modifies U, D, Size
      ensures Snap() == VRelink(old(Snap()), x)
    {
      Size[C[x]] := Size[C[x]] + 1;
      U[D[x]] := x;
      D[U[x]] := x;
    }

    /**
     * The inner loop of `cover` (lines 20-24) on the row of cell `row`: its
     * other cells rr leave their columns left to right, through the states tr.
     */
    method CoverCells(row: int, ghost tr: seq<Links>, ghost rr: seq<int>)
      requires Arrays() && RowWalk(tr, rr, row) && Snap() == tr[0]
      modifies U, D, Size
      ensures Snap() == tr[|rr|]
    {
      var node := R[row];
      ghost var m := 0;
      while node != row
        invariant 0 <= m <= |rr|
        invariant node == if m < |rr| then rr[m] else row
        invariant Snap() == tr[m]
        decreases |rr| - m
      {
        assert CellStep(tr, rr, row, m);
        Detach(node);
        node := R[node];
        m := m + 1;
      }
    }

    /**
     * The outer loop of `cover` (lines 19-25): down column c, row by row,
     * through the states ts.
     */
    method CoverRows(c: int, ghost ts: seq<Links>, ghost trs: seq<seq<Links>>, ghost rrs: seq<seq<int>>, ghost col: seq<int>)
      requires Arrays() && ColumnWalk(ts, trs, rrs, col, c) && Snap() == ts[0]
      modifies U, D, Size
      ensures Snap() == ts[|col|]
    {
      var row := D[c];
      ghost var q := 0;
      while row != c
        invariant 0 <= q <= |col|
        invariant row == if q < |col| then col[q] else c
        invariant Snap() == ts[q]
        decreases |col| - q
      {
        assert RowStep(ts, trs, rrs, col, c, q);
        CoverCells(row, trs[q], rrs[q]);
        row := D[row];
        q := q + 1;
      }
    }

    /**
     * `cover(col)` (lines 15-26): c leaves the header ring, and every other
     * cell of every row in c's ring leaves its column.
     */
    method Cover(c: int)
      requires Valid() && c in abs.hdr
      modifies L, R, U, D, Size, this`abs
      ensures Valid()
      ensures Snap() == CoverLinks(sh, old(Snap()), old(abs), c)
      ensures abs == CoverAbs(sh, old(Snap()), old(abs), c)
      ensures forall h :: h in abs.hdr <==> h in old(abs.hdr) && h != c
      ensures |abs.hdr| == |old(abs.hdr)| - 1
      ensures abs.cols[c - 1] == old(abs.cols[c - 1])
    {
      ghost var s0, a0 := Snap(), abs;
      ghost var ts, trs, rrs := CoverWalk(sh, s0, a0, c);
      HDetach(c);
      CoverRows(c, ts, trs, rrs, a0.cols[c - 1]);
      CoverSound(sh, s0, a0, c);
      abs := CoverAbs(sh, s0, a0, c);
    }

    /**
     * The inner loop of `uncover` (lines 31-35) on the row of cell `row`: its
     * other cells rr come back right to left, through the states tr backwards.
     */
    method UncoverCells(row: int, ghost tr: seq<Links>, ghost rr: seq<int>)
      requires Arrays() && RowWalk(tr, rr, row) && Snap() == tr[|rr|]
      modifies U, D, Size
      ensures Snap() == tr[0]
    {
      var node := L[row];
      ghost var m := |rr|;
      while node != row
        invariant 0 <= m <= |rr|
        invariant node == if m > 0 then rr[m - 1] else row
        invariant Snap() == tr[m]
        decreases m
      {
        assert CellStep(tr, rr, row, m - 1);
        Reattach(node);
        node := L[node];
        m := m - 1;
      }
    }

    /**
     * The outer loop of `uncover` (lines 30-36): up column c, row by row,
     * through the states ts backwards.
     */
    method UncoverRows(c: int, ghost ts: seq<Links>, ghost trs: seq<seq<Links>>, ghost rrs: seq<seq<int>>, ghost col: seq<int>)
      requires Arrays() && ColumnWalk(ts, trs, rrs, col, c) && Snap() == ts[|col|]
      modifies U, D, Size
      ensures Snap() == ts[0]
    {
      var row := U[c];
      ghost var q := |col|;
      while row != c
        invariant 0 <= q <= |col|
        invariant row == if q > 0 then col[q - 1] else c
        invariant Snap() == ts[q]
        decreases q
      {
        assert RowStep(ts, trs, rrs, col, c, q - 1);
        UncoverCells(row, trs[q - 1], rrs[q - 1]);
        row := U[row];
        q := q - 1;
      }
    }

    /**
     * `uncover(col)` (lines 29-40) right after `cover(col)` from the state
     * s0, a0: it walks up and left, the reverse of `cover`, and gives back
     * exactly s0.
     */
    method Uncover(c: int, ghost s0: Links, ghost a0: Abs)
      requires Arrays() && Inv(sh, s0, a0) && c in a0.hdr
      requires Snap() == CoverLinks(sh, s0, a0, c)
      modifies L, R, U, D, Size, this`abs
      ensures Valid() && Snap() == s0 && abs == a0
    {
      ghost var ts, trs, rrs := CoverWalk(sh, s0, a0, c);
      UncoverRows(c, ts, trs, rrs, a0.cols[c - 1]);
      HeaderOut(sh, s0, a0.hdr, c);
      HRelinkUndoesHUnlink(s0, c);
      HReattach(c);
      abs := a0;
    }

    /**
     * Lines 49-54: the first column, in ring order, whose size is smallest.
     * Since the ring keeps column order, that is the smallest-numbered
     * column among those of least size; its size is its number of rows.
     */
    method ChooseColumn() returns (col: int)
      requires Valid() && abs.hdr != []
      ensures col in abs.hdr
      ensures forall h :: h in abs.hdr ==> Size[col] <= Size[h]
      ensures forall h :: h in abs.hdr && h < col ==> Size[col] < Size[h]
      ensures forall h :: h in abs.hdr ==> |abs.cols[col - 1]| <= |abs.cols[h - 1]|
    {
      HeaderWalk(sh, Snap(), abs);
      col := SmallestHeader(abs.hdr);
    }

    /** The scan of lines 50-54 along the ring of headers hdr. */
    method SmallestHeader(ghost hdr: seq<int>) returns (col: int)
      requires hdr != [] && 0 < R.Length == Size.Length
      requires R[0] == hdr[0]
      requires forall p :: 0 <= p < |hdr| ==> 0 < hdr[p] < R.Length && R[hdr[p]] == (if p + 1 < |hdr| then hdr[p + 1] else 0)
      requires forall p, p' :: 0 <= p < p' < |hdr| ==> hdr[p] < hdr[p']
      ensures col in hdr
      ensures forall h :: h in hdr ==> Size[col] <= Size[h]
      ensures forall h :: h in hdr && h < col ==> Size[col] < Size[h]
    {
      col := R[0];
      var node := R[0];
      ghost var p, ci := 0, 0;
      while node != 0
        invariant 0 <= p <= |hdr| && node == (if p < |hdr| then hdr[p] else 0)
        invariant 0 <= ci < |hdr| && ci <= p && col == hdr[ci]
        invariant forall k :: 0 <= k < p ==> Size[col] <= Size[hdr[k]]
        invariant forall k :: 0 <= k < ci ==> Size[col] < Size[hdr[k]]
        decreases |hdr| - p
      {
        if Size[node] < Size[col] {
          col, ci := node, p;
        }
        node := R[node];
        p := p + 1;
      }
      forall h | h in hdr
        ensures Size[col] <= Size[h] && (h < col ==> Size[col] < Size[h])
      {
        var k := IndexOf(hdr, h);
        if h < col {
          assert k < ci;
        }
      }
    }

    /**
     * Lines 61-63: cover the column of every other cell of the row of cell
     * `row`, left to right. The columns cs are the row's other 1s, and they
     * leave the header ring through the chain of states ss, aa.
     */
    method CoverRow(row: int, ghost rr: seq<int>) returns (ghost ss: seq<Links>, ghost aa: seq<Abs>, ghost cs: seq<int>)
      requires Valid() && IsCell(sh, Snap(), row) && rr == RowRest(sh, Snap(), row)
      requires forall k :: 0 <= k < |rr| ==> 0 <= rr[k] < C.Length && C[rr[k]] in abs.hdr
      requires Unique(RowCols(C[..], rr))
      modifies L, R, U, D, Size, this`abs
      ensures Valid() && Chain(sh, ss, aa, cs)
      ensures ss[0] == old(Snap()) && aa[0] == old(abs) && Snap() == ss[|cs|] && abs == aa[|cs|]
      ensures cs == RowCols(C[..], rr)
      ensures forall h :: h in abs.hdr <==> h in old(abs.hdr) && h !in cs
      ensures |abs.hdr| == |old(abs.hdr)| - |cs|
    {
      ghost var s0, a0 := Snap(), abs;
      cs := RowCols(s0.C, rr);
      RowAhead(sh, s0, row, rr);
      ss, aa := CoverLoop(row, rr, cs, s0, a0);
      ChainHeaders(sh, ss, aa, cs);
      ChainEnd(sh, ss, aa, cs);
    }

    /** The loop of lines 61-63: one `cover` per other cell of the row, left to right. */
    method CoverLoop(row: int, ghost rr: seq<int>, ghost cols: seq<int>, ghost s0: Links, ghost a0: Abs) returns (ghost ss: seq<Links>, ghost aa: seq<Abs>)
      requires Arrays() && Inv(sh, s0, a0) && Snap() == s0 && abs == a0
      requires 0 <= row < R.Length && R[row] == (if rr == [] then row else rr[0])
      requires |cols| == |rr| && Unique(cols)
      requires forall k :: 0 <= k < |rr| ==> sh.ncols < rr[k] < R.Length && rr[k] != row && 0 <= rr[k] < C.Length && C[rr[k]] == cols[k] && cols[k] in a0.hdr
      requires forall k :: 0 <= k < |rr| ==> s0.R[rr[k]] == (if k + 1 < |rr| then rr[k + 1] else row)
      modifies L, R, U, D, Size, this`abs
      ensures Chain(sh, ss, aa, cols) && ss[0] == s0 && aa[0] == a0 && Snap() == ss[|cols|] && abs == aa[|cols|]
    {
      ss, aa := [s0], [a0];
      var node := R[row];
      ghost var m := 0;
      while node != row
        invariant 0 <= m <= |rr| && node == (if m < |rr| then rr[m] else row)
        invariant Arrays() && Chain(sh, ss, aa, cols[..m])
        invariant ss[0] == s0 && aa[0] == a0 && Snap() == ss[m] && abs == aa[m]
        invariant forall y :: sh.ncols < y < R.Length ==> R[y] == s0.R[y]
        decreases |rr| - m
      {
        var c := C[node];
        ColumnStillActive(sh, ss, aa, cols, cols[..m]);
        ss, aa := CoverNext(c, ss, aa, cols[..m]);
        TakeOneMore(cols, m);
        assert R[node] == s0.R[rr[m]] == (if m + 1 < |rr| then rr[m + 1] else row);
        node := R[node];
        m := m + 1;
      }
      assert cols[..m] == cols;
    }

    /**
     * One `cover` call of CoverRow (line 62), as one more link of its chain;
     * the left and right links of the cells stay as they were.
     */
    method CoverNext(c: int, ghost ss: seq<Links>, ghost aa: seq<Abs>, ghost cs: seq<int>) returns (ghost ss': seq<Links>, ghost aa': seq<Abs>)
      requires Arrays() && Chain(sh, ss, aa, cs) && Inv(sh, ss[0], aa[0])
      requires Snap() == ss[|cs|] && abs == aa[|cs|] && c in aa[|cs|].hdr
      modifies L, R, U, D, Size, this`abs
      ensures Chain(sh, ss', aa', cs + [c]) && ss' == ss + [Snap()] && aa' == aa + [abs]
      ensures forall y :: sh.ncols < y < R.Length ==> R[y] == old(R[y])
    {
      ChainEnd(sh, ss, aa, cs);
      Cover(c);
      forall y | sh.ncols < y < R.Length
        ensures R[y] == old(R[y])
      {
        CoverKeepsRows(sh, ss[|cs|], aa[|cs|], c, y);
      }
      ChainSnoc(sh, ss, aa, cs, c, Snap(), abs);
      ss', aa' := ss + [Snap()], aa + [abs];
    }

    /**
     * Lines 71-73: uncover the columns of the row's other cells right to
     * left, undoing the chain of `cover` calls of CoverRow from its end.
     */
    method UncoverRow(row: int, ghost rr: seq<int>, ghost ss: seq<Links>, ghost aa: seq<Abs>, ghost cs: seq<int>)
      requires Valid() && Chain(sh, ss, aa, cs) && Snap() == ss[|cs|] && abs == aa[|cs|]
      requires Inv(sh, ss[0], aa[0]) && ss[0].Row == Row[..] && ss[0].C == C[..]
      requires IsCell(sh, ss[0], row) && rr == RowRest(sh, ss[0], row) && cs == RowCols(C[..], rr)
      modifies L, R, U, D, Size, this`abs
      ensures Valid() && Snap() == ss[0] && abs == aa[0]
    {
      RowBehind(sh, ss[0], row, rr);
      SameCellLinks(sh, ss[0], Snap());
      UncoverLoop(row, rr, cs, ss, aa);
    }

    /** The loop of lines 71-73: one `uncover` per other cell of the row, right to left. */
    method UncoverLoop(row: int, ghost rr: seq<int>, ghost cols: seq<int>, ghost ss: seq<Links>, ghost aa: seq<Abs>)
      requires Arrays() && Chain(sh, ss, aa, cols) && Snap() == ss[|cols|] && abs == aa[|cols|]
      requires 0 <= row < L.Length == |ss[0].L| && L[row] == (if rr == [] then row else rr[|rr| - 1])
      requires |cols| == |rr|
      requires forall k :: 0 <= k < |rr| ==> sh.ncols < rr[k] < L.Length && rr[k] != row && 0 <= rr[k] < C.Length && C[rr[k]] == cols[k]
      requires forall k :: 0 <= k < |rr| ==> ss[0].L[rr[k]] == (if k > 0 then rr[k - 1] else row)
      requires forall y :: sh.ncols < y < L.Length ==> L[y] == ss[0].L[y]
      modifies L, R, U, D, Size, this`abs
      ensures Snap() == ss[0] && abs == aa[0]
    {
      var node := L[row];
      ghost var m := |rr|;
      while node != row
        invariant 0 <= m <= |rr| && node == (if m > 0 then rr[m - 1] else row)
        invariant Arrays() && Snap() == ss[m] && abs == aa[m]
        invariant forall y :: sh.ncols < y < L.Length ==> L[y] == ss[0].L[y]
        decreases m
      {
        UncoverNext(C[node], ss, aa, cols, m - 1);
        assert L[node] == ss[0].L[rr[m - 1]] == (if m - 1 > 0 then rr[m - 2] else row);
        node := L[node];
        m := m - 1;
      }
    }

    /**
     * One `uncover` call of UncoverRow (line 72), undoing link n of the
     * chain; the left and right links of the cells stay as they were.
     */
    method UncoverNext(c: int, ghost ss: seq<Links>, ghost aa: seq<Abs>, ghost cs: seq<int>, ghost n: int)
      requires Arrays() && Chain(sh, ss, aa, cs) && 0 <= n < |cs| && c == cs[n]
      requires Snap() == ss[n + 1]
      modifies L, R, U, D, Size, this`abs
      ensures Snap() == ss[n] && abs == aa[n]
      ensures forall y :: sh.ncols < y < L.Length ==> L[y] == old(L[y])
    {
      assert ChainLink(sh, ss, aa, cs, n);
      Uncover(c, ss[n], aa[n]);
      forall y | sh.ncols < y < L.Length
        ensures L[y] == old(L[y])
      {
        CoverKeepsRows(sh, ss[n], aa[n], c, y);
      }
    }

    /**
     * One turn of the loop of lines 58-74, on cell `row`, the q-th of column
     * c, once c is covered from the state s0, a0.
     */
    method TryCell(ghost c: int, ghost q: int, row: int, ghost s0: Links, ghost a0: Abs) returns (found: bool)
      requires Valid() && Inv(sh, s0, a0) && c in a0.hdr && 0 <= q < |a0.cols[c - 1]| && row == a0.cols[c - 1][q]
      requires Snap() == CoverLinks(sh, s0, a0, c) && abs == CoverAbs(sh, s0, a0, c) && C[..] == s0.C && Row[..] == s0.Row
      modifies L, R, U, D, Size, this`abs, this`solution
      decreases |abs.hdr| + 1, 2
      ensures Valid()
      ensures found ==> abs.hdr == [] && old(solution) <= solution
                        && ExactCover(sh.M, solution[|old(solution)|..], ActiveCols(a0.hdr))
      ensures !found ==> Snap() == old(Snap()) && abs == old(abs) && solution == old(solution)
    {
      ghost var rr := RestOf(sh, s0, a0, c, q);
      RowReady(sh, s0, a0, c, q, Snap(), abs, row, rr);
      found := TryRow(c, row, rr, a0.hdr);
    }

    /**
     * The body of the loop of lines 58-74 on cell `row` of column c, once c
     * is covered (it was active among hdr0): push the row's number (line
     * 59), cover its other columns rr, recurse, and on failure pop and
     * uncover.
     */
    method TryRow(ghost c: int, row: int, ghost rr: seq<int>, ghost hdr0: seq<int>) returns (found: bool)
      requires Valid() && IsCell(sh, Snap(), row) && rr == RowRest(sh, Snap(), row)
      requires forall k :: 0 <= k < |rr| ==> 0 <= rr[k] < C.Length && C[rr[k]] in abs.hdr
      requires Unique(RowCols(C[..], rr))
      requires 0 <= Row[row] < |sh.M| && forall j :: Hit(sh.M, Row[row], j) <==> j == c - 1 || j + 1 in RowCols(C[..], rr)
      requires c in hdr0 && forall h :: h in abs.hdr <==> h in hdr0 && h != c
      modifies L, R, U, D, Size, this`abs, this`solution
      decreases |abs.hdr| + 1, 1
      ensures Valid()
      ensures found ==> abs.hdr == [] && old(solution) <= solution
                        && ExactCover(sh.M, solution[|old(solution)|..], ActiveCols(hdr0))
      ensures !found ==> Snap() == old(Snap()) && abs == old(abs) && solution == old(solution)
    {
      ghost var sol0 := solution;
      var i := Row[row];
      solution := solution + [i];
      ghost var ss, aa, cs := CoverRow(row, rr);
      found := Descend(c, row, rr, hdr0, sol0, ss, aa, cs);
    }

    /**
     * The rest of TryRow once the row's other columns cs are covered: the
     * recursive `solve` (line 64), then on failure the pop (line 70) and the
     * uncovering of lines 71-73.
     */
    method Descend(ghost c: int, row: int, ghost rr: seq<int>, ghost hdr0: seq<int>, ghost sol0: seq<int>,
                   ghost ss: seq<Links>, ghost aa: seq<Abs>, ghost cs: seq<int>) returns (found: bool)
      requires Valid() && Chain(sh, ss, aa, cs) && Snap() == ss[|cs|] && abs == aa[|cs|]
      requires Inv(sh, ss[0], aa[0]) && ss[0].Row == Row[..] && ss[0].C == C[..]
      requires IsCell(sh, ss[0], row) && rr == RowRest(sh, ss[0], row) && cs == RowCols(C[..], rr)
      requires forall k :: 0 <= k < |cs| ==> cs[k] in aa[0].hdr
      requires 0 <= Row[row] < |sh.M| && forall j :: Hit(sh.M, Row[row], j) <==> j == c - 1 || j + 1 in cs
      requires c in hdr0 && forall h :: h in aa[0].hdr <==> h in hdr0 && h != c
      requires forall h :: h in abs.hdr <==> h in aa[0].hdr && h !in cs
      requires solution == sol0 + [Row[row]]
      modifies L, R, U, D, Size, this`abs, this`solution
      decreases |abs.hdr| + 1, 0
      ensures Valid()
      ensures found ==> abs.hdr == [] && sol0 <= solution && ExactCover(sh.M, solution[|sol0|..], ActiveCols(hdr0))
      ensures !found ==> Snap() == ss[0] && abs == aa[0] && solution == sol0
    {
      found := Solve();
      if found {
        PushFound(sh.M, sol0, Row[row], solution, hdr0, aa[0].hdr, aa[|cs|].hdr, c, cs);
        return;
      }
      solution := solution[..|solution| - 1];
      UncoverRow(row, rr, ss, aa, cs);
    }

    /**
     * `solve` (lines 43-78). With no column left it succeeds at once and
     * changes nothing. Otherwise, on success the rows it appended form an
     * exact cover of the columns active on entry, and every column is
     * covered; on failure the links, the sizes and the solution are as they
     * were on entry.
     */
    method Solve() returns (found: bool)
      requires Valid()
      modifies L, R, U, D, Size, this`abs, this`solution
      decreases |abs.hdr|, 5
      ensures Valid()
      ensures old(abs.hdr) == [] ==> found && Snap() == old(Snap()) && abs == old(abs) && solution == old(solution)
      ensures found ==> abs.hdr == [] && old(solution) <= solution
                        && ExactCover(sh.M, solution[|old(solution)|..], ActiveCols(old(abs.hdr)))
      ensures !found ==> Snap() == old(Snap()) && abs == old(abs) && solution == old(solution)
    {
      HeaderEmpty(sh, Snap(), abs);
      if R[0] == 0 {
        CoverNothing(sh.M);
        assert solution[|solution|..] == [];
        return true;
      }
      found := Branch();
    }

    /**
     * Lines 47-77, with some column left: cover the column of least size
     * and try its rows.
     */
    method Branch() returns (found: bool)
      requires Valid() && abs.hdr != []
      modifies L, R, U, D, Size, this`abs, this`solution
      decreases |abs.hdr|, 4
      ensures Valid()
      ensures found ==> abs.hdr == [] && old(solution) <= solution
                        && ExactCover(sh.M, solution[|old(solution)|..], ActiveCols(old(abs.hdr)))
      ensures !found ==> Snap() == old(Snap()) && abs == old(abs) && solution == old(solution)
    {
      var c := ChooseColumn();
      ghost var s0, a0 := Snap(), abs;
      Cover(c);
      found := TryColumn(c, s0, a0);
    }

    /**
     * The loop of lines 58-74 over the cells of column c, once c is covered
     * from the state s0, a0: each row is tried in turn, top to bottom, until
     * one leads to a solution; when none does, c is uncovered (line 76).
     */
    method TryColumn(c: int, ghost s0: Links, ghost a0: Abs) returns (found: bool)
      requires Valid() && Inv(sh, s0, a0) && c in a0.hdr
      requires Snap() == CoverLinks(sh, s0, a0, c) && abs == CoverAbs(sh, s0, a0, c) && C[..] == s0.C && Row[..] == s0.Row
      modifies L, R, U, D, Size, this`abs, this`solution
      decreases |abs.hdr| + 1, 3
      ensures Valid()
      ensures found ==> abs.hdr == [] && old(solution) <= solution
                        && ExactCover(sh.M, solution[|old(solution)|..], ActiveCols(a0.hdr))
      ensures !found ==> Snap() == s0 && abs == a0 && solution == old(solution)
    {
      ghost var s1, a1, col := Snap(), abs, a0.cols[c - 1];
      CoveredColumnLinks(sh, s0, a0, c, -1);
      var row := D[c];
      ghost var q := 0;
      found := false;
      while row != c
        invariant 0 <= q <= |col| && row == (if q < |col| then col[q] else c)
        invariant Valid() && Snap() == s1 && abs == a1 && solution == old(solution)
        decreases |col| - q
      {
        found := TryCell(c, q, row, s0, a0);
        if found {
          return;
        }
        CoveredColumnLinks(sh, s0, a0, c, q);
        row := D[row];
        q := q + 1;
      }
      Uncover(c, s0, a0);
    }
  }
}
