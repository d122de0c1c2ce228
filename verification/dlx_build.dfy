/**
 * What `create_dancing_links` (Algo-Reynalde/main.cpp, lines 81-129) builds,
 * on values: where each node lands in the arena, the state after each step
 * of its two loops, and why the finished arena satisfies the invariant that
 * `cover`, `uncover` and `solve` rely on.
 *
 * Nodes are numbered in the order the function allocates them: the root,
 * the column headers, then one cell per 1 of the matrix, row by row and,
 * within a row, column by column.
 */
module DlxBuild {
  import opened Seqs
  import opened Links
  import opened DlxModel

  // ---------------------------------------------------------------------
  // Counting the cells
  // ---------------------------------------------------------------------

  /** The number of 1s in a row: the cells the row gets. */
  function RowOnes(r: seq<int>): (n: nat)
    ensures n <= |r|
  {
    if r == [] then 0 else RowOnes(r[..|r| - 1]) + (if r[|r| - 1] == 1 then 1 else 0)
  }

  /** The number of 1s in a matrix: the cells `create_dancing_links` allocates. */
  function Ones(M: seq<seq<int>>): nat
  {
    if M == [] then 0 else Ones(M[..|M| - 1]) + RowOnes(M[|M| - 1])
  }

  /** Counting the 1s of one more entry of a row. */
  lemma RowOnesNext(r: seq<int>, j: int)
    requires 0 <= j < |r|
    ensures RowOnes(r[..j + 1]) == RowOnes(r[..j]) + (if r[j] == 1 then 1 else 0)
  {
    assert r[..j + 1][..j] == r[..j];
  }

  /** Counting the 1s of one more row. */
  lemma OnesNext(M: seq<seq<int>>, i: int)
    requires 0 <= i < |M|
    ensures Ones(M[..i + 1]) == Ones(M[..i]) + RowOnes(M[i])
  {
    assert M[..i + 1][..i] == M[..i];
  }

  /** Fewer entries of a row hold no more 1s. */
  lemma {:induction false} RowOnesMono(r: seq<int>, j: int, j': int)
    requires 0 <= j <= j' <= |r|
    ensures RowOnes(r[..j]) <= RowOnes(r[..j'])
    decreases j' - j
  {
    if j < j' {
      RowOnesNext(r, j' - 1);
      RowOnesMono(r, j, j' - 1);
    }
  }

  /** A 1 at entry j leaves a 1 more to its right. */
  lemma RowOnesHit(r: seq<int>, j: int)
    requires 0 <= j < |r| && r[j] == 1
    ensures RowOnes(r[..j]) < RowOnes(r)
  {
    RowOnesNext(r, j);
    RowOnesMono(r, j + 1, |r|);
    assert r[..|r|] == r;
  }

  /** Fewer rows hold no more 1s. */
  lemma {:induction false} OnesMono(M: seq<seq<int>>, i: int, i': int)
    requires 0 <= i <= i' <= |M|
    ensures Ones(M[..i]) <= Ones(M[..i'])
    decreases i' - i
  {
    if i < i' {
      OnesNext(M, i' - 1);
      OnesMono(M, i, i' - 1);
    }
  }

  // ---------------------------------------------------------------------
  // Where the nodes land
  // ---------------------------------------------------------------------

  /** The number of the first cell of row i: after the root, the headers and the 1s of the rows above. */
  function First(M: seq<seq<int>>, i: int): (x: int)
    requires M != [] && 0 <= i <= |M|
    ensures x > |M[0]|
  {
    |M[0]| + 1 + Ones(M[..i])
  }

  /** The number of the cell for entry (i, j), or of the next cell allocated after the 1s before it. */
  function CellAt(M: seq<seq<int>>, i: int, j: int): (x: int)
    requires 0 <= i < |M| && 0 <= j <= |M[i]|
    ensures First(M, i) <= x <= First(M, i + 1)
  {
    OnesNext(M, i);
    RowOnesMono(M[i], j, |M[i]|);
    assert M[i][..|M[i]|] == M[i];
    First(M, i) + RowOnes(M[i][..j])
  }

  /** The number of nodes `create_dancing_links` allocates. */
  function NodeCount(M: seq<seq<int>>): (n: int)
    requires M != []
    ensures n == First(M, |M|)
  {
    assert M[..|M|] == M;
    |M[0]| + 1 + Ones(M)
  }

  /** Row blocks in order: an earlier row's cells come first. */
  lemma FirstMono(M: seq<seq<int>>, i: int, i': int)
    requires M != [] && 0 <= i <= i' <= |M|
    ensures First(M, i) <= First(M, i')
  {
    OnesMono(M, i, i');
  }

  /** The cell for a 1 lies in its row's block, and the cells of a row go by column. */
  lemma CellInBlock(M: seq<seq<int>>, i: int, j: int)
    requires Hit(M, i, j)
    ensures First(M, i) <= CellAt(M, i, j) < First(M, i + 1)
    ensures CellAt(M, i, j + 1) == CellAt(M, i, j) + 1
  {
    RowOnesHit(M[i], j);
    OnesNext(M, i);
    RowOnesNext(M[i], j);
  }

  /** The layout of the matrix's arena: row blocks and the cell of each 1. */
  ghost function BuildShape(M: seq<seq<int>>): (sh: Shape)
    requires MatrixShape(M)
    ensures sh.M == M && sh.ncols == |M[0]| && Blocks(sh, NodeCount(M))
    ensures |sh.cellOf| == |M| && forall i :: 0 <= i < |M| ==> |sh.cellOf[i]| == |M[i]|
  {
    var sh := Shape(M, |M[0]|, seq(|M| + 1, i requires 0 <= i <= |M| => First(M, i)),
                    seq(|M|, i requires 0 <= i < |M| => seq(|M[i]|, j requires 0 <= j < |M[i]| => CellAt(M, i, j))));
    forall i, i' | 0 <= i <= i' <= |M|
      ensures sh.rowFirst[i] <= sh.rowFirst[i']
    {
      FirstMono(M, i, i');
    }
    sh
  }

  // ---------------------------------------------------------------------
  // The rows a column holds
  // ---------------------------------------------------------------------

  /** The rows with a 1 in column j, top down. */
  ghost function HitRows(M: seq<seq<int>>, j: int): (rows: seq<int>)
    ensures forall i :: i in rows <==> Hit(M, i, j)
    ensures Above(-1, rows)
    decreases |M|
  {
    if M == [] then []
    else
      var init := HitRows(M[..|M| - 1], j);
      HitRowsSnoc(M, j, init);
      init + (if Hit(M, |M| - 1, j) then [|M| - 1] else [])
  }

  /** The rows of all but the last row of M, followed by the last row if it hits column j. */
  lemma HitRowsSnoc(M: seq<seq<int>>, j: int, init: seq<int>)
    requires M != [] && Above(-1, init)
    requires forall i :: i in init <==> Hit(M[..|M| - 1], i, j)
    ensures var rows := init + (if Hit(M, |M| - 1, j) then [|M| - 1] else []);
            (forall i :: i in rows <==> Hit(M, i, j)) && Above(-1, rows)
  {
    var n := |M| - 1;
    assert forall i :: 0 <= i < n ==> (Hit(M[..n], i, j) <==> Hit(M, i, j));
    HitRowsBelow(M[..n], j, init);
    if Hit(M, n, j) {
      AboveSnoc(-1, init, n);
    }
  }

  /** The rows listed for a matrix lie inside it. */
  lemma HitRowsBelow(M: seq<seq<int>>, j: int, rows: seq<int>)
    requires forall i :: i in rows <==> Hit(M, i, j)
    ensures forall k :: 0 <= k < |rows| ==> rows[k] < |M|
  {
    forall k | 0 <= k < |rows|
      ensures rows[k] < |M|
    {
      assert rows[k] in rows;
    }
  }

  /** Counting the rows of column j one more row down. */
  lemma HitRowsNext(M: seq<seq<int>>, i: int, j: int)
    requires 0 <= i < |M|
    ensures HitRows(M[..i + 1], j) == HitRows(M[..i], j) + (if Hit(M, i, j) then [i] else [])
  {
    assert M[..i + 1][..i] == M[..i];
  }

  /** The rows column c holds once the entries before (i, j), row by row, are linked in. */
  ghost function RowsSoFar(M: seq<seq<int>>, i: int, j: int, c: int): seq<int>
    requires 0 <= i <= |M|
  {
    HitRows(M[..i], c) + (if c < j && Hit(M, i, c) then [i] else [])
  }

  // ---------------------------------------------------------------------
  // The arena part way through
  // ---------------------------------------------------------------------

  /** A node not linked in yet: its left and right still point to itself, as `new Node()` leaves them. */
  ghost predicate Unlinked(s: Links, y: int)
    requires Sane(s) && 0 <= y < |s.L|
  {
    s.L[y] == y && s.R[y] == y
  }

  /** The root's ring holds all nc headers in order, and root and headers carry their tags (lines 84-93). */
  ghost predicate HeadersBuilt(nc: nat, s: Links)
    requires Sane(s) && nc < |s.L|
  {
    Ring(s.L, s.R, 0, Range(1, nc + 1)) && s.C[0] == -1 && s.Row[0] == -1
    && forall h :: 1 <= h <= nc ==> s.C[h] == h && s.Row[h] == -1
  }

  /** Column c's ring holds the cells col, all allocated before x, one for each of `rows`. */
  ghost predicate ColBuilt(nc: nat, s: Links, col: seq<int>, c: int, x: int, rows: seq<int>)
    requires Sane(s) && 0 <= c < nc < |s.L|
  {
    Ring(s.U, s.D, c + 1, col) && Above(nc, col)
    && (forall k :: 0 <= k < |col| ==> col[k] < x && s.C[col[k]] == c + 1)
    && s.Size[c + 1] == |col|
    && RowNums(s, col) == rows
  }

  /** Every column's ring holds one cell for each 1 linked in so far. */
  ghost predicate ColsBuilt(M: seq<seq<int>>, s: Links, i: int, j: int, x: int, cols: seq<seq<int>>)
    requires MatrixShape(M) && Sane(s) && |M[0]| < |s.L| && 0 <= i <= |M| && |cols| == |M[0]|
  {
    forall c :: 0 <= c < |M[0]| ==> ColBuilt(|M[0]|, s, cols[c], c, x, RowsSoFar(M, i, j, c))
  }

  /**
   * Cell y lies in its row's block (as far as row i is built, up to x),
   * is linked left and right round that block, stands for a 1 of its row
   * and is in its column's ring.
   */
  ghost predicate CellBuilt(M: seq<seq<int>>, s: Links, i: int, x: int, cols: seq<seq<int>>, y: int)
    requires MatrixShape(M) && Sane(s) && |M[0]| < y < x <= |s.L| && |cols| == |M[0]|
  {
    var r := s.Row[y];
    0 <= r <= i && r < |M|
    && var st, en := First(M, r), (if r < i then First(M, r + 1) else x);
       st <= y < en <= x
       && 1 <= s.C[y] <= |M[0]| && Hit(M, r, s.C[y] - 1)
       && s.R[y] == (if y + 1 < en then y + 1 else st)
       && s.L[y] == (if y > st then y - 1 else en - 1)
       && (y + 1 < en ==> s.C[y] < s.C[y + 1])
       && y in cols[s.C[y] - 1]
  }

  ghost predicate CellsBuilt(M: seq<seq<int>>, s: Links, i: int, x: int, cols: seq<seq<int>>)
    requires MatrixShape(M) && Sane(s) && |M[0]| < x <= |s.L| && |cols| == |M[0]|
  {
    forall y :: |M[0]| < y < x ==> CellBuilt(M, s, i, x, cols, y)
  }

  /** The cell for the 1 at (i, j) carries column j's header. */
  ghost predicate CellTagged(M: seq<seq<int>>, s: Links, i: int, j: int)
    requires Hit(M, i, j)
  {
    0 <= CellAt(M, i, j) < |s.C| && s.C[CellAt(M, i, j)] == j + 1
  }

  /** Every 1 before (i, j) has its cell. */
  ghost predicate Tagged(M: seq<seq<int>>, s: Links, i: int, j: int)
  {
    forall i', j' :: Hit(M, i', j') && (i' < i || (i' == i && j' < j)) ==> CellTagged(M, s, i', j')
  }

  /** Row i's last cell so far (`prev_node`) is in a column left of column j + 1. */
  ghost predicate LastBuilt(M: seq<seq<int>>, s: Links, i: int, j: int, x: int)
    requires MatrixShape(M) && Sane(s) && 0 <= i < |M| && 0 < x <= |s.L|
  {
    x > First(M, i) ==> s.Row[x - 1] == i && s.C[x - 1] <= j
  }

  /**
   * The arena once the entries before (i, j) are linked in: x is the next
   * node to allocate and cols[c] lists column c's cells top down.
   */
  ghost predicate Built(M: seq<seq<int>>, s: Links, i: int, j: int, x: int, cols: seq<seq<int>>)
  {
    MatrixShape(M) && Sane(s) && |s.L| == NodeCount(M)
    && 0 <= i <= |M| && (if i < |M| then 0 <= j <= |M[i]| && x == CellAt(M, i, j) else j == 0 && x == |s.L|)
    && |M[0]| < x <= |s.L| && |cols| == |M[0]|
    && HeadersBuilt(|M[0]|, s)
    && ColsBuilt(M, s, i, j, x, cols)
    && CellsBuilt(M, s, i, x, cols)
    && (forall y :: x <= y < |s.L| ==> Unlinked(s, y))
    && Tagged(M, s, i, j)
    && (i < |M| ==> LastBuilt(M, s, i, j, x))
  }

  // ---------------------------------------------------------------------
  // The header loop (lines 86-93)
  // ---------------------------------------------------------------------

  /** Lines 87-92: header h goes between the root's last header and the root, and is its own column header. */
  ghost function AddHeader(s: Links, h: int): (t: Links)
    requires Sane(s) && 0 < h < |s.L|
    ensures Sane(t) && |t.L| == |s.L| && t.U == s.U && t.D == s.D && t.Row == s.Row && t.Size == s.Size
  {
    s.(L := s.L[h := s.L[0]][0 := h], R := s.R[h := 0][s.L[0] := h], C := s.C[h := h])
  }

  /** The arena after j turns of the header loop: headers 1..j are in the root's ring, the others untouched. */
  ghost predicate HeadersSoFar(s: Links, j: int)
  {
    Sane(s) && 0 <= j < |s.L|
    && Ring(s.L, s.R, 0, Range(1, j + 1)) && s.C[0] == -1
    && (forall h :: 1 <= h <= j ==> s.C[h] == h)
    && (forall y :: j < y < |s.L| ==> s.L[y] == y && s.R[y] == y && s.C[y] == -1)
  }

  /** One turn of the header loop appends the next header to the root's ring. */
  lemma HeaderStepped(s: Links, j: int)
    requires HeadersSoFar(s, j) && j + 1 < |s.L|
    ensures HeadersSoFar(AddHeader(s, j + 1), j + 1)
  {
    var h := j + 1;
    RingAppend(s.L, s.R, 0, Range(1, h), h);
    assert Range(1, h + 1) == Range(1, h) + [h];
  }

  /** Every node as `new Node()` leaves it: links to itself, no column header, row -1, size 0. */
  ghost predicate NewNodes(s: Links)
  {
    var n := |s.L|;
    |s.R| == n && |s.U| == n && |s.D| == n && |s.C| == n && |s.Row| == n && |s.Size| == n
    && forall y :: 0 <= y < n ==> s.L[y] == y && s.R[y] == y && s.U[y] == y && s.D[y] == y
                                  && s.C[y] == -1 && s.Row[y] == -1 && s.Size[y] == 0
  }

  /** Nodes whose fields are all as `new Node()` sets them. */
  lemma NewNodesAre(s: Links, n: int)
    requires |s.L| == |s.R| == |s.U| == |s.D| == |s.C| == |s.Row| == |s.Size| == n
    requires forall y :: 0 <= y < n ==> s.L[y] == y && s.R[y] == y && s.U[y] == y && s.D[y] == y
    requires forall y :: 0 <= y < n ==> s.C[y] == -1 && s.Row[y] == -1 && s.Size[y] == 0
    ensures NewNodes(s)
  {
  }

  /** The header loop starts from fresh nodes. */
  lemma HeadersStart(s: Links)
    requires NewNodes(s) && 0 < |s.L|
    ensures HeadersSoFar(s, 0)
  {
  }

  /**
   * After the last turn of the header loop, which touches only left, right
   * and column header, the arena is as the row loop expects it.
   */
  lemma HeadersFinished(M: seq<seq<int>>, s0: Links, s: Links)
    requires MatrixShape(M) && NewNodes(s0) && HeadersSoFar(s, |M[0]|) && |s.L| == NodeCount(M)
    requires s.U == s0.U && s.D == s0.D && s.Row == s0.Row && s.Size == s0.Size
    ensures HeadersDone(M, s)
  {
  }

  // ---------------------------------------------------------------------
  // One cell (lines 100-121)
  // ---------------------------------------------------------------------

  /**
   * Linking in cell x for the 1 at (i, j): x goes to the bottom of column
   * j's ring and its header counts it (lines 105-111); unless it is its row's
   * first cell, it goes between the row's last cell `prev` and its first cell
   * `first` (lines 117-120). `first` is -1 while the row has no cell
   * (`row_header == nullptr`).
   */
  ghost function AddCell(s: Links, x: int, i: int, j: int, first: int, prev: int): (t: Links)
    requires Sane(s) && 0 <= x < |s.L| && 0 <= j + 1 < |s.L|
    requires first == -1 || (0 <= first < |s.L| && 0 <= prev < |s.L|)
    ensures Sane(t) && |t.L| == |s.L| && ColumnPart(s, t, x, i, j)
  {
    var h, u := j + 1, s.U[j + 1];
    var L1 := if first == -1 then s.L else s.L[x := prev][first := x];
    var R1 := if first == -1 then s.R else s.R[x := first][prev := x];
    Links(L1, R1, s.U[x := u][h := x], s.D[x := h][u := x], s.C[x := h], s.Row[x := i], s.Size[h := s.Size[h] + 1])
  }

  /** The column side of a cell step (lines 101-111): the fields other than left and right. */
  ghost predicate ColumnPart(s: Links, t: Links, x: int, i: int, j: int)
    requires Sane(s) && 0 <= x < |s.L| && 0 <= j + 1 < |s.L|
  {
    var h, u := j + 1, s.U[j + 1];
    t.U == s.U[x := u][h := x] && t.D == s.D[x := h][u := x]
    && t.C == s.C[x := h] && t.Row == s.Row[x := i] && t.Size == s.Size[h := s.Size[h] + 1]
  }

  /** The row side of a cell step (lines 112-121): left and right. */
  ghost predicate RowPart(s: Links, t: Links, x: int, first: int, prev: int)
    requires Sane(s) && 0 <= x < |s.L| && (first == -1 || (0 <= first < |s.L| && 0 <= prev < |s.L|))
  {
    t.L == (if first == -1 then s.L else s.L[x := prev][first := x])
    && t.R == (if first == -1 then s.R else s.R[x := first][prev := x])
  }

  /** What the row loop knows of `row_header` and `prev_node` when it reaches x. */
  ghost predicate RowHeads(M: seq<seq<int>>, i: int, x: int, first: int, prev: int)
    requires M != [] && 0 <= i < |M|
  {
    if x == First(M, i) then first == -1 && prev == -1 else first == First(M, i) && prev == x - 1
  }

  /** Where the next cell goes, and that the row's ends are cells before it. */
  lemma StepBounds(M: seq<seq<int>>, s: Links, i: int, j: int, x: int, cols: seq<seq<int>>, first: int, prev: int)
    requires Built(M, s, i, j, x, cols) && i < |M| && j < |M[i]| && M[i][j] == 1
    requires RowHeads(M, i, x, first, prev)
    ensures |M[0]| < First(M, i) <= x < First(M, i + 1) <= |s.L|
    ensures x + 1 == CellAt(M, i, j + 1) && j + 1 <= |M[0]|
    ensures first == -1 || (First(M, i) == first <= prev == x - 1)
  {
    assert Hit(M, i, j);
    CellInBlock(M, i, j);
    FirstMono(M, i + 1, |M|);
  }

  /** The root's ring and the headers' tags are untouched by a cell step. */
  lemma StepHeaders(nc: nat, s: Links, t: Links, x: int, i: int, j: int, first: int, prev: int)
    requires Sane(s) && Sane(t) && |t.L| == |s.L| && 0 <= j < nc < x < |s.L|
    requires first == -1 || (nc < first < |s.L| && nc < prev < |s.L|)
    requires ColumnPart(s, t, x, i, j) && RowPart(s, t, x, first, prev)
    requires HeadersBuilt(nc, s)
    ensures HeadersBuilt(nc, t)
  {
    RingFrame(s.L, s.R, t.L, t.R, 0, Range(1, nc + 1));
  }

  /** Column j's ring gains x at its bottom, with row i (lines 105-109), and its size counts it (line 110). */
  lemma StepOwnColumn(s: Links, t: Links, x: int, i: int, j: int, nc: nat, col: seq<int>, rows: seq<int>)
    requires Sane(s) && Sane(t) && |t.L| == |s.L| && 0 <= j < nc < x < |s.L|
    requires ColumnPart(s, t, x, i, j) && ColBuilt(nc, s, col, j, x, rows)
    ensures ColBuilt(nc, t, col + [x], j, x + 1, rows + [i])
  {
    OwnRing(s.U, s.D, t.U, t.D, j + 1, nc, col, x);
    OwnFields(s, t, x, i, j + 1, col, rows);
  }

  /** The up and down links of a cell appended at the bottom of column h's ring. */
  lemma OwnRing(up: seq<int>, down: seq<int>, up': seq<int>, down': seq<int>, h: int, nc: int, col: seq<int>, x: int)
    requires Ring(up, down, h, col) && Above(nc, col) && 0 <= h <= nc < x < |down|
    requires forall k :: 0 <= k < |col| ==> col[k] < x
    requires up' == up[x := up[h]][h := x] && down' == down[x := h][up[h] := x]
    ensures Ring(up', down', h, col + [x]) && Above(nc, col + [x])
  {
    assert Above(h, col);
    RingAppend(up, down, h, col, x);
    AboveSnoc(nc, col, x);
  }

  /** The column, row and size fields of a cell appended to column h. */
  lemma OwnFields(s: Links, t: Links, x: int, i: int, h: int, col: seq<int>, rows: seq<int>)
    requires 0 <= h < x < |s.Row| && h < |s.C| && x < |s.C| && h < |s.Size|
    requires forall k :: 0 <= k < |col| ==> 0 <= col[k] < x && s.C[col[k]] == h
    requires s.Size[h] == |col| && RowNums(s, col) == rows
    requires t.C == s.C[x := h] && t.Row == s.Row[x := i] && t.Size == s.Size[h := s.Size[h] + 1]
    ensures forall k :: 0 <= k < |col + [x]| ==> (col + [x])[k] < x + 1 && t.C[(col + [x])[k]] == h
    ensures t.Size[h] == |col + [x]| && RowNums(t, col + [x]) == rows + [i]
  {
    var col' := col + [x];
    RowNumsSame(s, t, col);
    RowNumsSnoc(t, col');
    assert col'[..|col|] == col;
  }

  /** Any other column's ring is untouched by linking a cell into column j. */
  lemma StepOtherColumn(s: Links, t: Links, x: int, i: int, j: int, nc: nat,
                        col: seq<int>, c: int, rows: seq<int>, colj: seq<int>, rowsj: seq<int>)
    requires Sane(s) && Sane(t) && |t.L| == |s.L| && 0 <= j < nc < x < |s.L| && 0 <= c < nc && c != j
    requires ColumnPart(s, t, x, i, j)
    requires ColBuilt(nc, s, col, c, x, rows) && ColBuilt(nc, s, colj, j, x, rowsj)
    ensures ColBuilt(nc, t, col, c, x + 1, rows)
  {
    var u := s.U[j + 1];
    assert u == j + 1 || s.C[u] == j + 1;
    RingFrame(s.U, s.D, t.U, t.D, c + 1, col);
    RowNumsSame(s, t, col);
  }

  /** RowNums only reads the rows of the given cells. */
  lemma RowNumsSame(s: Links, t: Links, col: seq<int>)
    requires forall k :: 0 <= k < |col| ==> 0 <= col[k] < |s.Row| && 0 <= col[k] < |t.Row| && t.Row[col[k]] == s.Row[col[k]]
    ensures RowNums(t, col) == RowNums(s, col)
  {
  }

  /** Every column's ring after linking in the cell for the 1 at (i, j). */
  lemma StepColumns(M: seq<seq<int>>, s: Links, t: Links, i: int, j: int, x: int, cols: seq<seq<int>>)
    requires MatrixShape(M) && Sane(s) && Sane(t) && |t.L| == |s.L| && |M[0]| < x < |s.L| && |cols| == |M[0]|
    requires Hit(M, i, j) && ColumnPart(s, t, x, i, j) && ColsBuilt(M, s, i, j, x, cols)
    ensures ColsBuilt(M, t, i, j + 1, x + 1, cols[j := cols[j] + [x]])
  {
    var nc, cols' := |M[0]|, cols[j := cols[j] + [x]];
    assert ColBuilt(nc, s, cols[j], j, x, RowsSoFar(M, i, j, j));
    forall c | 0 <= c < nc
      ensures ColBuilt(nc, t, cols'[c], c, x + 1, RowsSoFar(M, i, j + 1, c))
    {
      assert ColBuilt(nc, s, cols[c], c, x, RowsSoFar(M, i, j, c));
      if c == j {
        StepOwnColumn(s, t, x, i, j, nc, cols[j], RowsSoFar(M, i, j, j));
      } else {
        StepOtherColumn(s, t, x, i, j, nc, cols[c], c, RowsSoFar(M, i, j, c), cols[j], RowsSoFar(M, i, j, j));
      }
    }
  }

  /** The new cell x: the last of row i's block so far, between `prev_node` and `row_header`. */
  lemma StepNewCell(M: seq<seq<int>>, s: Links, t: Links, i: int, j: int, x: int, cols: seq<seq<int>>, first: int, prev: int)
    requires MatrixShape(M) && Sane(s) && Sane(t) && |t.L| == |s.L| && |M[0]| < x < |s.L| && |cols| == |M[0]|
    requires Hit(M, i, j) && First(M, i) <= x && RowHeads(M, i, x, first, prev)
    requires first == -1 || (0 <= first < |s.L| && 0 <= prev < |s.L|)
    requires ColumnPart(s, t, x, i, j) && RowPart(s, t, x, first, prev) && Unlinked(s, x)
    ensures CellBuilt(M, t, i, x + 1, cols[j := cols[j] + [x]], x)
  {
  }

  /**
   * A cell linked in earlier keeps its place; if it is in row i, the row's
   * ring now runs through x. (The result is stated as one equation so that
   * it is matched against the two cases' lemmas as a whole.)
   */
  lemma StepOldCell(M: seq<seq<int>>, s: Links, t: Links, i: int, j: int, x: int, cols: seq<seq<int>>, first: int, prev: int, y: int)
    requires MatrixShape(M) && Sane(s) && Sane(t) && |t.L| == |s.L| && |M[0]| < y < x < |s.L| && |cols| == |M[0]|
    requires Hit(M, i, j) && First(M, i) <= x && RowHeads(M, i, x, first, prev)
    requires first == -1 || (0 <= first < |s.L| && 0 <= prev < |s.L|)
    requires ColumnPart(s, t, x, i, j) && RowPart(s, t, x, first, prev)
    requires LastBuilt(M, s, i, j, x) && CellBuilt(M, s, i, x, cols, y)
    ensures CellBuilt(M, t, i, x + 1, cols[j := cols[j] + [x]], y) == true
  {
    var cols' := cols[j := cols[j] + [x]];
    ColsGrow(cols, j, x, y, s.C[y] - 1);
    OldFields(s, t, i, j, x, first, prev, y);
    if s.Row[y] < i {
      FirstMono(M, s.Row[y] + 1, i);
      CellKept(M, s, t, i, x, cols, cols', y);
    } else {
      CellGrown(M, s, t, i, j, x, cols, cols', first, prev, y);
    }
  }

  /** Appending x to column j's list keeps every listed cell listed. */
  lemma ColsGrow(cols: seq<seq<int>>, j: int, x: int, y: int, c: int)
    requires 0 <= j < |cols| && 0 <= c < |cols| && y in cols[c]
    ensures y in cols[j := cols[j] + [x]][c]
  {
  }

  /** A cell step leaves an older node y alone, except that the row's ends may now point to x. */
  lemma OldFields(s: Links, t: Links, i: int, j: int, x: int, first: int, prev: int, y: int)
    requires Sane(s) && 0 <= y < x < |s.L| && 0 <= j + 1 < |s.L|
    requires first == -1 || (0 <= first < |s.L| && 0 <= prev < |s.L|)
    requires first == -1 ==> prev == -1
    requires ColumnPart(s, t, x, i, j) && RowPart(s, t, x, first, prev)
    ensures t.Row[y] == s.Row[y] && t.C[y] == s.C[y] && t.C[x] == j + 1
    ensures t.R[y] == (if y == prev then x else s.R[y]) && t.L[y] == (if y == first then x else s.L[y])
    ensures y + 1 < x ==> t.C[y + 1] == s.C[y + 1]
  {
  }

  /** A cell of an earlier row, its links untouched, is still in place. */
  lemma CellKept(M: seq<seq<int>>, s: Links, t: Links, i: int, x: int, cols: seq<seq<int>>, cols': seq<seq<int>>, y: int)
    requires MatrixShape(M) && Sane(s) && Sane(t) && |t.L| == |s.L| && |M[0]| < y < x < |s.L|
    requires |cols| == |cols'| == |M[0]| && CellBuilt(M, s, i, x, cols, y)
    requires s.Row[y] < i && y in cols'[s.C[y] - 1]
    requires t.Row[y] == s.Row[y] && t.C[y] == s.C[y] && t.R[y] == s.R[y] && t.L[y] == s.L[y]
    requires y + 1 < x ==> t.C[y + 1] == s.C[y + 1]
    ensures CellBuilt(M, t, i, x + 1, cols', y)
  {
  }

  /** A cell of row i, the row x joins at its end (lines 112-121). */
  lemma CellGrown(M: seq<seq<int>>, s: Links, t: Links, i: int, j: int, x: int, cols: seq<seq<int>>, cols': seq<seq<int>>,
                  first: int, prev: int, y: int)
    requires MatrixShape(M) && Sane(s) && Sane(t) && |t.L| == |s.L| && |M[0]| < y < x < |s.L|
    requires |cols| == |cols'| == |M[0]| && CellBuilt(M, s, i, x, cols, y)
    requires 0 <= i < |M| && Hit(M, i, j) && s.Row[y] == i && y in cols'[s.C[y] - 1]
    requires RowHeads(M, i, x, first, prev) && LastBuilt(M, s, i, j, x)
    requires t.Row[y] == s.Row[y] && t.C[y] == s.C[y] && t.C[x] == j + 1
    requires t.R[y] == (if y == prev then x else s.R[y]) && t.L[y] == (if y == first then x else s.L[y])
    requires y + 1 < x ==> t.C[y + 1] == s.C[y + 1]
    ensures CellBuilt(M, t, i, x + 1, cols', y)
  {
  }

  lemma StepCells(M: seq<seq<int>>, s: Links, t: Links, i: int, j: int, x: int, cols: seq<seq<int>>, first: int, prev: int, x': int, cols': seq<seq<int>>)
    requires MatrixShape(M) && Sane(s) && Sane(t) && |t.L| == |s.L| && |M[0]| < x < |s.L| && |cols| == |M[0]|
    requires Hit(M, i, j) && First(M, i) <= x && RowHeads(M, i, x, first, prev)
    requires first == -1 || (0 <= first < |s.L| && 0 <= prev < |s.L|)
    requires ColumnPart(s, t, x, i, j) && RowPart(s, t, x, first, prev) && Unlinked(s, x)
    requires LastBuilt(M, s, i, j, x) && CellsBuilt(M, s, i, x, cols)
    requires cols' == cols[j := cols[j] + [x]] && x' == x + 1
    ensures CellsBuilt(M, t, i, x', cols')
  {
    forall y | |M[0]| < y < x'
      ensures CellBuilt(M, t, i, x', cols', y)
    {
      if y == x {
        StepNewCell(M, s, t, i, j, x, cols, first, prev);
      } else {
        assert CellBuilt(M, s, i, x, cols, y);
        StepOldCell(M, s, t, i, j, x, cols, first, prev, y);
      }
    }
  }

  /** The 1s before (i, j + 1) all have their cells: the earlier ones lie before x, and x is (i, j)'s. */
  lemma StepTagged(M: seq<seq<int>>, s: Links, t: Links, i: int, j: int, x: int)
    requires Sane(s) && Sane(t) && |t.L| == |s.L| && 0 <= x < |s.L| && j + 1 < |s.L|
    requires Hit(M, i, j) && x == CellAt(M, i, j) && ColumnPart(s, t, x, i, j)
    requires Tagged(M, s, i, j)
    ensures Tagged(M, t, i, j + 1)
  {
    forall i', j' | Hit(M, i', j') && (i' < i || (i' == i && j' < j + 1))
      ensures CellTagged(M, t, i', j')
    {
      StepTaggedAt(M, s, t, i, j, x, i', j');
    }
  }

  /** One 1 before (i, j + 1): its cell is x itself, or an earlier one that x's step left alone. */
  lemma StepTaggedAt(M: seq<seq<int>>, s: Links, t: Links, i: int, j: int, x: int, i': int, j': int)
    requires Sane(s) && Sane(t) && |t.L| == |s.L| && 0 <= x < |s.L| && j + 1 < |s.L|
    requires Hit(M, i, j) && x == CellAt(M, i, j) && t.C == s.C[x := j + 1]
    requires Hit(M, i', j') && (i' < i || (i' == i && j' < j + 1))
    requires i' < i || j' < j ==> CellTagged(M, s, i', j')
    ensures CellTagged(M, t, i', j')
  {
    if i' < i {
      CellInBlock(M, i', j');
      FirstMono(M, i' + 1, i);
    } else if j' < j {
      CellInBlock(M, i', j');
      RowOnesMono(M[i], j' + 1, j);
    }
  }

  /** Nodes after x are still unlinked, and x is now row i's last cell. */
  lemma StepRest(M: seq<seq<int>>, s: Links, t: Links, i: int, j: int, x: int, first: int, prev: int)
    requires MatrixShape(M) && Sane(s) && Sane(t) && |t.L| == |s.L| && |M[0]| < x < |s.L| && 0 <= i < |M| && 0 <= j < |M[0]|
    requires first == -1 || (0 <= first <= x && 0 <= prev <= x)
    requires ColumnPart(s, t, x, i, j) && RowPart(s, t, x, first, prev)
    requires forall y :: x <= y < |s.L| ==> Unlinked(s, y)
    ensures forall y :: x + 1 <= y < |t.L| ==> Unlinked(t, y)
    ensures LastBuilt(M, t, i, j + 1, x + 1)
  {
    forall y | x + 1 <= y < |t.L|
      ensures Unlinked(t, y)
    {
      assert Unlinked(s, y);
    }
  }

  /**
   * One turn of the inner loop on a 1 (lines 100-121) keeps the arena in
   * step: the cell for (i, j) is linked into its column and its row.
   */
  lemma StepBuilt(M: seq<seq<int>>, s: Links, t: Links, i: int, j: int, x: int, cols: seq<seq<int>>, first: int, prev: int)
    requires Built(M, s, i, j, x, cols) && i < |M| && j < |M[i]| && M[i][j] == 1
    requires RowHeads(M, i, x, first, prev) && x < |s.L|
    requires t == AddCell(s, x, i, j, first, prev)
    ensures Built(M, t, i, j + 1, x + 1, cols[j := cols[j] + [x]])
  {
    StepBounds(M, s, i, j, x, cols, first, prev);
    var nc := |M[0]|;
    assert Hit(M, i, j);
    StepHeaders(nc, s, t, x, i, j, first, prev);
    StepColumns(M, s, t, i, j, x, cols);
    StepCells(M, s, t, i, j, x, cols, first, prev, x + 1, cols[j := cols[j] + [x]]);
    StepTagged(M, s, t, i, j, x);
    StepRest(M, s, t, i, j, x, first, prev);
  }

  /** One turn of the inner loop on a 0 (line 100's test fails): nothing changes. */
  lemma SkipBuilt(M: seq<seq<int>>, s: Links, i: int, j: int, x: int, cols: seq<seq<int>>)
    requires Built(M, s, i, j, x, cols) && i < |M| && j < |M[i]| && M[i][j] != 1
    ensures Built(M, s, i, j + 1, x, cols)
  {
    RowOnesNext(M[i], j);
    forall c | 0 <= c < |M[0]|
      ensures RowsSoFar(M, i, j + 1, c) == RowsSoFar(M, i, j, c)
    {
    }
  }

  /** The end of row i (line 124): its block is complete and the next row starts at x. */
  lemma RowBuilt(M: seq<seq<int>>, s: Links, i: int, x: int, cols: seq<seq<int>>)
    requires 0 <= i < |M| && Built(M, s, i, |M[i]|, x, cols)
    ensures Built(M, s, i + 1, 0, x, cols)
  {
    OnesNext(M, i);
    assert M[i][..|M[i]|] == M[i];
    assert x == First(M, i + 1);
    if i + 1 < |M| {
      assert M[i + 1][..0] == [];
    }
    forall c | 0 <= c < |M[0]|
      ensures RowsSoFar(M, i + 1, 0, c) == RowsSoFar(M, i, |M[i]|, c)
    {
      HitRowsNext(M, i, c);
    }
    CellsNextRow(M, s, i, i + 1, x, cols);
  }

  /** Closing row i's block leaves every cell where it was. */
  lemma CellsNextRow(M: seq<seq<int>>, s: Links, i: int, i': int, x: int, cols: seq<seq<int>>)
    requires MatrixShape(M) && Sane(s) && |M[0]| < x <= |s.L| && |cols| == |M[0]|
    requires 0 <= i < |M| && i' == i + 1 && x == First(M, i') && CellsBuilt(M, s, i, x, cols)
    ensures CellsBuilt(M, s, i', x, cols)
  {
    forall y | |M[0]| < y < x
      ensures CellBuilt(M, s, i', x, cols, y)
    {
      assert CellBuilt(M, s, i, x, cols, y);
    }
  }

  /**
   * The arena after the header loop (lines 84-93): the root's ring holds the
   * headers, each column's ring is empty, and no cell is linked in.
   */
  ghost predicate HeadersDone(M: seq<seq<int>>, s: Links)
  {
    MatrixShape(M) && Sane(s) && |s.L| == NodeCount(M)
    && HeadersBuilt(|M[0]|, s)
    && (forall c :: 1 <= c <= |M[0]| ==> s.U[c] == c && s.D[c] == c && s.Size[c] == 0)
    && (forall y :: |M[0]| < y < |s.L| ==> Unlinked(s, y))
  }

  /** The row loop (line 96) starts from the headers, with every column empty. */
  lemma StartBuilt(M: seq<seq<int>>, s: Links)
    requires HeadersDone(M, s)
    ensures Built(M, s, 0, 0, |M[0]| + 1, seq(|M[0]|, c => []))
  {
    var nc, cols := |M[0]|, seq(|M[0]|, c => []);
    assert M[..0] == [] && M[0][..0] == [];
    forall c | 0 <= c < nc
      ensures ColBuilt(nc, s, cols[c], c, nc + 1, RowsSoFar(M, 0, 0, c))
    {
      assert RowNums(s, []) == [];
    }
  }

  /**
   * The finished arena (line 128) satisfies the invariant of `cover`,
   * `uncover` and `solve`, with every header in the root's ring, and column
   * c's ring lists one cell per 1 of column c, top down.
   */
  lemma BuiltInv(M: seq<seq<int>>, s: Links, cols: seq<seq<int>>)
    requires Built(M, s, |M|, 0, |s.L|, cols)
    ensures Inv(BuildShape(M), s, Abs(Range(1, |M[0]| + 1), cols))
    ensures forall c :: 0 <= c < |M[0]| ==> ColumnOK(BuildShape(M), s, cols[c], c) && RowNums(s, cols[c]) == HitRows(M, c)
  {
    var sh, nc, a := BuildShape(M), |M[0]|, Abs(Range(1, |M[0]| + 1), cols);
    assert M[..|M|] == M;
    forall c | 0 <= c < nc
      ensures ColumnOK(sh, s, cols[c], c) && RowNums(s, cols[c]) == HitRows(M, c)
    {
      assert ColBuilt(nc, s, cols[c], c, |s.L|, RowsSoFar(M, |M|, 0, c));
    }
    forall x | IsCell(sh, s, x)
      ensures CellOK(sh, s, x) && RowLive(sh, s, a, x)
    {
      BuiltCell(M, s, cols, x);
      BuiltRow(M, s, cols, x);
    }
    forall i, j | Hit(sh.M, i, j)
      ensures CellOf(sh, s, i, j)
    {
      assert CellTagged(M, s, i, j);
      CellInBlock(M, i, j);
    }
    assert Layout(sh, s);
    forall j, k | 0 <= j < nc && j + 1 in a.hdr && 0 <= k < |a.cols[j]|
      ensures IsCell(sh, s, a.cols[j][k]) && RowLive(sh, s, a, a.cols[j][k])
    {
      assert ColumnOK(sh, s, cols[j], j);
    }
  }

  /** A cell of the finished arena sits in its row's block, linked round it. */
  lemma BuiltCell(M: seq<seq<int>>, s: Links, cols: seq<seq<int>>, x: int)
    requires MatrixShape(M) && Sane(s) && |s.L| == NodeCount(M) && |cols| == |M[0]|
    requires CellsBuilt(M, s, |M|, |s.L|, cols) && |M[0]| < x < |s.L|
    ensures CellOK(BuildShape(M), s, x)
  {
    assert CellBuilt(M, s, |M|, |s.L|, cols, x);
  }

  /** The whole row of a cell of the finished arena is in its columns' rings, all of them active. */
  lemma BuiltRow(M: seq<seq<int>>, s: Links, cols: seq<seq<int>>, x: int)
    requires MatrixShape(M) && Sane(s) && |s.L| == NodeCount(M) && |cols| == |M[0]|
    requires CellsBuilt(M, s, |M|, |s.L|, cols) && |M[0]| < x < |s.L|
    ensures RowLive(BuildShape(M), s, Abs(Range(1, |M[0]| + 1), cols), x)
  {
    var sh, nc := BuildShape(M), |M[0]|;
    forall y | IsCell(sh, s, y) && s.Row[y] == s.Row[x]
      ensures s.C[y] in Range(1, nc + 1) && 1 <= s.C[y] <= |cols| && y in cols[s.C[y] - 1]
    {
      assert CellBuilt(M, s, |M|, |s.L|, cols, y);
      assert Range(1, nc + 1)[s.C[y] - 1] == s.C[y];
    }
  }
}
