/**
 * The node arena of the Dancing Links structure (Algo-Reynalde/main.cpp,
 * `struct Node`, lines 5-12) as values: one sequence per field, indexed by
 * node number. `Links` is a snapshot of the arena; the splice operations of
 * `cover` and `uncover` are functions on snapshots, and a ring of nodes is a
 * sequence that the `next`/`prev` fields walk through.
 */
module Links {
  import opened Seqs

  /** The fields of every node: neighbours, column header, row number, size. */
  datatype Links = Links(L: seq<int>, R: seq<int>, U: seq<int>, D: seq<int>,
                         C: seq<int>, Row: seq<int>, Size: seq<int>)

  /** All fields have one entry per node and every link names a node. */
  ghost predicate Sane(s: Links)
  {
    var n := |s.L|;
    |s.R| == n && |s.U| == n && |s.D| == n && |s.C| == n && |s.Row| == n && |s.Size| == n
    && (forall x :: 0 <= x < n ==> 0 <= s.L[x] < n && 0 <= s.R[x] < n)
    && (forall x :: 0 <= x < n ==> 0 <= s.U[x] < n && 0 <= s.D[x] < n)
    && (forall x :: 0 <= x < n ==> -1 <= s.C[x] < n)
  }

  /** A node that has a column header (every node but the root). */
  ghost predicate InColumn(s: Links, x: int)
  {
    Sane(s) && 0 <= x < |s.L| && 0 <= s.C[x]
  }

  // ---------------------------------------------------------------------
  // Splices, written in the order of the source's assignments
  // ---------------------------------------------------------------------

  /** `cover`, lines 21-23: take x out of its column's vertical ring. */
  ghost function VUnlink(s: Links, x: int): (r: Links)
    requires InColumn(s, x)
    ensures Sane(r) && |r.L| == |s.L|
    ensures r.L == s.L && r.R == s.R && r.C == s.C && r.Row == s.Row
  {
    var u1 := s.U[s.D[x] := s.U[x]];
    var d1 := s.D[u1[x] := s.D[x]];
    s.(U := u1, D := d1, Size := s.Size[s.C[x] := s.Size[s.C[x]] - 1])
  }

  /** `uncover`, lines 32-34: put x back between its own up and down neighbours. */
  ghost function VRelink(s: Links, x: int): (r: Links)
    requires InColumn(s, x)
    ensures Sane(r) && |r.L| == |s.L|
    ensures r.L == s.L && r.R == s.R && r.C == s.C && r.Row == s.Row
  {
    var size := s.Size[s.C[x] := s.Size[s.C[x]] + 1];
    var u1 := s.U[s.D[x] := x];
    var d1 := s.D[u1[x] := x];
    s.(U := u1, D := d1, Size := size)
  }

  /** `cover`, lines 16-17: take header c out of the root's horizontal ring. */
  ghost function HUnlink(s: Links, c: int): (r: Links)
    requires Sane(s) && 0 <= c < |s.L|
    ensures Sane(r) && |r.L| == |s.L|
    ensures r.U == s.U && r.D == s.D && r.C == s.C && r.Row == s.Row && r.Size == s.Size
  {
    var l1 := s.L[s.R[c] := s.L[c]];
    var r1 := s.R[l1[c] := s.R[c]];
    s.(L := l1, R := r1)
  }

  /** `uncover`, lines 38-39: put header c back between its own neighbours. */
  ghost function HRelink(s: Links, c: int): (r: Links)
    requires Sane(s) && 0 <= c < |s.L|
    ensures Sane(r) && |r.L| == |s.L|
    ensures r.U == s.U && r.D == s.D && r.C == s.C && r.Row == s.Row && r.Size == s.Size
  {
    var l1 := s.L[s.R[c] := c];
    var r1 := s.R[l1[c] := c];
    s.(L := l1, R := r1)
  }

  /** Every node of `ops` has a column header. */
  ghost predicate AllInColumns(s: Links, ops: seq<int>)
  {
    Sane(s) && forall k :: 0 <= k < |ops| ==> 0 <= ops[k] < |s.L| && 0 <= s.C[ops[k]]
  }

  /** Unlinks the nodes of `ops` from their columns, first to last. */
  ghost function UnlinkAll(s: Links, ops: seq<int>): (r: Links)
    requires AllInColumns(s, ops)
    ensures Sane(r) && |r.L| == |s.L|
    ensures r.L == s.L && r.R == s.R && r.C == s.C && r.Row == s.Row
    decreases |ops|
  {
    if ops == [] then s
    else VUnlink(UnlinkAll(s, ops[..|ops| - 1]), ops[|ops| - 1])
  }

  /** Relinks the nodes of `ops` into their columns, last to first. */
  ghost function RelinkAll(s: Links, ops: seq<int>): (r: Links)
    requires AllInColumns(s, ops)
    ensures Sane(r) && |r.L| == |s.L|
    ensures r.L == s.L && r.R == s.R && r.C == s.C && r.Row == s.Row
    decreases |ops|
  {
    if ops == [] then s
    else RelinkAll(VRelink(s, ops[|ops| - 1]), ops[..|ops| - 1])
  }

  /** x is linked both ways with its vertical neighbours. */
  ghost predicate VSym(s: Links, x: int)
    requires Sane(s) && 0 <= x < |s.L|
  {
    s.U[s.D[x]] == x && s.D[s.U[x]] == x
  }

  /** x is linked both ways with its horizontal neighbours. */
  ghost predicate HSym(s: Links, x: int)
    requires Sane(s) && 0 <= x < |s.L|
  {
    s.L[s.R[x]] == x && s.R[s.L[x]] == x
  }

  /** Each node of `ops` is linked both ways at the moment it is unlinked. */
  ghost predicate SymAlong(s: Links, ops: seq<int>)
    requires AllInColumns(s, ops)
    decreases |ops|
  {
    ops == [] ||
    (SymAlong(s, ops[..|ops| - 1]) && VSym(UnlinkAll(s, ops[..|ops| - 1]), ops[|ops| - 1]))
  }

  /** Relinking a node restores exactly what unlinking it changed. */
  lemma RelinkUndoesUnlink(s: Links, x: int)
    requires InColumn(s, x) && VSym(s, x)
    ensures VRelink(VUnlink(s, x), x) == s
  {
    var t := VUnlink(s, x);
    assert t.D[x] == s.D[x];
    assert t.U[x] == s.U[x];
    var r := VRelink(t, x);
    assert r.U == s.U;
    assert r.D == s.D;
    assert r.Size == s.Size;
  }

  /** The same for a column header in the root's ring. */
  lemma HRelinkUndoesHUnlink(s: Links, c: int)
    requires Sane(s) && 0 <= c < |s.L| && HSym(s, c)
    ensures HRelink(HUnlink(s, c), c) == s
  {
    var t := HUnlink(s, c);
    assert t.R[c] == s.R[c];
    assert t.L[c] == s.L[c];
    var r := HRelink(t, c);
    assert r.L == s.L;
    assert r.R == s.R;
  }

  /**
   * Relinking in reverse order undoes a whole sequence of unlinks, provided
   * every node was linked both ways when it was unlinked: the reason the
   * source's `uncover` walks upward and leftward.
   */
  lemma {:induction false} RelinkAllUndoesUnlinkAll(s: Links, ops: seq<int>)
    requires AllInColumns(s, ops) && SymAlong(s, ops)
    ensures RelinkAll(UnlinkAll(s, ops), ops) == s
    decreases |ops|
  {
    if ops != [] {
      var init, x := ops[..|ops| - 1], ops[|ops| - 1];
      var t := UnlinkAll(s, init);
      RelinkUndoesUnlink(t, x);
      RelinkAllUndoesUnlinkAll(s, init);
    }
  }

  /** Unlinking one more node extends the sequence of unlinks. */
  lemma UnlinkAllSnoc(s: Links, ops: seq<int>, k: int)
    requires AllInColumns(s, ops) && 0 <= k < |ops|
    ensures UnlinkAll(s, ops[..k + 1]) == VUnlink(UnlinkAll(s, ops[..k]), ops[k])
  {
    assert ops[..k + 1][..k] == ops[..k];
  }

  /** Unlinking pre and then y, read back through the definitions. */
  lemma UnlinkSnoc(s: Links, pre: seq<int>, y: int)
    requires AllInColumns(s, pre) && 0 <= y < |s.L| && 0 <= s.C[y]
    ensures AllInColumns(s, pre + [y])
    ensures UnlinkAll(s, pre + [y]) == VUnlink(UnlinkAll(s, pre), y)
    ensures SymAlong(s, pre + [y]) <==> SymAlong(s, pre) && VSym(UnlinkAll(s, pre), y)
  {
    assert (pre + [y])[..|pre|] == pre;
  }

  /**
   * Lines 21-23 in full: x's neighbours skip it, its column's size drops by
   * one, and no other `up`, `down` or `size` entry changes.
   */
  lemma VUnlinkSkips(s: Links, x: int)
    requires InColumn(s, x)
    ensures VUnlink(s, x).U[s.D[x]] == s.U[x] && VUnlink(s, x).D[s.U[x]] == s.D[x]
    ensures VUnlink(s, x).Size[s.C[x]] == s.Size[s.C[x]] - 1
    ensures forall y :: 0 <= y < |s.L| && y != s.D[x] ==> VUnlink(s, x).U[y] == s.U[y]
    ensures forall y :: 0 <= y < |s.L| && y != s.U[x] ==> VUnlink(s, x).D[y] == s.D[y]
    ensures forall y :: 0 <= y < |s.L| && y != s.C[x] ==> VUnlink(s, x).Size[y] == s.Size[y]
  {
  }

  /**
   * What unlinking y writes: its up neighbour's `down` and its down
   * neighbour's `up`, and nothing else; y keeps its own two links.
   */
  lemma VUnlinkFrame(s: Links, y: int, x: int)
    requires InColumn(s, y) && 0 <= x < |s.L|
    requires x == y || (x != s.D[y] && x != s.U[y])
    ensures VUnlink(s, y).U[x] == s.U[x] && VUnlink(s, y).D[x] == s.D[x]
  {
  }

  /** Unlinking node `ops[n]` writes neither link of x. */
  ghost predicate SpliceAvoids(s: Links, ops: seq<int>, n: int, x: int)
    requires AllInColumns(s, ops) && 0 <= n < |ops|
  {
    var t := UnlinkAll(s, ops[..n]);
    x != t.D[ops[n]] && x != t.U[ops[n]]
  }

  /** Every prefix of a sequence of unlinks is one too. */
  lemma AllInPrefixes(s: Links, ops: seq<int>)
    requires AllInColumns(s, ops)
    ensures forall n :: 0 <= n <= |ops| ==> AllInColumns(s, ops[..n])
  {
  }

  /**
   * A node keeps the links it had when it was unlinked as long as no later
   * unlink writes them.
   */
  lemma {:induction false} SplicesAvoid(s: Links, ops: seq<int>, k: int, m: int)
    requires AllInColumns(s, ops) && 0 <= k < m <= |ops|
    requires forall n :: k < n < m ==> SpliceAvoids(s, ops, n, ops[k])
    ensures UnlinkAll(s, ops[..m]).U[ops[k]] == UnlinkAll(s, ops[..k + 1]).U[ops[k]]
    ensures UnlinkAll(s, ops[..m]).D[ops[k]] == UnlinkAll(s, ops[..k + 1]).D[ops[k]]
    decreases m
  {
    if k + 1 < m {
      SplicesAvoid(s, ops, k, m - 1);
      AvoidStep(s, ops, k, m);
    } else {
      assert ops[..m] == ops[..k + 1];
    }
  }

  /** One step of SplicesAvoid: the unlink of `ops[m - 1]` keeps both links of `ops[k]`. */
  lemma AvoidStep(s: Links, ops: seq<int>, k: int, m: int)
    requires AllInColumns(s, ops) && 0 <= k < m - 1 && m <= |ops| && SpliceAvoids(s, ops, m - 1, ops[k])
    ensures UnlinkAll(s, ops[..m]).U[ops[k]] == UnlinkAll(s, ops[..m - 1]).U[ops[k]]
    ensures UnlinkAll(s, ops[..m]).D[ops[k]] == UnlinkAll(s, ops[..m - 1]).D[ops[k]]
  {
    UnlinkAllSnoc(s, ops, m - 1);
    assert ops[..m - 1 + 1] == ops[..m];
    VUnlinkFrame(UnlinkAll(s, ops[..m - 1]), ops[m - 1], ops[k]);
  }

  /** The both-ways condition holds along every prefix. */
  lemma {:induction false} SymAlongPrefix(s: Links, ops: seq<int>, k: int)
    requires AllInColumns(s, ops) && SymAlong(s, ops) && 0 <= k <= |ops|
    ensures SymAlong(s, ops[..k])
    decreases |ops|
  {
    if k < |ops| {
      assert ops[..|ops| - 1][..k] == ops[..k];
      SymAlongPrefix(s, ops[..|ops| - 1], k);
    } else {
      assert ops[..k] == ops;
    }
  }

  /** The node unlinked at step k was linked both ways at that moment. */
  lemma SymAlongAt(s: Links, ops: seq<int>, k: int)
    requires AllInColumns(s, ops) && SymAlong(s, ops) && 0 <= k < |ops|
    ensures VSym(UnlinkAll(s, ops[..k]), ops[k])
  {
    var pre := ops[..k + 1];
    SymAlongPrefix(s, ops, k + 1);
    assert pre[..|pre| - 1] == ops[..k] && pre[|pre| - 1] == ops[k];
  }

  // ---------------------------------------------------------------------
  // Rings
  // ---------------------------------------------------------------------

  /**
   * Walking `next` from the anchor h visits the nodes of s in order and
   * returns to h; walking `prev` visits them in reverse.
   */
  ghost predicate Ring(prev: seq<int>, next: seq<int>, h: int, s: seq<int>)
  {
    |prev| == |next| && 0 <= h < |next|
    && (forall k :: 0 <= k < |s| ==> 0 <= s[k] < |next|)
    && next[h] == (if s == [] then h else s[0])
    && prev[h] == (if s == [] then h else s[|s| - 1])
    && (forall k :: 0 <= k < |s| ==> next[s[k]] == if k + 1 < |s| then s[k + 1] else h)
    && (forall k :: 0 <= k < |s| ==> prev[s[k]] == if k == 0 then h else s[k - 1])
  }

  /** A ring only depends on the links of its own nodes. */
  lemma RingFrame(prev: seq<int>, next: seq<int>, prev': seq<int>, next': seq<int>, h: int, s: seq<int>)
    requires Ring(prev, next, h, s)
    requires |prev'| == |next'| == |next|
    requires prev'[h] == prev[h] && next'[h] == next[h]
    requires forall k :: 0 <= k < |s| ==> prev'[s[k]] == prev[s[k]] && next'[s[k]] == next[s[k]]
    ensures Ring(prev', next', h, s)
  {
  }

  /** The links of the member at position p of a ring. */
  lemma RingAt(prev: seq<int>, next: seq<int>, h: int, s: seq<int>, p: int)
    requires Ring(prev, next, h, s) && 0 <= p < |s|
    ensures next[s[p]] == (if p + 1 < |s| then s[p + 1] else h)
    ensures prev[s[p]] == (if p == 0 then h else s[p - 1])
  {
  }

  /** The neighbours of a ring member are members too, or the anchor. */
  lemma RingNeighbours(prev: seq<int>, next: seq<int>, h: int, s: seq<int>, y: int)
    requires Ring(prev, next, h, s) && y in s
    ensures 0 <= y < |next|
    ensures next[y] == h || next[y] in s
    ensures prev[y] == h || prev[y] in s
  {
    RingAt(prev, next, h, s, IndexOf(s, y));
  }

  /** Removing one member keeps the others increasing and above h. */
  lemma AboveRemove(h: int, s: seq<int>, p: int)
    requires Above(h, s) && 0 <= p < |s|
    ensures Above(h, s[..p] + s[p + 1..])
  {
    var t := s[..p] + s[p + 1..];
    forall k | 0 <= k < |t|
      ensures t[k] == if k < p then s[k] else s[k + 1]
    {
    }
  }

  /**
   * Taking the member at position p out of a ring, as `cover` does (first
   * the successor's back link, then the predecessor's forward link), leaves
   * a ring of the other members; the removed member was linked both ways.
   */
  lemma RingRemove(prev: seq<int>, next: seq<int>, h: int, s: seq<int>, p: int)
    requires Ring(prev, next, h, s) && Above(h, s) && 0 <= p < |s|
    ensures var x := s[p];
            0 <= prev[x] < |next| && 0 <= next[x] < |next| && prev[x] != x && next[x] != x
            && next[prev[x]] == x && prev[next[x]] == x
            && Ring(prev[next[x] := prev[x]], next[prev[x] := next[x]], h, s[..p] + s[p + 1..])
            && Above(h, s[..p] + s[p + 1..])
  {
    AboveDistinct(h, s);
    AboveRemove(h, s, p);
    RingAt(prev, next, h, s, p);
    RingRemoveLinks(prev, next, h, s, p);
  }

  lemma RingRemoveLinks(prev: seq<int>, next: seq<int>, h: int, s: seq<int>, p: int)
    requires Ring(prev, next, h, s) && Distinct(h, s) && 0 <= p < |s|
    ensures var x := s[p];
            0 <= prev[x] < |next| && 0 <= next[x] < |next|
            && next[prev[x]] == x && prev[next[x]] == x
            && Ring(prev[next[x] := prev[x]], next[prev[x] := next[x]], h, s[..p] + s[p + 1..])
  {
    var x := s[p];
    RingAt(prev, next, h, s, p);
    if p > 0 { RingAt(prev, next, h, s, p - 1); }
    if p + 1 < |s| { RingAt(prev, next, h, s, p + 1); }
    var t := s[..p] + s[p + 1..];
    var p1 := prev[next[x] := prev[x]];
    var n1 := next[prev[x] := next[x]];
    forall k | 0 <= k < |t|
      ensures 0 <= t[k] < |next|
      ensures n1[t[k]] == if k + 1 < |t| then t[k + 1] else h
      ensures p1[t[k]] == if k == 0 then h else t[k - 1]
    {
      RingRemoveAt(prev, next, h, s, p, k);
    }
    if p > 0 { assert t[0] == s[0]; }
    if p + 1 < |s| { assert t[|t| - 1] == s[|s| - 1]; }
    assert n1[h] == (if t == [] then h else t[0]);
    assert p1[h] == (if t == [] then h else t[|t| - 1]);
    assert Ring(p1, n1, h, t);
  }

  /** One surviving member of a ring after the member at p is taken out. */
  lemma RingRemoveAt(prev: seq<int>, next: seq<int>, h: int, s: seq<int>, p: int, k: int)
    requires Ring(prev, next, h, s) && Distinct(h, s) && 0 <= p < |s| && 0 <= k < |s| - 1
    ensures var x := s[p];
            var t := s[..p] + s[p + 1..];
            0 <= t[k] < |next| && 0 <= prev[x] < |next| && 0 <= next[x] < |next|
            && next[prev[x] := next[x]][t[k]] == (if k + 1 < |t| then t[k + 1] else h)
            && prev[next[x] := prev[x]][t[k]] == (if k == 0 then h else t[k - 1])
  {
    var t := s[..p] + s[p + 1..];
    RingAt(prev, next, h, s, p);
    if k < p {
      assert t[k] == s[k];
      RingAt(prev, next, h, s, k);
      if k + 1 < p { assert t[k + 1] == s[k + 1]; } else if k + 1 < |t| { assert t[k + 1] == s[k + 2]; }
      if k > 0 { assert t[k - 1] == s[k - 1]; }
    } else {
      assert t[k] == s[k + 1];
      RingAt(prev, next, h, s, k + 1);
      if k + 1 < |t| { assert t[k + 1] == s[k + 2]; }
      if k > p { assert t[k - 1] == s[k]; } else if k > 0 { assert t[k - 1] == s[k - 1]; }
    }
  }

  /**
   * Appending a node x at the tail of a ring, as `create_dancing_links`
   * does for a header (lines 88-91) and for a cell (lines 107-110).
   */
  lemma RingAppend(prev: seq<int>, next: seq<int>, h: int, s: seq<int>, x: int)
    requires Ring(prev, next, h, s) && Above(h, s)
    requires 0 <= x < |next| && h < x && (s == [] || s[|s| - 1] < x)
    ensures var p1 := prev[x := prev[h]];
            var n1 := next[x := h];
            var n2 := n1[p1[h] := x];
            Ring(p1[h := x], n2, h, s + [x]) && Above(h, s + [x])
  {
    var p1 := prev[x := prev[h]];
    var n1 := next[x := h];
    var n2 := n1[p1[h] := x];
    var t := s + [x];
    assert p1[h] == prev[h];
    assert Ring(p1[h := x], n2, h, t);
  }
}
