/**
 * A small arena on which `cover` can be followed by hand: the 2 x 2 matrix
 * of ones. It shows that a cell `cover` removes does not always keep the
 * `up` link it had before the call: a later unlink in the same row walk
 * may rewrite it while the cell is already out of its ring. What the cell
 * keeps are the links it had at the moment it was unlinked
 * (DlxModel.UnlinkedKeepLinks), and those are the ones `uncover` needs.
 */
module DlxExample {
  import opened Seqs
  import opened Links
  import opened DlxModel

  /** The matrix [[1, 1], [1, 1]]: cells 3, 4 form row 0 and cells 5, 6 row 1. */
  ghost function TwoByTwo(): Shape
  {
    Shape([[1, 1], [1, 1]], 2, [3, 5, 7], [[3, 4], [5, 6]])
  }

  /** The arena `create_dancing_links` builds for it. */
  ghost function TwoByTwoLinks(): Links
  {
    Links([2, 0, 1, 4, 3, 6, 5], [1, 2, 0, 4, 3, 6, 5],
          [0, 5, 6, 1, 2, 3, 4], [0, 3, 4, 5, 6, 1, 2],
          [-1, 1, 2, 1, 2, 1, 2], [-1, -1, -1, 0, 0, 1, 1], [0, 2, 2, 0, 0, 0, 0])
  }

  /** Both headers are active and every cell is in its column. */
  ghost function TwoByTwoAbs(): Abs
  {
    Abs([1, 2], [[3, 5], [4, 6]])
  }

  lemma TwoByTwoSane()
    ensures Sane(TwoByTwoLinks()) && Blocks(TwoByTwo(), 7)
  {
  }

  lemma TwoByTwoCells()
    ensures Sane(TwoByTwoLinks()) && Blocks(TwoByTwo(), 7)
    ensures forall x :: 3 <= x < 7 ==> CellOK(TwoByTwo(), TwoByTwoLinks(), x)
  {
    TwoByTwoSane();
    var sh, s := TwoByTwo(), TwoByTwoLinks();
    assert CellOK(sh, s, 3);
    assert CellOK(sh, s, 4);
    assert CellOK(sh, s, 5);
    assert CellOK(sh, s, 6);
  }

  lemma TwoByTwoCellOf()
    ensures Sane(TwoByTwoLinks()) && Blocks(TwoByTwo(), 7)
    ensures forall i, j :: Hit(TwoByTwo().M, i, j) ==> CellOf(TwoByTwo(), TwoByTwoLinks(), i, j)
  {
    TwoByTwoSane();
    var sh, s := TwoByTwo(), TwoByTwoLinks();
    assert CellOf(sh, s, 0, 0) && CellOf(sh, s, 0, 1);
    assert CellOf(sh, s, 1, 0) && CellOf(sh, s, 1, 1);
    forall i, j | Hit(sh.M, i, j)
      ensures CellOf(sh, s, i, j)
    {
      assert i in {0, 1} && j in {0, 1};
    }
  }

  lemma TwoByTwoLayout()
    ensures Layout(TwoByTwo(), TwoByTwoLinks())
  {
    TwoByTwoCells();
    TwoByTwoCellOf();
  }

  lemma TwoByTwoHeaders()
    ensures var s, a := TwoByTwoLinks(), TwoByTwoAbs();
            Ring(s.L, s.R, 0, a.hdr) && Above(0, a.hdr) && |a.cols| == 2
            && forall k :: 0 <= k < |a.hdr| ==> a.hdr[k] <= 2
  {
  }

  lemma TwoByTwoColumn1()
    ensures Sane(TwoByTwoLinks())
    ensures ColumnOK(TwoByTwo(), TwoByTwoLinks(), TwoByTwoAbs().cols[0], 0)
  {
    TwoByTwoSane();
  }

  lemma TwoByTwoColumn2()
    ensures Sane(TwoByTwoLinks())
    ensures ColumnOK(TwoByTwo(), TwoByTwoLinks(), TwoByTwoAbs().cols[1], 1)
  {
    TwoByTwoSane();
  }

  lemma TwoByTwoRows()
    ensures Sane(TwoByTwoLinks())
    ensures var sh, s, a := TwoByTwo(), TwoByTwoLinks(), TwoByTwoAbs();
            forall j, k :: 0 <= j < 2 && 0 <= k < |a.cols[j]| ==> IsCell(sh, s, a.cols[j][k]) && RowLive(sh, s, a, a.cols[j][k])
  {
    TwoByTwoSane();
    var sh, s, a := TwoByTwo(), TwoByTwoLinks(), TwoByTwoAbs();
    forall x | IsCell(sh, s, x)
      ensures RowLive(sh, s, a, x)
    {
      assert x in {3, 4, 5, 6};
    }
    assert a.cols[0] == [3, 5] && a.cols[1] == [4, 6];
  }

  lemma TwoByTwoActive()
    ensures Layout(TwoByTwo(), TwoByTwoLinks())
    ensures Active(TwoByTwo(), TwoByTwoLinks(), TwoByTwoAbs()) == true
  {
    var sh, s, a := TwoByTwo(), TwoByTwoLinks(), TwoByTwoAbs();
    TwoByTwoLayout();
    TwoByTwoHeaders();
    TwoByTwoColumn1();
    TwoByTwoColumn2();
    TwoByTwoRows();
    assert forall j :: 0 <= j < 2 ==> ColumnOK(sh, s, a.cols[j], j);
  }

  lemma TwoByTwoInv()
    ensures Inv(TwoByTwo(), TwoByTwoLinks(), TwoByTwoAbs())
  {
    TwoByTwoActive();
  }

  /** `cover(1)` unlinks the rest of rows 0 and 1: cell 4, then cell 6. */
  lemma TwoByTwoCoverOps()
    ensures var sh, s, a := TwoByTwo(), TwoByTwoLinks(), TwoByTwoAbs();
            Inv(sh, s, a) && 1 in a.hdr && CoverOps(sh, s, a, 1) == [4, 6]
  {
    var sh, s, a := TwoByTwo(), TwoByTwoLinks(), TwoByTwoAbs();
    TwoByTwoInv();
    assert a.cols[0] == [3, 5];
    assert Start(sh, s, 3) == 3 && End(sh, s, 3) == 5;
    assert Start(sh, s, 5) == 5 && End(sh, s, 5) == 7;
    assert RowRest(sh, s, 3) == [4];
    assert RowRest(sh, s, 5) == [6];
    assert [3, 5][..1] == [3] && [3][..0] == [];
  }

  /**
   * Two cells unlinked one after the other, the second just below the
   * first: the second leaves with the first one's `up` as its own.
   */
  lemma UnlinkBelow(H: Links, x: int, y: int)
    requires InColumn(H, x) && InColumn(H, y) && x != y && H.D[x] == y
    ensures AllInColumns(H, [x, y]) && UnlinkAll(H, [x, y]).U[y] == H.U[x]
  {
    UnlinkTwo(H, x, y);
    var t := VUnlink(H, x);
    assert t.U[y] == H.U[x];
    VUnlinkFrame(t, y, y);
  }

  /** Unlinking two cells is unlinking the first, then the second. */
  lemma UnlinkTwo(H: Links, x: int, y: int)
    requires InColumn(H, x) && InColumn(H, y)
    ensures AllInColumns(H, [x, y]) && InColumn(VUnlink(H, x), y)
    ensures UnlinkAll(H, [x, y]) == VUnlink(VUnlink(H, x), y)
  {
    assert AllInColumns(H, [x, y]);
    assert UnlinkAll(H, [x]) == VUnlink(H, x) by {
      assert [x][..0] == [];
    }
    assert [x, y][..1] == [x];
  }

  /** The two splices on the arena: unlinking 4 makes header 2 the `up` of 6. */
  lemma TwoByTwoUnlinks()
    ensures AllInColumns(HUnlink(TwoByTwoLinks(), 1), [4, 6])
    ensures UnlinkAll(HUnlink(TwoByTwoLinks(), 1), [4, 6]).U[6] == 2
  {
    var s := TwoByTwoLinks();
    TwoByTwoSane();
    var H := HUnlink(s, 1);
    assert H.U == s.U && H.D == s.D && H.C == s.C && |H.L| == 7;
    UnlinkBelow(H, 4, 6);
  }

  /**
   * Cell 6 is unlinked with `up` = 2, not the 4 it had before the call:
   * `cover` does not leave the removed cells' own links as they were on
   * entry.
   */
  lemma CoverRewritesRemovedUp()
    ensures var sh, s, a := TwoByTwo(), TwoByTwoLinks(), TwoByTwoAbs();
            Inv(sh, s, a) && 1 in a.hdr && 6 in CoverOps(sh, s, a, 1)
            && s.U[6] == 4 && CoverLinks(sh, s, a, 1).U[6] == 2
  {
    TwoByTwoCoverOps();
    TwoByTwoUnlinks();
  }
}
