/**
 * Sequence helpers for the Dancing Links model: the members of a ring that
 * survive after some nodes have been taken out, and distinctness.
 */
module Seqs {

  /** No value occurs twice in s. */
  ghost predicate Unique(s: seq<int>)
  {
    forall i, j :: 0 <= i < j < |s| ==> s[i] != s[j]
  }

  /** The members of cs that do not occur in xs, in their order in cs. */
  ghost function Without(cs: seq<int>, xs: seq<int>): (r: seq<int>)
    ensures |r| <= |cs|
  {
    if cs == [] then []
    else (if cs[0] in xs then [] else [cs[0]]) + Without(cs[1..], xs)
  }

  /** A member survives exactly when it is not among the removed nodes. */
  lemma {:induction false} WithoutMember(cs: seq<int>, xs: seq<int>, z: int)
    ensures z in Without(cs, xs) <==> z in cs && z !in xs
  {
    if cs != [] {
      WithoutMember(cs[1..], xs, z);
      assert cs == [cs[0]] + cs[1..];
    }
  }

  /** The members of s are strictly increasing and all above h. */
  ghost predicate Above(h: int, s: seq<int>)
  {
    (forall i, j :: 0 <= i < j < |s| ==> s[i] < s[j]) && (forall k :: 0 <= k < |s| ==> h < s[k])
  }

  /** The members of s are distinct and differ from h. */
  ghost predicate Distinct(h: int, s: seq<int>)
  {
    Unique(s) && (forall k :: 0 <= k < |s| ==> s[k] != h)
  }

  /** A node above every member may be appended. */
  lemma AboveSnoc(h: int, s: seq<int>, x: int)
    requires Above(h, s) && h < x && (s == [] || s[|s| - 1] < x)
    ensures Above(h, s + [x])
  {
    var t := s + [x];
    forall i, j | 0 <= i < j < |t|
      ensures t[i] < t[j]
    {
      if j == |s| && i < |s| - 1 {
        assert s[i] < s[|s| - 1];
      }
    }
  }

  lemma AboveDistinct(h: int, s: seq<int>)
    requires Above(h, s)
    ensures Distinct(h, s)
  {
  }

  /** Filtering keeps the relative order of the survivors. */
  lemma {:induction false} WithoutOrdered(cs: seq<int>, xs: seq<int>, h: int)
    requires Above(h, cs)
    ensures Above(h, Without(cs, xs))
  {
    if cs != [] {
      var w := Without(cs, xs);
      var tail := Without(cs[1..], xs);
      WithoutOrdered(cs[1..], xs, h);
      WithoutOrdered(cs[1..], xs, cs[0]);
      if cs[0] !in xs {
        assert w == [cs[0]] + tail;
        forall i, j | 0 <= i < j < |w|
          ensures w[i] < w[j]
        {
          assert w[j] == tail[j - 1];
          if i > 0 {
            assert w[i] == tail[i - 1];
          }
        }
        forall k | 0 <= k < |w|
          ensures h < w[k]
        {
          if k > 0 {
            assert w[k] == tail[k - 1];
          }
        }
      } else {
        assert w == tail;
      }
    }
  }

  /** Removing nodes none of which is a member changes nothing. */
  lemma {:induction false} WithoutNone(cs: seq<int>, xs: seq<int>)
    requires forall k :: 0 <= k < |cs| ==> cs[k] !in xs
    ensures Without(cs, xs) == cs
  {
    if cs != [] {
      WithoutNone(cs[1..], xs);
      assert cs == [cs[0]] + cs[1..];
    }
  }

  /** Removing a node that is not a member changes nothing. */
  lemma {:induction false} WithoutIrrelevant(cs: seq<int>, xs: seq<int>, y: int)
    requires y !in cs
    ensures Without(cs, xs + [y]) == Without(cs, xs)
  {
    if cs != [] {
      assert cs[0] in xs + [y] <==> cs[0] in xs;
      WithoutIrrelevant(cs[1..], xs, y);
    }
  }

  /**
   * Removing one more node y, found at position p of the survivors, takes
   * exactly that position out.
   */
  lemma {:induction false} WithoutStep(cs: seq<int>, xs: seq<int>, y: int, p: int)
    requires Unique(cs)
    requires 0 <= p < |Without(cs, xs)| && Without(cs, xs)[p] == y
    ensures Without(cs, xs + [y]) == Without(cs, xs)[..p] + Without(cs, xs)[p + 1..]
    decreases |cs|, 1
  {
    assert Unique(cs[1..]);
    if cs[0] in xs {
      assert cs[0] in xs + [y];
      WithoutStep(cs[1..], xs, y, p);
    } else if cs[0] == y {
      WithoutStepHead(cs, xs, y, p);
    } else {
      WithoutStepTail(cs, xs, y, p);
    }
  }

  lemma WithoutStepHead(cs: seq<int>, xs: seq<int>, y: int, p: int)
    requires Unique(cs) && cs != [] && cs[0] == y && y !in xs
    requires 0 <= p < |Without(cs, xs)| && Without(cs, xs)[p] == y
    ensures Without(cs, xs + [y]) == Without(cs, xs)[..p] + Without(cs, xs)[p + 1..]
  {
    var w := Without(cs, xs);
    var tail := Without(cs[1..], xs);
    assert w == [y] + tail;
    assert y !in cs[1..];
    WithoutMember(cs[1..], xs, y);
    assert p == 0;
    WithoutIrrelevant(cs[1..], xs, y);
    assert cs[0] in xs + [y];
  }

  lemma {:induction false} WithoutStepTail(cs: seq<int>, xs: seq<int>, y: int, p: int)
    requires Unique(cs) && cs != [] && cs[0] != y && cs[0] !in xs
    requires 0 <= p < |Without(cs, xs)| && Without(cs, xs)[p] == y
    requires Unique(cs[1..])
    ensures Without(cs, xs + [y]) == Without(cs, xs)[..p] + Without(cs, xs)[p + 1..]
    decreases |cs|, 0
  {
    var w := Without(cs, xs);
    var tail := Without(cs[1..], xs);
    assert w == [cs[0]] + tail;
    assert cs[0] !in xs + [y];
    assert Without(cs, xs + [y]) == [cs[0]] + Without(cs[1..], xs + [y]);
    assert p > 0 && tail[p - 1] == y;
    WithoutStep(cs[1..], xs, y, p - 1);
    SpliceCons(cs[0], tail, p - 1);
  }

  lemma SpliceCons(a: int, t: seq<int>, p: int)
    requires 0 <= p < |t|
    ensures ([a] + t)[..p + 1] + ([a] + t)[p + 2..] == [a] + (t[..p] + t[p + 1..])
  {
    assert ([a] + t)[..p + 1] == [a] + t[..p];
    assert ([a] + t)[p + 2..] == t[p + 1..];
  }

  /** Survivors of a sequence with distinct members are distinct. */
  lemma {:induction false} WithoutUnique(cs: seq<int>, xs: seq<int>)
    requires Unique(cs)
    ensures Unique(Without(cs, xs))
  {
    if cs != [] {
      var w := Without(cs, xs);
      var tail := Without(cs[1..], xs);
      assert Unique(cs[1..]);
      WithoutUnique(cs[1..], xs);
      WithoutMember(cs[1..], xs, cs[0]);
      if cs[0] !in xs {
        assert w == [cs[0]] + tail;
        forall i, j | 0 <= i < j < |w|
          ensures w[i] != w[j]
        {
          assert w[j] == tail[j - 1];
          if i > 0 {
            assert w[i] == tail[i - 1];
          }
        }
      }
    }
  }

  /** Filtering twice filters by both sequences of removed nodes. */
  lemma WithoutTwice(cs: seq<int>, xs: seq<int>, ys: seq<int>, z: int)
    ensures z in Without(Without(cs, xs), ys) <==> z in cs && z !in xs && z !in ys
  {
    WithoutMember(Without(cs, xs), ys, z);
    WithoutMember(cs, xs, z);
  }

  /** If a member is removed, the survivors are strictly fewer. */
  lemma {:induction false} WithoutShorter(cs: seq<int>, xs: seq<int>, z: int)
    requires z in cs && z in xs
    ensures |Without(cs, xs)| < |cs|
  {
    if cs[0] != z {
      WithoutShorter(cs[1..], xs, z);
    }
  }

  /** The position of a value in a sequence. */
  ghost function IndexOf(s: seq<int>, x: int): (i: int)
    requires x in s
    ensures 0 <= i < |s| && s[i] == x
  {
    if s[0] == x then 0 else 1 + IndexOf(s[1..], x)
  }

  /** Joining two sequences with distinct members and no common member. */
  lemma UniqueConcat(a: seq<int>, b: seq<int>)
    requires Unique(a) && Unique(b)
    requires forall k :: 0 <= k < |b| ==> b[k] !in a
    ensures Unique(a + b)
  {
    var ab := a + b;
    forall i, j | 0 <= i < j < |ab|
      ensures ab[i] != ab[j]
    {
      if j >= |a| && i < |a| {
        assert ab[j] == b[j - |a|];
        assert ab[i] in a;
      } else if i >= |a| {
        assert ab[i] == b[i - |a|] && ab[j] == b[j - |a|];
      }
    }
  }

  /** Taking one more element of a sequence. */
  lemma TakeOneMore(s: seq<int>, k: int)
    requires 0 <= k < |s|
    ensures s[..k + 1] == s[..k] + [s[k]] && s[..k + 1][..k] == s[..k]
  {
  }

  /** Dropping one element fewer of a sequence. */
  lemma DropOneLess(s: seq<int>, k: int)
    requires 0 <= k < |s|
    ensures s[k..] == [s[k]] + s[k + 1..]
  {
  }

  /** In a sequence with distinct members, no member occurs before its own position. */
  lemma UniqueFresh(s: seq<int>, k: int)
    requires Unique(s) && 0 <= k < |s|
    ensures s[k] !in s[..k]
  {
    var x, p := s[k], s[..k];
    forall i | 0 <= i < |p|
      ensures p[i] != x
    {
      assert p[i] == s[i];
    }
  }
}
