/** The facts erase relies on when it cuts a node out of a search tree: which
    node erase_left, erase_right and erase_not_child cut out, where it sits in
    the listing, and that the arena after the cut is again a search tree. */
module EraseFacts {
  import opened TreeShape
  import opened ShapeFacts
  import opened Rewiring

  /** Where erase_left's victim sits: `m`, the last node of some's left
      subtree, is the handle just before `some` in the listing, and it hangs
      below a parent in the tree (some itself, or as a right child). */
  lemma PredecessorSpot(s: Shape, a: Links, key: seq<int>, some: int, i: nat, m: int)
    requires WellFormed(s, a, key, RootOf(s)) && some in Ids(s) && InArena(a, some) && a.left[some] != -1
    requires i < |InOrder(s)| && InOrder(s)[i] == some
    requires m in Ids(s) && InArena(a, m) && a.right[m] == -1
    requires InOrder(Subtree(s, a.left[some])) != [] && m == Last(InOrder(Subtree(s, a.left[some])))
    requires m != a.left[some] ==> 0 <= a.parent[m] < |a.right| && a.right[a.parent[m]] == m
    ensures 0 < i && InOrder(s)[i - 1] == m && m != some
    ensures m == a.left[some] ==> a.parent[m] == some
    ensures m != a.left[some] ==> a.left[a.parent[m]] != m
    ensures a.parent[m] in Ids(s) && a.parent[m] != m && m != RootOf(s)
  {
    assert 0 < i && InOrder(s)[i - 1] == m by {
      SubtreeChildren(s, -1, a, some);
      PredecessorAt(s, some);
      SameIndex(InOrder(s), key, i, Position(s, some));
    }
    assert m != some;
    assert m == a.left[some] ==> a.parent[m] == some && a.parent[m] in Ids(s) by {
      if m == a.left[some] {
        SubtreeWithin(s, some);
        SubtreeLinked(s, -1, a, some);
        assert Linked(Subtree(s, some).left, some, a);
      }
    }
    assert m != a.left[some] ==> a.left[a.parent[m]] != m && a.parent[m] in Ids(s) && m != RootOf(s) by {
      if m != a.left[some] {
        assert m != RootOf(s);
        ParentLink(s, -1, a, m);
        SubtreeChildren(s, -1, a, a.parent[m]);
      }
    }
    assert a.parent[m] != m && m != RootOf(s) by {
      ParentLink(s, -1, a, m);
    }
  }

  /** erase_left's cut: cutting `m` out leaves a search tree listing
      everything but `m`, with m's old parent and `some` still in it. */
  lemma CutPredecessor(s: Shape, a: Links, key: seq<int>, some: int, i: nat, m: int)
    requires WellFormed(s, a, key, RootOf(s)) && some in Ids(s) && InArena(a, some) && a.left[some] != -1
    requires i < |InOrder(s)| && InOrder(s)[i] == some
    requires m in Ids(s) && InArena(a, m) && a.right[m] == -1
    requires 0 < i && InOrder(s)[i - 1] == m && m != some
    requires a.parent[m] in Ids(s) && a.parent[m] != m && m != RootOf(s)
    ensures UnlinkFits(a, m)
    ensures var s' := Unlink(s, m);
      WellFormed(s', UnlinkLinks(a, m), key, RootOf(s)) &&
      InOrder(s') == InOrder(s)[..i - 1] + InOrder(s)[i..] &&
      a.parent[m] in Ids(s') && some in Ids(s') && m !in Ids(s')
    ensures UnlinkLinks(a, m).parent[m] == a.parent[m] && UnlinkLinks(a, m).left[m] == a.left[m]
    ensures -1 <= a.left[m] < |key|
  {
    UnlinkKeeps(s, a, key, m);
    assert Position(s, m) == i - 1 by {
      SameIndex(InOrder(s), key, i - 1, Position(s, m));
    }
    assert UnlinkLinks(a, m).parent[m] == a.parent[m] && -1 <= a.left[m] < |key| by {
      SubtreeChildren(s, -1, a, m);
      LinkedBound(s, -1, a);
    }
  }

  /** Where erase_right's victim sits, for a node without a left child: `m`,
      the first node of some's right subtree, is the handle just after `some`. */
  lemma SuccessorSpot(s: Shape, a: Links, key: seq<int>, some: int, i: nat, m: int)
    requires WellFormed(s, a, key, RootOf(s)) && some in Ids(s) && InArena(a, some)
    requires a.left[some] == -1 && a.right[some] != -1
    requires i < |InOrder(s)| && InOrder(s)[i] == some
    requires m in Ids(s) && InArena(a, m) && a.left[m] == -1
    requires InOrder(Subtree(s, a.right[some])) != [] && m == InOrder(Subtree(s, a.right[some]))[0]
    requires m != a.right[some] ==> 0 <= a.parent[m] < |a.left| && a.left[a.parent[m]] == m
    ensures i + 1 < |InOrder(s)| && InOrder(s)[i + 1] == m && m != some
    ensures m == a.right[some] ==> a.parent[m] == some
    ensures a.parent[m] in Ids(s) && a.parent[m] != m && m != RootOf(s)
  {
    assert i + 1 < |InOrder(s)| && InOrder(s)[i + 1] == m by {
      SubtreeChildren(s, -1, a, some);
      SuccessorAt(s, some);
      SameIndex(InOrder(s), key, i, Position(s, some));
    }
    assert m != some;
    assert m == a.right[some] ==> a.parent[m] == some && a.parent[m] in Ids(s) by {
      if m == a.right[some] {
        SubtreeWithin(s, some);
        SubtreeLinked(s, -1, a, some);
        assert Linked(Subtree(s, some).right, some, a);
      }
    }
    assert m != a.right[some] ==> a.parent[m] in Ids(s) && m != RootOf(s) by {
      if m != a.right[some] {
        assert m != RootOf(s);
        ParentLink(s, -1, a, m);
      }
    }
    assert a.parent[m] != m && m != RootOf(s) by {
      ParentLink(s, -1, a, m);
    }
  }

  /** erase_right's cut: cutting `m` out leaves a search tree listing
      everything but `m`, with m's old parent and `some` still in it. */
  lemma CutSuccessor(s: Shape, a: Links, key: seq<int>, some: int, i: nat, m: int)
    requires WellFormed(s, a, key, RootOf(s)) && some in Ids(s) && InArena(a, some)
    requires i + 1 < |InOrder(s)| && InOrder(s)[i] == some
    requires m in Ids(s) && InArena(a, m) && a.left[m] == -1
    requires InOrder(s)[i + 1] == m && m != some
    requires a.parent[m] in Ids(s) && a.parent[m] != m && m != RootOf(s)
    ensures UnlinkFits(a, m)
    ensures var s' := Unlink(s, m);
      WellFormed(s', UnlinkLinks(a, m), key, RootOf(s)) &&
      InOrder(s') == InOrder(s)[..i + 1] + InOrder(s)[i + 2..] &&
      a.parent[m] in Ids(s') && some in Ids(s') && m !in Ids(s')
    ensures UnlinkLinks(a, m).parent[m] == a.parent[m] && UnlinkLinks(a, m).right[m] == a.right[m]
    ensures -1 <= a.right[m] < |key|
  {
    UnlinkKeeps(s, a, key, m);
    assert Position(s, m) == i + 1 by {
      SameIndex(InOrder(s), key, i + 1, Position(s, m));
    }
    assert UnlinkLinks(a, m).parent[m] == a.parent[m] && -1 <= a.right[m] < |key| by {
      SubtreeChildren(s, -1, a, m);
      LinkedBound(s, -1, a);
    }
  }

  /** erase_not_child's cut of a leaf below the root. */
  lemma CutLeaf(s: Shape, a: Links, key: seq<int>, m: int, i: nat)
    requires WellFormed(s, a, key, RootOf(s)) && m in Ids(s) && m != RootOf(s)
    requires InArena(a, m) && a.left[m] == -1 && a.right[m] == -1
    requires i < |InOrder(s)| && InOrder(s)[i] == m
    ensures UnlinkFits(a, m) && a.parent[m] != -1
    ensures a.left[a.parent[m]] == m || a.right[a.parent[m]] == m
    ensures a.left[a.parent[m]] != a.right[a.parent[m]]
    ensures var s' := Unlink(s, m);
      WellFormed(s', UnlinkLinks(a, m), key, RootOf(s)) &&
      InOrder(s') == InOrder(s)[..i] + InOrder(s)[i + 1..] && a.parent[m] in Ids(s')
    ensures UnlinkLinks(a, m).parent[m] == a.parent[m]
  {
    ParentLink(s, -1, a, m);
    SubtreeChildren(s, -1, a, a.parent[m]);
    UnlinkKeeps(s, a, key, m);
    SameIndex(InOrder(s), key, i, Position(s, m));
    SubtreeChildren(s, -1, a, m);
  }
}
