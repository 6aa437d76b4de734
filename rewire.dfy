/** The pointer rewirings of tree.hpp, each shown to realise a rewritten shape:
    rotate_left and rotate_right realise RotLeft/RotRight of the pivot's
    subtree.  Each lemma takes the links before (`a`) and after (`b`) the
    rewiring, described the way the engine's assignments leave them. */
module Rewiring {
  import opened TreeShape
  import opened ShapeFacts

  /** Everything a rewiring of the subtree at `x` into `u` preserves or
      establishes, given that the new arena realises `u` in x's place. */
  lemma PlugRealised(s: Shape, a: Links, x: int, u: Shape, b: Links, ex: set<int>)
    requires Distinct(s) && Linked(s, -1, a) && x in Ids(s) && Distinct(u)
    requires Ids(u) !! Ids(s) - Ids(Subtree(s, x))
    requires x < |a.parent| && Linked(u, a.parent[x], b) && Agree(a, b, ex)
    requires (Ids(s) - Ids(Subtree(s, x))) * ex <= {a.parent[x]}
    requires x != RootOf(s) ==> Repointed(a, b, a.parent[x], x, RootOf(u))
    ensures Distinct(Plug(s, x, u)) && Linked(Plug(s, x, u), -1, b)
    ensures InOrder(s) == Before(s, x) + InOrder(Subtree(s, x)) + After(s, x)
    ensures InOrder(Plug(s, x, u)) == Before(s, x) + InOrder(u) + After(s, x)
    ensures Ids(Plug(s, x, u)) == Ids(s) - Ids(Subtree(s, x)) + Ids(u)
    ensures RootOf(Plug(s, x, u)) == if x == RootOf(s) then RootOf(u) else RootOf(s)
  {
    PlugFits(s, a, x, u, b, ex);
    SegmentInOrder(s, x);
    PlugInOrder(s, x, u);
  }

  /** The part of PlugRealised about links and handles only. */
  lemma PlugFits(s: Shape, a: Links, x: int, u: Shape, b: Links, ex: set<int>)
    requires Distinct(s) && Linked(s, -1, a) && x in Ids(s) && Distinct(u)
    requires Ids(u) !! Ids(s) - Ids(Subtree(s, x))
    requires x < |a.parent| && Linked(u, a.parent[x], b) && Agree(a, b, ex)
    requires (Ids(s) - Ids(Subtree(s, x))) * ex <= {a.parent[x]}
    requires x != RootOf(s) ==> Repointed(a, b, a.parent[x], x, RootOf(u))
    ensures Distinct(Plug(s, x, u)) && Linked(Plug(s, x, u), -1, b)
    ensures Ids(Plug(s, x, u)) == Ids(s) - Ids(Subtree(s, x)) + Ids(u)
    ensures RootOf(Plug(s, x, u)) == if x == RootOf(s) then RootOf(u) else RootOf(s)
  {
    PlugLinked(s, -1, a, x, u, b, ex, a.parent[x]);
    PlugDistinct(s, x, u);
    PlugIds(s, x, u);
  }

  /** A rewiring that rearranges the subtree at `x` into `u` with the same
      handles in the same in-order sequence keeps the whole tree's handles and
      listing. */
  lemma PlugRearranged(s: Shape, a: Links, x: int, u: Shape, b: Links, ex: set<int>)
    requires Distinct(s) && Linked(s, -1, a) && x in Ids(s) && Distinct(u)
    requires Ids(u) == Ids(Subtree(s, x)) && InOrder(u) == InOrder(Subtree(s, x))
    requires Ids(Subtree(s, x)) <= Ids(s)
    requires x < |a.parent| && Linked(u, a.parent[x], b) && Agree(a, b, ex)
    requires (Ids(s) - Ids(Subtree(s, x))) * ex <= {a.parent[x]}
    requires x != RootOf(s) ==> Repointed(a, b, a.parent[x], x, RootOf(u))
    ensures var s' := Plug(s, x, u);
      Distinct(s') && Linked(s', -1, b) && InOrder(s') == InOrder(s) && Ids(s') == Ids(s) &&
      RootOf(s') == if x == RootOf(s) then RootOf(u) else RootOf(s)
  {
    assert Distinct(Plug(s, x, u)) && Linked(Plug(s, x, u), -1, b) && InOrder(Plug(s, x, u)) == InOrder(s) by {
      PlugRealised(s, a, x, u, b, ex);
    }
    PlugFits(s, a, x, u, b, ex);
    var t := Subtree(s, x);
    assert Ids(s) - Ids(t) + Ids(t) == Ids(s);
  }

  /** rotate_left(x) (tree.hpp:339-363): y = x.right takes x's place below x's
      parent p, x becomes y's left child and y's old left child `bb` moves to
      x's right. */
  lemma RotateLeftRealisedBy(s: Shape, a: Links, b: Links, x: int)
    requires Distinct(s) && Linked(s, -1, a) && x in Ids(s)
    requires x < |a.parent| && x < |a.left| && x < |a.right|
    requires 0 <= a.right[x] < |a.parent| && a.right[x] < |a.left| && a.right[x] < |a.right|
    requires var y, p := a.right[x], a.parent[x]; var bb := a.left[y];
      Agree(a, b, {p, x, y, bb}) &&
      b.parent[y] == p && b.left[y] == x && b.right[y] == a.right[y] &&
      b.parent[x] == y && b.left[x] == a.left[x] && b.right[x] == bb &&
      (bb != -1 ==>
         (0 <= bb < |a.parent| && bb < |a.left| && bb < |a.right| &&
          b.parent[bb] == x && b.left[bb] == a.left[bb] && b.right[bb] == a.right[bb])) &&
      (p != -1 ==> Repointed(a, b, p, x, y))
    ensures Subtree(s, x).Node? && Subtree(s, x).right.Node?
    ensures var s' := RotateLeftAt(s, x);
      Distinct(s') && Linked(s', -1, b) && InOrder(s') == InOrder(s) && Ids(s') == Ids(s) &&
      RootOf(s') == if a.parent[x] == -1 then a.right[x] else RootOf(s)
  {
    var y, p, bb := a.right[x], a.parent[x], a.left[a.right[x]];
    var t := Subtree(s, x);
    var ex := {p, x, y, bb};
    assert t.Node? && t.right.Node? && Distinct(t) && Linked(RotLeft(t), p, b) &&
      (Ids(s) - Ids(t)) * ex <= {p} && Ids(t) <= Ids(s) &&
      t.id == x && RootOf(RotLeft(t)) == y && (p == -1 <==> x == RootOf(s)) by {
      SubtreeWithin(s, x);
      SubtreeLinked(s, -1, a, x);
      assert Linked(t, p, a);
      var Node(_, aa, r) := t;
      assert r.Node? && r.id == y && Linked(r, x, a);
      assert RootOf(r.left) == bb && RootOf(r.right) == a.right[y] && RootOf(aa) == a.left[x];
      if bb != -1 {
        assert Linked(r.left, y, a);
      }
      assert Ids(t) * ex <= {x, y, RootOf(r.left)};
      RotLeftLinked(t, p, a, b, ex);
    }
    assert Distinct(RotLeft(t)) && InOrder(RotLeft(t)) == InOrder(t) && Ids(RotLeft(t)) == Ids(t) by {
      RotLeftFacts(t);
      RotLeftDistinct(t);
    }
    PlugRearranged(s, a, x, RotLeft(t), b, ex);
  }

  /** rotate_right(x) (tree.hpp:365-388): l = x.left takes x's place below x's
      parent p, x becomes l's right child and l's old right child `bb` moves to
      x's left. */
  lemma RotateRightRealisedBy(s: Shape, a: Links, b: Links, x: int)
    requires Distinct(s) && Linked(s, -1, a) && x in Ids(s)
    requires x < |a.parent| && x < |a.left| && x < |a.right|
    requires 0 <= a.left[x] < |a.parent| && a.left[x] < |a.left| && a.left[x] < |a.right|
    requires var l, p := a.left[x], a.parent[x]; var bb := a.right[l];
      Agree(a, b, {p, x, l, bb}) &&
      b.parent[l] == p && b.right[l] == x && b.left[l] == a.left[l] &&
      b.parent[x] == l && b.right[x] == a.right[x] && b.left[x] == bb &&
      (bb != -1 ==>
         (0 <= bb < |a.parent| && bb < |a.left| && bb < |a.right| &&
          b.parent[bb] == x && b.left[bb] == a.left[bb] && b.right[bb] == a.right[bb])) &&
      (p != -1 ==> Repointed(a, b, p, x, l))
    ensures Subtree(s, x).Node? && Subtree(s, x).left.Node?
    ensures var s' := RotateRightAt(s, x);
      Distinct(s') && Linked(s', -1, b) && InOrder(s') == InOrder(s) && Ids(s') == Ids(s) &&
      RootOf(s') == if a.parent[x] == -1 then a.left[x] else RootOf(s)
  {
    var l, p, bb := a.left[x], a.parent[x], a.right[a.left[x]];
    var t := Subtree(s, x);
    var ex := {p, x, l, bb};
    assert t.Node? && t.left.Node? && Distinct(t) && Linked(RotRight(t), p, b) &&
      (Ids(s) - Ids(t)) * ex <= {p} && Ids(t) <= Ids(s) &&
      t.id == x && RootOf(RotRight(t)) == l && (p == -1 <==> x == RootOf(s)) by {
      SubtreeWithin(s, x);
      SubtreeLinked(s, -1, a, x);
      assert Linked(t, p, a);
      var Node(_, lt, c) := t;
      assert lt.Node? && lt.id == l && Linked(lt, x, a);
      assert RootOf(lt.right) == bb && RootOf(lt.left) == a.left[l] && RootOf(c) == a.right[x];
      if bb != -1 {
        assert Linked(lt.right, l, a);
      }
      assert Ids(t) * ex <= {x, l, RootOf(lt.right)};
      RotRightLinked(t, p, a, b, ex);
    }
    assert Distinct(RotRight(t)) && InOrder(RotRight(t)) == InOrder(t) && Ids(RotRight(t)) == Ids(t) by {
      RotRightFacts(t);
      RotRightDistinct(t);
    }
    PlugRearranged(s, a, x, RotRight(t), b, ex);
  }

  /** Slot `n` exists in the arena. */
  ghost predicate InArena(a: Links, n: int)
  {
    0 <= n < |a.parent| && n < |a.left| && n < |a.right|
  }

  /** The slots rotate_left(x) touches all exist. */
  ghost predicate RotLeftFits(a: Links, x: int)
  {
    InArena(a, x) && InArena(a, a.right[x]) &&
    (a.parent[x] == -1 || InArena(a, a.parent[x])) &&
    (a.left[a.right[x]] == -1 || InArena(a, a.left[a.right[x]]))
  }

  ghost predicate RotRightFits(a: Links, x: int)
  {
    InArena(a, x) && InArena(a, a.left[x]) &&
    (a.parent[x] == -1 || InArena(a, a.parent[x])) &&
    (a.right[a.left[x]] == -1 || InArena(a, a.right[a.left[x]]))
  }

  /** The links after rotate_left(x) (tree.hpp:339-363): y = x.right hangs
      below x's parent p in x's place, x below y, and y's old left child bb
      below x. */
  ghost function RotLeftLinks(a: Links, x: int): Links
    requires RotLeftFits(a, x)
  {
    var y, p := a.right[x], a.parent[x];
    var bb := a.left[y];
    var pa := a.parent[y := p][x := y];
    Links(if bb == -1 then pa else pa[bb := x],
          (if p != -1 && a.right[p] != x then a.left[p := y] else a.left)[y := x],
          (if p != -1 && a.right[p] == x then a.right[p := y] else a.right)[x := bb])
  }

  /** The links after rotate_right(x) (tree.hpp:365-388), the mirror image. */
  ghost function RotRightLinks(a: Links, x: int): Links
    requires RotRightFits(a, x)
  {
    var l, p := a.left[x], a.parent[x];
    var bb := a.right[l];
    var pa := a.parent[l := p][x := l];
    Links(if bb == -1 then pa else pa[bb := x],
          (if p != -1 && a.left[p] == x then a.left[p := l] else a.left)[x := bb],
          (if p != -1 && a.left[p] != x then a.right[p := l] else a.right)[l := x])
  }

  /** rotate_left realises the rotated shape and keeps the in-order sequence. */
  lemma RotateLeftRealised(s: Shape, a: Links, x: int)
    requires Distinct(s) && Linked(s, -1, a) && x in Ids(s)
    requires InArena(a, x) && a.right[x] != -1
    ensures RotLeftFits(a, x) && a.parent[x] != a.right[x]
    ensures Subtree(s, x).Node? && Subtree(s, x).right.Node?
    ensures var s' := RotateLeftAt(s, x);
      Distinct(s') && Linked(s', -1, RotLeftLinks(a, x)) && InOrder(s') == InOrder(s) &&
      Ids(s') == Ids(s) && RootOf(s') == if a.parent[x] == -1 then a.right[x] else RootOf(s)
    ensures var y, p := a.right[x], a.parent[x]; var bb := a.left[y]; var b := RotLeftLinks(a, x);
      Agree(a, b, {p, x, y, bb}) &&
      b.parent[y] == p && b.left[y] == x && b.right[y] == a.right[y] &&
      b.parent[x] == y && b.left[x] == a.left[x] && b.right[x] == bb
  {
    var y, p := a.right[x], a.parent[x];
    SubtreeChildren(s, -1, a, x);
    SubtreeLinked(s, -1, a, x);
    SubtreeWithin(s, x);
    LinkedBound(s, -1, a);
    SubtreeChildren(s, -1, a, y);
    var bb := a.left[y];
    if p != -1 {
      ParentLink(s, -1, a, x);
      SubtreeChildren(s, -1, a, p);
    }
    var t := Subtree(s, x);
    assert Ids(t) == Ids(t.left) + {x} + Ids(t.right);
    assert Ids(t.right) == Ids(t.right.left) + {y} + Ids(t.right.right);
    assert Linked(t, p, a) && Linked(t.right, x, a);
    assert x != y && p != x && p != y && bb != x && bb != y && (bb != -1 ==> bb != p);
    RotLeftLinksFacts(a, x);
    RotateLeftRealisedBy(s, a, RotLeftLinks(a, x), x);
  }

  /** rotate_right realises the rotated shape and keeps the in-order sequence. */
  lemma RotateRightRealised(s: Shape, a: Links, x: int)
    requires Distinct(s) && Linked(s, -1, a) && x in Ids(s)
    requires InArena(a, x) && a.left[x] != -1
    ensures RotRightFits(a, x) && a.parent[x] != a.left[x]
    ensures Subtree(s, x).Node? && Subtree(s, x).left.Node?
    ensures var s' := RotateRightAt(s, x);
      Distinct(s') && Linked(s', -1, RotRightLinks(a, x)) && InOrder(s') == InOrder(s) &&
      Ids(s') == Ids(s) && RootOf(s') == if a.parent[x] == -1 then a.left[x] else RootOf(s)
    ensures var l, p := a.left[x], a.parent[x]; var bb := a.right[l]; var b := RotRightLinks(a, x);
      Agree(a, b, {p, x, l, bb}) &&
      b.parent[l] == p && b.right[l] == x && b.left[l] == a.left[l] &&
      b.parent[x] == l && b.right[x] == a.right[x] && b.left[x] == bb
  {
    var l, p := a.left[x], a.parent[x];
    SubtreeChildren(s, -1, a, x);
    SubtreeLinked(s, -1, a, x);
    SubtreeWithin(s, x);
    LinkedBound(s, -1, a);
    SubtreeChildren(s, -1, a, l);
    var bb := a.right[l];
    if p != -1 {
      ParentLink(s, -1, a, x);
      SubtreeChildren(s, -1, a, p);
    }
    var t := Subtree(s, x);
    assert Ids(t) == Ids(t.left) + {x} + Ids(t.right);
    assert Ids(t.left) == Ids(t.left.left) + {l} + Ids(t.left.right);
    assert Linked(t, p, a) && Linked(t.left, x, a);
    assert x != l && p != x && p != l && bb != x && bb != l && (bb != -1 ==> bb != p);
    RotRightLinksFacts(a, x);
    RotateRightRealisedBy(s, a, RotRightLinks(a, x), x);
  }

  /** What rotate_left's assignments leave in the touched slots, and that they
      leave every other slot alone. */
  lemma RotLeftLinksFacts(a: Links, x: int)
    requires RotLeftFits(a, x)
    requires var y, p := a.right[x], a.parent[x]; var bb := a.left[y];
      x != y && p != x && p != y && bb != x && bb != y && (bb != -1 ==> bb != p) &&
      (p != -1 ==> (a.left[p] == x || a.right[p] == x) && a.left[p] != a.right[p])
    ensures var y, p := a.right[x], a.parent[x]; var bb := a.left[y]; var b := RotLeftLinks(a, x);
      Agree(a, b, {p, x, y, bb}) &&
      b.parent[y] == p && b.left[y] == x && b.right[y] == a.right[y] &&
      b.parent[x] == y && b.left[x] == a.left[x] && b.right[x] == bb &&
      (bb != -1 ==>
         (0 <= bb < |a.parent| && bb < |a.left| && bb < |a.right| &&
          b.parent[bb] == x && b.left[bb] == a.left[bb] && b.right[bb] == a.right[bb])) &&
      (p != -1 ==> Repointed(a, b, p, x, y))
  {
  }

  lemma RotRightLinksFacts(a: Links, x: int)
    requires RotRightFits(a, x)
    requires var l, p := a.left[x], a.parent[x]; var bb := a.right[l];
      x != l && p != x && p != l && bb != x && bb != l && (bb != -1 ==> bb != p) &&
      (p != -1 ==> (a.left[p] == x || a.right[p] == x) && a.left[p] != a.right[p])
    ensures var l, p := a.left[x], a.parent[x]; var bb := a.right[l]; var b := RotRightLinks(a, x);
      Agree(a, b, {p, x, l, bb}) &&
      b.parent[l] == p && b.right[l] == x && b.left[l] == a.left[l] &&
      b.parent[x] == l && b.right[x] == a.right[x] && b.left[x] == bb &&
      (bb != -1 ==>
         (0 <= bb < |a.parent| && bb < |a.left| && bb < |a.right| &&
          b.parent[bb] == x && b.left[bb] == a.left[bb] && b.right[bb] == a.right[bb])) &&
      (p != -1 ==> Repointed(a, b, p, x, l))
  {
  }

  /** rotate_left keeps a well-formed search tree well formed, with the same
      nodes in the same in-order sequence. */
  lemma RotateLeftKeeps(s: Shape, a: Links, key: seq<int>, x: int)
    requires WellFormed(s, a, key, RootOf(s)) && x in Ids(s)
    requires InArena(a, x) && a.right[x] != -1
    ensures RotLeftFits(a, x) && a.parent[x] != a.right[x]
    ensures WellFormed(RotateLeftAt(s, x), RotLeftLinks(a, x), key,
                       if a.parent[x] == -1 then a.right[x] else RootOf(s))
    ensures InOrder(RotateLeftAt(s, x)) == InOrder(s) && Ids(RotateLeftAt(s, x)) == Ids(s)
  {
    RotateLeftRealised(s, a, x);
    assert KeysOf(InOrder(RotateLeftAt(s, x)), key) == KeysOf(InOrder(s), key);
  }

  /** rotate_right keeps a well-formed search tree well formed, with the same
      nodes in the same in-order sequence. */
  lemma RotateRightKeeps(s: Shape, a: Links, key: seq<int>, x: int)
    requires WellFormed(s, a, key, RootOf(s)) && x in Ids(s)
    requires InArena(a, x) && a.left[x] != -1
    ensures RotRightFits(a, x) && a.parent[x] != a.left[x]
    ensures WellFormed(RotateRightAt(s, x), RotRightLinks(a, x), key,
                       if a.parent[x] == -1 then a.left[x] else RootOf(s))
    ensures InOrder(RotateRightAt(s, x)) == InOrder(s) && Ids(RotateRightAt(s, x)) == Ids(s)
  {
    RotateRightRealised(s, a, x);
    assert KeysOf(InOrder(RotateRightAt(s, x)), key) == KeysOf(InOrder(s), key);
  }

  /** Nodes outside the rotated subtree keep their depth. */
  lemma RotatedDepth(s: Shape, x: int, n: int)
    requires Distinct(s) && x in Ids(s) && n in Ids(s) && n !in Ids(Subtree(s, x))
    ensures Depth(RotateLeftAt(s, x), n) == Depth(s, n)
    ensures Depth(RotateRightAt(s, x), n) == Depth(s, n)
  {
    SubtreeWithin(s, x);
    var t := Subtree(s, x);
    if t.right.Node? {
      RotLeftFacts(t);
    }
    if t.left.Node? {
      RotRightFacts(t);
    }
    PlugDepth(s, x, RotLeft(t), n);
    PlugDepth(s, x, RotRight(t), n);
  }

  /** One step of insert's descent (tree.hpp:159-183): a key that belongs in
      the subtree at `t` and is below t's key belongs in t's left subtree,
      which is smaller. */
  lemma DescendLeft(s: Shape, a: Links, key: seq<int>, t: int, k: int)
    requires WellFormed(s, a, key, RootOf(s)) && t in Ids(s) && Between(s, t, key, k)
    requires InArena(a, t) && k < KeyOf(key, t) && a.left[t] != -1
    ensures a.left[t] in Ids(s) && Between(s, a.left[t], key, k)
    ensures Size(Subtree(s, a.left[t])) < Size(Subtree(s, t))
  {
    SubtreeChildren(s, -1, a, t);
    SubtreeKeys(s, t, key);
    var u := Subtree(s, t);
    var c := a.left[t];
    SubtreeWithin(s, c);
    LeftChildPosition(s, t);
    KeysOfConcat([t] + InOrder(u.right), After(s, t), key);
    KeysOfConcat([t], InOrder(u.right), key);
    assert KeysOf([t], key) == [KeyOf(key, t)];
  }

  /** The mirror step: a key above t's key belongs in t's right subtree. */
  lemma DescendRight(s: Shape, a: Links, key: seq<int>, t: int, k: int)
    requires WellFormed(s, a, key, RootOf(s)) && t in Ids(s) && Between(s, t, key, k)
    requires InArena(a, t) && KeyOf(key, t) < k && a.right[t] != -1
    ensures a.right[t] in Ids(s) && Between(s, a.right[t], key, k)
    ensures Size(Subtree(s, a.right[t])) < Size(Subtree(s, t))
  {
    SubtreeChildren(s, -1, a, t);
    SubtreeKeys(s, t, key);
    var u := Subtree(s, t);
    var c := a.right[t];
    SubtreeWithin(s, c);
    RightChildPosition(s, t);
    KeysOfConcat(Before(s, t) + InOrder(u.left), [t], key);
    KeysOfConcat(Before(s, t), InOrder(u.left), key);
    assert KeysOf([t], key) == [KeyOf(key, t)];
  }

  /** The key of a node of the tree is one of its keys. */
  lemma KeyIn(s: Shape, key: seq<int>, t: int)
    requires t in Ids(s)
    ensures KeyOf(key, t) in KeysOf(InOrder(s), key)
  {
    InOrderIds(s);
    var j :| 0 <= j < |InOrder(s)| && InOrder(s)[j] == t;
    assert KeysOf(InOrder(s), key)[j] == KeyOf(key, t);
  }

  /** After insert's left attachment (tree.hpp:169-170) the arena realises
      t's subtree with the new leaf, and differs from the old one only at t
      and at the new node. */
  lemma GrowLeftLinked(s: Shape, a: Links, t: int, n: nat)
    requires Distinct(s) && Linked(s, -1, a) && t in Ids(s) && InArena(a, t) && a.left[t] == -1
    requires InArena(a, n) && n !in Ids(s) && a.left[n] == -1 && a.right[n] == -1
    ensures Subtree(s, t).Node? && Subtree(s, t).id == t && Subtree(s, t).left == Nil
    ensures var u, b := Node(t, Node(n, Nil, Nil), Subtree(s, t).right),
                        Links(a.parent[n := t], a.left[t := n], a.right);
      Distinct(u) && Ids(u) !! Ids(s) - Ids(Subtree(s, t)) &&
      Linked(u, a.parent[t], b) && Agree(a, b, {t, n}) &&
      (Ids(s) - Ids(Subtree(s, t))) * {t, n} <= {a.parent[t]} &&
      (t != RootOf(s) ==> Repointed(a, b, a.parent[t], t, t))
  {
    var b := Links(a.parent[n := t], a.left[t := n], a.right);
    var T := Subtree(s, t);
    var p := a.parent[t];
    assert T.Node? && T.id == t && T.left == Nil && Linked(T, p, a) && Distinct(T) && Ids(T) <= Ids(s) by {
      SubtreeWithin(s, t);
      SubtreeLinked(s, -1, a, t);
    }
    assert Ids(T) == {t} + Ids(T.right);
    assert Linked(T.right, t, b) by {
      LinkedBound(s, -1, a);
      LinkedFrame(T.right, t, a, b, {t, n});
    }
    if t != RootOf(s) {
      assert p != t && p != n && InArena(a, p) && (a.left[p] == t || a.right[p] == t) by {
        ParentLink(s, -1, a, t);
        LinkedBound(s, -1, a);
      }
    }
  }

  /** The mirror image, for insert's right attachment (tree.hpp:178-179). */
  lemma GrowRightLinked(s: Shape, a: Links, t: int, n: nat)
    requires Distinct(s) && Linked(s, -1, a) && t in Ids(s) && InArena(a, t) && a.right[t] == -1
    requires InArena(a, n) && n !in Ids(s) && a.left[n] == -1 && a.right[n] == -1
    ensures Subtree(s, t).Node? && Subtree(s, t).id == t && Subtree(s, t).right == Nil
    ensures var u, b := Node(t, Subtree(s, t).left, Node(n, Nil, Nil)),
                        Links(a.parent[n := t], a.left, a.right[t := n]);
      Distinct(u) && Ids(u) !! Ids(s) - Ids(Subtree(s, t)) &&
      Linked(u, a.parent[t], b) && Agree(a, b, {t, n}) &&
      (Ids(s) - Ids(Subtree(s, t))) * {t, n} <= {a.parent[t]} &&
      (t != RootOf(s) ==> Repointed(a, b, a.parent[t], t, t))
  {
    var b := Links(a.parent[n := t], a.left, a.right[t := n]);
    var T := Subtree(s, t);
    var p := a.parent[t];
    assert T.Node? && T.id == t && T.right == Nil && Linked(T, p, a) && Distinct(T) && Ids(T) <= Ids(s) by {
      SubtreeWithin(s, t);
      SubtreeLinked(s, -1, a, t);
    }
    assert Ids(T) == Ids(T.left) + {t};
    assert Linked(T.left, t, b) by {
      LinkedBound(s, -1, a);
      LinkedFrame(T.left, t, a, b, {t, n});
    }
    if t != RootOf(s) {
      assert p != t && p != n && InArena(a, p) && (a.left[p] == t || a.right[p] == t) by {
        ParentLink(s, -1, a, t);
        LinkedBound(s, -1, a);
      }
    }
  }

  /** The arena after insert's left attachment realises the grown shape, whose
      listing has `n` just before t's subtree. */
  lemma GrowLeftRealised(s: Shape, a: Links, t: int, n: nat)
    requires Distinct(s) && Linked(s, -1, a) && t in Ids(s) && InArena(a, t) && a.left[t] == -1
    requires InArena(a, n) && n !in Ids(s) && a.left[n] == -1 && a.right[n] == -1
    ensures var s', b := GrowLeft(s, t, n), Links(a.parent[n := t], a.left[t := n], a.right);
      Distinct(s') && Linked(s', -1, b) && RootOf(s') == RootOf(s) &&
      InOrder(s) == Before(s, t) + InOrder(Subtree(s, t)) + After(s, t) &&
      InOrder(s') == Before(s, t) + ([n] + InOrder(Subtree(s, t))) + After(s, t) &&
      InOrder(Subtree(s, t)) != [] && InOrder(Subtree(s, t))[0] == t
  {
    GrowLeftLinked(s, a, t, n);
    var T := Subtree(s, t);
    var u := Node(t, Node(n, Nil, Nil), T.right);
    PlugRealised(s, a, t, u, Links(a.parent[n := t], a.left[t := n], a.right), {t, n});
    LeafListing(T, n);
  }

  /** The arena after insert's right attachment realises the grown shape, whose
      listing has `n` just after t's subtree. */
  lemma GrowRightRealised(s: Shape, a: Links, t: int, n: nat)
    requires Distinct(s) && Linked(s, -1, a) && t in Ids(s) && InArena(a, t) && a.right[t] == -1
    requires InArena(a, n) && n !in Ids(s) && a.left[n] == -1 && a.right[n] == -1
    ensures var s', b := GrowRight(s, t, n), Links(a.parent[n := t], a.left, a.right[t := n]);
      Distinct(s') && Linked(s', -1, b) && RootOf(s') == RootOf(s) &&
      InOrder(s) == Before(s, t) + InOrder(Subtree(s, t)) + After(s, t) &&
      InOrder(s') == Before(s, t) + (InOrder(Subtree(s, t)) + [n]) + After(s, t) &&
      InOrder(Subtree(s, t)) != [] && Last(InOrder(Subtree(s, t))) == t
  {
    GrowRightLinked(s, a, t, n);
    var T := Subtree(s, t);
    var u := Node(t, T.left, Node(n, Nil, Nil));
    PlugRealised(s, a, t, u, Links(a.parent[n := t], a.left, a.right[t := n]), {t, n});
    LeafListing(T, n);
  }

  /** The listing of a subtree after a new leaf `n` fills a missing child of its top. */
  lemma LeafListing(t: Shape, n: nat)
    requires t.Node?
    ensures t.left.Nil? ==>
      InOrder(t) != [] && InOrder(t)[0] == t.id &&
      InOrder(Node(t.id, Node(n, Nil, Nil), t.right)) == [n] + InOrder(t)
    ensures t.right.Nil? ==>
      InOrder(t) != [] && Last(InOrder(t)) == t.id &&
      InOrder(Node(t.id, t.left, Node(n, Nil, Nil))) == InOrder(t) + [n]
  {
  }

  /** Inserting handle `n` at position `i` of a sorted listing, between a
      smaller and a larger key, keeps it sorted; `i` is the first position
      whose key is not below n's, and n's key was not listed. */
  lemma InsertKeys(ids: seq<nat>, i: nat, n: nat, key: seq<int>)
    requires StrictlySorted(KeysOf(ids, key)) && i <= |ids|
    requires i > 0 ==> KeyOf(key, ids[i - 1]) < KeyOf(key, n)
    requires i < |ids| ==> KeyOf(key, n) < KeyOf(key, ids[i])
    ensures var ks := KeysOf(ids, key);
      KeysOf(ids[..i] + [n] + ids[i..], key) == ks[..i] + [KeyOf(key, n)] + ks[i..] &&
      StrictlySorted(KeysOf(ids[..i] + [n] + ids[i..], key)) &&
      KeyOf(key, n) !in ks && FirstNotBelow(ks, KeyOf(key, n)) == i
  {
    KeysOfInsert(ids, i, n, key);
    SortedInsertAt(KeysOf(ids, key), i, KeyOf(key, n));
  }

  /** insert's attachment as a left child (tree.hpp:168-171) keeps a search tree
      well formed and puts the new node at the first position whose key is not
      below the new key, which was not in the tree. */
  lemma GrowLeftKeeps(s: Shape, a: Links, key: seq<int>, t: int, n: nat)
    requires WellFormed(s, a, key, RootOf(s)) && t in Ids(s) && InArena(a, t) && a.left[t] == -1
    requires n < |key| && n !in Ids(s) && a.left[n] == -1 && a.right[n] == -1
    requires KeyOf(key, n) < KeyOf(key, t) && Between(s, t, key, KeyOf(key, n))
    ensures var ks := KeysOf(InOrder(s), key);
      var i := FirstNotBelow(ks, KeyOf(key, n));
      WellFormed(GrowLeft(s, t, n), Links(a.parent[n := t], a.left[t := n], a.right), key, RootOf(s)) &&
      KeyOf(key, n) !in ks && n in Ids(GrowLeft(s, t, n)) &&
      InOrder(GrowLeft(s, t, n)) == InOrder(s)[..i] + [n] + InOrder(s)[i..] &&
      KeysOf(InOrder(GrowLeft(s, t, n)), key) == ks[..i] + [KeyOf(key, n)] + ks[i..]
  {
    GrowLeftRealised(s, a, t, n);
    var B, M, A := Before(s, t), InOrder(Subtree(s, t)), After(s, t);
    var ids, i := InOrder(s), |B|;
    Splice(B, M, A, n);
    if i > 0 {
      assert ids[i - 1] == B[i - 1];
      assert KeysOf(B, key)[i - 1] in KeysOf(B, key);
    }
    assert ids[i] == M[0];
    InsertKeys(ids, i, n, key);
    InOrderIds(GrowLeft(s, t, n));
  }

  /** insert's attachment as a right child (tree.hpp:177-180), the mirror image. */
  lemma GrowRightKeeps(s: Shape, a: Links, key: seq<int>, t: int, n: nat)
    requires WellFormed(s, a, key, RootOf(s)) && t in Ids(s) && InArena(a, t) && a.right[t] == -1
    requires n < |key| && n !in Ids(s) && a.left[n] == -1 && a.right[n] == -1
    requires KeyOf(key, t) < KeyOf(key, n) && Between(s, t, key, KeyOf(key, n))
    ensures var ks := KeysOf(InOrder(s), key);
      var i := FirstNotBelow(ks, KeyOf(key, n));
      WellFormed(GrowRight(s, t, n), Links(a.parent[n := t], a.left, a.right[t := n]), key, RootOf(s)) &&
      KeyOf(key, n) !in ks && n in Ids(GrowRight(s, t, n)) &&
      InOrder(GrowRight(s, t, n)) == InOrder(s)[..i] + [n] + InOrder(s)[i..] &&
      KeysOf(InOrder(GrowRight(s, t, n)), key) == ks[..i] + [KeyOf(key, n)] + ks[i..]
  {
    GrowRightRealised(s, a, t, n);
    var B, M, A := Before(s, t), InOrder(Subtree(s, t)), After(s, t);
    var ids, i := InOrder(s), |B + M|;
    Splice(B, M, A, n);
    assert ids[i - 1] == M[|M| - 1];
    if i < |ids| {
      assert ids[i] == A[0];
      assert KeysOf(A, key)[0] in KeysOf(A, key);
    }
    InsertKeys(ids, i, n, key);
    InOrderIds(GrowRight(s, t, n));
  }

  // ---------------------------------------------------------------------
  // Erasure: cutting out a node with at most one child, and swap_p

  /** The only child of `m` (its left one when it has one), or null. */
  ghost function ChildOf(a: Links, m: int): int
    requires InArena(a, m)
  {
    if a.left[m] != -1 then a.left[m] else a.right[m]
  }

  /** The slots cutting out `m` touches all exist. */
  ghost predicate UnlinkFits(a: Links, m: int)
  {
    InArena(a, m) && (a.parent[m] == -1 || InArena(a, a.parent[m])) &&
    (ChildOf(a, m) == -1 || InArena(a, ChildOf(a, m)))
  }

  /** The links after a node `m` with at most one child is cut out of the tree
      (erase_left, erase_right, erase_not_child): m's parent p takes m's child c
      in m's place and c's parent becomes p; m's own fields are left as they were. */
  ghost function UnlinkLinks(a: Links, m: int): Links
    requires UnlinkFits(a, m)
  {
    var p, c := a.parent[m], ChildOf(a, m);
    Links(if c == -1 then a.parent else a.parent[c := p],
          if p != -1 && a.left[p] == m then a.left[p := c] else a.left,
          if p != -1 && a.left[p] != m then a.right[p := c] else a.right)
  }

  /** What cutting out `m` leaves in the touched slots, and that it leaves
      every other slot alone. */
  lemma UnlinkLinksFacts(a: Links, m: int)
    requires UnlinkFits(a, m)
    requires var p, c := a.parent[m], ChildOf(a, m);
      p != m && c != m && (c != -1 ==> c != p) &&
      (p != -1 ==> (a.left[p] == m || a.right[p] == m) && a.left[p] != a.right[p])
    ensures var p, c, b := a.parent[m], ChildOf(a, m), UnlinkLinks(a, m);
      Agree(a, b, {p, c}) &&
      (c != -1 ==> b.parent[c] == p && b.left[c] == a.left[c] && b.right[c] == a.right[c]) &&
      (p != -1 ==> Repointed(a, b, p, m, c))
  {
  }

  /** The only child of a node with at most one child, as a shape. */
  lemma OnlyChildFacts(t: Shape)
    requires Distinct(t) && t.Node? && (t.left.Nil? || t.right.Nil?)
    ensures InOrder(t) == InOrder(t.left) + [t.id] + InOrder(t.right)
    ensures InOrder(OnlyChild(t)) == InOrder(t.left) + InOrder(t.right)
    ensures Ids(OnlyChild(t)) == Ids(t) - {t.id} && Distinct(OnlyChild(t))
    ensures RootOf(OnlyChild(t)) == if t.left.Node? then t.left.id else RootOf(t.right)
  {
  }

  /** After `m` is cut out, the arena realises m's only child in m's place. */
  lemma UnlinkLinked(s: Shape, a: Links, m: int)
    requires Distinct(s) && Linked(s, -1, a) && m in Ids(s) && InArena(a, m)
    requires a.left[m] == -1 || a.right[m] == -1
    ensures UnlinkFits(a, m)
    ensures Subtree(s, m).Node? && Subtree(s, m).id == m
    ensures var T := Subtree(s, m);
      InOrder(T) == InOrder(T.left) + [m] + InOrder(T.right) &&
      InOrder(OnlyChild(T)) == InOrder(T.left) + InOrder(T.right) &&
      Ids(T) <= Ids(s) && Ids(OnlyChild(T)) == Ids(T) - {m}
    ensures var T, u, b, p, c := Subtree(s, m), OnlyChild(Subtree(s, m)), UnlinkLinks(a, m),
                                 a.parent[m], ChildOf(a, m);
      Distinct(u) && Ids(u) !! Ids(s) - Ids(T) &&
      Linked(u, p, b) && Agree(a, b, {p, c}) &&
      (Ids(s) - Ids(T)) * {p, c} <= {p} &&
      (m != RootOf(s) ==> Repointed(a, b, p, m, RootOf(u)))
  {
    SubtreeWithin(s, m);
    SubtreeLinked(s, -1, a, m);
    LinkedBound(s, -1, a);
    var T := Subtree(s, m);
    var p, c := a.parent[m], ChildOf(a, m);
    var u := OnlyChild(T);
    assert Linked(T, p, a);
    OnlyChildFacts(T);
    assert c == RootOf(u) && (c != -1 ==> c in Ids(T) - {m});
    assert p !in Ids(T) && m in Ids(T);
    if p != -1 {
      ParentLink(s, -1, a, m);
      SubtreeChildren(s, -1, a, p);
    }
    UnlinkLinksFacts(a, m);
    if u.Node? {
      assert Ids(u) <= Ids(T) && p !in Ids(u);
      Rehung(u, m, p, a, UnlinkLinks(a, m), {p, c});
    }
  }

  /** Cutting out `m` realises Unlink(s, m). */
  lemma UnlinkRealised(s: Shape, a: Links, m: int)
    requires Distinct(s) && Linked(s, -1, a) && m in Ids(s) && InArena(a, m)
    requires a.left[m] == -1 || a.right[m] == -1
    ensures UnlinkFits(a, m) && Subtree(s, m).Node?
    ensures Subtree(s, m).left.Nil? || Subtree(s, m).right.Nil?
    ensures var s', b := Unlink(s, m), UnlinkLinks(a, m);
      Distinct(s') && Linked(s', -1, b) && Ids(s') == Ids(s) - {m} &&
      RootOf(s') == (if m == RootOf(s) then ChildOf(a, m) else RootOf(s))
  {
    UnlinkLinked(s, a, m);
    var T := Subtree(s, m);
    assert T.left.Nil? || T.right.Nil? by {
      SubtreeChildren(s, -1, a, m);
    }
    PlugFits(s, a, m, OnlyChild(T), UnlinkLinks(a, m), {a.parent[m], ChildOf(a, m)});
  }

  /** The listing of Unlink(s, m) is that of `s` without `m`. */
  lemma UnlinkListing(s: Shape, m: int)
    requires Distinct(s) && m in Ids(s) && Subtree(s, m).Node?
    requires Subtree(s, m).left.Nil? || Subtree(s, m).right.Nil?
    ensures Position(s, m) < |InOrder(s)| && InOrder(s)[Position(s, m)] == m
    ensures InOrder(Unlink(s, m)) == InOrder(s)[..Position(s, m)] + InOrder(s)[Position(s, m) + 1..]
  {
    SubtreeWithin(s, m);
    var T := Subtree(s, m);
    var o, B, L, R, A := InOrder(s), Before(s, m), InOrder(T.left), InOrder(T.right), After(s, m);
    assert InOrder(Unlink(s, m)) == B + (L + R) + A by {
      OnlyChildFacts(T);
      PlugInOrder(s, m, OnlyChild(T));
    }
    assert o == B + (L + [m] + R) + A by {
      SegmentInOrder(s, m);
    }
    Excise(o, B, L, R, A, m, m);
    assert Position(s, m) == |B| + |L|;
  }

  /** Cutting a node with at most one child out of a search tree leaves a
      search tree whose listing is the old one without that node. */
  lemma UnlinkKeeps(s: Shape, a: Links, key: seq<int>, m: int)
    requires WellFormed(s, a, key, RootOf(s)) && m in Ids(s) && InArena(a, m)
    requires a.left[m] == -1 || a.right[m] == -1
    ensures UnlinkFits(a, m) && Subtree(s, m).Node?
    ensures var s' := Unlink(s, m);
      WellFormed(s', UnlinkLinks(a, m), key, RootOf(s')) && Ids(s') == Ids(s) - {m} &&
      RootOf(s') == (if m == RootOf(s) then ChildOf(a, m) else RootOf(s))
    ensures Position(s, m) < |InOrder(s)| && InOrder(s)[Position(s, m)] == m
    ensures InOrder(Unlink(s, m)) == InOrder(s)[..Position(s, m)] + InOrder(s)[Position(s, m) + 1..]
  {
    UnlinkRealised(s, a, m);
    UnlinkListing(s, m);
    RemoveKeys(InOrder(s), Position(s, m), key);
  }

  /** The slots swap_p touches all exist. */
  ghost predicate SubstFits(a: Links, x: int, y: int)
  {
    InArena(a, x) && InArena(a, y) &&
    (a.parent[x] == -1 || InArena(a, a.parent[x])) &&
    (a.left[x] == -1 || InArena(a, a.left[x])) &&
    (a.right[x] == -1 || InArena(a, a.right[x]))
  }

  /** The links after swap_p(x, y) (tree.hpp:189-206): y takes x's parent and
      children, x's parent points to y in x's place, and x's children point
      back to y; x's own fields are left as they were. */
  ghost function SubstLinks(a: Links, x: int, y: int): Links
    requires SubstFits(a, x, y)
  {
    var p, l, r := a.parent[x], a.left[x], a.right[x];
    var pa := a.parent[y := p];
    var pa' := if l == -1 then pa else pa[l := y];
    Links(if r == -1 then pa' else pa'[r := y],
          (if p != -1 && a.left[p] == x then a.left[p := y] else a.left)[y := l],
          (if p != -1 && a.left[p] != x then a.right[p := y] else a.right)[y := r])
  }

  /** What swap_p leaves in the touched slots, and that it leaves every other
      slot alone. */
  lemma SubstLinksFacts(a: Links, x: int, y: int)
    requires SubstFits(a, x, y)
    requires var p, l, r := a.parent[x], a.left[x], a.right[x];
      x != y && p != x && l != x && r != x && p != y && l != y && r != y &&
      (l != -1 ==> l != r && l != p) && (r != -1 ==> r != p) &&
      (p != -1 ==> (a.left[p] == x || a.right[p] == x) && a.left[p] != a.right[p])
    ensures var p, l, r, b := a.parent[x], a.left[x], a.right[x], SubstLinks(a, x, y);
      Agree(a, b, {p, l, r, y}) &&
      b.parent[y] == p && b.left[y] == l && b.right[y] == r &&
      (l != -1 ==> b.parent[l] == y && b.left[l] == a.left[l] && b.right[l] == a.right[l]) &&
      (r != -1 ==> b.parent[r] == y && b.left[r] == a.left[r] && b.right[r] == a.right[r]) &&
      (p != -1 ==> Repointed(a, b, p, x, y))
  {
  }

  /** After swap_p(x, y), the arena realises x's subtree with y at its top. */
  lemma SubstLinked(s: Shape, a: Links, x: int, y: nat)
    requires Distinct(s) && Linked(s, -1, a) && x in Ids(s) && y !in Ids(s) && InArena(a, y)
    ensures SubstFits(a, x, y)
    ensures Subtree(s, x).Node? && Subtree(s, x).id == x
    ensures var T := Subtree(s, x);
      Linked(Node(y, T.left, T.right), a.parent[x], SubstLinks(a, x, y))
  {
    SubstAgrees(s, a, x, y);
    var T := Subtree(s, x);
    var p, l, r := a.parent[x], a.left[x], a.right[x];
    var ex := {p, l, r, y};
    assert Ids(T.left) * ex <= {l} && Ids(T.right) * ex <= {r};
    NewTopLinked(T, p, y, a, SubstLinks(a, x, y), ex);
  }

  /** The neighbourhood of a node: its subtree hangs below its parent, which
      lies outside the subtree and has the node as exactly one child. */
  lemma Around(s: Shape, a: Links, x: int)
    requires Distinct(s) && Linked(s, -1, a) && x in Ids(s)
    ensures InArena(a, x) && Subtree(s, x).Node? && Subtree(s, x).id == x
    ensures var T, p, l, r := Subtree(s, x), a.parent[x], a.left[x], a.right[x];
      Distinct(T) && Linked(T, p, a) && Ids(T) <= Ids(s) &&
      Ids(T) == Ids(T.left) + {x} + Ids(T.right) &&
      x !in Ids(T.left) && x !in Ids(T.right) && Ids(T.left) !! Ids(T.right) &&
      l == RootOf(T.left) && r == RootOf(T.right) && p !in Ids(T) &&
      (l != -1 ==> l in Ids(T.left) && InArena(a, l)) &&
      (r != -1 ==> r in Ids(T.right) && InArena(a, r)) &&
      (p == -1 <==> x == RootOf(s)) &&
      (p != -1 ==> (p in Ids(s) && InArena(a, p) &&
         (a.left[p] == x || a.right[p] == x) && a.left[p] != a.right[p]))
  {
    SubtreeWithin(s, x);
    SubtreeLinked(s, -1, a, x);
    LinkedBound(s, -1, a);
    var T := Subtree(s, x);
    var p := a.parent[x];
    assert Linked(T, p, a);
    if p != -1 {
      ParentLink(s, -1, a, x);
      SubtreeChildren(s, -1, a, p);
    }
  }

  /** swap_p(x, y) leaves every slot but x's parent, x's children and y alone,
      and x's parent now points to y. */
  lemma SubstAgrees(s: Shape, a: Links, x: int, y: nat)
    requires Distinct(s) && Linked(s, -1, a) && x in Ids(s) && y !in Ids(s) && InArena(a, y)
    ensures SubstFits(a, x, y)
    ensures Subtree(s, x).Node? && Subtree(s, x).id == x
    ensures var T, p, l, r, b := Subtree(s, x), a.parent[x], a.left[x], a.right[x], SubstLinks(a, x, y);
      Distinct(T) && Linked(T, p, a) &&
      x !in Ids(T.left) && x !in Ids(T.right) && Ids(T.left) !! Ids(T.right) &&
      l == RootOf(T.left) && r == RootOf(T.right) && p !in Ids(T) && y !in Ids(T) &&
      Agree(a, b, {p, l, r, y}) && (Ids(s) - Ids(T)) * {p, l, r, y} <= {p} &&
      b.parent[y] == p && b.left[y] == l && b.right[y] == r &&
      (l != -1 ==> InArena(a, l) && b.parent[l] == y && b.left[l] == a.left[l] && b.right[l] == a.right[l]) &&
      (r != -1 ==> InArena(a, r) && b.parent[r] == y && b.left[r] == a.left[r] && b.right[r] == a.right[r]) &&
      (x != RootOf(s) ==> Repointed(a, b, p, x, y))
  {
    Around(s, a, x);
    SubstLinksFacts(a, x, y);
  }

  /** A subtree whose top is replaced by `y`, with the children's parent
      fields pointing to `y`, is realised below the old parent. */
  lemma NewTopLinked(t: Shape, p: int, y: nat, a: Links, b: Links, ex: set<int>)
    requires Distinct(t) && t.Node? && Linked(t, p, a) && Agree(a, b, ex)
    requires Ids(t.left) * ex <= {RootOf(t.left)} && Ids(t.right) * ex <= {RootOf(t.right)}
    requires y < |b.parent| && y < |b.left| && y < |b.right|
    requires b.parent[y] == p && b.left[y] == RootOf(t.left) && b.right[y] == RootOf(t.right)
    requires t.left.Node? ==> (InArena(a, t.left.id) && InArena(b, t.left.id) && b.parent[t.left.id] == y &&
      b.left[t.left.id] == a.left[t.left.id] && b.right[t.left.id] == a.right[t.left.id])
    requires t.right.Node? ==> (InArena(a, t.right.id) && InArena(b, t.right.id) && b.parent[t.right.id] == y &&
      b.left[t.right.id] == a.left[t.right.id] && b.right[t.right.id] == a.right[t.right.id])
    ensures Linked(Node(y, t.left, t.right), p, b)
  {
    LinkedBound(t, p, a);
    Rehung(t.left, t.id, y, a, b, ex);
    Rehung(t.right, t.id, y, a, b, ex);
  }

  /** The subtree with a new top outside the tree. */
  lemma NewTopFacts(s: Shape, x: int, y: nat)
    requires Distinct(s) && x in Ids(s) && y !in Ids(s)
    ensures Subtree(s, x).Node?
    ensures var T := Subtree(s, x); var u := Node(y, T.left, T.right);
      Distinct(u) && Ids(u) !! Ids(s) - Ids(T) && Ids(u) == Ids(T) - {x} + {y} &&
      InOrder(T) == InOrder(T.left) + [x] + InOrder(T.right) &&
      InOrder(u) == InOrder(T.left) + [y] + InOrder(T.right)
  {
    SubtreeWithin(s, x);
    var T := Subtree(s, x);
    assert Ids(T) == Ids(T.left) + {x} + Ids(T.right);
  }

  /** swap_p(x, y) for a y outside the tree realises Substitute(s, x, y). */
  lemma SubstRealised(s: Shape, a: Links, x: int, y: nat)
    requires Distinct(s) && Linked(s, -1, a) && x in Ids(s) && y !in Ids(s) && InArena(a, y)
    ensures SubstFits(a, x, y) && Subtree(s, x).Node?
    ensures var s', b := Substitute(s, x, y), SubstLinks(a, x, y);
      Distinct(s') && Linked(s', -1, b) && Ids(s') == Ids(s) - {x} + {y} &&
      RootOf(s') == (if x == RootOf(s) then y else RootOf(s))
  {
    SubstAgrees(s, a, x, y);
    SubstLinked(s, a, x, y);
    NewTopFacts(s, x, y);
    SubtreeWithin(s, x);
    var T := Subtree(s, x);
    var u := Node(y, T.left, T.right);
    assert Ids(s) - Ids(T) + Ids(u) == Ids(s) - {x} + {y};
    PlugFits(s, a, x, u, SubstLinks(a, x, y), {a.parent[x], a.left[x], a.right[x], y});
  }

  /** The listing of Substitute(s, x, y) has `y` in x's place. */
  lemma SubstListing(s: Shape, x: int, y: nat)
    requires Distinct(s) && x in Ids(s) && y !in Ids(s)
    ensures Subtree(s, x).Node?
    ensures Position(s, x) < |InOrder(s)| && InOrder(s)[Position(s, x)] == x
    ensures InOrder(Substitute(s, x, y)) == InOrder(s)[Position(s, x) := y]
  {
    NewTopFacts(s, x, y);
    SegmentInOrder(s, x);
    var T := Subtree(s, x);
    PlugInOrder(s, x, Node(y, T.left, T.right));
    var o, B, L, R, A := InOrder(s), Before(s, x), InOrder(T.left), InOrder(T.right), After(s, x);
    assert InOrder(Substitute(s, x, y)) == B + (L + [y] + R) + A;
    Excise(o, B, L, R, A, x, y);
    assert Position(s, x) == |B| + |L|;
  }

  // ---------------------------------------------------------------------
  // Termination of erase_balance

  /** A left rotation lowers Phi. */
  lemma RotatedPhi(s: Shape, x: int)
    requires x in Ids(s) && Subtree(s, x).Node? && Subtree(s, x).right.Node?
    ensures Phi(RotateLeftAt(s, x)) < Phi(s)
  {
    SubtreeWithin(s, x);
    RotLeftFacts(Subtree(s, x));
    PlugPhi(s, x, RotLeft(Subtree(s, x)));
  }

  /** A right rotation at x's right child followed by a left rotation at x
      lowers Phi. */
  lemma DoubleRotatedPhi(s: Shape, x: int)
    requires Distinct(s) && x in Ids(s)
    requires Subtree(s, x).Node? && Subtree(s, x).right.Node? && Subtree(s, x).right.left.Node?
    ensures Phi(RotateLeftAt(RotateRightAt(s, Subtree(s, x).right.id), x)) < Phi(s)
  {
    SubtreeWithin(s, x);
    var T := Subtree(s, x);
    var B := T.right;
    var b := B.id;
    assert b in Ids(T) && b != x;
    SubtreeNested(s, x, b);
    assert Subtree(T, b) == B;
    RotRightFacts(B);
    var RB := RotRight(B);
    PlugPhi(s, b, RB);
    SubtreePlugBelow(s, x, b, RB);
    var s1 := RotateRightAt(s, b);
    assert Subtree(s1, x) == Node(x, T.left, RB);
    PlugIds(s, b, RB);
    assert x in Ids(s1);
    RotatedPhi(s1, x);
    RotLeftFacts(Node(x, T.left, RB));
    PlugPhi(s1, x, RotLeft(Node(x, T.left, RB)));
  }
}
