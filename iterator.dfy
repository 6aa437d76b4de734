/** The iterators of iterator.hpp.  map_iterator walks the red-black tree by
    its links alone: its position is a node handle, or null for end().
    vector_iterator is a position in a contiguous buffer, and reverse_iterator
    wraps such a position (its base) and reads the element just before it. */
module Iterators {
  import opened TreeShape
  import opened ShapeFacts
  import opened RedBlack

  // ---------------------------------------------------------------------
  // map_iterator

  /** A handle's place in the listing of a tree determines the handle. */
  lemma HandleAt(t: Tree, m: int, i: nat)
    requires t.Valid() && i < |t.Nodes()| && t.Nodes()[i] == m
    ensures m in Ids(t.shape) && Position(t.shape, m) == i
  {
    InOrderIds(t.shape);
    assert m in InOrder(t.shape);
    PositionAt(t.shape, m);
    SameIndex(InOrder(t.shape), t.key, i, Position(t.shape, m));
  }

  /** The subtree at the root slot is the whole tree. */
  lemma RootSubtree(t: Tree)
    requires t.Valid()
    ensures t.root != -1 ==> t.root in Ids(t.shape)
    ensures Subtree(t.shape, t.root) == t.shape
  {
  }

  /** The place of the position `h` (a node, or null for end()) in the
      listing of tree t; end() is one past the last node. */
  ghost function IndexIn(t: Tree, h: int): (i: nat)
    reads t
    requires t.Valid() && (h == -1 || h in Ids(t.shape))
    ensures i <= |t.Nodes()|
    ensures h == -1 <==> i == |t.Nodes()|
    ensures h != -1 ==> t.Nodes()[i] == h
  {
    if h == -1 then |t.Nodes()|
    else
      PositionAt(t.shape, h);
      Position(t.shape, h)
  }

  /** The node after `b` in the listing holds the least key above b's key:
      ++ visits the keys of the tree in increasing order and skips none. */
  lemma NextHoldsLeastKeyAbove(t: Tree, b: int, m: int)
    requires t.Valid() && b in Ids(t.shape) && m in Ids(t.shape)
    requires Position(t.shape, b) + 1 < |t.Nodes()|
    ensures var next := t.Nodes()[Position(t.shape, b) + 1];
      KeyOf(t.key, b) < KeyOf(t.key, next) &&
      (KeyOf(t.key, b) < KeyOf(t.key, m) ==> KeyOf(t.key, next) <= KeyOf(t.key, m))
  {
    var ns := t.Nodes();
    var ks := KeysOf(ns, t.key);
    var i := Position(t.shape, b);
    var j := Position(t.shape, m);
    PositionAt(t.shape, b);
    PositionAt(t.shape, m);
    if KeyOf(t.key, b) < KeyOf(t.key, m) {
      assert i < j;
    }
  }

  /** The state of ++'s upward walk from node b: `cur` is a node below the
      root whose subtree ends with b, and b is not the last node. */
  ghost predicate ClimbingFromRight(t: Tree, cur: int, b: int)
    reads t
  {
    t.Valid() && b in Ids(t.shape) && Position(t.shape, b) + 1 < |t.Nodes()| &&
    cur in Ids(t.shape) && 0 <= cur < |t.key| && cur != t.root &&
    0 <= t.parent[cur] < |t.key| &&
    InOrder(Subtree(t.shape, cur)) != [] && Last(InOrder(Subtree(t.shape, cur))) == b
  }

  /** The state of --'s upward walk from node b: `cur` is a node below the
      root whose subtree starts with b, and b is not the first node. */
  ghost predicate ClimbingFromLeft(t: Tree, cur: int, b: int)
    reads t
  {
    t.Valid() && b in Ids(t.shape) && 0 < Position(t.shape, b) &&
    cur in Ids(t.shape) && 0 <= cur < |t.key| && cur != t.root &&
    0 <= t.parent[cur] < |t.key| &&
    InOrder(Subtree(t.shape, cur)) != [] && InOrder(Subtree(t.shape, cur))[0] == b
  }

  /** A node whose subtree ends with a node that is not the last one of the
      tree lies below the root. */
  lemma BelowRootRight(t: Tree, cur: int, b: int)
    requires t.Valid() && b in Ids(t.shape) && Position(t.shape, b) + 1 < |t.Nodes()|
    requires cur in Ids(t.shape) && InOrder(Subtree(t.shape, cur)) != []
    requires Last(InOrder(Subtree(t.shape, cur))) == b
    ensures ClimbingFromRight(t, cur, b)
  {
    t.NodeFacts(cur);
    if cur == t.root {
      RootSubtree(t);
      HandleAt(t, b, |t.Nodes()| - 1);
    }
    t.ParentFacts(cur);
  }

  /** A node whose subtree starts with a node that is not the first one of
      the tree lies below the root. */
  lemma BelowRootLeft(t: Tree, cur: int, b: int)
    requires t.Valid() && b in Ids(t.shape) && 0 < Position(t.shape, b)
    requires cur in Ids(t.shape) && InOrder(Subtree(t.shape, cur)) != []
    requires InOrder(Subtree(t.shape, cur))[0] == b
    ensures ClimbingFromLeft(t, cur, b)
  {
    t.NodeFacts(cur);
    if cur == t.root {
      RootSubtree(t);
      HandleAt(t, b, 0);
    }
    t.ParentFacts(cur);
  }

  /** One step of ++'s walk: from a right child, the parent's subtree still
      ends with b, one level up. */
  lemma ClimbRightStep(t: Tree, cur: int, b: int)
    requires ClimbingFromRight(t, cur, b) && t.right[t.parent[cur]] == cur
    ensures ClimbingFromRight(t, t.parent[cur], b)
    ensures Depth(t.shape, t.parent[cur]) < Depth(t.shape, cur)
  {
    t.ParentFacts(cur);
    t.DescendFacts(t.parent[cur]);
    BelowRootRight(t, t.parent[cur], b);
  }

  /** One step of --'s walk: from a left child, the parent's subtree still
      starts with b, one level up. */
  lemma ClimbLeftStep(t: Tree, cur: int, b: int)
    requires ClimbingFromLeft(t, cur, b) && t.left[t.parent[cur]] == cur
    ensures ClimbingFromLeft(t, t.parent[cur], b)
    ensures Depth(t.shape, t.parent[cur]) < Depth(t.shape, cur)
  {
    t.ParentFacts(cur);
    t.DescendFacts(t.parent[cur]);
    BelowRootLeft(t, t.parent[cur], b);
  }

  /** The end of ++'s walk: `cur` is a left child, so its parent comes right
      after b, the last node of cur's subtree. */
  lemma ClimbRightStop(t: Tree, cur: int, b: int)
    requires ClimbingFromRight(t, cur, b) && t.right[t.parent[cur]] != cur
    ensures t.parent[cur] in Ids(t.shape)
    ensures Position(t.shape, t.parent[cur]) == Position(t.shape, b) + 1
  {
    var p := t.parent[cur];
    t.ParentFacts(cur);
    t.NodeFacts(p);
    PredecessorAt(t.shape, p);
    HandleAt(t, b, Position(t.shape, p) - 1);
  }

  /** The end of --'s walk: `cur` is a right child, so its parent comes right
      before b, the first node of cur's subtree. */
  lemma ClimbLeftStop(t: Tree, cur: int, b: int)
    requires ClimbingFromLeft(t, cur, b) && t.left[t.parent[cur]] != cur
    ensures t.parent[cur] in Ids(t.shape)
    ensures Position(t.shape, t.parent[cur]) + 1 == Position(t.shape, b)
  {
    var p := t.parent[cur];
    t.ParentFacts(cur);
    t.NodeFacts(p);
    SuccessorAt(t.shape, p);
    HandleAt(t, b, Position(t.shape, p) + 1);
  }

  /** The first node of the right subtree comes right after the node. */
  lemma RightSubtreeNext(t: Tree, b: int, m: int)
    requires t.Valid() && b in Ids(t.shape) && 0 <= b < |t.right| && t.right[b] != -1
    requires InOrder(Subtree(t.shape, t.right[b])) != [] && m == InOrder(Subtree(t.shape, t.right[b]))[0]
    ensures m in Ids(t.shape) && Position(t.shape, m) == Position(t.shape, b) + 1
  {
    t.NodeFacts(b);
    SuccessorAt(t.shape, b);
    PositionAt(t.shape, b);
    HandleAt(t, m, Position(t.shape, b) + 1);
  }

  /** The last node of the left subtree comes right before the node. */
  lemma LeftSubtreePrev(t: Tree, b: int, m: int)
    requires t.Valid() && b in Ids(t.shape) && 0 <= b < |t.left| && t.left[b] != -1
    requires InOrder(Subtree(t.shape, t.left[b])) != [] && m == Last(InOrder(Subtree(t.shape, t.left[b])))
    ensures m in Ids(t.shape) && Position(t.shape, m) + 1 == Position(t.shape, b)
  {
    t.NodeFacts(b);
    PredecessorAt(t.shape, b);
    PositionAt(t.shape, b);
    HandleAt(t, m, Position(t.shape, b) - 1);
  }

  /** The node max_node finds from the root is the last node; any other node
      has one after it. */
  lemma LastOrNot(t: Tree, b: int, top: int)
    requires t.Valid() && b in Ids(t.shape) && t.root != -1
    requires InOrder(Subtree(t.shape, t.root)) != [] && top == Last(InOrder(Subtree(t.shape, t.root)))
    ensures b == top ==> Position(t.shape, b) + 1 == |t.Nodes()|
    ensures b != top ==> Position(t.shape, b) + 1 < |t.Nodes()|
  {
    RootSubtree(t);
    PositionAt(t.shape, b);
    if b == top {
      HandleAt(t, b, |t.Nodes()| - 1);
    }
  }

  /** A node without a right child ends its own subtree, and one without a
      left child starts it. */
  lemma OwnSubtreeEnds(t: Tree, b: int)
    requires t.Valid() && b in Ids(t.shape)
    ensures 0 <= b < |t.key| && InOrder(Subtree(t.shape, b)) != []
    ensures t.right[b] == -1 ==> Last(InOrder(Subtree(t.shape, b))) == b
    ensures t.left[b] == -1 ==> InOrder(Subtree(t.shape, b))[0] == b
  {
    t.DescendFacts(b);
  }

  /** The position after ++ on a listing of n nodes, counted as an index with
      end() at n: one further along, and end() stays end(). */
  function NextIndex(i: nat, n: nat): (r: nat)
    requires i <= n
    ensures r <= n && (i < n ==> r == i + 1) && (i == n ==> r == n)
  {
    if i < n then i + 1 else n
  }

  /** The position after --: one back, end() going to the last node; the
      first node has no predecessor. */
  function PrevIndex(i: nat, n: nat): (r: nat)
    requires 0 < i <= n || i == n
    ensures r <= n && (0 < i ==> r == i - 1) && (i == 0 ==> r == 0)
  {
    if 0 < i then i - 1 else 0
  }

  /** -- undoes ++ at every position but end(), the last node included (last
      node -> end() -> last node). */
  lemma PrevUndoesNext(i: nat, n: nat)
    requires i < n
    ensures PrevIndex(NextIndex(i, n), n) == i
  {
  }

  /** ++ undoes -- wherever -- is defined, end() included. */
  lemma NextUndoesPrev(i: nat, n: nat)
    requires 0 < i <= n
    ensures NextIndex(PrevIndex(i, n), n) == i
  {
  }

  /** A bidirectional iterator over the tree: `base` is the current node, -1
      for end().  The tree stands for the sentinel the iterator keeps, whose
      parent slot is the real root. */
  class MapIterator {
    const tree: Tree
    var base: int

    ghost predicate Valid()
      reads this, tree
    {
      tree.Valid() && (base == -1 || base in Ids(tree.shape))
    }

    /** The iterator's place in the listing; end() is one past the last node. */
    ghost function Index(): nat
      reads this, tree
      requires Valid()
    {
      IndexIn(tree, base)
    }

    /** map_iterator(root, node). */
    constructor(t: Tree, node: int)
      requires t.Valid() && (node == -1 || node in Ids(t.shape))
      ensures Valid() && tree == t && base == node
    {
      tree := t;
      base := node;
    }

    /** operator*: the key of the current node. */
    function Deref(): (k: int)
      reads this, tree
      requires Valid() && base != -1
      ensures k == tree.Elements()[Index()]
    {
      tree.NodeFacts(base);
      tree.key[base]
    }

    /** operator++: end() stays end(); with a right child, the first node of
        the right subtree; at the last node of the whole tree, end();
        otherwise up through the ancestors reached from their right side, then
        one more step up. */
    method Inc()
      requires Valid()
      modifies this
      ensures Valid() && Index() == NextIndex(old(Index()), |tree.Nodes()|)
    {
      if base == -1 {
        return;
      }
      var b := base;
      OwnSubtreeEnds(tree, b);
      if tree.right[b] != -1 {
        tree.NodeFacts(b);
        var m := tree.MinNode(tree.right[b]);
        RightSubtreeNext(tree, b, m);
        base := m;
        return;
      }
      var top := tree.MaxNode(tree.root);
      LastOrNot(tree, b, top);
      if b == top {
        base := -1;
        return;
      }
      var cur := b;
      BelowRootRight(tree, cur, b);
      while tree.right[tree.parent[cur]] == cur
        invariant ClimbingFromRight(tree, cur, b)
        decreases Depth(tree.shape, cur)
      {
        ClimbRightStep(tree, cur, b);
        cur := tree.parent[cur];
      }
      ClimbRightStop(tree, cur, b);
      base := tree.parent[cur];
    }

    /** operator++(int): advances, and returns the position it started from. */
    method PostInc() returns (prev: int)
      requires Valid()
      modifies this
      ensures prev == old(base)
      ensures Valid() && Index() == NextIndex(old(Index()), |tree.Nodes()|)
    {
      prev := base;
      Inc();
    }

    /** operator--: from end(), the last node (end() again for an empty tree);
        with a left child, the last node of the left subtree; otherwise up
        through the ancestors reached from their left side, then one more
        step up.  From the first node that walk would step above the root,
        so the first node is excluded. */
    method Dec()
      requires Valid() && (base == -1 || Index() > 0)
      modifies this
      ensures Valid() && Index() == PrevIndex(old(Index()), |tree.Nodes()|)
    {
      if base == -1 {
        var top := tree.MaxNode(tree.root);
        if tree.root != -1 {
          RootSubtree(tree);
          HandleAt(tree, top, |tree.Nodes()| - 1);
        }
        base := top;
        return;
      }
      var b := base;
      OwnSubtreeEnds(tree, b);
      if tree.left[b] != -1 {
        tree.NodeFacts(b);
        var m := tree.MaxNode(tree.left[b]);
        LeftSubtreePrev(tree, b, m);
        base := m;
        return;
      }
      var cur := b;
      BelowRootLeft(tree, cur, b);
      while tree.left[tree.parent[cur]] == cur
        invariant ClimbingFromLeft(tree, cur, b)
        decreases Depth(tree.shape, cur)
      {
        ClimbLeftStep(tree, cur, b);
        cur := tree.parent[cur];
      }
      ClimbLeftStop(tree, cur, b);
      base := tree.parent[cur];
    }

    /** operator--(int): steps back, and returns the position it started from. */
    method PostDec() returns (prev: int)
      requires Valid() && (base == -1 || Index() > 0)
      modifies this
      ensures prev == old(base)
      ensures Valid() && Index() == PrevIndex(old(Index()), |tree.Nodes()|)
    {
      prev := base;
      Dec();
    }
  }

  /** operator==: compares the current nodes only, not the trees; over one
      tree that is comparing places in the listing. */
  function MapEqual(a: MapIterator, b: MapIterator): (r: bool)
    reads a, b, a.tree, b.tree
    ensures a.Valid() && b.Valid() && a.tree == b.tree ==> (r <==> a.Index() == b.Index())
    ensures a.base == -1 && b.base == -1 ==> r
  {
    a.base == b.base
  }

  /** operator!=: the negation of operator==. */
  function MapNotEqual(a: MapIterator, b: MapIterator): (r: bool)
    reads a, b, a.tree, b.tree
    ensures a.Valid() && b.Valid() && a.tree == b.tree ==> (r <==> a.Index() != b.Index())
  {
    !MapEqual(a, b)
  }

  // ---------------------------------------------------------------------
  // vector_iterator: a position in the buffer

  /** operator* and operator[]: the element at position p of the buffer. */
  function Deref(elems: seq<int>, p: int): (x: int)
    requires 0 <= p < |elems|
    ensures x == elems[p]
  {
    elems[p]
  }

  /** operator+(n), n + it: the position n further on, which lies n steps
      from p. */
  function Plus(p: int, n: int): (q: int)
    ensures Diff(q, p) == n
  {
    p + n
  }

  /** operator-(n): the position n back, the one from which n steps on
      lead to p. */
  function Minus(p: int, n: int): (q: int)
    ensures Plus(q, n) == p && Diff(p, q) == n
  {
    p - n
  }

  /** a - b: the number of steps from b to a. */
  function Diff(a: int, b: int): (d: int)
    ensures b + d == a
  {
    a - b
  }

  /** it[n] reads the element of it + n. */
  function Index(elems: seq<int>, p: int, n: int): (x: int)
    requires 0 <= Plus(p, n) < |elems|
    ensures x == elems[p + n]
  {
    Deref(elems, Plus(p, n))
  }

  /** Stepping n on and then n back returns to the start, and the difference
      of the two positions is n. */
  lemma PlusMinusRoundTrip(p: int, n: int)
    ensures Minus(Plus(p, n), n) == p && Diff(Plus(p, n), p) == n
  {
  }

  /** a + (b - a) is b. */
  lemma PlusDiff(a: int, b: int)
    ensures Plus(a, Diff(b, a)) == b
  {
  }

  /** The six comparisons order positions as offsets into the buffer. */
  function Less(a: int, b: int): (r: bool)
    ensures r <==> Diff(b, a) > 0
  {
    a < b
  }

  function LessEqual(a: int, b: int): (r: bool)
    ensures r <==> Diff(b, a) >= 0
    ensures r <==> !Greater(a, b)
  {
    a < b || a == b
  }

  function Greater(a: int, b: int): (r: bool)
    ensures r <==> Less(b, a)
  {
    a > b
  }

  function GreaterEqual(a: int, b: int): (r: bool)
    ensures r <==> Diff(a, b) >= 0
    ensures r <==> !Less(a, b)
  {
    a > b || a == b
  }

  /** Exactly one of a < b, a == b, a > b holds. */
  lemma Trichotomy(a: int, b: int)
    ensures (Less(a, b) || a == b || Greater(a, b)) && !(Less(a, b) && Greater(a, b))
  {
  }

  class VectorIterator {
    var val: int

    constructor(p: int)
      ensures val == p
    {
      val := p;
    }

    /** operator++. */
    method Inc()
      modifies this
      ensures val == Plus(old(val), 1)
    {
      val := val + 1;
    }

    /** operator++(int): the returned copy holds the old position. */
    method PostInc() returns (prev: int)
      modifies this
      ensures prev == old(val) && val == Plus(old(val), 1)
    {
      prev := val;
      val := val + 1;
    }

    /** operator--. */
    method Dec()
      modifies this
      ensures val == Minus(old(val), 1)
    {
      val := val - 1;
    }

    /** operator--(int): the returned copy holds the old position. */
    method PostDec() returns (prev: int)
      modifies this
      ensures prev == old(val) && val == Minus(old(val), 1)
    {
      prev := val;
      val := val - 1;
    }

    /** operator+=(n). */
    method AddAssign(n: int)
      modifies this
      ensures val == Plus(old(val), n)
    {
      val := val + n;
    }

    /** operator-=(n). */
    method SubAssign(n: int)
      modifies this
      ensures val == Minus(old(val), n)
    {
      val := val - n;
    }
  }

  // ---------------------------------------------------------------------
  // reverse_iterator over a vector_iterator base

  /** operator*: what the base iterator reads after one step back. */
  function RevDeref(elems: seq<int>, base: int): (x: int)
    requires 0 < base <= |elems|
    ensures x == Deref(elems, Minus(base, 1))
  {
    elems[base - 1]
  }

  /** operator+(n): the base moves n back, which is n reverse steps on. */
  function RevPlus(base: int, n: int): (q: int)
    ensures RevDiff(q, base) == n
  {
    base - n
  }

  /** operator-(n): the base moves n on, the reverse position from which n
      reverse steps lead back. */
  function RevMinus(base: int, n: int): (q: int)
    ensures RevPlus(q, n) == base && RevDiff(base, q) == n
  {
    base + n
  }

  /** first - second: second's base minus first's base, the difference of
      the bases taken the other way round. */
  function RevDiff(a: int, b: int): (d: int)
    ensures d == Diff(b, a)
  {
    b - a
  }

  /** it[n] reads base()[-n - 1], which is what *(it + n) reads. */
  function RevIndex(elems: seq<int>, base: int, n: int): (x: int)
    requires 0 <= base - n - 1 < |elems|
    ensures x == RevDeref(elems, RevPlus(base, n))
  {
    elems[base - n - 1]
  }

  /** Walking a reverse iterator from rbegin() (base at the end of the
      buffer), the k-th element read is the k-th from the back. */
  lemma ReverseTraversal(elems: seq<int>, k: nat)
    requires k < |elems|
    ensures RevDeref(elems, RevPlus(|elems|, k)) == elems[|elems| - 1 - k]
  {
  }

  /** b + (a - b) is a for reverse iterators too, (it + n) - it is n, and n
      on then n back returns to the start. */
  lemma RevPlusDiff(a: int, b: int, n: int)
    ensures RevPlus(b, RevDiff(a, b)) == a
    ensures RevMinus(RevPlus(a, n), n) == a && RevDiff(RevPlus(a, n), a) == n
  {
  }

  /** The comparisons reverse the order of the bases. */
  function RevLess(a: int, b: int): (r: bool)
    ensures r <==> Greater(a, b) && RevDiff(a, b) < 0
  {
    a > b
  }

  function RevLessEqual(a: int, b: int): (r: bool)
    ensures r <==> GreaterEqual(a, b) && RevDiff(a, b) <= 0
    ensures r <==> !RevGreater(a, b)
  {
    RevLess(a, b) || a == b
  }

  function RevGreater(a: int, b: int): (r: bool)
    ensures r <==> RevLess(b, a)
  {
    a < b
  }

  function RevGreaterEqual(a: int, b: int): (r: bool)
    ensures r <==> LessEqual(a, b) && RevDiff(a, b) >= 0
    ensures r <==> !RevLess(a, b)
  {
    RevGreater(a, b) || a == b
  }

  /** A reverse iterator below another one comes earlier in the walk from
      rbegin() (base at the end of the buffer): it is fewer steps from
      rbegin(), and each reads the element that many places from the back. */
  lemma RevLessIsEarlierInWalk(elems: seq<int>, a: int, b: int)
    requires 0 < a <= |elems| && 0 < b <= |elems| && RevLess(a, b)
    ensures 0 <= RevDiff(a, |elems|) < RevDiff(b, |elems|)
    ensures RevDeref(elems, a) == elems[|elems| - 1 - RevDiff(a, |elems|)]
    ensures RevDeref(elems, b) == elems[|elems| - 1 - RevDiff(b, |elems|)]
  {
  }

  class ReverseIterator {
    var val: int

    constructor(base: int)
      ensures val == base
    {
      val := base;
    }

    /** base(). */
    function Base(): (b: int)
      reads this
      ensures b == val
    {
      val
    }

    /** operator++: the base steps back. */
    method Inc()
      modifies this
      ensures val == RevPlus(old(val), 1)
    {
      val := val - 1;
    }

    /** operator++(int): the returned copy holds the old base. */
    method PostInc() returns (prev: int)
      modifies this
      ensures prev == old(val) && val == RevPlus(old(val), 1)
    {
      prev := val;
      val := val - 1;
    }

    /** operator--: the base steps on. */
    method Dec()
      modifies this
      ensures val == RevMinus(old(val), 1)
    {
      val := val + 1;
    }

    /** operator--(int): the returned copy holds the old base. */
    method PostDec() returns (prev: int)
      modifies this
      ensures prev == old(val) && val == RevMinus(old(val), 1)
    {
      prev := val;
      val := val + 1;
    }

    /** operator+=(n). */
    method AddAssign(n: int)
      modifies this
      ensures val == RevPlus(old(val), n)
    {
      val := val - n;
    }

    /** operator-=(n). */
    method SubAssign(n: int)
      modifies this
      ensures val == RevMinus(old(val), n)
    {
      val := val + n;
    }
  }
}
