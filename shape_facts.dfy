/** Facts about shapes, arenas and the subtree replacement `Plug`, used by the
    proofs of the tree engine in tree.dfy. */
module ShapeFacts {
  import opened TreeShape

  /** `b` agrees with `a` on every arena slot outside `ex`. */
  ghost predicate Agree(a: Links, b: Links, ex: set<int>)
  {
    |b.parent| >= |a.parent| && |b.left| >= |a.left| && |b.right| >= |a.right| &&
    forall i :: 0 <= i < |a.parent| && i < |a.left| && i < |a.right| && i !in ex ==>
      b.parent[i] == a.parent[i] && b.left[i] == a.left[i] && b.right[i] == a.right[i]
  }

  // ---------------------------------------------------------------------
  // Listing, membership, subtrees

  lemma {:induction false} InOrderIds(s: Shape)
    ensures forall n :: n in InOrder(s) <==> n in Ids(s)
    ensures |InOrder(s)| == Size(s)
  {
    match s
    case Nil =>
    case Node(_, l, r) => InOrderIds(l); InOrderIds(r);
  }

  lemma {:induction false} LinkedBound(s: Shape, q: int, a: Links)
    requires Linked(s, q, a)
    ensures forall n :: n in Ids(s) ==> n < |a.parent| && n < |a.left| && n < |a.right|
  {
    match s
    case Nil =>
    case Node(id, l, r) => LinkedBound(l, id, a); LinkedBound(r, id, a);
  }

  lemma {:induction false} LinkedFrame(s: Shape, q: int, a: Links, b: Links, ex: set<int>)
    requires Linked(s, q, a) && Agree(a, b, ex) && Ids(s) !! ex
    ensures Linked(s, q, b)
  {
    match s
    case Nil =>
    case Node(id, l, r) => LinkedFrame(l, id, a, b, ex); LinkedFrame(r, id, a, b, ex);
  }

  lemma {:induction false} SubtreeNotIn(s: Shape, n: int)
    requires n !in Ids(s)
    ensures Subtree(s, n) == Nil
  {
    match s
    case Nil =>
    case Node(_, _, r) => SubtreeNotIn(r, n);
  }

  lemma {:induction false} SubtreeWithin(s: Shape, n: int)
    requires n in Ids(s)
    ensures Subtree(s, n).Node? && Subtree(s, n).id == n
    ensures Ids(Subtree(s, n)) <= Ids(s)
    ensures Size(Subtree(s, n)) <= Size(s)
    ensures Distinct(s) ==> Distinct(Subtree(s, n))
  {
    match s
    case Node(id, l, r) =>
      if id != n {
        if n in Ids(l) { SubtreeWithin(l, n); } else { SubtreeWithin(r, n); }
      }
  }

  lemma {:induction false} SubtreeNested(s: Shape, n: int, m: int)
    requires Distinct(s) && n in Ids(s) && m in Ids(Subtree(s, n))
    ensures Subtree(s, m) == Subtree(Subtree(s, n), m)
  {
    match s
    case Node(id, l, r) =>
      if id != n {
        if n in Ids(l) {
          SubtreeWithin(l, n);
          SubtreeNested(l, n, m);
        } else {
          SubtreeWithin(r, n);
          SubtreeNested(r, n, m);
        }
      }
  }

  /** The subtree at `n` hangs below n's parent field, which lies outside it. */
  lemma {:induction false} SubtreeLinked(s: Shape, q: int, a: Links, n: int)
    requires Distinct(s) && Linked(s, q, a) && q !in Ids(s) && n in Ids(s)
    ensures n < |a.parent| && n < |a.left| && n < |a.right|
    ensures Linked(Subtree(s, n), a.parent[n], a)
    ensures a.parent[n] !in Ids(Subtree(s, n))
    ensures a.parent[n] == q <==> n == RootOf(s)
    ensures a.parent[n] != q ==> a.parent[n] in Ids(s)
  {
    match s
    case Node(id, l, r) =>
      if id != n {
        if n in Ids(l) { SubtreeLinked(l, id, a, n); } else { SubtreeLinked(r, id, a, n); }
      }
  }

  /** Following a child link leads to the child subtree. */
  lemma SubtreeChildren(s: Shape, q: int, a: Links, n: int)
    requires Distinct(s) && Linked(s, q, a) && q !in Ids(s) && n in Ids(s)
    ensures n < |a.parent| && n < |a.left| && n < |a.right|
    ensures Subtree(s, n).Node?
    ensures Subtree(s, a.left[n]) == Subtree(s, n).left
    ensures Subtree(s, a.right[n]) == Subtree(s, n).right
    ensures a.left[n] != -1 ==> a.left[n] in Ids(s) && a.left[n] != a.right[n]
    ensures a.right[n] != -1 ==> a.right[n] in Ids(s)
  {
    SubtreeWithin(s, n);
    SubtreeLinked(s, q, a, n);
    var t := Subtree(s, n);
    if t.left.Nil? {
      SubtreeNotIn(s, -1);
    } else {
      SubtreeNested(s, n, t.left.id);
    }
    if t.right.Nil? {
      SubtreeNotIn(s, -1);
    } else {
      SubtreeNested(s, n, t.right.id);
    }
  }

  /** A node below the top has its parent in the tree, one level up, and is
      one of that parent's children. */
  lemma {:induction false} ParentLink(s: Shape, q: int, a: Links, n: int)
    requires Distinct(s) && Linked(s, q, a) && q !in Ids(s) && n in Ids(s) && n != RootOf(s)
    ensures n < |a.parent|
    ensures a.parent[n] in Ids(s) && a.parent[n] < |a.left| && a.parent[n] < |a.right|
    ensures a.left[a.parent[n]] == n || a.right[a.parent[n]] == n
    ensures Depth(s, a.parent[n]) + 1 == Depth(s, n)
  {
    SubtreeLinked(s, q, a, n);
    LinkedBound(s, q, a);
    match s
    case Node(id, l, r) =>
      if n in Ids(l) {
        if n != RootOf(l) { ParentLink(l, id, a, n); }
      } else {
        if n != RootOf(r) { ParentLink(r, id, a, n); }
      }
  }

  // ---------------------------------------------------------------------
  // Plug

  lemma {:induction false} PlugIds(s: Shape, x: int, u: Shape)
    requires Distinct(s) && x in Ids(s)
    ensures Ids(Plug(s, x, u)) == Ids(s) - Ids(Subtree(s, x)) + Ids(u)
  {
    match s
    case Node(id, l, r) =>
      if id != x {
        if x in Ids(l) { SubtreeWithin(l, x); PlugIds(l, x, u); }
        else { SubtreeWithin(r, x); PlugIds(r, x, u); }
      }
  }

  lemma {:induction false} PlugDistinct(s: Shape, x: int, u: Shape)
    requires Distinct(s) && x in Ids(s) && Distinct(u)
    requires Ids(u) !! Ids(s) - Ids(Subtree(s, x))
    ensures Distinct(Plug(s, x, u))
  {
    match s
    case Node(id, l, r) =>
      if id != x {
        if x in Ids(l) {
          SubtreeWithin(l, x);
          PlugIds(l, x, u);
          PlugDistinct(l, x, u);
        } else {
          SubtreeWithin(r, x);
          PlugIds(r, x, u);
          PlugDistinct(r, x, u);
        }
      }
  }

  /** A subtree occupies a contiguous stretch of the listing. */
  lemma {:induction false} SegmentInOrder(s: Shape, x: int)
    requires x in Ids(s)
    ensures InOrder(s) == Before(s, x) + InOrder(Subtree(s, x)) + After(s, x)
  {
    match s
    case Node(id, l, r) =>
      if id != x {
        if x in Ids(l) {
          SegmentInOrder(l, x);
          assert InOrder(s) == InOrder(l) + [id] + InOrder(r);
        } else {
          SegmentInOrder(r, x);
          assert InOrder(s) == InOrder(l) + [id] + InOrder(r);
        }
      }
  }

  /** Replacing the subtree at `x` changes only the middle of the listing. */
  lemma {:induction false} PlugInOrder(s: Shape, x: int, u: Shape)
    requires x in Ids(s)
    ensures InOrder(Plug(s, x, u)) == Before(s, x) + InOrder(u) + After(s, x)
  {
    match s
    case Node(id, l, r) =>
      if id != x {
        if x in Ids(l) {
          PlugInOrder(l, x, u);
          assert Plug(s, x, u) == Node(id, Plug(l, x, u), r);
          assert InOrder(Plug(s, x, u)) == InOrder(Plug(l, x, u)) + [id] + InOrder(r);
        } else {
          PlugInOrder(r, x, u);
          assert Plug(s, x, u) == Node(id, l, Plug(r, x, u));
          assert InOrder(Plug(s, x, u)) == InOrder(l) + [id] + InOrder(Plug(r, x, u));
        }
      }
  }

  /** The context lemma: if the arena realises the new subtree `u` below x's old
      parent `p`, agrees with the old arena on the rest of the tree, and p's
      child field that pointed to `x` now points to u's top, the arena realises
      the whole rewritten tree. */
  lemma {:induction false} PlugLinked(s: Shape, q: int, a: Links, x: int, u: Shape, b: Links, ex: set<int>, p: int)
    requires Distinct(s) && Linked(s, q, a) && q !in Ids(s) && x in Ids(s)
    requires x < |a.parent| && p == a.parent[x]
    requires Linked(u, p, b) && Agree(a, b, ex)
    requires (Ids(s) - Ids(Subtree(s, x))) * ex <= {p}
    requires x != RootOf(s) ==> Repointed(a, b, p, x, RootOf(u))
    ensures Linked(Plug(s, x, u), q, b)
    decreases s, 1
  {
    if x != RootOf(s) {
      if x in Ids(s.left) {
        PlugLinkedLeft(s, q, a, x, u, b, ex, p);
      } else {
        PlugLinkedRight(s, q, a, x, u, b, ex, p);
      }
    }
  }

  /** p's child field that held `x` now holds `y`; its other fields are kept. */
  ghost predicate Repointed(a: Links, b: Links, p: int, x: int, y: int)
  {
    0 <= p < |a.parent| && p < |a.left| && p < |a.right| &&
    p < |b.parent| && p < |b.left| && p < |b.right| && b.parent[p] == a.parent[p] &&
    (a.left[p] == x ==> b.left[p] == y && b.right[p] == a.right[p]) &&
    (a.left[p] != x ==> b.right[p] == y && b.left[p] == a.left[p])
  }

  lemma {:induction false} PlugLinkedLeft(s: Shape, q: int, a: Links, x: int, u: Shape, b: Links, ex: set<int>, p: int)
    requires Distinct(s) && Linked(s, q, a) && q !in Ids(s) && s.Node? && x in Ids(s.left)
    requires x < |a.parent| && p == a.parent[x]
    requires Linked(u, p, b) && Agree(a, b, ex)
    requires (Ids(s) - Ids(Subtree(s, x))) * ex <= {p}
    requires Repointed(a, b, p, x, RootOf(u))
    ensures Linked(Plug(s, x, u), q, b)
    decreases s, 0
  {
    var Node(id, l, r) := s;
    assert id < |a.parent| && id < |a.left| && id < |a.right|;
    SubtreeWithin(l, x);
    SubtreeLinked(l, id, a, x);
    assert Subtree(s, x) == Subtree(l, x);
    assert Ids(r) !! ex by {
      assert Ids(r) <= Ids(s) - Ids(Subtree(s, x));
      assert p !in Ids(r);
      assert forall z :: z in Ids(r) && z in ex ==> z in (Ids(s) - Ids(Subtree(s, x))) * ex;
    }
    LinkedFrame(r, id, a, b, ex);
    assert Plug(s, x, u) == Node(id, Plug(l, x, u), r);
    if x != RootOf(l) {
      assert id !in ex by {
        assert id in Ids(s) - Ids(Subtree(s, x));
        assert p in Ids(l) && id != p;
        assert id in ex ==> id in (Ids(s) - Ids(Subtree(s, x))) * ex;
      }
      PlugLinked(l, id, a, x, u, b, ex, p);
    } else {
      assert p == id && Plug(l, x, u) == u;
    }
  }

  lemma {:induction false} PlugLinkedRight(s: Shape, q: int, a: Links, x: int, u: Shape, b: Links, ex: set<int>, p: int)
    requires Distinct(s) && Linked(s, q, a) && q !in Ids(s) && s.Node? && x in Ids(s) && x != s.id && x !in Ids(s.left)
    requires x < |a.parent| && p == a.parent[x]
    requires Linked(u, p, b) && Agree(a, b, ex)
    requires (Ids(s) - Ids(Subtree(s, x))) * ex <= {p}
    requires Repointed(a, b, p, x, RootOf(u))
    ensures Linked(Plug(s, x, u), q, b)
    decreases s, 0
  {
    var Node(id, l, r) := s;
    assert id < |a.parent| && id < |a.left| && id < |a.right|;
    assert x in Ids(r);
    SubtreeWithin(r, x);
    SubtreeLinked(r, id, a, x);
    assert Subtree(s, x) == Subtree(r, x);
    assert Ids(l) !! ex by {
      assert Ids(l) <= Ids(s) - Ids(Subtree(s, x));
      assert p !in Ids(l);
      assert forall z :: z in Ids(l) && z in ex ==> z in (Ids(s) - Ids(Subtree(s, x))) * ex;
    }
    LinkedFrame(l, id, a, b, ex);
    assert Plug(s, x, u) == Node(id, l, Plug(r, x, u));
    if x != RootOf(r) {
      assert id !in ex by {
        assert id in Ids(s) - Ids(Subtree(s, x));
        assert p in Ids(r) && id != p;
        assert id in ex ==> id in (Ids(s) - Ids(Subtree(s, x))) * ex;
      }
      PlugLinked(r, id, a, x, u, b, ex, p);
    } else {
      assert p == id && Plug(r, x, u) == u;
      assert a.left[id] != x;
    }
  }

  /** Nodes outside the replaced subtree keep their depth. */
  lemma {:induction false} PlugDepth(s: Shape, x: int, u: Shape, n: int)
    requires Distinct(s) && x in Ids(s) && n in Ids(s) - Ids(Subtree(s, x))
    requires Ids(u) !! Ids(s) - Ids(Subtree(s, x))
    ensures Depth(Plug(s, x, u), n) == Depth(s, n)
  {
    match s
    case Node(id, l, r) =>
      if id != x && id != n {
        if x in Ids(l) {
          SubtreeWithin(l, x);
          PlugIds(l, x, u);
          if n in Ids(l) { PlugDepth(l, x, u, n); }
        } else {
          SubtreeWithin(r, x);
          PlugIds(r, x, u);
          if n in Ids(r) { PlugDepth(r, x, u, n); }
        }
      }
  }

  lemma {:induction false} PlugPhi(s: Shape, x: int, u: Shape)
    requires x in Ids(s) && Size(u) == Size(Subtree(s, x))
    ensures Size(Plug(s, x, u)) == Size(s)
    ensures Phi(Plug(s, x, u)) + Phi(Subtree(s, x)) == Phi(s) + Phi(u)
  {
    match s
    case Node(id, l, r) =>
      if id != x {
        if x in Ids(l) { PlugPhi(l, x, u); } else { PlugPhi(r, x, u); }
      }
  }

  /** An ancestor does not lie in the subtree of its descendant. */
  lemma SubtreeProper(s: Shape, n: int, x: int)
    requires Distinct(s) && n in Ids(s) && x in Ids(Subtree(s, n)) && x != n
    ensures n !in Ids(Subtree(s, x))
  {
    SubtreeWithin(s, n);
    SubtreeNested(s, n, x);
    var t := Subtree(s, n);
    if x in Ids(t.left) {
      SubtreeWithin(t.left, x);
    } else {
      SubtreeWithin(t.right, x);
    }
  }

  /** Rewriting below `n` rewrites the subtree at `n` in the same way. */
  lemma {:induction false} SubtreePlugBelow(s: Shape, n: int, x: int, u: Shape)
    requires Distinct(s) && n in Ids(s) && x in Ids(Subtree(s, n)) && x != n && n !in Ids(u)
    ensures Subtree(Plug(s, x, u), n) == Plug(Subtree(s, n), x, u)
  {
    SubtreeWithin(s, n);
    match s
    case Node(id, l, r) =>
      if id != n {
        if n in Ids(l) {
          SubtreeWithin(l, n);
          assert x in Ids(l) && x != id;
          SubtreeProper(l, n, x);
          PlugIds(l, x, u);
          SubtreePlugBelow(l, n, x, u);
          assert Plug(s, x, u) == Node(id, Plug(l, x, u), r);
        } else {
          SubtreeWithin(r, n);
          assert x in Ids(r) && x !in Ids(l) && x != id;
          SubtreePlugBelow(r, n, x, u);
          assert Plug(s, x, u) == Node(id, l, Plug(r, x, u));
        }
      } else {
        assert Plug(s, x, u).Node? && Plug(s, x, u).id == id;
      }
  }

  // ---------------------------------------------------------------------
  // Position of a node in the listing

  lemma {:induction false} BeforeNested(s: Shape, n: int, m: int)
    requires Distinct(s) && n in Ids(s) && m in Ids(Subtree(s, n))
    ensures Before(s, m) == Before(s, n) + Before(Subtree(s, n), m)
    ensures After(s, m) == After(Subtree(s, n), m) + After(s, n)
  {
    match s
    case Node(id, l, r) =>
      if id != n {
        if n in Ids(l) {
          SubtreeWithin(l, n);
          BeforeNested(l, n, m);
        } else {
          SubtreeWithin(r, n);
          BeforeNested(r, n, m);
        }
      }
  }

  /** What lies before and after a left child, in terms of its parent. */
  lemma LeftChildPosition(s: Shape, n: int)
    requires Distinct(s) && n in Ids(s)
    requires Subtree(s, n).Node? && Subtree(s, n).left.Node?
    ensures Before(s, Subtree(s, n).left.id) == Before(s, n)
    ensures After(s, Subtree(s, n).left.id) == [n] + InOrder(Subtree(s, n).right) + After(s, n)
  {
    SubtreeWithin(s, n);
    var t := Subtree(s, n);
    var c := t.left.id;
    assert Before(t, c) == [] && After(t, c) == [n] + InOrder(t.right);
    BeforeNested(s, n, c);
  }

  /** What lies before and after a right child, in terms of its parent. */
  lemma RightChildPosition(s: Shape, n: int)
    requires Distinct(s) && n in Ids(s)
    requires Subtree(s, n).Node? && Subtree(s, n).right.Node?
    ensures Before(s, Subtree(s, n).right.id) == Before(s, n) + InOrder(Subtree(s, n).left) + [n]
    ensures After(s, Subtree(s, n).right.id) == After(s, n)
  {
    SubtreeWithin(s, n);
    var t := Subtree(s, n);
    var c := t.right.id;
    assert c !in Ids(t.left);
    assert Before(t, c) == InOrder(t.left) + [n] && After(t, c) == [];
    BeforeNested(s, n, c);
  }

  // ---------------------------------------------------------------------
  // Local rewritings

  lemma RotLeftFacts(t: Shape)
    requires t.Node? && t.right.Node?
    ensures InOrder(RotLeft(t)) == InOrder(t)
    ensures Ids(RotLeft(t)) == Ids(t)
    ensures Size(RotLeft(t)) == Size(t)
    ensures Phi(RotLeft(t)) + 1 + Size(t.right.right) == Phi(t)
  {
    var Node(x, a, Node(y, b, c)) := t;
    assert RotLeft(t) == Node(y, Node(x, a, b), c);
    assert InOrder(t) == InOrder(a) + [x] + (InOrder(b) + [y] + InOrder(c));
  }

  lemma RotLeftDistinct(t: Shape)
    requires t.Node? && t.right.Node? && Distinct(t)
    ensures Distinct(RotLeft(t))
  {
    var Node(x, a, Node(y, b, c)) := t;
    assert RotLeft(t) == Node(y, Node(x, a, b), c);
    assert Distinct(Node(x, a, b));
    assert Ids(Node(x, a, b)) == Ids(a) + {x} + Ids(b);
    assert y !in Ids(a) + {x} + Ids(b);
    assert (Ids(a) + {x} + Ids(b)) !! Ids(c);
  }

  lemma RotRightFacts(t: Shape)
    requires t.Node? && t.left.Node?
    ensures InOrder(RotRight(t)) == InOrder(t)
    ensures Ids(RotRight(t)) == Ids(t)
    ensures Size(RotRight(t)) == Size(t)
    ensures Phi(RotRight(t)) == Phi(t) + 1 + Size(t.right)
  {
    var Node(y, Node(x, a, b), c) := t;
    var t' := Node(x, a, Node(y, b, c));
    assert RotRight(t) == t';
    calc {
      InOrder(t');
      InOrder(a) + [x] + (InOrder(b) + [y] + InOrder(c));
      (InOrder(a) + [x] + InOrder(b)) + [y] + InOrder(c);
      InOrder(t);
    }
    calc {
      Phi(t');
      Phi(a) + Phi(Node(y, b, c)) + Size(Node(y, b, c));
      Phi(a) + (Phi(b) + Phi(c) + Size(c)) + (Size(b) + 1 + Size(c));
      (Phi(a) + Phi(b) + Size(b)) + Phi(c) + Size(c) + 1 + Size(c);
      Phi(Node(x, a, b)) + Phi(c) + Size(c) + 1 + Size(c);
      Phi(t) + 1 + Size(c);
    }
  }

  lemma RotRightDistinct(t: Shape)
    requires t.Node? && t.left.Node? && Distinct(t)
    ensures Distinct(RotRight(t))
  {
    var Node(y, Node(x, a, b), c) := t;
    assert RotRight(t) == Node(x, a, Node(y, b, c));
    assert Distinct(Node(y, b, c));
    assert Ids(Node(y, b, c)) == Ids(b) + {y} + Ids(c);
    assert x !in Ids(b) + {y} + Ids(c);
    assert Ids(a) !! (Ids(b) + {y} + Ids(c));
  }

  /** The arena after rotate_left realises the rotated subtree. */
  lemma RotLeftLinked(t: Shape, p: int, a: Links, b: Links, ex: set<int>)
    requires Distinct(t) && t.Node? && t.right.Node? && Linked(t, p, a) && p !in Ids(t)
    requires Agree(a, b, ex) && Ids(t) * ex <= {t.id, t.right.id, RootOf(t.right.left)}
    requires var x, y, bt := t.id, t.right.id, t.right.left;
      x < |b.parent| && x < |b.left| && x < |b.right| &&
      y < |b.parent| && y < |b.left| && y < |b.right| &&
      b.parent[y] == p && b.left[y] == x && b.right[y] == RootOf(t.right.right) &&
      b.parent[x] == y && b.left[x] == RootOf(t.left) && b.right[x] == RootOf(bt) &&
      (bt.Node? ==> (bt.id < |b.parent| && bt.id < |b.left| && bt.id < |b.right| &&
         b.parent[bt.id] == x && b.left[bt.id] == RootOf(bt.left) && b.right[bt.id] == RootOf(bt.right)))
    ensures Linked(RotLeft(t), p, b)
  {
    var Node(x, aa, Node(y, bt, c)) := t;
    assert RotLeft(t) == Node(y, Node(x, aa, bt), c);
    LinkedAside(t, aa, ex, a, b, x);
    LinkedAside(t, c, ex, a, b, y);
    assert Linked(Node(y, bt, c), x, a) && Linked(bt, y, a);
    LinkedBelow(t, bt, x, ex, a, b);
  }

  /** The arena after rotate_right realises the rotated subtree. */
  lemma RotRightLinked(t: Shape, p: int, a: Links, b: Links, ex: set<int>)
    requires Distinct(t) && t.Node? && t.left.Node? && Linked(t, p, a) && p !in Ids(t)
    requires Agree(a, b, ex) && Ids(t) * ex <= {t.id, t.left.id, RootOf(t.left.right)}
    requires var y, x, bt := t.id, t.left.id, t.left.right;
      x < |b.parent| && x < |b.left| && x < |b.right| &&
      y < |b.parent| && y < |b.left| && y < |b.right| &&
      b.parent[x] == p && b.right[x] == y && b.left[x] == RootOf(t.left.left) &&
      b.parent[y] == x && b.right[y] == RootOf(t.right) && b.left[y] == RootOf(bt) &&
      (bt.Node? ==> (bt.id < |b.parent| && bt.id < |b.left| && bt.id < |b.right| &&
         b.parent[bt.id] == y && b.left[bt.id] == RootOf(bt.left) && b.right[bt.id] == RootOf(bt.right)))
    ensures Linked(RotRight(t), p, b)
  {
    var Node(y, Node(x, aa, bt), c) := t;
    assert RotRight(t) == Node(x, aa, Node(y, bt, c));
    LinkedAside(t, aa, ex, a, b, x);
    LinkedAside(t, c, ex, a, b, y);
    assert Linked(Node(x, aa, bt), y, a) && Linked(bt, x, a);
    LinkedBelow(t, bt, y, ex, a, b);
  }

  /** The subtrees a rotation moves as a whole: a grandchild of the top that
      contains none of the three rewired nodes keeps its links. */
  lemma LinkedAside(t: Shape, g: Shape, ex: set<int>, a: Links, b: Links, q: int)
    requires Distinct(t) && t.Node? && Agree(a, b, ex)
    requires (t.right.Node? && (g == t.left || g == t.right.right) && Ids(t) * ex <= {t.id, t.right.id, RootOf(t.right.left)}) ||
             (t.left.Node? && (g == t.right || g == t.left.left) && Ids(t) * ex <= {t.id, t.left.id, RootOf(t.left.right)})
    requires Linked(g, q, a)
    ensures Linked(g, q, b)
  {
    var Node(x, l, r) := t;
    assert Ids(g) <= Ids(t);
    if r.Node? && (g == l || g == r.right) && Ids(t) * ex <= {x, r.id, RootOf(r.left)} {
      assert Distinct(r);
      assert Ids(r) == Ids(r.left) + {r.id} + Ids(r.right);
      assert x !in Ids(g) && r.id !in Ids(g) && RootOf(r.left) !in Ids(g);
    } else {
      assert Distinct(l);
      assert Ids(l) == Ids(l.left) + {l.id} + Ids(l.right);
      assert x !in Ids(g) && l.id !in Ids(g) && RootOf(l.right) !in Ids(g);
    }
    assert forall z :: z in Ids(g) && z in ex ==> z in Ids(t) * ex;
    LinkedFrame(g, q, a, b, ex);
  }

  /** The inner grandchild a rotation moves across: only its top's parent changes. */
  lemma LinkedBelow(t: Shape, g: Shape, q: int, ex: set<int>, a: Links, b: Links)
    requires Distinct(t) && t.Node? && Agree(a, b, ex)
    requires (t.right.Node? && g == t.right.left && Ids(t) * ex <= {t.id, t.right.id, RootOf(g)}) ||
             (t.left.Node? && g == t.left.right && Ids(t) * ex <= {t.id, t.left.id, RootOf(g)})
    requires g.Node? ==> (Linked(g.left, g.id, a) && Linked(g.right, g.id, a) &&
      g.id < |b.parent| && g.id < |b.left| && g.id < |b.right| &&
      b.parent[g.id] == q && b.left[g.id] == RootOf(g.left) && b.right[g.id] == RootOf(g.right))
    ensures Linked(g, q, b)
  {
    if g.Node? {
      var Node(x, l, r) := t;
      var c := if r.Node? && g == r.left && Ids(t) * ex <= {x, r.id, RootOf(g)} then r else l;
      assert Distinct(c) && Distinct(g);
      assert Ids(c) == Ids(c.left) + {c.id} + Ids(c.right);
      assert Ids(g) == Ids(g.left) + {g.id} + Ids(g.right);
      assert Ids(g) <= Ids(t);
      assert x !in Ids(g.left) && c.id !in Ids(g.left) && g.id !in Ids(g.left);
      assert x !in Ids(g.right) && c.id !in Ids(g.right) && g.id !in Ids(g.right);
      assert forall z :: z in Ids(g.left) && z in ex ==> z in Ids(t) * ex;
      assert forall z :: z in Ids(g.right) && z in ex ==> z in Ids(t) * ex;
      LinkedFrame(g.left, g.id, a, b, ex);
      LinkedFrame(g.right, g.id, a, b, ex);
    }
  }

  // ---------------------------------------------------------------------
  // Keys along a listing

  lemma KeysOfConcat(xs: seq<nat>, ys: seq<nat>, k: seq<int>)
    ensures KeysOf(xs + ys, k) == KeysOf(xs, k) + KeysOf(ys, k)
  {
    assert forall i :: 0 <= i < |xs + ys| ==> KeysOf(xs + ys, k)[i] == (KeysOf(xs, k) + KeysOf(ys, k))[i];
  }

  /** Keys of slots below the old length do not change when the arena grows. */
  lemma KeysOfExtend(xs: seq<nat>, k: seq<int>, v: int)
    requires forall j :: j in xs ==> j < |k|
    ensures KeysOf(xs, k + [v]) == KeysOf(xs, k)
  {
    forall i | 0 <= i < |xs|
      ensures KeysOf(xs, k + [v])[i] == KeysOf(xs, k)[i]
    {
      assert xs[i] in xs;
    }
  }

  lemma SortedSplit(xs: seq<int>, ys: seq<int>)
    requires StrictlySorted(xs + ys)
    ensures StrictlySorted(xs) && StrictlySorted(ys)
    ensures forall i, j :: 0 <= i < |xs| && 0 <= j < |ys| ==> xs[i] < ys[j]
  {
    assert forall i :: 0 <= i < |xs| ==> (xs + ys)[i] == xs[i];
    assert forall j :: 0 <= j < |ys| ==> (xs + ys)[|xs| + j] == ys[j];
  }

  /** The keys of a subtree: left keys, the top's key, right keys, all sorted. */
  lemma SubtreeKeys(s: Shape, n: int, k: seq<int>)
    requires n in Ids(s) && StrictlySorted(KeysOf(InOrder(s), k))
    ensures Subtree(s, n).Node?
    ensures var t := Subtree(s, n);
      KeysOf(InOrder(t), k) == KeysOf(InOrder(t.left), k) + [KeyOf(k, n)] + KeysOf(InOrder(t.right), k) &&
      StrictlySorted(KeysOf(InOrder(t), k)) &&
      StrictlySorted(KeysOf(InOrder(t.left), k)) && StrictlySorted(KeysOf(InOrder(t.right), k)) &&
      (forall kk :: kk in KeysOf(InOrder(t.left), k) ==> kk < KeyOf(k, n)) &&
      (forall kk :: kk in KeysOf(InOrder(t.right), k) ==> KeyOf(k, n) < kk)
  {
    SubtreeWithin(s, n);
    SegmentInOrder(s, n);
    var t := Subtree(s, n);
    KeysOfConcat(Before(s, n) + InOrder(t), After(s, n), k);
    KeysOfConcat(Before(s, n), InOrder(t), k);
    SortedSplit(KeysOf(Before(s, n), k) + KeysOf(InOrder(t), k), KeysOf(After(s, n), k));
    SortedSplit(KeysOf(Before(s, n), k), KeysOf(InOrder(t), k));
    KeysOfConcat(InOrder(t.left) + [n], InOrder(t.right), k);
    KeysOfConcat(InOrder(t.left), [n], k);
    var kl, kr := KeysOf(InOrder(t.left), k), KeysOf(InOrder(t.right), k);
    assert InOrder(t) == InOrder(t.left) + [n] + InOrder(t.right);
    assert KeysOf([n], k) == [KeyOf(k, n)];
    SortedSplit(kl + [KeyOf(k, n)], kr);
    SortedSplit(kl, [KeyOf(k, n)]);
    forall kk | kk in kl
      ensures kk < KeyOf(k, n)
    {
      var i :| 0 <= i < |kl| && kl[i] == kk;
      assert [KeyOf(k, n)][0] == KeyOf(k, n);
    }
    forall kk | kk in kr
      ensures KeyOf(k, n) < kk
    {
      var j :| 0 <= j < |kr| && kr[j] == kk;
      assert (kl + [KeyOf(k, n)])[|kl|] == KeyOf(k, n);
    }
  }

  /** The first index whose key is not below `k` is determined by its two properties. */
  lemma FirstNotBelowIs(ks: seq<int>, k: int, i: nat)
    requires i <= |ks| && (forall j :: 0 <= j < i ==> ks[j] < k) && (i < |ks| ==> k <= ks[i])
    ensures FirstNotBelow(ks, k) == i
  {
  }

  /** lower's loop steps right past a node whose key is below `k`: everything up
      to the right subtree is below `k`. */
  lemma LowerPass(ids: seq<nat>, off: nat, t: Shape, key: seq<int>, k: int)
    requires t.Node? && off <= |ids| && ids[off..] == InOrder(t)
    requires forall j :: 0 <= j < off ==> KeysOf(ids, key)[j] < k
    requires forall kk :: kk in KeysOf(InOrder(t.left), key) ==> kk < KeyOf(key, t.id)
    requires KeyOf(key, t.id) < k
    ensures off + |InOrder(t.left)| + 1 <= |ids|
    ensures ids[off + |InOrder(t.left)| + 1..] == InOrder(t.right)
    ensures forall j :: 0 <= j < off + |InOrder(t.left)| + 1 ==> KeysOf(ids, key)[j] < k
  {
    var l := InOrder(t.left);
    assert ids[off..] == l + [t.id] + InOrder(t.right);
    assert ids[off + |l| + 1..] == InOrder(t.right) by {
      assert ids[off + |l| + 1..] == ids[off..][|l| + 1..];
    }
    forall j | off <= j < off + |l| + 1
      ensures KeysOf(ids, key)[j] < k
    {
      if j < off + |l| {
        assert ids[j] == l[j - off];
        assert KeysOf(l, key)[j - off] in KeysOf(l, key);
      } else {
        assert ids[j] == t.id;
      }
    }
  }

  /** lower stops at a node whose key is not below `k`: the answer is the
      answer for its left subtree, or the node itself when that has none. */
  lemma LowerStop(ids: seq<nat>, off: nat, t: Shape, key: seq<int>, k: int)
    requires t.Node? && off <= |ids| && ids[off..] == InOrder(t)
    requires forall j :: 0 <= j < off ==> KeysOf(ids, key)[j] < k
    requires k <= KeyOf(key, t.id)
    ensures var l := InOrder(t.left);
      var i := FirstNotBelow(KeysOf(l, key), k);
      FirstNotBelow(KeysOf(ids, key), k) == off + i && off + i < |ids| &&
      (i < |l| ==> ids[off + i] == l[i]) && (i == |l| ==> ids[off + i] == t.id)
  {
    var l := InOrder(t.left);
    var ks := KeysOf(ids, key);
    var kl := KeysOf(l, key);
    var i := FirstNotBelow(kl, k);
    assert InOrder(t) == l + [t.id] + InOrder(t.right);
    assert forall j :: 0 <= j < |l| ==> ids[off + j] == l[j] && ks[off + j] == kl[j];
    assert ids[off + |l|] == t.id;
    FirstNotBelowIs(ks, k, off + i);
  }

  /** Inserting a handle into a listing inserts its key into the key listing. */
  lemma KeysOfInsert(xs: seq<nat>, i: nat, n: nat, k: seq<int>)
    requires i <= |xs|
    ensures KeysOf(xs[..i] + [n] + xs[i..], k) == KeysOf(xs, k)[..i] + [KeyOf(k, n)] + KeysOf(xs, k)[i..]
  {
    var ys := xs[..i] + [n] + xs[i..];
    var ks := KeysOf(xs, k);
    assert forall j :: 0 <= j < |ys| ==>
      KeysOf(ys, k)[j] == (ks[..i] + [KeyOf(k, n)] + ks[i..])[j];
  }

  /** A key that lies strictly between its neighbours at position `i` keeps a
      sorted listing sorted when inserted there, and was not in it before. */
  lemma SortedInsertAt(ks: seq<int>, i: nat, k: int)
    requires StrictlySorted(ks) && i <= |ks|
    requires i > 0 ==> ks[i - 1] < k
    requires i < |ks| ==> k < ks[i]
    ensures StrictlySorted(ks[..i] + [k] + ks[i..])
    ensures k !in ks && FirstNotBelow(ks, k) == i
  {
    var ys := ks[..i] + [k] + ks[i..];
    assert forall j :: 0 <= j < i ==> ys[j] == ks[j];
    assert ys[i] == k;
    assert forall j :: i < j < |ys| ==> ys[j] == ks[j - 1];
    forall p, q | 0 <= p < q < |ys|
      ensures ys[p] < ys[q]
    {
      if q < i {
      } else if p > i {
      } else if p == i {
        assert i <= q - 1;
      } else if q == i {
        assert p <= i - 1;
      } else {
        assert ks[p] <= ks[i - 1] < k < ks[i] <= ks[q - 1];
      }
    }
    forall j | 0 <= j < |ks|
      ensures ks[j] != k
    {
      if j < i { assert ks[j] <= ks[i - 1]; } else { assert ks[i] <= ks[j]; }
    }
    FirstNotBelowIs(ks, k, i);
  }

  /** A handle inserted at the boundary between two parts of a listing. */
  lemma Splice(xs: seq<nat>, ys: seq<nat>, zs: seq<nat>, n: nat)
    ensures (xs + ys + zs)[..|xs|] + [n] + (xs + ys + zs)[|xs|..] == xs + ([n] + ys) + zs
    ensures (xs + ys + zs)[..|xs + ys|] + [n] + (xs + ys + zs)[|xs + ys|..] == xs + (ys + [n]) + zs
  {
    assert (xs + ys + zs)[..|xs|] == xs && (xs + ys + zs)[|xs|..] == ys + zs;
    assert (xs + ys + zs)[..|xs + ys|] == xs + ys && (xs + ys + zs)[|xs + ys|..] == zs;
  }

  /** The handle at the join of a middle part, cut out of or swapped in a listing. */
  lemma Excise(o: seq<nat>, xs: seq<nat>, ys: seq<nat>, zs: seq<nat>, ws: seq<nat>, m: nat, y: nat)
    requires o == xs + (ys + [m] + zs) + ws
    ensures |xs| + |ys| < |o| && o[|xs| + |ys|] == m
    ensures o[..|xs| + |ys|] + o[|xs| + |ys| + 1..] == xs + (ys + zs) + ws
    ensures o[|xs| + |ys| := y] == xs + (ys + [y] + zs) + ws
  {
    var j := |xs| + |ys|;
    assert o[..j] == xs + ys;
    assert o[j + 1..] == zs + ws;
    assert forall p :: 0 <= p < |o| ==> o[j := y][p] == (xs + (ys + [y] + zs) + ws)[p];
  }

  /** Dropping one handle from a sorted listing drops its key and keeps the rest sorted. */
  lemma RemoveKeys(ids: seq<nat>, j: nat, key: seq<int>)
    requires j < |ids| && StrictlySorted(KeysOf(ids, key))
    ensures KeysOf(ids[..j] + ids[j + 1..], key) == KeysOf(ids, key)[..j] + KeysOf(ids, key)[j + 1..]
    ensures StrictlySorted(KeysOf(ids, key)[..j] + KeysOf(ids, key)[j + 1..])
  {
    var ks := KeysOf(ids, key);
    var ys := ids[..j] + ids[j + 1..];
    assert forall p :: 0 <= p < |ys| ==> ys[p] == if p < j then ids[p] else ids[p + 1];
    assert forall p :: 0 <= p < |ys| ==> KeysOf(ys, key)[p] == (ks[..j] + ks[j + 1..])[p];
    var rs := ks[..j] + ks[j + 1..];
    forall p, q | 0 <= p < q < |rs|
      ensures rs[p] < rs[q]
    {
      var p', q' := if p < j then p else p + 1, if q < j then q else q + 1;
      assert rs[p] == ks[p'] && rs[q] == ks[q'] && p' < q';
    }
  }

  /** The position of a key's handle in a sorted listing is where that key
      would be inserted. */
  lemma KeyPosition(ids: seq<nat>, key: seq<int>, i: nat)
    requires StrictlySorted(KeysOf(ids, key)) && i < |ids|
    ensures FirstNotBelow(KeysOf(ids, key), KeyOf(key, ids[i])) == i
  {
    FirstNotBelowIs(KeysOf(ids, key), KeyOf(key, ids[i]), i);
  }

  /** Cutting out the handle before position `i` and then putting it in the
      place of the handle at `i` drops the handle at `i`. */
  lemma DropBefore(o: seq<nat>, i: nat)
    requires 0 < i < |o|
    ensures (o[..i - 1] + o[i..])[i - 1 := o[i - 1]] == o[..i] + o[i + 1..]
  {
    var u := (o[..i - 1] + o[i..])[i - 1 := o[i - 1]];
    assert forall p :: 0 <= p < |u| ==> u[p] == (o[..i] + o[i + 1..])[p];
  }

  /** Cutting out the handle after position `i` and then putting it in the
      place of the handle at `i` drops the handle at `i`. */
  lemma DropAfter(o: seq<nat>, i: nat)
    requires i + 1 < |o|
    ensures (o[..i + 1] + o[i + 2..])[i := o[i + 1]] == o[..i] + o[i + 1..]
  {
    var u := (o[..i + 1] + o[i + 2..])[i := o[i + 1]];
    assert forall p :: 0 <= p < |u| ==> u[p] == (o[..i] + o[i + 1..])[p];
  }

  /** A subtree hung below a new parent: only the top's parent field changed
      among its nodes. */
  lemma Rehung(g: Shape, q0: int, q: int, a: Links, b: Links, ex: set<int>)
    requires Distinct(g) && Linked(g, q0, a) && Agree(a, b, ex) && Ids(g) * ex <= {RootOf(g)}
    requires g.Node? ==> (g.id < |b.parent| && g.id < |b.left| && g.id < |b.right| &&
      b.parent[g.id] == q && b.left[g.id] == a.left[g.id] && b.right[g.id] == a.right[g.id])
    ensures Linked(g, q, b)
  {
    if g.Node? {
      assert forall z :: z in Ids(g.left) && z in ex ==> z in Ids(g) * ex;
      assert forall z :: z in Ids(g.right) && z in ex ==> z in Ids(g) * ex;
      LinkedFrame(g.left, g.id, a, b, ex);
      LinkedFrame(g.right, g.id, a, b, ex);
    }
  }

  /** A handle of `s` sits at its Position in the listing. */
  lemma PositionAt(s: Shape, x: int)
    requires x in Ids(s)
    ensures Subtree(s, x).Node? && Position(s, x) < |InOrder(s)| && InOrder(s)[Position(s, x)] == x
  {
    SubtreeWithin(s, x);
    SegmentInOrder(s, x);
    var t := Subtree(s, x);
    assert InOrder(t) == InOrder(t.left) + [x] + InOrder(t.right);
  }

  /** The neighbours of `n` in a listing made of a segment L + [n] + R. */
  lemma Flanks(o: seq<nat>, xs: seq<nat>, ys: seq<nat>, n: nat, zs: seq<nat>, ws: seq<nat>)
    requires o == xs + (ys + [n] + zs) + ws
    ensures |xs| + |ys| < |o| && o[|xs| + |ys|] == n
    ensures ys != [] ==> o[|xs| + |ys| - 1] == ys[|ys| - 1]
    ensures zs != [] ==> |xs| + |ys| + 1 < |o| && o[|xs| + |ys| + 1] == zs[0]
  {
    assert o == xs + ys + [n] + zs + ws;
  }

  /** The handle just before a node with a left subtree is the last one of
      that subtree (the node max_node finds there). */
  lemma PredecessorAt(s: Shape, n: int)
    requires n in Ids(s) && Subtree(s, n).Node? && Subtree(s, n).left.Node?
    ensures InOrder(Subtree(s, n).left) != []
    ensures 0 < Position(s, n) < |InOrder(s)| && InOrder(s)[Position(s, n)] == n
    ensures InOrder(s)[Position(s, n) - 1] == Last(InOrder(Subtree(s, n).left))
  {
    var t := Subtree(s, n);
    assert InOrder(s) == Before(s, n) + (InOrder(t.left) + [n] + InOrder(t.right)) + After(s, n) by {
      SubtreeWithin(s, n);
      SegmentInOrder(s, n);
      assert InOrder(t) == InOrder(t.left) + [n] + InOrder(t.right);
    }
    assert InOrder(t.left) != [] by {
      assert InOrder(t.left) == InOrder(t.left.left) + [t.left.id] + InOrder(t.left.right);
    }
    Flanks(InOrder(s), Before(s, n), InOrder(t.left), n, InOrder(t.right), After(s, n));
  }

  /** The handle just after a node with a right subtree is the first one of
      that subtree (the node min_node finds there). */
  lemma SuccessorAt(s: Shape, n: int)
    requires n in Ids(s) && Subtree(s, n).Node? && Subtree(s, n).right.Node?
    ensures InOrder(Subtree(s, n).right) != []
    ensures Position(s, n) + 1 < |InOrder(s)| && InOrder(s)[Position(s, n)] == n
    ensures InOrder(s)[Position(s, n) + 1] == InOrder(Subtree(s, n).right)[0]
  {
    var t := Subtree(s, n);
    assert InOrder(s) == Before(s, n) + (InOrder(t.left) + [n] + InOrder(t.right)) + After(s, n) by {
      SubtreeWithin(s, n);
      SegmentInOrder(s, n);
      assert InOrder(t) == InOrder(t.left) + [n] + InOrder(t.right);
    }
    assert InOrder(t.right) != [] by {
      assert InOrder(t.right) == InOrder(t.right.left) + [t.right.id] + InOrder(t.right.right);
    }
    Flanks(InOrder(s), Before(s, n), InOrder(t.left), n, InOrder(t.right), After(s, n));
  }

  /** In a listing with strictly increasing keys a handle occurs once. */
  lemma SameIndex(ids: seq<nat>, key: seq<int>, i: nat, j: nat)
    requires StrictlySorted(KeysOf(ids, key)) && i < |ids| && j < |ids| && ids[i] == ids[j]
    ensures i == j
  {
    KeyPosition(ids, key, i);
    KeyPosition(ids, key, j);
  }
}
