/** The red-black tree engine of tree.hpp (class Tree).  Nodes live in an arena:
    slot n holds the key, the colour and the parent/left/right links of one node,
    and -1 is the null pointer.  `root` is the slot the engine writes the root
    through (in the set, the `parent` field of the sentinel node).  The ghost
    `shape` is the tree the links realise; every pointer rewiring is proved to
    realise the rewritten shape.  Keys are compared with Utils.Less, the
    default comparator less<int>. */
module RedBlack {
  import Utils
  import opened TreeShape
  import opened ShapeFacts
  import opened Rewiring
  import opened EraseFacts

  class Tree {
    var key: seq<int>
    var black: seq<bool>
    var parent: seq<int>
    var left: seq<int>
    var right: seq<int>
    var root: int
    ghost var shape: Shape

    ghost function Arena(): Links
      reads this
    {
      Links(parent, left, right)
    }

    /** The links realise `shape`, the root slot holds its top, and keys
        strictly increase in in-order sequence (the search-tree order). */
    ghost predicate Valid()
      reads this
    {
      |black| == |key| && WellFormed(shape, Arena(), key, root)
    }

    ghost predicate RootBlack()
      reads this
    {
      root == -1 || (0 <= root < |black| && black[root])
    }

    /** Live node handles, in in-order sequence. */
    ghost function Nodes(): seq<nat>
      reads this
    {
      InOrder(shape)
    }

    /** Stored keys, in in-order sequence. */
    ghost function Elements(): seq<int>
      reads this
    {
      KeysOf(InOrder(shape), key)
    }

    /** An empty tree: the sentinel's root slot is null. */
    constructor()
      ensures Valid() && RootBlack() && Elements() == [] && Nodes() == []
    {
      key, black, parent, left, right := [], [], [], [], [];
      root := -1;
      shape := Nil;
    }

    /** What the links say about a live node. */
    lemma NodeFacts(n: int)
      requires Valid() && n in Ids(shape)
      ensures 0 <= n < |key|
      ensures Subtree(shape, n).Node? && Subtree(shape, n).id == n
      ensures Subtree(shape, left[n]) == Subtree(shape, n).left
      ensures Subtree(shape, right[n]) == Subtree(shape, n).right
      ensures left[n] != -1 ==> left[n] in Ids(shape) && 0 <= left[n] < |key| && left[n] != right[n] && parent[left[n]] == n
      ensures right[n] != -1 ==> right[n] in Ids(shape) && 0 <= right[n] < |key| && parent[right[n]] == n
      ensures parent[n] == -1 <==> n == root
      ensures parent[n] != -1 ==> parent[n] in Ids(shape) && 0 <= parent[n] < |key|
      ensures Ids(Subtree(shape, n)) <= Ids(shape) && parent[n] !in Ids(Subtree(shape, n))
    {
      SubtreeChildren(shape, -1, Arena(), n);
      SubtreeWithin(shape, n);
      SubtreeLinked(shape, -1, Arena(), n);
      LinkedBound(shape, -1, Arena());
      var t := Subtree(shape, n);
      assert Linked(t, parent[n], Arena());
    }

    /** A live node below the root is a child of its parent, one level up. */
    lemma ParentFacts(n: int)
      requires Valid() && n in Ids(shape) && n != root
      ensures 0 <= n < |key| && parent[n] in Ids(shape) && 0 <= parent[n] < |key|
      ensures left[parent[n]] == n || right[parent[n]] == n
      ensures Depth(shape, parent[n]) + 1 == Depth(shape, n)
    {
      ParentLink(shape, -1, Arena(), n);
      LinkedBound(shape, -1, Arena());
    }

    /** swap_color: the node takes its right child's colour and both children take
        the node's old colour; nothing else changes. */
    method SwapColor(n: int)
      requires Valid() && n in Ids(shape) && 0 <= n < |key|
      requires 0 <= left[n] < |key| && 0 <= right[n] < |key|
      modifies this
      ensures key == old(key) && shape == old(shape) && root == old(root)
      ensures parent == old(parent) && left == old(left) && right == old(right)
      ensures black == old(black)[n := old(black[right[n]])][right[n] := old(black[n])][left[n] := old(black[n])]
      ensures Valid()
    {
      var color := black[n];
      black := black[n := black[right[n]]];
      black := black[right[n] := color];
      black := black[left[n] := color];
    }

    /** min_node: null for null; otherwise the first node of the subtree in
        in-order sequence, which has no left child. */
    method MinNode(n: int) returns (r: int)
      requires Valid() && (n == -1 || n in Ids(shape))
      ensures n == -1 ==> r == -1
      ensures n != -1 ==> InOrder(Subtree(shape, n)) != [] && r == InOrder(Subtree(shape, n))[0]
      ensures n != -1 ==> r in Ids(shape) && 0 <= r < |left| && left[r] == -1
      ensures n != -1 && r != n ==> 0 <= parent[r] < |left| && left[parent[r]] == r
    {
      r := n;
      if r != -1 {
        DescendFacts(r);
        while left[r] != -1
          invariant r in Ids(shape) && 0 <= r < |left|
          invariant r != n ==> 0 <= parent[r] < |left| && left[parent[r]] == r
          invariant InOrder(Subtree(shape, r)) != [] && InOrder(Subtree(shape, n)) != []
          invariant InOrder(Subtree(shape, r))[0] == InOrder(Subtree(shape, n))[0]
          decreases Size(Subtree(shape, r))
        {
          DescendFacts(r);
          NodeFacts(r);
          r := left[r];
        }
        DescendFacts(r);
      }
    }

    /** max_node: null for null; otherwise the last node of the subtree in
        in-order sequence, which has no right child. */
    method MaxNode(n: int) returns (r: int)
      requires Valid() && (n == -1 || n in Ids(shape))
      ensures n == -1 ==> r == -1
      ensures n != -1 ==> InOrder(Subtree(shape, n)) != [] && r == Last(InOrder(Subtree(shape, n)))
      ensures n != -1 ==> r in Ids(shape) && 0 <= r < |right| && right[r] == -1
      ensures n != -1 && r != n ==> 0 <= parent[r] < |right| && right[parent[r]] == r
    {
      r := n;
      if r != -1 {
        DescendFacts(r);
        while right[r] != -1
          invariant r in Ids(shape) && 0 <= r < |right|
          invariant r != n ==> 0 <= parent[r] < |right| && right[parent[r]] == r
          invariant InOrder(Subtree(shape, r)) != [] && InOrder(Subtree(shape, n)) != []
          invariant Last(InOrder(Subtree(shape, r))) == Last(InOrder(Subtree(shape, n)))
          decreases Size(Subtree(shape, r))
        {
          DescendFacts(r);
          NodeFacts(r);
          r := right[r];
        }
        DescendFacts(r);
      }
    }

    /** One step down from a live node keeps the first and the last node of the
        subtree on the side taken, and shrinks the subtree. */
    lemma DescendFacts(r: int)
      requires Valid() && r in Ids(shape)
      ensures 0 <= r < |key| && InOrder(Subtree(shape, r)) != []
      ensures left[r] == -1 ==> InOrder(Subtree(shape, r))[0] == r
      ensures right[r] == -1 ==> Last(InOrder(Subtree(shape, r))) == r
      ensures left[r] != -1 ==>
        left[r] in Ids(shape) && 0 <= left[r] < |key| &&
        InOrder(Subtree(shape, left[r])) != [] &&
        InOrder(Subtree(shape, left[r]))[0] == InOrder(Subtree(shape, r))[0] &&
        Size(Subtree(shape, left[r])) < Size(Subtree(shape, r))
      ensures right[r] != -1 ==>
        right[r] in Ids(shape) && 0 <= right[r] < |key| &&
        InOrder(Subtree(shape, right[r])) != [] &&
        Last(InOrder(Subtree(shape, right[r]))) == Last(InOrder(Subtree(shape, r))) &&
        Size(Subtree(shape, right[r])) < Size(Subtree(shape, r))
    {
      NodeFacts(r);
      SubtreeNotIn(shape, -1);
      var t := Subtree(shape, r);
      assert InOrder(t) == InOrder(t.left) + [r] + InOrder(t.right);
      if left[r] != -1 {
        NodeFacts(left[r]);
        InOrderIds(t.left);
      }
      if right[r] != -1 {
        NodeFacts(right[r]);
        InOrderIds(t.right);
      }
    }

    /** find_node: a node of the subtree holding `k`, or null exactly when no
        node of the subtree holds `k`. */
    function FindNode(n: int, k: int): (r: int)
      reads this
      requires Valid() && (n == -1 || n in Ids(shape))
      ensures r == -1 <==> k !in KeysOf(InOrder(Subtree(shape, n)), key)
      ensures r != -1 ==> r in Ids(Subtree(shape, n)) && 0 <= r < |key| && key[r] == k
      decreases Size(Subtree(shape, n))
    {
      if n == -1 then
        SubtreeNotIn(shape, -1);
        -1
      else
        NodeFacts(n);
        SubtreeKeys(shape, n, key);
        var t := Subtree(shape, n);
        KeysOfConcat(InOrder(t.left) + [n], InOrder(t.right), key);
        KeysOfConcat(InOrder(t.left), [n], key);
        if Utils.Less(key[n], k) then
          FindNode(right[n], k)
        else if Utils.Less(k, key[n]) then
          FindNode(left[n], k)
        else
          n
    }

    /** lower: the first node of the subtree, in in-order sequence, whose key is
        not less than `k`; null when every key of the subtree is less. */
    method Lower(n: int, k: int) returns (r: int)
      requires Valid() && (n == -1 || n in Ids(shape))
      ensures var ids := InOrder(Subtree(shape, n));
        var i := FirstNotBelow(KeysOf(ids, key), k);
        r == if i < |ids| then ids[i] else -1
      decreases Size(Subtree(shape, n))
    {
      var cur := n;
      var tmp := -1;
      ghost var ids := InOrder(Subtree(shape, n));
      ghost var off := 0;
      SubtreeNotIn(shape, -1);
      while cur != -1
        invariant cur == -1 || cur in Ids(shape)
        invariant 0 <= off <= |ids| && ids[off..] == InOrder(Subtree(shape, cur))
        invariant forall j :: 0 <= j < off ==> KeysOf(ids, key)[j] < k
        decreases Size(Subtree(shape, cur))
      {
        LowerStep(cur);
        if Utils.Less(key[cur], k) {
          LowerRight(ids, off, cur, k);
          off := off + |InOrder(Subtree(shape, cur).left)| + 1;
          cur := right[cur];
        } else {
          if left[cur] != -1 {
            tmp := Lower(left[cur], k);
            LowerLeft(ids, off, cur, k, tmp);
            if tmp != -1 {
              cur := tmp;
            }
            break;
          } else {
            LowerLeft(ids, off, cur, k, -1);
            break;
          }
        }
      }
      if cur == -1 {
        FirstNotBelowIs(KeysOf(ids, key), k, |ids|);
      }
      r := cur;
    }

    /** The facts about the current node that lower's loop steps on. */
    lemma LowerStep(cur: int)
      requires Valid() && cur in Ids(shape)
      ensures 0 <= cur < |key| && Subtree(shape, cur).Node?
      ensures left[cur] == -1 || left[cur] in Ids(shape)
      ensures right[cur] == -1 || right[cur] in Ids(shape)
      ensures Size(Subtree(shape, right[cur])) < Size(Subtree(shape, cur))
      ensures Size(Subtree(shape, left[cur])) < Size(Subtree(shape, cur))
    {
      NodeFacts(cur);
    }

    /** lower's step right past a key below `k`: every handle up to and
        including `cur` holds a key below `k`, and the rest of the listing is
        cur's right subtree. */
    lemma LowerRight(ids: seq<nat>, off: nat, cur: int, k: int)
      requires Valid() && cur in Ids(shape) && 0 <= cur < |key| && key[cur] < k
      requires off <= |ids| && ids[off..] == InOrder(Subtree(shape, cur))
      requires forall j :: 0 <= j < off ==> KeysOf(ids, key)[j] < k
      ensures Subtree(shape, cur).Node?
      ensures var off' := off + |InOrder(Subtree(shape, cur).left)| + 1;
        off' <= |ids| && ids[off'..] == InOrder(Subtree(shape, right[cur])) &&
        forall j :: 0 <= j < off' ==> KeysOf(ids, key)[j] < k
    {
      NodeFacts(cur);
      var t := Subtree(shape, cur);
      assert forall kk :: kk in KeysOf(InOrder(t.left), key) ==> kk < KeyOf(key, cur) by {
        SubtreeKeys(shape, cur, key);
      }
      LowerPass(ids, off, t, key, k);
    }

    /** lower's stop at a key not below `k`: the answer is the answer `tmp`
        found in cur's left subtree, or `cur` itself when there is none. */
    lemma LowerLeft(ids: seq<nat>, off: nat, cur: int, k: int, tmp: int)
      requires Valid() && cur in Ids(shape) && 0 <= cur < |key| && k <= key[cur]
      requires off <= |ids| && ids[off..] == InOrder(Subtree(shape, cur))
      requires forall j :: 0 <= j < off ==> KeysOf(ids, key)[j] < k
      requires left[cur] == -1 ==> tmp == -1
      requires left[cur] != -1 ==>
        var l := InOrder(Subtree(shape, left[cur]));
        var i := FirstNotBelow(KeysOf(l, key), k);
        tmp == if i < |l| then l[i] else -1
      ensures var i := FirstNotBelow(KeysOf(ids, key), k);
        i < |ids| && ids[i] == if tmp != -1 then tmp else cur
    {
      NodeFacts(cur);
      var t := Subtree(shape, cur);
      LowerStop(ids, off, t, key, k);
      if left[cur] == -1 {
        assert t.left == Nil by { SubtreeNotIn(shape, -1); }
      }
    }

    /** create_node for a key not yet in the tree: a fresh red node with null
        links in a new arena slot; the tree itself is untouched. */
    method NewNode(k: int) returns (n: int)
      requires Valid()
      modifies this
      ensures n == |old(key)|
      ensures key == old(key) + [k] && black == old(black) + [false]
      ensures parent == old(parent) + [-1] && left == old(left) + [-1] && right == old(right) + [-1]
      ensures root == old(root) && shape == old(shape)
      ensures Valid() && n !in Ids(shape) && Nodes() == old(Nodes()) && Elements() == old(Elements())
    {
      ghost var a := Arena();
      n := |key|;
      key, black := key + [k], black + [false];
      parent, left, right := parent + [-1], left + [-1], right + [-1];
      LinkedBound(shape, -1, a);
      LinkedFrame(shape, -1, a, Arena(), {});
      InOrderIds(shape);
      KeysOfExtend(InOrder(shape), old(key), k);
    }

    /** The links around a live node lead to live nodes one level below or
        above it, and x's parent has x as exactly one of its children. */
    lemma LinkRanges(x: int)
      requires Valid() && x in Ids(shape)
      ensures 0 <= x < |key|
      ensures left[x] == -1 ||
        (0 <= left[x] < |key| && left[x] in Ids(shape) && parent[left[x]] == x &&
         Depth(shape, left[x]) == Depth(shape, x) + 1)
      ensures right[x] == -1 ||
        (0 <= right[x] < |key| && right[x] in Ids(shape) && parent[right[x]] == x &&
         Depth(shape, right[x]) == Depth(shape, x) + 1)
      ensures parent[x] == -1 <==> x == root
      ensures parent[x] !in Ids(Subtree(shape, x))
      ensures parent[x] == -1 ||
        (0 <= parent[x] < |key| && parent[x] in Ids(shape) &&
         (left[parent[x]] == x || right[parent[x]] == x) && left[parent[x]] != right[parent[x]] &&
         Depth(shape, parent[x]) + 1 == Depth(shape, x))
    {
      NodeFacts(x);
      if left[x] != -1 {
        NodeFacts(left[x]);
        ParentFacts(left[x]);
      }
      if right[x] != -1 {
        NodeFacts(right[x]);
        ParentFacts(right[x]);
      }
      if parent[x] != -1 {
        NodeFacts(parent[x]);
        ParentFacts(x);
      }
    }

    /** rotate_left: x's right child y takes x's place, x becomes y's left child
        and y's old left subtree becomes x's right one; x and y swap colours, and
        y becomes the root when x was.  The in-order sequence is unchanged. */
    method RotateLeft(x: int)
      requires Valid() && x in Ids(shape) && 0 <= x < |key| && 0 <= right[x] < |key|
      modifies this
      ensures Valid() && key == old(key) && shape == RotateLeftAt(old(shape), x)
      ensures Nodes() == old(Nodes()) && Ids(shape) == old(Ids(shape))
      ensures black == old(black)[x := old(black[right[x]])][old(right[x]) := old(black[x])]
      ensures root == if old(parent[x]) == -1 then old(right[x]) else old(root)
      ensures RotLeftFits(old(Arena()), x) && Arena() == RotLeftLinks(old(Arena()), x)
    {
      ghost var a := Arena();
      ghost var s := shape;
      RotateLeftKeeps(s, a, key, x);
      var y := right[x];
      parent, left, right := RelinkLeft(parent, left, right, x);
      var color := black[x];
      black := black[x := black[y]];
      black := black[y := color];
      if parent[y] == -1 {
        root := y;
      }
      shape := RotateLeftAt(s, x);
    }

    /** rotate_right: x's left child l takes x's place, x becomes l's right child
        and l's old right subtree becomes x's left one; x turns red and l black,
        and l becomes the root when x was.  The in-order sequence is unchanged. */
    method RotateRight(x: int)
      requires Valid() && x in Ids(shape) && 0 <= x < |key| && 0 <= left[x] < |key|
      modifies this
      ensures Valid() && key == old(key) && shape == RotateRightAt(old(shape), x)
      ensures Nodes() == old(Nodes()) && Ids(shape) == old(Ids(shape))
      ensures black == old(black)[x := false][old(left[x]) := true]
      ensures root == if old(parent[x]) == -1 then old(left[x]) else old(root)
      ensures RotRightFits(old(Arena()), x) && Arena() == RotRightLinks(old(Arena()), x)
    {
      ghost var a := Arena();
      ghost var s := shape;
      RotateRightKeeps(s, a, key, x);
      var l := left[x];
      parent, left, right := RelinkRight(parent, left, right, x);
      black := black[x := false];
      black := black[l := true];
      if parent[l] == -1 {
        root := l;
      }
      shape := RotateRightAt(s, x);
    }

    /** insert: hangs the fresh node `n` below the root slot.  An empty tree gets
        `n` as its black root; otherwise `n` is placed as a leaf by key unless an
        equivalent key is already present, in which case the tree is left
        untouched.  A placed node is then rebalanced.  The new key sits at its
        sorted position among the old ones. */
    method Insert(n: int) returns (ok: bool)
      requires Valid() && RootBlack()
      requires 0 <= n < |key| && n !in Ids(shape)
      requires parent[n] == -1 && left[n] == -1 && right[n] == -1
      modifies this
      ensures Valid() && RootBlack() && key == old(key)
      ensures ok <==> key[n] !in old(Elements())
      ensures ok ==> var i := FirstNotBelow(old(Elements()), key[n]);
        Nodes() == old(Nodes())[..i] + [n] + old(Nodes())[i..] &&
        Elements() == old(Elements())[..i] + [key[n]] + old(Elements())[i..]
      ensures !ok ==> shape == old(shape) && Arena() == old(Arena()) && black == old(black) && root == old(root)
    {
      if root == -1 {
        root := n;
        black := black[n := true];
        shape := Node(n, Nil, Nil);
        assert InOrder(shape) == [n] && Linked(shape, -1, Arena());
      } else {
        ok := Place(n);
        if !ok {
          return;
        }
      }
      InsertBalance(n);
      ok := true;
    }

    /** The descent of insert into a non-empty tree (tree.hpp:158-183): from the
        root, go left below a greater key and right below a smaller one; give up
        on an equivalent key, otherwise hang `n` as the missing child where the
        descent falls off the tree, with its parent link set. */
    method Place(n: int) returns (ok: bool)
      requires Valid() && root != -1
      requires 0 <= n < |key| && n !in Ids(shape)
      requires parent[n] == -1 && left[n] == -1 && right[n] == -1
      modifies this
      ensures Valid() && key == old(key) && black == old(black) && root == old(root)
      ensures ok <==> key[n] !in old(Elements())
      ensures ok ==> var i := FirstNotBelow(old(Elements()), key[n]);
        n in Ids(shape) &&
        Nodes() == old(Nodes())[..i] + [n] + old(Nodes())[i..] &&
        Elements() == old(Elements())[..i] + [key[n]] + old(Elements())[i..]
      ensures !ok ==> shape == old(shape) && Arena() == old(Arena())
    {
      var tmp := root;
      while true
        invariant Valid() && shape == old(shape) && key == old(key) && Arena() == old(Arena())
        invariant black == old(black) && root == old(root)
        invariant tmp in Ids(shape) && Between(shape, tmp, key, key[n])
        decreases Size(Subtree(shape, tmp))
      {
        KeyIn(shape, key, tmp);
        LinkedBound(shape, -1, Arena());
        if !Utils.Less(key[tmp], key[n]) && !Utils.Less(key[n], key[tmp]) {
          return false;
        } else if Utils.Less(key[n], key[tmp]) {
          if left[tmp] != -1 {
            DescendLeft(shape, Arena(), key, tmp, key[n]);
            tmp := left[tmp];
          } else {
            GrowLeftKeeps(shape, Arena(), key, tmp, n);
            left := left[tmp := n];
            parent := parent[n := tmp];
            shape := GrowLeft(shape, tmp, n);
            return true;
          }
        } else {
          if right[tmp] != -1 {
            DescendRight(shape, Arena(), key, tmp, key[n]);
            tmp := right[tmp];
          } else {
            GrowRightKeeps(shape, Arena(), key, tmp, n);
            right := right[tmp := n];
            parent := parent[n := tmp];
            shape := GrowRight(shape, tmp, n);
            return true;
          }
        }
      }
    }

    /** insert_balance: walks up from `some`, recolouring and rotating, and ends
        by blackening the root.  It neither adds nor removes nodes and keeps the
        in-order sequence.  The walk needs the root to be black whenever it does
        not start there: a red node with a red parent then always has a
        grandparent. */
    method InsertBalance(n: int)
      requires Valid() && n in Ids(shape) && (n != root ==> RootBlack())
      modifies this
      ensures Valid() && RootBlack() && key == old(key) && Nodes() == old(Nodes())
    {
      var some := n;
      while some != -1
        invariant Valid() && key == old(key) && Nodes() == old(Nodes())
        invariant some == -1 || some in Ids(shape)
        invariant some != root ==> RootBlack()
        decreases if some == -1 then 0 else Depth(shape, some) + 1
      {
        LinkRanges(some);
        var p := parent[some];
        var grand := -1;
        if p != -1 {
          LinkRanges(p);
          grand := parent[p];
          if !black[some] {
            if black[p] {
              some := p;
            } else if grand != -1 {
              LinkRanges(grand);
              if left[grand] != -1 && !black[left[grand]] && right[grand] != -1 && !black[right[grand]] {
                SwapColor(grand);
                some := grand;
              } else if right[grand] == p {
                some := InsertRotateRight(some);
              } else {
                some := InsertRotateLeft(some);
              }
            } else {
              // a red parent without a grandparent is the root, which is black
              assert false;
            }
          } else {
            some := p;
          }
        } else {
          black := black[some := true];
          some := parent[some];
        }
      }
    }

    /** The rotations of insert_balance when the red parent p of the red node
        `some` is the right child of its grandparent g (tree.hpp:122-130).  When
        `some` is p's left child, p is rotated right and `some` takes its place;
        the source's follow-up test of parent->right == some (tree.hpp:127) is
        then always false, so the walk continues from g.  Otherwise g is rotated
        left and the walk continues from g's old parent.  Either way the walk
        moves at least two levels up and the root stays black. */
    method InsertRotateRight(some: int) returns (next: int)
      requires Valid() && RootBlack() && some in Ids(shape) && 0 <= some < |key|
      requires 0 <= parent[some] < |key| && 0 <= parent[parent[some]] < |key|
      requires right[parent[parent[some]]] == parent[some]
      requires !black[some] && !black[parent[some]]
      modifies this
      ensures Valid() && RootBlack() && key == old(key) && Nodes() == old(Nodes())
      ensures next == -1 || (next in Ids(shape) && Depth(shape, next) + 2 <= old(Depth(shape, some)))
    {
      LinkRanges(some);
      var p := parent[some];
      LinkRanges(p);
      var grand := parent[p];
      LinkRanges(grand);
      ghost var up := parent[grand];
      if left[p] == some {
        RotatedDepth(shape, p, grand);
        RotateRight(p);
        p := some;
        assert parent[p] == grand;
      } else {
        if up != -1 {
          RotatedDepth(shape, grand, up);
        }
        RotateLeft(grand);
        assert parent[p] == up;
      }
      next := parent[p];
    }

    /** The mirror image (tree.hpp:131-139): p is the left child of g. */
    method InsertRotateLeft(some: int) returns (next: int)
      requires Valid() && RootBlack() && some in Ids(shape) && 0 <= some < |key|
      requires 0 <= parent[some] < |key| && 0 <= parent[parent[some]] < |key|
      requires right[parent[parent[some]]] != parent[some]
      requires !black[some] && !black[parent[some]]
      modifies this
      ensures Valid() && RootBlack() && key == old(key) && Nodes() == old(Nodes())
      ensures next == -1 || (next in Ids(shape) && Depth(shape, next) + 2 <= old(Depth(shape, some)))
    {
      LinkRanges(some);
      var p := parent[some];
      LinkRanges(p);
      var grand := parent[p];
      LinkRanges(grand);
      ghost var up := parent[grand];
      if right[p] == some {
        RotatedDepth(shape, p, grand);
        RotateLeft(p);
        p := some;
        assert parent[p] == grand;
      } else {
        if up != -1 {
          RotatedDepth(shape, grand, up);
        }
        RotateRight(grand);
        assert parent[p] == up;
      }
      next := parent[p];
    }

    /** erase: finds the node holding `k` and, when there is one, takes it out
        of the tree.  A node with a left child is replaced by its in-order
        predecessor, one with only a right child by its in-order successor
        (each first cut out of its own place), and a leaf is cut out directly;
        the root slot follows the node that took the root's place.  The key
        disappears from its sorted position and the rest of the listing keeps
        its order; a missing key leaves the tree untouched. */
    method Erase(k: int) returns (ok: bool)
      requires Valid() && RootBlack()
      modifies this
      ensures Valid() && RootBlack() && key == old(key)
      ensures ok <==> k in old(Elements())
      ensures ok ==> var i := FirstNotBelow(old(Elements()), k);
        i < |old(Nodes())| &&
        Nodes() == old(Nodes())[..i] + old(Nodes())[i + 1..] &&
        Elements() == old(Elements())[..i] + old(Elements())[i + 1..]
      ensures !ok ==> shape == old(shape) && Arena() == old(Arena()) && black == old(black) && root == old(root)
    {
      assert Subtree(shape, root) == shape;
      var remove := FindNode(root, k);
      if remove == -1 {
        return false;
      }
      ghost var O := Nodes();
      ghost var i := Position(shape, remove);
      PositionAt(shape, remove);
      KeyPosition(O, key, i);
      EraseAt(remove, i);
      RemoveKeys(O, i, key);
      ok := true;
    }

    /** The body of erase once the node is found (tree.hpp:212-227): the choice
        between the three ways of taking `remove` out. */
    method EraseAt(remove: int, ghost i: nat)
      requires Valid() && RootBlack() && remove in Ids(shape)
      requires i < |Nodes()| && Nodes()[i] == remove
      modifies this
      ensures Valid() && RootBlack() && key == old(key)
      ensures Nodes() == old(Nodes())[..i] + old(Nodes())[i + 1..]
    {
      NodeFacts(remove);
      if left[remove] != -1 {
        EraseByPredecessor(remove, i);
      } else if right[remove] != -1 {
        EraseBySuccessor(remove, i);
      } else {
        EraseLeaf(remove, i);
      }
    }

    /** The path of erase for a node with a left child (tree.hpp:213-214 and
        219-226): its predecessor is cut out and takes its place, and the root
        slot follows when the node was the root. */
    method EraseByPredecessor(remove: int, ghost i: nat)
      requires Valid() && RootBlack() && remove in Ids(shape) && 0 <= remove < |key| && left[remove] != -1
      requires i < |Nodes()| && Nodes()[i] == remove
      modifies this
      ensures Valid() && RootBlack() && key == old(key)
      ensures Nodes() == old(Nodes())[..i] + old(Nodes())[i + 1..]
    {
      ghost var O := Nodes();
      var replace := EraseLeft(remove, i);
      RemoveKeys(O, i, key);
      DropBefore(O, i);
      SwapP(remove, replace, i - 1);
      if remove == root {
        root := replace;
      }
    }

    /** The path of erase for a node with only a right child (tree.hpp:215-216
        and 219-226), with its successor. */
    method EraseBySuccessor(remove: int, ghost i: nat)
      requires Valid() && RootBlack() && remove in Ids(shape) && 0 <= remove < |key|
      requires left[remove] == -1 && right[remove] != -1
      requires i < |Nodes()| && Nodes()[i] == remove
      modifies this
      ensures Valid() && RootBlack() && key == old(key)
      ensures Nodes() == old(Nodes())[..i] + old(Nodes())[i + 1..]
    {
      ghost var O := Nodes();
      var replace := EraseRight(remove, i);
      RemoveKeys(O, i, key);
      DropAfter(O, i);
      SwapP(remove, replace, i);
      if remove == root {
        root := replace;
      }
    }

    /** The path of erase for a leaf (tree.hpp:217-218 and 223-226): it is cut
        out below its parent, or the root slot is nulled when it was the root. */
    method EraseLeaf(remove: int, ghost i: nat)
      requires Valid() && RootBlack() && remove in Ids(shape) && 0 <= remove < |key|
      requires left[remove] == -1 && right[remove] == -1
      requires i < |Nodes()| && Nodes()[i] == remove
      modifies this
      ensures Valid() && RootBlack() && key == old(key)
      ensures Nodes() == old(Nodes())[..i] + old(Nodes())[i + 1..]
    {
      ghost var O := Nodes();
      EraseNotChild(remove, i);
      if remove == root {
        assert O == [remove] by {
          assert shape.Node? && shape.id == remove;
          NodeFacts(remove);
          SubtreeNotIn(shape, -1);
          assert Subtree(shape, remove) == shape;
          assert shape.left == Nil && shape.right == Nil;
          assert InOrder(shape) == InOrder(Nil) + [remove] + InOrder(Nil);
        }
        root := -1;
        shape := Nil;
      }
    }

    /** erase_left (tree.hpp:233-254): cuts the in-order predecessor of `some`
        (the maximum of its left subtree) out of its place and, when that node
        was black, blackens the red child that took its place and rebalances
        from its old parent.  The listing loses exactly that predecessor;
        `some` stays. */
    method EraseLeft(some: int, ghost i: nat) returns (replace: int)
      requires Valid() && RootBlack() && some in Ids(shape) && 0 <= some < |key| && left[some] != -1
      requires i < |Nodes()| && Nodes()[i] == some
      modifies this
      ensures Valid() && RootBlack() && key == old(key) && root == old(root)
      ensures 0 < i && replace == old(Nodes())[i - 1]
      ensures Nodes() == old(Nodes())[..i - 1] + old(Nodes())[i..]
      ensures some in Ids(shape) && 0 <= replace < |key| && replace !in Ids(shape)
    {
      replace := DetachPredecessor(some, i);
      if black[replace] {
        if left[replace] != -1 && !black[left[replace]] {
          black := black[left[replace] := true];
        }
        EraseBalance(parent[replace]);
      }
    }

    /** The cut of erase_left (tree.hpp:234-246): max_node of the left subtree,
        then its parent (`some` itself, or as a right child) adopts its left
        child.  Colours are untouched. */
    method DetachPredecessor(some: int, ghost i: nat) returns (replace: int)
      requires Valid() && some in Ids(shape) && 0 <= some < |key| && left[some] != -1
      requires i < |Nodes()| && Nodes()[i] == some
      modifies this
      ensures Valid() && key == old(key) && root == old(root) && black == old(black)
      ensures 0 < i && replace == old(Nodes())[i - 1]
      ensures Nodes() == old(Nodes())[..i - 1] + old(Nodes())[i..]
      ensures some in Ids(shape) && 0 <= replace < |key| && replace !in Ids(shape)
      ensures parent[replace] in Ids(shape) && -1 <= left[replace] < |key|
    {
      ghost var s, a := shape, Arena();
      SubtreeChildren(s, -1, a, some);
      replace := MaxNode(left[some]);
      PredecessorSpot(s, a, key, some, i, replace);
      CutPredecessor(s, a, key, some, i, replace);
      parent, left, right := DetachMax(parent, left, right, some, replace);
      shape := Unlink(s, replace);
    }

    /** erase_right (tree.hpp:256-277): the mirror image for a node without a
        left child, cutting out its in-order successor (the minimum of its
        right subtree). */
    method EraseRight(some: int, ghost i: nat) returns (replace: int)
      requires Valid() && RootBlack() && some in Ids(shape) && 0 <= some < |key|
      requires left[some] == -1 && right[some] != -1
      requires i < |Nodes()| && Nodes()[i] == some
      modifies this
      ensures Valid() && RootBlack() && key == old(key) && root == old(root)
      ensures i + 1 < |old(Nodes())| && replace == old(Nodes())[i + 1]
      ensures Nodes() == old(Nodes())[..i + 1] + old(Nodes())[i + 2..]
      ensures some in Ids(shape) && 0 <= replace < |key| && replace !in Ids(shape)
    {
      replace := DetachSuccessor(some, i);
      if black[replace] {
        if right[replace] != -1 && !black[right[replace]] {
          black := black[right[replace] := true];
        }
        EraseBalance(parent[replace]);
      }
    }

    /** The cut of erase_right (tree.hpp:257-269). */
    method DetachSuccessor(some: int, ghost i: nat) returns (replace: int)
      requires Valid() && some in Ids(shape) && 0 <= some < |key|
      requires left[some] == -1 && right[some] != -1
      requires i < |Nodes()| && Nodes()[i] == some
      modifies this
      ensures Valid() && key == old(key) && root == old(root) && black == old(black)
      ensures i + 1 < |old(Nodes())| && replace == old(Nodes())[i + 1]
      ensures Nodes() == old(Nodes())[..i + 1] + old(Nodes())[i + 2..]
      ensures some in Ids(shape) && 0 <= replace < |key| && replace !in Ids(shape)
      ensures parent[replace] in Ids(shape) && -1 <= right[replace] < |key|
    {
      ghost var s, a := shape, Arena();
      SubtreeChildren(s, -1, a, some);
      replace := MinNode(right[some]);
      SuccessorSpot(s, a, key, some, i, replace);
      CutSuccessor(s, a, key, some, i, replace);
      parent, left, right := DetachMin(parent, left, right, some, replace);
      shape := Unlink(s, replace);
    }

    /** erase_not_child: cuts the leaf `some` out below its parent and
        rebalances when it was black; a leaf at the root is left for erase to
        drop.  (The recolouring of the leaf's right child at tree.hpp:288-289
        never applies: a leaf has no children.) */
    method EraseNotChild(some: int, ghost i: nat)
      requires Valid() && RootBlack() && some in Ids(shape) && 0 <= some < |key|
      requires left[some] == -1 && right[some] == -1
      requires i < |Nodes()| && Nodes()[i] == some
      modifies this
      ensures Valid() && RootBlack() && key == old(key) && root == old(root)
      ensures some == root ==> shape == old(shape) && Arena() == old(Arena()) && black == old(black)
      ensures some != root ==> Nodes() == old(Nodes())[..i] + old(Nodes())[i + 1..]
    {
      ghost var s, a := shape, Arena();
      LinkRanges(some);
      if parent[some] != -1 {
        CutLeaf(s, a, key, some, i);
        parent, left, right := DetachLeaf(parent, left, right, some);
        shape := Unlink(s, some);
        if black[some] {
          EraseBalance(parent[some]);
        }
      }
    }

    /** swap_p: `replace`, a node outside the tree, takes the place of `remove`
        with its parent, children and colour.  The result is a linked tree with
        `replace` at remove's position in the listing; ordering is the caller's
        concern. */
    method SwapP(remove: int, replace: int, ghost j: nat)
      requires Valid() && remove in Ids(shape) && 0 <= remove < |key|
      requires 0 <= replace < |key| && replace !in Ids(shape)
      requires j < |Nodes()| && Nodes()[j] == remove
      modifies this
      ensures key == old(key) && root == old(root) && shape == Substitute(old(shape), remove, replace)
      ensures |black| == |key| && |parent| == |key| && |left| == |key| && |right| == |key|
      ensures Distinct(shape) && Linked(shape, -1, Arena())
      ensures RootOf(shape) == if remove == old(root) then replace else old(root)
      ensures Nodes() == old(Nodes())[j := replace]
      ensures black == old(black)[replace := old(black[remove])]
    {
      ghost var s, a := shape, Arena();
      ghost var s' := Substitute(s, remove, replace);
      assert SubstFits(a, remove, replace) && parent[remove] != remove &&
        Distinct(s') && Linked(s', -1, SubstLinks(a, remove, replace)) &&
        RootOf(s') == (if remove == root then replace else root) &&
        |SubstLinks(a, remove, replace).parent| == |key| && |SubstLinks(a, remove, replace).left| == |key| &&
        |SubstLinks(a, remove, replace).right| == |key| by {
        NodeFacts(remove);
        SubstRealised(s, a, remove, replace);
      }
      assert InOrder(s') == InOrder(s)[j := replace] by {
        SubstListing(s, remove, replace);
        SameIndex(InOrder(s), key, j, Position(s, remove));
      }
      parent, left, right := Transplant(parent, left, right, remove, replace);
      black := black[replace := black[remove]];
      shape := s';
    }

    /** erase_balance: walks up from `start` while the current node is black
        and not the root, recolouring and rotating below the root.  It keeps
        the nodes, their listing, the root and the root's colour. */
    method EraseBalance(start: int)
      requires Valid() && start in Ids(shape)
      modifies this
      ensures Valid() && key == old(key) && Nodes() == old(Nodes()) && Ids(shape) == old(Ids(shape))
      ensures root == old(root) && (root != -1 ==> black[root] == old(black[root]))
    {
      var some := start;
      LinkRanges(some);
      while some != root && black[some]
        invariant Valid() && key == old(key) && Nodes() == old(Nodes()) && Ids(shape) == old(Ids(shape))
        invariant root == old(root) && (root != -1 ==> black[root] == old(black[root]))
        invariant some in Ids(shape) && 0 <= some < |key|
        decreases Phi(shape), Depth(shape, some)
      {
        LinkRanges(some);
        var brother := right[some];
        if brother != -1 {
          LinkRanges(brother);
          var r, l := right[brother], left[brother];
          if (r != -1 || l != -1) && (r == -1 || black[r]) && (l == -1 || black[l]) {
            if black[brother] {
              RecolourRotate(some);
            } else {
              some := parent[some];
            }
          } else if r != -1 && black[brother] {
            some := EraseRotate(some);
          } else if black[brother] && !black[some] {
            // the recolouring of tree.hpp:327-328 needs a red `some`, which the
            // loop condition excludes
            assert false;
          } else {
            some := parent[some];
          }
        } else {
          break;
        }
      }
    }

    /** clear (tree.hpp:85-97): empties the tree.  Every node that was in it
        has its child links nulled on the way (the node storage itself is
        released by the allocator, which is not modelled). */
    method Clear()
      requires Valid()
      modifies this
      ensures Valid() && RootBlack() && key == old(key) && Nodes() == [] && Elements() == []
      ensures forall x :: x in old(Ids(shape)) ==> x < |left| && left[x] == -1 && x < |right| && right[x] == -1
    {
      if root == -1 {
        return;
      }
      ClearSubtree(root, shape, -1);
      root := -1;
      shape := Nil;
    }

    /** The recursion of clear below node `n`, the top of subtree `t` hanging
        below `q`: both subtrees are cleared and the child slot each hung from
        is nulled.  No other slot changes. */
    method ClearSubtree(n: int, ghost t: Shape, ghost q: int)
      requires t.Node? && t.id == n && Distinct(t) && Linked(t, q, Arena()) && q !in Ids(t)
      modifies this
      ensures key == old(key) && black == old(black) && parent == old(parent)
      ensures root == old(root) && shape == old(shape)
      ensures |left| == |old(left)| && |right| == |old(right)|
      ensures forall x :: x in Ids(t) ==> x < |left| && left[x] == -1 && x < |right| && right[x] == -1
      ensures forall x :: 0 <= x < |left| && x !in Ids(t) ==> left[x] == old(left[x])
      ensures forall x :: 0 <= x < |right| && x !in Ids(t) ==> right[x] == old(right[x])
      decreases t
    {
      ghost var a := Arena();
      LinkedBound(t, q, a);
      if left[n] != -1 {
        ClearSubtree(left[n], t.left, n);
        left := left[n := -1];
      }
      if right[n] != -1 {
        LinkedFrame(t.right, n, a, Arena(), Ids(t.left) + {n});
        ClearSubtree(right[n], t.right, n);
        right := right[n := -1];
      }
    }

    /** The case of erase_balance with a black brother whose children are all
        black (tree.hpp:306-310): the brother turns red, `some` black, and
        `some` is rotated left, which swaps their colours again.  `some` ends
        red, its old brother black, and the shape's Phi drops. */
    method RecolourRotate(some: int)
      requires Valid() && some in Ids(shape) && some != root && 0 <= some < |key|
      requires 0 <= right[some] < |key|
      modifies this
      ensures Valid() && key == old(key) && Nodes() == old(Nodes()) && Ids(shape) == old(Ids(shape))
      ensures root == old(root) && black == old(black)[some := false][old(right[some]) := true]
      ensures Phi(shape) < old(Phi(shape))
    {
      var brother := right[some];
      black := black[brother := false];
      black := black[some := true];
      NodeFacts(some);
      NodeFacts(brother);
      RotatedPhi(shape, some);
      RotateLeft(some);
    }

    /** The case of erase_balance with a black brother that has a right child
        (tree.hpp:315-325): when the brother's left child is red and its right
        one black, the brother is first rotated right; then `some` is rotated
        left when the (new) brother's right child is red, and otherwise the walk
        moves up.  Either the shape's Phi drops or, unchanged, the walk moves
        up a level. */
    method EraseRotate(some: int) returns (next: int)
      requires Valid() && some in Ids(shape) && some != root && 0 <= some < |key|
      requires 0 <= right[some] < |key| && 0 <= right[right[some]] < |key| && black[right[some]]
      modifies this
      ensures Valid() && key == old(key) && Nodes() == old(Nodes()) && Ids(shape) == old(Ids(shape))
      ensures root == old(root) && (root != -1 ==> black[root] == old(black[root]))
      ensures next in Ids(shape) && 0 <= next < |key|
      ensures Phi(shape) < old(Phi(shape)) || (Phi(shape) == old(Phi(shape)) && Depth(shape, next) < old(Depth(shape, some)))
    {
      ghost var s := shape;
      LinkRanges(some);
      var brother := right[some];
      LinkRanges(brother);
      var r, l := right[brother], left[brother];
      assert brother != root;
      var turned := false;
      if l != -1 && !black[l] && black[r] {
        TurnBrother(some);
        r := brother;
        brother := l;
        turned := true;
      }
      if !black[r] && (l == -1 || black[l] || left[some] == -1) {
        if !turned {
          NodeFacts(some);
          NodeFacts(brother);
          RotatedPhi(s, some);
        }
        RotateLeft(some);
        next := some;
      } else {
        ParentFacts(some);
        next := parent[some];
      }
    }

    /** The first rotation of that case (tree.hpp:317-320): the black brother
        with a red left child l is rotated right, so l becomes some's right
        child (black) and the brother l's right child (red).  A left rotation
        at `some` then lowers Phi below what it was before both. */
    method TurnBrother(some: int)
      requires Valid() && some in Ids(shape) && 0 <= some < |key| && 0 <= right[some] < |key|
      requires 0 <= left[right[some]] < |key|
      modifies this
      ensures Valid() && key == old(key) && Nodes() == old(Nodes()) && Ids(shape) == old(Ids(shape))
      ensures root == old(root) && black == old(black)[old(right[some]) := false][old(left[right[some]]) := true]
      ensures right[some] == old(left[right[some]]) && 0 <= right[some] < |key|
      ensures right[some] != root && old(right[some]) != root && !black[old(right[some])]
      ensures Phi(RotateLeftAt(shape, some)) < old(Phi(shape))
    {
      ghost var s := shape;
      LinkRanges(some);
      var brother := right[some];
      LinkRanges(brother);
      var l := left[brother];
      LinkRanges(l);
      NodeFacts(some);
      NodeFacts(brother);
      NodeFacts(l);
      DoubleRotatedPhi(s, some);
      RotateRight(brother);
    }
  }

  /** The pointer assignments of rotate_left (tree.hpp:340-357) on the arena's
      link fields; x's parent is not its right child in any tree. */
  method RelinkLeft(parent: seq<int>, left: seq<int>, right: seq<int>, x: int)
      returns (pa: seq<int>, le: seq<int>, ri: seq<int>)
    requires RotLeftFits(Links(parent, left, right), x) && parent[x] != right[x]
    ensures Links(pa, le, ri) == RotLeftLinks(Links(parent, left, right), x)
  {
    var y := right[x];
    pa, le, ri := parent, left, right;
    pa := pa[y := pa[x]];
    var p := pa[y];
    if p != -1 {
      if ri[p] == x {
        ri := ri[p := y];
      } else {
        le := le[p := y];
      }
    }
    pa := pa[x := y];
    ri := ri[x := le[y]];
    if ri[x] != -1 {
      // both branches of tree.hpp:352-355 re-parent the moved subtree to x
      pa := pa[ri[x] := x];
    }
    le := le[y := x];
  }

  /** The pointer assignments of rotate_right (tree.hpp:366-383). */
  method RelinkRight(parent: seq<int>, left: seq<int>, right: seq<int>, x: int)
      returns (pa: seq<int>, le: seq<int>, ri: seq<int>)
    requires RotRightFits(Links(parent, left, right), x) && parent[x] != left[x]
    ensures Links(pa, le, ri) == RotRightLinks(Links(parent, left, right), x)
  {
    var l := left[x];
    pa, le, ri := parent, left, right;
    pa := pa[l := pa[x]];
    var p := pa[l];
    if p != -1 {
      if le[p] == x {
        le := le[p := l];
      } else {
        ri := ri[p := l];
      }
    }
    pa := pa[x := l];
    le := le[x := ri[l]];
    if le[x] != -1 {
      // both branches of tree.hpp:378-381 re-parent the moved subtree to x
      pa := pa[le[x] := x];
    }
    ri := ri[l := x];
  }

  /** The pointer assignments of erase_left (tree.hpp:237-246) cutting out the
      maximum `m` of some's left subtree: either m is some's left child and some
      adopts m's left child, or m is a right child and its parent adopts it. */
  method DetachMax(parent: seq<int>, left: seq<int>, right: seq<int>, some: int, m: int)
      returns (pa: seq<int>, le: seq<int>, ri: seq<int>)
    requires UnlinkFits(Links(parent, left, right), m) && InArena(Links(parent, left, right), some)
    requires right[m] == -1 && m != some
    requires m == left[some] ==> parent[m] == some
    requires m != left[some] ==> parent[m] != -1 && left[parent[m]] != m
    ensures Links(pa, le, ri) == UnlinkLinks(Links(parent, left, right), m)
  {
    pa, le, ri := parent, left, right;
    if m == le[some] {
      le := le[some := le[m]];
      if le[m] != -1 {
        pa := pa[le[m] := some];
      }
    } else {
      ri := ri[pa[m] := le[m]];
      if le[m] != -1 {
        pa := pa[le[m] := pa[m]];
      }
    }
  }

  /** The pointer assignments of erase_right (tree.hpp:260-269) cutting out the
      minimum `m` of some's right subtree, when some has no left child. */
  method DetachMin(parent: seq<int>, left: seq<int>, right: seq<int>, some: int, m: int)
      returns (pa: seq<int>, le: seq<int>, ri: seq<int>)
    requires UnlinkFits(Links(parent, left, right), m) && InArena(Links(parent, left, right), some)
    requires left[m] == -1 && m != some && left[some] == -1
    requires m == right[some] ==> parent[m] == some
    requires m != right[some] ==> parent[m] != -1 && left[parent[m]] == m
    ensures Links(pa, le, ri) == UnlinkLinks(Links(parent, left, right), m)
  {
    pa, le, ri := parent, left, right;
    if m == ri[some] {
      ri := ri[some := ri[m]];
      if ri[m] != -1 {
        pa := pa[ri[m] := some];
      }
    } else {
      le := le[pa[m] := ri[m]];
      if ri[m] != -1 {
        pa := pa[ri[m] := pa[m]];
      }
    }
  }

  /** The pointer assignments of erase_not_child (tree.hpp:283-286) cutting out
      the leaf `m` below its parent. */
  method DetachLeaf(parent: seq<int>, left: seq<int>, right: seq<int>, m: int)
      returns (pa: seq<int>, le: seq<int>, ri: seq<int>)
    requires UnlinkFits(Links(parent, left, right), m) && left[m] == -1 && right[m] == -1
    requires parent[m] != -1 && (left[parent[m]] == m || right[parent[m]] == m)
    requires left[parent[m]] != right[parent[m]]
    ensures Links(pa, le, ri) == UnlinkLinks(Links(parent, left, right), m)
  {
    pa, le, ri := parent, left, right;
    var p := pa[m];
    if ri[p] == m {
      ri := ri[p := -1];
    } else {
      le := le[p := -1];
    }
  }

  /** The pointer assignments of swap_p (tree.hpp:189-205): `y` takes x's
      place below x's parent and above x's children. */
  method Transplant(parent: seq<int>, left: seq<int>, right: seq<int>, x: int, y: int)
      returns (pa: seq<int>, le: seq<int>, ri: seq<int>)
    requires SubstFits(Links(parent, left, right), x, y) && x != y && parent[x] != x
    ensures Links(pa, le, ri) == SubstLinks(Links(parent, left, right), x, y)
  {
    pa, le, ri := parent, left, right;
    var p := pa[x];
    if p != -1 {
      if le[p] == x {
        le := le[p := y];
      } else {
        ri := ri[p := y];
      }
    }
    pa := pa[y := pa[x]];
    if le[x] != -1 {
      pa := pa[le[x] := y];
    }
    le := le[y := le[x]];
    if ri[x] != -1 {
      pa := pa[ri[x] := y];
    }
    ri := ri[y := ri[x]];
  }
}
