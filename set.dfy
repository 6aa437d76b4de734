/** ft::set<int> of set.hpp: a sentinel node whose parent slot holds the root
    of a red-black tree, and a size counter.  The tree here is a RedBlack.Tree
    whose root slot plays the sentinel's parent slot.  Iterators handed out are
    node handles, -1 being end(). */
module Sets {
  import Utils
  import opened TreeShape
  import opened ShapeFacts
  import opened RedBlack
  import opened Iterators

  // ---------------------------------------------------------------------
  // The key listing

  /** The keys after `k` enters the sorted listing `xs` at its place. */
  ghost function Inserted(xs: seq<int>, k: int): seq<int>
  {
    xs[..FirstNotBelow(xs, k)] + [k] + xs[FirstNotBelow(xs, k)..]
  }

  /** The listing without its entry at i. */
  ghost function Without<T>(xs: seq<T>, i: nat): seq<T>
    requires i < |xs|
  {
    xs[..i] + xs[i + 1..]
  }

  /** The keys after `k` leaves the sorted listing `xs`: unchanged when `k`
      is not where it would be. */
  ghost function Erased(xs: seq<int>, k: int): seq<int>
  {
    var i := FirstNotBelow(xs, k);
    if i < |xs| && xs[i] == k then Without(xs, i) else xs
  }

  /** Index of the first key above `k` (|ks| when there is none). */
  ghost function FirstAbove(ks: seq<int>, k: int): (i: nat)
    ensures i <= |ks|
    ensures forall j :: 0 <= j < i ==> ks[j] <= k
    ensures i < |ks| ==> k < ks[i]
  {
    if |ks| == 0 then 0 else if k < ks[0] then 0 else 1 + FirstAbove(ks[1..], k)
  }

  /** Inserting a new key keeps the listing sorted and adds exactly that key. */
  lemma InsertedFacts(xs: seq<int>, k: int)
    requires StrictlySorted(xs) && k !in xs
    ensures StrictlySorted(Inserted(xs, k)) && |Inserted(xs, k)| == |xs| + 1
    ensures forall x :: x in Inserted(xs, k) <==> x in xs || x == k
  {
    var i := FirstNotBelow(xs, k);
    if i < |xs| {
      assert xs[i] in xs;
    }
    SortedInsertAt(xs, i, k);
    assert xs == xs[..i] + xs[i..];
  }

  /** A key of a sorted listing sits where it would be inserted. */
  lemma FoundAt(xs: seq<int>, k: int)
    requires StrictlySorted(xs) && k in xs
    ensures FirstNotBelow(xs, k) < |xs| && xs[FirstNotBelow(xs, k)] == k
  {
    var j :| 0 <= j < |xs| && xs[j] == k;
    FirstNotBelowIs(xs, k, j);
  }

  /** Dropping the key at i from a sorted listing keeps it sorted and removes
      exactly that key. */
  lemma RemoveSorted(xs: seq<int>, i: nat)
    requires StrictlySorted(xs) && i < |xs|
    ensures StrictlySorted(xs[..i] + xs[i + 1..])
    ensures forall x :: x in xs[..i] + xs[i + 1..] <==> x in xs && x != xs[i]
  {
    RemoveKeepsOrder(xs, i);
    RemoveKeepsOthers(xs, i);
  }

  /** One more insert(*first) in insert(first, last): the keys are the
      starting keys and the items up to and including place i, whether or
      not items[i] was new. */
  lemma InsertedOne(start: seq<int>, before: seq<int>, after: seq<int>, items: seq<int>, i: nat)
    requires i < |items| && StrictlySorted(before)
    requires forall x :: x in before <==> x in start || x in items[..i]
    requires items[i] !in before ==> after == Inserted(before, items[i])
    requires items[i] in before ==> after == before
    ensures forall x :: x in after <==> x in start || x in items[..i + 1]
  {
    assert items[..i + 1] == items[..i] + [items[i]];
    if items[i] !in before {
      InsertedFacts(before, items[i]);
    }
  }

  /** Removing a key from a sorted listing keeps it sorted. */
  lemma RemoveKeepsOrder(xs: seq<int>, i: nat)
    requires StrictlySorted(xs) && i < |xs|
    ensures StrictlySorted(xs[..i] + xs[i + 1..])
  {
    var rs := xs[..i] + xs[i + 1..];
    forall p, q | 0 <= p < q < |rs|
      ensures rs[p] < rs[q]
    {
      var p', q' := if p < i then p else p + 1, if q < i then q else q + 1;
      assert rs[p] == xs[p'] && rs[q] == xs[q'];
    }
  }

  /** Removing the key at place i from a sorted listing removes that key
      and no other. */
  lemma RemoveKeepsOthers(xs: seq<int>, i: nat)
    requires StrictlySorted(xs) && i < |xs|
    ensures forall x :: x in xs[..i] + xs[i + 1..] <==> x in xs && x != xs[i]
  {
    var rs := xs[..i] + xs[i + 1..];
    forall x
      ensures x in rs <==> x in xs && x != xs[i]
    {
      if x in rs {
        var p :| 0 <= p < |rs| && rs[p] == x;
        var p' := if p < i then p else p + 1;
        assert rs[p] == xs[p'] && p' != i;
        assert xs[p'] != xs[i] by {
          if p' < i { assert xs[p'] < xs[i]; } else { assert xs[i] < xs[p']; }
        }
      }
      if x in xs && x != xs[i] {
        var p :| 0 <= p < |xs| && xs[p] == x;
        assert p != i;
        assert rs[if p < i then p else p - 1] == x;
      }
    }
  }


  /** Erasing a present key keeps the listing sorted and removes exactly that
      key. */
  lemma ErasedFacts(xs: seq<int>, k: int)
    requires StrictlySorted(xs) && k in xs
    ensures StrictlySorted(Erased(xs, k)) && |Erased(xs, k)| == |xs| - 1
    ensures forall x :: x in Erased(xs, k) <==> x in xs && x != k
    ensures FirstNotBelow(xs, k) < |xs| && xs[FirstNotBelow(xs, k)] == k
  {
    FoundAt(xs, k);
    RemoveSorted(xs, FirstNotBelow(xs, k));
  }

  /** upper_bound from lower_bound: the first key above `k` is the first key
      not below it, or the one after when that key is `k` itself. */
  lemma {:induction false} UpperFromLower(ks: seq<int>, k: int)
    requires StrictlySorted(ks)
    ensures var i := FirstNotBelow(ks, k);
      FirstAbove(ks, k) == if i < |ks| && ks[i] == k then i + 1 else i
    decreases |ks|
  {
    if |ks| > 0 && ks[0] < k {
      assert StrictlySorted(ks[1..]) by {
        assert forall p, q :: 0 <= p < q < |ks| - 1 ==> ks[1..][p] == ks[p + 1] && ks[1..][q] == ks[q + 1];
      }
      UpperFromLower(ks[1..], k);
    } else if |ks| > 1 && ks[0] == k {
      assert k < ks[1];
    }
  }

  /** Listings with the same keys are both empty or both not. */
  lemma SameKeysBothEmpty(a: seq<int>, b: seq<int>)
    requires forall x :: x in a <==> x in b
    ensures |a| > 0 <==> |b| > 0
  {
    if |a| > 0 {
      var x := a[0];
      assert x in a <==> x in b;
    }
    if |b| > 0 {
      var x := b[0];
      assert x in a <==> x in b;
    }
  }

  /** Sorted listings with the same keys start with the same key. */
  lemma SameKeysSameHead(a: seq<int>, b: seq<int>)
    requires StrictlySorted(a) && StrictlySorted(b)
    requires forall x :: x in a <==> x in b
    requires |a| > 0 && |b| > 0
    ensures a[0] == b[0]
  {
    var x, y := a[0], b[0];
    assert x in a <==> x in b;
    assert y in a <==> y in b;
    var i :| 0 <= i < |a| && a[i] == y;
    var j :| 0 <= j < |b| && b[j] == x;
    assert a[0] <= a[i] && b[0] <= b[j];
  }

  /** Dropping the same first key from two listings with the same keys
      leaves two listings with the same keys. */
  lemma SameKeysSameTail(a: seq<int>, b: seq<int>)
    requires StrictlySorted(a) && StrictlySorted(b)
    requires forall x :: x in a <==> x in b
    requires |a| > 0 && |b| > 0 && a[0] == b[0]
    ensures StrictlySorted(a[1..]) && StrictlySorted(b[1..])
    ensures forall x :: x in a[1..] <==> x in b[1..]
  {
    RemoveSorted(a, 0);
    RemoveSorted(b, 0);
    assert a[..0] + a[1..] == a[1..] && b[..0] + b[1..] == b[1..];
    forall x
      ensures x in a[1..] <==> x in b[1..]
    {
      assert x in a <==> x in b;
      assert x in a[..0] + a[1..] <==> x in a && x != a[0];
      assert x in b[..0] + b[1..] <==> x in b && x != b[0];
    }
  }

  /** Two sorted listings with the same keys are the same listing. */
  lemma {:induction false} SortedSameKeys(a: seq<int>, b: seq<int>)
    requires StrictlySorted(a) && StrictlySorted(b)
    requires forall x :: x in a <==> x in b
    ensures a == b
    decreases |a|
  {
    SameKeysBothEmpty(a, b);
    if |a| > 0 {
      SameKeysSameHead(a, b);
      SameKeysSameTail(a, b);
      SortedSameKeys(a[1..], b[1..]);
      assert a == [a[0]] + a[1..] && b == [b[0]] + b[1..];
    }
  }

  /** The keys from the first not below `k` up to the first above `k`: just
      `k` when it is present, nothing otherwise. */
  lemma BoundsEnclose(ks: seq<int>, k: int)
    requires StrictlySorted(ks)
    ensures FirstNotBelow(ks, k) <= FirstAbove(ks, k)
    ensures ks[FirstNotBelow(ks, k)..FirstAbove(ks, k)] == if k in ks then [k] else []
  {
    UpperFromLower(ks, k);
    var i := FirstNotBelow(ks, k);
    if k in ks {
      FoundAt(ks, k);
    } else if i < |ks| {
      assert ks[i] in ks;
    }
  }

  // ---------------------------------------------------------------------
  // The set

  class Set {
    var tree: Tree
    var size: nat

    /** The tree is a search tree with a black root, and the counter is its
        number of keys. */
    ghost predicate Valid()
      reads this, tree
    {
      tree.Valid() && tree.RootBlack() && size == |tree.Elements()|
    }

    /** The keys, in increasing order. */
    ghost function Elements(): seq<int>
      reads this, tree
      requires Valid()
    {
      tree.Elements()
    }

    /** The keys strictly increase. */
    lemma Sorted()
      requires Valid()
      ensures StrictlySorted(Elements())
    {
    }

    /** The place of position `h` among the keys; end() is one past the last. */
    ghost function Place(h: int): nat
      reads this, tree
      requires Valid() && (h == -1 || h in Ids(tree.shape))
    {
      IndexIn(tree, h)
    }

    /** set(): an empty tree below a fresh sentinel. */
    constructor()
      ensures Valid() && Elements() == [] && fresh(tree)
    {
      tree := new Tree();
      size := 0;
    }

    /** set(first, last): an empty set, then insert(first, last). */
    constructor FromRange(items: seq<int>)
      ensures Valid() && fresh(tree)
      ensures forall x :: x in Elements() <==> x in items
    {
      tree := new Tree();
      size := 0;
      new;
      InsertRange(items);
    }

    /** set(other): an empty set, then *this = other. */
    constructor Copy(other: Set)
      requires other.Valid()
      ensures Valid() && fresh(tree) && Elements() == other.Elements()
    {
      tree := new Tree();
      size := 0;
      new;
      AssignAsWritten(other);
    }

    /** empty(): whether the counter is zero. */
    method Empty() returns (r: bool)
      requires Valid()
      ensures r <==> Elements() == []
    {
      r := size == 0;
    }

    /** size(): the counter. */
    method Size() returns (n: nat)
      requires Valid()
      ensures n == |Elements()|
    {
      n := size;
    }

    /** begin(): min_node of the root, the first position; end() when the set
        is empty. */
    method Begin() returns (it: int)
      requires Valid()
      ensures it == -1 || it in Ids(tree.shape)
      ensures Place(it) == 0 && (it == -1 <==> Elements() == [])
    {
      RootSubtree(tree);
      it := tree.MinNode(tree.root);
      if tree.root != -1 {
        HandleAt(tree, it, 0);
      }
    }

    /** end(): the null position, one past the last key. */
    method End() returns (it: int)
      requires Valid()
      ensures it == -1 && Place(it) == |Elements()|
    {
      it := -1;
    }

    /** insert(val): a fresh node goes into the tree, and the counter grows
        when the tree took it.  The returned position holds `val` either way. */
    method Insert(val: int) returns (it: int, inserted: bool)
      requires Valid()
      modifies this, tree
      ensures Valid() && tree == old(tree)
      ensures inserted <==> val !in old(Elements())
      ensures inserted ==> Elements() == Inserted(old(Elements()), val)
      ensures !inserted ==> Elements() == old(Elements())
      ensures it in Ids(tree.shape) && Elements()[Place(it)] == val
      ensures inserted ==> var i := FirstNotBelow(old(Elements()), val);
        tree.Nodes() == old(tree.Nodes())[..i] + [it] + old(tree.Nodes())[i..]
      ensures !inserted ==> tree.Nodes() == old(tree.Nodes())
      ensures Ids(old(tree.shape)) <= Ids(tree.shape)
    {
      InOrderIds(tree.shape);
      var n := tree.NewNode(val);
      inserted := tree.Insert(n);
      if inserted {
        InsertedFacts(old(Elements()), val);
        size := size + 1;
      }
      RootSubtree(tree);
      it := tree.FindNode(tree.root, val);
      tree.NodeFacts(it);
      if inserted {
        ghost var i := FirstNotBelow(old(Elements()), val);
        assert tree.Nodes()[i] == n && Elements()[i] == val;
        Sorted();
        assert Place(it) == i;
      }
      InOrderIds(tree.shape);
    }

    /** insert(hint, val): the hint is not used; the same as insert(val). */
    method InsertHint(hint: int, val: int) returns (it: int)
      requires Valid()
      modifies this, tree
      ensures Valid() && tree == old(tree)
      ensures val !in old(Elements()) ==> Elements() == Inserted(old(Elements()), val)
      ensures val in old(Elements()) ==> Elements() == old(Elements())
      ensures it in Ids(tree.shape) && Elements()[Place(it)] == val
      ensures val !in old(Elements()) ==> var i := FirstNotBelow(old(Elements()), val);
        tree.Nodes() == old(tree.Nodes())[..i] + [it] + old(tree.Nodes())[i..]
      ensures val in old(Elements()) ==> tree.Nodes() == old(tree.Nodes())
      ensures Ids(old(tree.shape)) <= Ids(tree.shape)
    {
      var inserted;
      it, inserted := Insert(val);
    }

    /** insert(first, last): insert(val) for each value of the range. */
    method InsertRange(items: seq<int>)
      requires Valid()
      modifies this, tree
      ensures Valid() && tree == old(tree)
      ensures forall x :: x in Elements() <==> x in old(Elements()) || x in items
      ensures Ids(old(tree.shape)) <= Ids(tree.shape)
    {
      var i := 0;
      while i < |items|
        invariant 0 <= i <= |items| && Valid() && tree == old(tree)
        invariant forall x :: x in Elements() <==> x in old(Elements()) || x in items[..i]
        invariant Ids(old(tree.shape)) <= Ids(tree.shape)
      {
        Sorted();
        ghost var before := Elements();
        var it, inserted := Insert(items[i]);
        InsertedOne(old(Elements()), before, Elements(), items, i);
        i := i + 1;
      }
      assert items[..i] == items;
    }

    /** erase(k): the tree drops the node holding k, and the counter shrinks
        when it did; the answer is the number of keys removed. */
    method Erase(k: int) returns (count: nat)
      requires Valid()
      modifies this, tree
      ensures Valid() && tree == old(tree)
      ensures count == 1 <==> k in old(Elements())
      ensures count == 0 <==> k !in old(Elements())
      ensures Elements() == Erased(old(Elements()), k)
      ensures count == 1 ==> (FirstNotBelow(old(Elements()), k) < |old(tree.Nodes())| &&
        tree.Nodes() == Without(old(tree.Nodes()), FirstNotBelow(old(Elements()), k)))
      ensures count == 0 ==> tree.Nodes() == old(tree.Nodes()) && Ids(tree.shape) == Ids(old(tree.shape))
    {
      ghost var E := Elements();
      ghost var i := FirstNotBelow(E, k);
      var ok := tree.Erase(k);
      if ok {
        ErasedFacts(E, k);
        size := size - 1;
        count := 1;
      } else {
        count := 0;
        assert i < |E| ==> E[i] in E;
      }
    }

    /** erase(position): erases the key the position holds. */
    method EraseAt(position: int)
      requires Valid() && position in Ids(tree.shape)
      modifies this, tree
      ensures Valid() && tree == old(tree)
      ensures old(Place(position)) < |old(Elements())|
      ensures Elements() == Without(old(Elements()), old(Place(position)))
      ensures tree.Nodes() == Without(old(tree.Nodes()), old(Place(position)))
    {
      ghost var i := Place(position);
      tree.NodeFacts(position);
      assert Elements()[i] == tree.key[position];
      KeyPosition(tree.Nodes(), tree.key, i);
      var count := Erase(tree.key[position]);
    }

    /** The state of erase(first, last) on the listing `E` once `c` of its
        keys are gone: `cur` stays at place `i`, where the first of them was,
        and `last` has moved `c` places forward from place `j`. */
    ghost predicate Erasing(cur: int, last: int, E: seq<int>, i: nat, j: nat, c: nat)
      reads this, tree
    {
      Valid() &&
      (cur == -1 || cur in Ids(tree.shape)) && (last == -1 || last in Ids(tree.shape)) &&
      i + c <= j <= |E| && Place(cur) == i && Place(last) == j - c &&
      Elements() == E[..i] + E[i + c..]
    }

    /** Before the first erase, nothing is gone yet. */
    lemma Started(first: int, last: int, E: seq<int>, i: nat, j: nat)
      requires Valid()
      requires first == -1 || first in Ids(tree.shape)
      requires last == -1 || last in Ids(tree.shape)
      requires Place(first) == i <= Place(last) == j && Elements() == E
      ensures Erasing(first, last, E, i, j, 0)
    {
      assert E[..i] + E[i..] == E;
    }

    /** erase(first++), one round of erase(first, last): the iterator moves
        on, then the key it left goes.  The nodes that stay keep their
        handles, so `last` still denotes the same node, one place further
        forward. */
    method EraseNext(first: int, last: int, ghost E: seq<int>, ghost i: nat, ghost c: nat)
      returns (next: int)
      requires Valid()
      requires first in Ids(tree.shape) && (last == -1 || last in Ids(tree.shape))
      requires first != last && Place(first) == i <= Place(last)
      requires i + c <= |E| && Elements() == E[..i] + E[i + c..]
      modifies this, tree
      ensures Valid() && tree == old(tree)
      ensures next == -1 || next in Ids(tree.shape)
      ensures last == -1 || last in Ids(tree.shape)
      ensures i < old(Place(last)) && Place(next) == i && Place(last) == old(Place(last)) - 1
      ensures i + c + 1 <= |E| && Elements() == E[..i] + E[i + c + 1..]
    {
      ghost var N := tree.Nodes();
      ghost var p := Place(last);
      assert i != p by {
        assert tree.Nodes()[i] == first;
      }
      var it := new MapIterator(tree, first);
      var prev := it.PostInc();
      next := it.base;
      EraseAt(prev);
      if next != -1 {
        WithoutAt(N, i, i + 1);
        HandleAt(tree, next, i);
      }
      if last != -1 {
        WithoutAt(N, i, p);
        HandleAt(tree, last, p - 1);
      }
      DropNext(E, i, c);
    }

    /** erase(first, last): erase(first++) until first reaches last. */
    method EraseRange(first: int, last: int)
      requires Valid()
      requires first == -1 || first in Ids(tree.shape)
      requires last == -1 || last in Ids(tree.shape)
      requires Place(first) <= Place(last)
      modifies this, tree
      ensures Valid() && tree == old(tree)
      ensures Elements() == old(Elements())[..old(Place(first))] + old(Elements())[old(Place(last))..]
    {
      ghost var E := Elements();
      ghost var i0 := Place(first);
      ghost var j0 := Place(last);
      var cur := first;
      ghost var c := 0;
      Started(first, last, E, i0, j0);
      while cur != last
        invariant tree == old(tree) && Erasing(cur, last, E, i0, j0, c)
        decreases j0 - i0 - c
      {
        cur := EraseNext(cur, last, E, i0, c);
        Continued(cur, last, E, i0, j0, c);
        c := c + 1;
      }
      Finished(cur, last, E, i0, j0, c);
    }

    /** After a round of erase(first++), the loop's state holds again with
        one more key gone. */
    lemma Continued(cur: int, last: int, E: seq<int>, i: nat, j: nat, c: nat)
      requires Valid()
      requires cur == -1 || cur in Ids(tree.shape)
      requires last == -1 || last in Ids(tree.shape)
      requires i + c + 1 <= j <= |E| && Place(cur) == i && Place(last) == j - c - 1
      requires Elements() == E[..i] + E[i + c + 1..]
      ensures Erasing(cur, last, E, i, j, c + 1)
    {
    }

    /** Once `cur` reaches `last`, the keys between their first places are
        all gone. */
    lemma Finished(cur: int, last: int, E: seq<int>, i: nat, j: nat, c: nat)
      requires Erasing(cur, last, E, i, j, c) && cur == last
      ensures Valid() && i <= j <= |E| && Elements() == E[..i] + E[j..]
    {
    }

    /** clear(): the tree is torn down, the root slot nulled, the counter
        zeroed. */
    method Clear()
      requires Valid()
      modifies this, tree
      ensures Valid() && tree == old(tree) && Elements() == []
    {
      tree.Clear();
      size := 0;
    }

    /** swap(x): the two sets exchange sentinels and counters. */
    method Swap(x: Set)
      requires Valid() && x.Valid()
      modifies this, x
      ensures tree == old(x.tree) && x.tree == old(tree)
      ensures Valid() && x.Valid()
      ensures Elements() == old(x.Elements()) && x.Elements() == old(Elements())
    {
      var t, n := tree, size;
      tree, size := x.tree, x.size;
      x.tree, x.size := t, n;
    }

    /** find(k): the position holding k, or end() when no key is k. */
    method Find(k: int) returns (it: int)
      requires Valid()
      ensures it == -1 || it in Ids(tree.shape)
      ensures it == -1 <==> k !in Elements()
      ensures it != -1 ==> Elements()[Place(it)] == k
    {
      RootSubtree(tree);
      it := tree.FindNode(tree.root, k);
      if it != -1 {
        tree.NodeFacts(it);
      }
    }

    /** count(k): 1 when some key is k, else 0. */
    method Count(k: int) returns (n: nat)
      requires Valid()
      ensures n <= 1 && (n == 1 <==> k in Elements())
    {
      RootSubtree(tree);
      if tree.FindNode(tree.root, k) != -1 {
        return 1;
      }
      return 0;
    }

    /** lower_bound(k): the position of the first key not below k. */
    method LowerBound(k: int) returns (it: int)
      requires Valid()
      ensures it == -1 || it in Ids(tree.shape)
      ensures Place(it) == FirstNotBelow(Elements(), k)
    {
      RootSubtree(tree);
      it := tree.Lower(tree.root, k);
      if it != -1 {
        HandleAt(tree, it, FirstNotBelow(Elements(), k));
      }
    }

    /** upper_bound(k): lower_bound(k), advanced once when it holds k itself:
        the position of the first key above k. */
    method UpperBound(k: int) returns (it: int)
      requires Valid()
      ensures it == -1 || it in Ids(tree.shape)
      ensures Place(it) == FirstAbove(Elements(), k)
    {
      var tmp := LowerBound(k);
      var res := new MapIterator(tree, tmp);
      ghost var i := Place(tmp);
      UpperFromLower(Elements(), k);
      if tmp != -1 {
        tree.NodeFacts(tmp);
        assert Elements()[i] == tree.key[tmp];
        if tree.key[tmp] == k {
          res.Inc();
          assert Place(res.base) == i + 1;
        }
      }
      it := res.base;
    }

    /** equal_range(k): lower_bound(k) and upper_bound(k); the range holds the
        key k when there is one, and nothing otherwise. */
    method EqualRange(k: int) returns (lo: int, hi: int)
      requires Valid()
      ensures lo == -1 || lo in Ids(tree.shape)
      ensures hi == -1 || hi in Ids(tree.shape)
      ensures Place(lo) == FirstNotBelow(Elements(), k) && Place(hi) == FirstAbove(Elements(), k)
      ensures Elements()[Place(lo)..Place(hi)] == if k in Elements() then [k] else []
    {
      lo := LowerBound(k);
      hi := UpperBound(k);
      Sorted();
      BoundsEnclose(Elements(), k);
    }

    /** The walk from begin() to end() the comparisons make: the keys, in
        increasing order. */
    method Keys() returns (ks: seq<int>)
      requires Valid()
      ensures ks == Elements()
    {
      var b := Begin();
      var it := new MapIterator(tree, b);
      ks := [];
      while it.base != -1
        invariant it.Valid() && it.tree == tree && fresh(it)
        invariant it.Index() == |ks| && ks == Elements()[..|ks|]
        decreases |Elements()| - |ks|
      {
        ghost var n := |ks|;
        ks := ks + [it.Deref()];
        assert ks == Elements()[..n + 1];
        it.Inc();
      }
    }

    /** operator= as written: clear(), then insert(other.begin(), other.end()).
        On self-assignment the clear has already emptied the range it copies. */
    method AssignAsWritten(other: Set)
      requires Valid() && other.Valid() && (other == this || other.tree != tree)
      modifies this, tree
      ensures Valid() && tree == old(tree)
      ensures other != this ==> Elements() == old(other.Elements())
      ensures other == this ==> Elements() == []
    {
      Clear();
      var ks := other.Keys();
      InsertRange(ks);
      SortedSameKeys(Elements(), ks);
    }

    /** operator= guarded against self-assignment: the set ends with the
        other set's keys in every case. */
    method Assign(other: Set)
      requires Valid() && other.Valid() && (other == this || other.tree != tree)
      modifies this, tree
      ensures Valid() && tree == old(tree)
      ensures Elements() == old(other.Elements())
    {
      if other != this {
        AssignAsWritten(other);
      }
    }
  }

  /** Where an entry other than the i-th lands once the i-th is dropped. */
  lemma WithoutAt<T>(xs: seq<T>, i: nat, j: nat)
    requires i < |xs| && j < |xs| && j != i
    ensures j < i ==> Without(xs, i)[j] == xs[j]
    ensures i < j ==> Without(xs, i)[j - 1] == xs[j]
  {
  }

  /** Dropping the entry at i from xs[..i] + xs[i + c..]. */
  lemma DropNext<T>(xs: seq<T>, i: nat, c: nat)
    requires i + c < |xs|
    ensures i < |xs[..i] + xs[i + c..]| && (xs[..i] + xs[i + c..])[i] == xs[i + c]
    ensures Without(xs[..i] + xs[i + c..], i) == xs[..i] + xs[i + c + 1..]
  {
    var ys := xs[..i] + xs[i + c..];
    assert ys[..i] == xs[..i];
    assert ys[i + 1..] == xs[i + c + 1..];
  }

  /** Self-assignment through operator= as written loses every key: a set
      holding 5, assigned to itself, ends empty. */
  method SelfAssignmentEmpties() returns (before: seq<int>, after: seq<int>)
    ensures before == [5] && after == []
  {
    var s := new Set();
    var it, inserted := s.Insert(5);
    before := s.Keys();
    s.AssignAsWritten(s);
    after := s.Keys();
  }

  /** operator==: equal sizes, and equal() of the two walks both ways. */
  method Equal(x: Set, y: Set) returns (r: bool)
    requires x.Valid() && y.Valid()
    ensures r <==> x.Elements() == y.Elements()
  {
    r := x.size == y.size;
    if r {
      var xs := x.Keys();
      var ys := y.Keys();
      r := Utils.Equal(xs, ys);
      if r {
        r := Utils.Equal(ys, xs);
      }
    }
  }

  /** operator!=: the negation of operator==. */
  method NotEqual(x: Set, y: Set) returns (r: bool)
    requires x.Valid() && y.Valid()
    ensures r <==> x.Elements() != y.Elements()
  {
    var eq := Equal(x, y);
    r := !eq;
  }

  /** operator<: lexicographical_compare of the two walks, and the sets
      differ; the second test never changes the answer. */
  method Less(x: Set, y: Set) returns (r: bool)
    requires x.Valid() && y.Valid()
    ensures r == Utils.LexLess(x.Elements(), y.Elements())
  {
    var xs := x.Keys();
    var ys := y.Keys();
    r := Utils.LexicographicalCompare(xs, ys);
    if r {
      r := NotEqual(x, y);
      Utils.LexIrreflexive(xs);
    }
  }

  /** operator<=: x < y or x == y. */
  method LessEqual(x: Set, y: Set) returns (r: bool)
    requires x.Valid() && y.Valid()
    ensures r <==> Utils.LexLess(x.Elements(), y.Elements()) || x.Elements() == y.Elements()
  {
    r := Less(x, y);
    if !r {
      r := Equal(x, y);
    }
  }

  /** operator>: y < x. */
  method Greater(x: Set, y: Set) returns (r: bool)
    requires x.Valid() && y.Valid()
    ensures r == Utils.LexLess(y.Elements(), x.Elements())
  {
    r := Less(y, x);
  }

  /** operator>=: x > y or x == y. */
  method GreaterEqual(x: Set, y: Set) returns (r: bool)
    requires x.Valid() && y.Valid()
    ensures r <==> Utils.LexLess(y.Elements(), x.Elements()) || x.Elements() == y.Elements()
  {
    r := Greater(x, y);
    if !r {
      r := Equal(x, y);
    }
  }
}
