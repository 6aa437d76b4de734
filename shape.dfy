/** Ghost view of the red-black tree of tree.hpp: the shape of the node graph as
    a datatype over node handles, the in-order listing of handles, and the way an
    arena of parent/left/right link fields realises a shape.  Every pointer
    rewiring of the engine (rotation, leaf attachment, unlinking, the splice of
    swap_p) replaces one subtree of the shape by another; `Plug` is that
    replacement and `PlugLinked` is the one context lemma they all rely on. */
module TreeShape {

  /** A binary tree over node handles (indices into the node arena). */
  datatype Shape = Nil | Node(id: nat, left: Shape, right: Shape)

  /** The link fields of all arena nodes; -1 is the null pointer. */
  datatype Links = Links(parent: seq<int>, left: seq<int>, right: seq<int>)

  /** The handle at the top of a shape, or null. */
  function RootOf(s: Shape): int
  {
    if s.Nil? then -1 else s.id
  }

  ghost function Ids(s: Shape): set<nat>
  {
    match s
    case Nil => {}
    case Node(id, l, r) => Ids(l) + {id} + Ids(r)
  }

  ghost function InOrder(s: Shape): seq<nat>
  {
    match s
    case Nil => []
    case Node(id, l, r) => InOrder(l) + [id] + InOrder(r)
  }

  /** The last handle of a non-empty listing. */
  ghost function Last(xs: seq<nat>): nat
    requires xs != []
  {
    xs[|xs| - 1]
  }

  ghost function Size(s: Shape): nat
  {
    match s
    case Nil => 0
    case Node(_, l, r) => Size(l) + 1 + Size(r)
  }

  /** No handle occurs twice. */
  ghost predicate Distinct(s: Shape)
  {
    match s
    case Nil => true
    case Node(id, l, r) =>
      id !in Ids(l) && id !in Ids(r) && Ids(l) !! Ids(r) && Distinct(l) && Distinct(r)
  }

  /** The arena's links realise shape `s` hanging below parent `p`: every node's
      parent field is the true inverse of its parent's child field. */
  ghost predicate Linked(s: Shape, p: int, a: Links)
  {
    match s
    case Nil => true
    case Node(id, l, r) =>
      id < |a.parent| && id < |a.left| && id < |a.right| &&
      a.parent[id] == p && a.left[id] == RootOf(l) && a.right[id] == RootOf(r) &&
      Linked(l, id, a) && Linked(r, id, a)
  }

  /** The subtree whose top is handle `n`, or Nil when `n` is not in `s`. */
  ghost function Subtree(s: Shape, n: int): Shape
  {
    match s
    case Nil => Nil
    case Node(id, l, r) =>
      if id == n then s else if n in Ids(l) then Subtree(l, n) else Subtree(r, n)
  }

  /** `s` with the subtree whose top is `x` replaced by `u`. */
  ghost function Plug(s: Shape, x: int, u: Shape): Shape
  {
    match s
    case Nil => Nil
    case Node(id, l, r) =>
      if id == x then u
      else if x in Ids(l) then Node(id, Plug(l, x, u), r)
      else Node(id, l, Plug(r, x, u))
  }

  /** The in-order handles that come before (after) the subtree whose top is `x`. */
  ghost function Before(s: Shape, x: int): seq<nat>
  {
    match s
    case Nil => []
    case Node(id, l, r) =>
      if id == x then [] else if x in Ids(l) then Before(l, x) else InOrder(l) + [id] + Before(r, x)
  }

  ghost function After(s: Shape, x: int): seq<nat>
  {
    match s
    case Nil => []
    case Node(id, l, r) =>
      if id == x then [] else if x in Ids(l) then After(l, x) + [id] + InOrder(r) else After(r, x)
  }

  /** Index of handle `x` in the listing of `s`, when `x` is in `s`. */
  ghost function Position(s: Shape, x: int): nat
  {
    var t := Subtree(s, x);
    |Before(s, x)| + if t.Nil? then 0 else |InOrder(t.left)|
  }

  /** Number of links followed from the top of `s` down to `n`. */
  ghost function Depth(s: Shape, n: int): nat
  {
    match s
    case Nil => 0
    case Node(id, l, r) =>
      if id == n then 0
      else if n in Ids(l) then 1 + Depth(l, n)
      else if n in Ids(r) then 1 + Depth(r, n)
      else 0
  }

  /** Sum over all nodes of the size of their right subtree; every left
      rotation lowers it. */
  ghost function Phi(s: Shape): nat
  {
    match s
    case Nil => 0
    case Node(_, l, r) => Phi(l) + Phi(r) + Size(r)
  }

  // ---------------------------------------------------------------------
  // Local rewritings of one subtree

  /** rotate_left at the top: the right child y takes x's place. */
  ghost function RotLeft(t: Shape): Shape
  {
    if t.Node? && t.right.Node? then
      Node(t.right.id, Node(t.id, t.left, t.right.left), t.right.right)
    else t
  }

  /** rotate_right at the top: the left child takes the top's place. */
  ghost function RotRight(t: Shape): Shape
  {
    if t.Node? && t.left.Node? then
      Node(t.left.id, t.left.left, Node(t.id, t.left.right, t.right))
    else t
  }

  /** A node with at most one child replaced by that child. */
  ghost function OnlyChild(t: Shape): Shape
  {
    if t.Nil? then Nil else if t.left.Nil? then t.right else t.left
  }

  ghost function RotateLeftAt(s: Shape, x: int): Shape
  {
    Plug(s, x, RotLeft(Subtree(s, x)))
  }

  ghost function RotateRightAt(s: Shape, x: int): Shape
  {
    Plug(s, x, RotRight(Subtree(s, x)))
  }

  ghost function Unlink(s: Shape, m: int): Shape
  {
    Plug(s, m, OnlyChild(Subtree(s, m)))
  }

  /** Node `y` takes the place of node `x`, keeping x's children. */
  ghost function Substitute(s: Shape, x: int, y: nat): Shape
  {
    var t := Subtree(s, x);
    Plug(s, x, if t.Nil? then Nil else Node(y, t.left, t.right))
  }

  /** insert's attachment of the new node `n` as the missing left child of `t`. */
  ghost function GrowLeft(s: Shape, t: int, n: nat): Shape
  {
    var u := Subtree(s, t);
    Plug(s, t, if u.Nil? then Nil else Node(u.id, Node(n, Nil, Nil), u.right))
  }

  /** insert's attachment of the new node `n` as the missing right child of `t`. */
  ghost function GrowRight(s: Shape, t: int, n: nat): Shape
  {
    var u := Subtree(s, t);
    Plug(s, t, if u.Nil? then Nil else Node(u.id, u.left, Node(n, Nil, Nil)))
  }

  // ---------------------------------------------------------------------
  // Keys

  function KeyOf(k: seq<int>, n: int): int
  {
    if 0 <= n < |k| then k[n] else 0
  }

  /** The keys of the handles `ids`, in that order. */
  ghost function KeysOf(ids: seq<nat>, k: seq<int>): (r: seq<int>)
    ensures |r| == |ids|
    ensures forall i :: 0 <= i < |ids| ==> r[i] == KeyOf(k, ids[i])
  {
    seq(|ids|, i requires 0 <= i < |ids| => KeyOf(k, ids[i]))
  }

  ghost predicate StrictlySorted(xs: seq<int>)
  {
    forall i, j :: 0 <= i < j < |xs| ==> xs[i] < xs[j]
  }

  /** Index of the first key that is not less than `k` (|ks| when there is none). */
  ghost function FirstNotBelow(ks: seq<int>, k: int): (i: nat)
    ensures i <= |ks|
    ensures forall j :: 0 <= j < i ==> ks[j] < k
    ensures i < |ks| ==> k <= ks[i]
  {
    if |ks| == 0 then 0 else if k <= ks[0] then 0 else 1 + FirstNotBelow(ks[1..], k)
  }

  /** A search tree over an arena: the links realise `s`, `root` is its top,
      and keys strictly increase in in-order sequence. */
  ghost predicate WellFormed(s: Shape, a: Links, key: seq<int>, root: int)
  {
    |a.parent| == |key| && |a.left| == |key| && |a.right| == |key| &&
    Distinct(s) && Linked(s, -1, a) && root == RootOf(s) &&
    StrictlySorted(KeysOf(InOrder(s), key))
  }

  /** Key `k` belongs inside the subtree at `t`: every key listed before that
      subtree is below `k` and every key listed after it is above `k`. */
  ghost predicate Between(s: Shape, t: int, key: seq<int>, k: int)
  {
    (forall c :: c in KeysOf(Before(s, t), key) ==> c < k) &&
    (forall c :: c in KeysOf(After(s, t), key) ==> k < c)
  }
}
