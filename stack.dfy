/** ft::stack<int>: a LIFO adapter whose every operation is delegated to the
    vector it holds, with the top of the stack at the vector's back. */
module Stacks {
  import Utils
  import opened Vectors

  /** The contents after push(x): x on top. */
  function Pushed(s: seq<int>, x: int): (r: seq<int>)
    ensures |r| == |s| + 1 && r[|s|] == x && r[..|s|] == s
  {
    s + [x]
  }

  /** The contents after pop(): the top element gone, or nothing when empty. */
  function Popped(s: seq<int>): (r: seq<int>)
    ensures |s| > 0 ==> |r| == |s| - 1 && s == r + [s[|s| - 1]]
    ensures |s| == 0 ==> r == []
  {
    if |s| == 0 then [] else s[..|s| - 1]
  }

  /** push(x) followed by pop() restores the previous contents. */
  lemma PushThenPop(s: seq<int>, x: int)
    ensures Popped(Pushed(s, x)) == s
  {
  }

  /** pop() followed by push of the old top restores a non-empty stack. */
  lemma PopThenPushTop(s: seq<int>)
    requires |s| > 0
    ensures Pushed(Popped(s), s[|s| - 1]) == s
  {
  }

  class Stack {
    const c: Vector

    ghost predicate Valid()
      reads this, c
    {
      c.Valid()
    }

    /** The stack from bottom to top. */
    function Contents(): seq<int>
      reads this, c, c.buf
      requires Valid()
    {
      c.Elements()
    }

    /** stack(ctnr): a copy of ctnr's elements, bottom first. */
    constructor(ctnr: Vector)
      requires ctnr.Valid()
      ensures Valid() && Contents() == ctnr.Elements() && fresh(c)
    {
      var v := new Vector();
      var st := v.InsertRange(0, ctnr.Elements(), -1);
      c := v;
    }

    /** empty(): whether the container is empty. */
    method Empty() returns (r: bool)
      requires Valid()
      ensures r <==> Contents() == []
    {
      r := c.size == 0;
    }

    /** size(): the container's size. */
    method Size() returns (n: nat)
      requires Valid()
      ensures n == |Contents()|
    {
      n := c.size;
    }

    /** top(): the container's back, the most recently pushed element still
        on the stack. */
    method Top() returns (x: int)
      requires Valid() && Contents() != []
      ensures x == Contents()[|Contents()| - 1]
    {
      x := c.Back();
    }

    /** push(x): push_back on the container; throws, leaving the stack as it
        was, only when the container is at max_size(). */
    method Push(x: int) returns (st: Status)
      requires Valid()
      modifies c
      ensures Valid()
      ensures st == Ok <==> |old(Contents())| < MaxSize
      ensures st == Ok ==> Contents() == Pushed(old(Contents()), x)
      ensures st != Ok ==> st == LogicError && Contents() == old(Contents())
    {
      st := c.PushBack(x);
    }

    /** pop(): pop_back on the container. */
    method Pop()
      requires Valid()
      modifies c
      ensures Valid() && Contents() == Popped(old(Contents()))
    {
      c.PopBack();
    }
  }

  /** operator==: the containers are equal. */
  method Equal(x: Stack, y: Stack) returns (r: bool)
    requires x.Valid() && y.Valid()
    ensures r <==> x.Contents() == y.Contents()
  {
    r := Vectors.Equal(x.c, y.c);
  }

  /** operator!=: the containers differ. */
  method NotEqual(x: Stack, y: Stack) returns (r: bool)
    requires x.Valid() && y.Valid()
    ensures r <==> x.Contents() != y.Contents()
  {
    r := Vectors.NotEqual(x.c, y.c);
  }

  /** operator<: the containers compare below, bottom element first. */
  method Less(x: Stack, y: Stack) returns (r: bool)
    requires x.Valid() && y.Valid()
    ensures r == Utils.LexLess(x.Contents(), y.Contents())
  {
    r := Vectors.Less(x.c, y.c);
  }

  /** operator>: the containers compare above. */
  method Greater(x: Stack, y: Stack) returns (r: bool)
    requires x.Valid() && y.Valid()
    ensures r == Utils.LexLess(y.Contents(), x.Contents())
  {
    r := Vectors.Greater(x.c, y.c);
  }

  /** operator<=: below or equal. */
  method LessEqual(x: Stack, y: Stack) returns (r: bool)
    requires x.Valid() && y.Valid()
    ensures r <==> Utils.LexLess(x.Contents(), y.Contents()) || x.Contents() == y.Contents()
  {
    r := Vectors.LessEqual(x.c, y.c);
  }

  /** operator>=: above or equal. */
  method GreaterEqual(x: Stack, y: Stack) returns (r: bool)
    requires x.Valid() && y.Valid()
    ensures r <==> Utils.LexLess(y.Contents(), x.Contents()) || x.Contents() == y.Contents()
  {
    r := Vectors.GreaterEqual(x.c, y.c);
  }
}
