/** ft::vector<int>: a buffer of `capacity` slots whose first `size` slots
    hold the elements.  Every mutator works on the buffer in place with the
    loops of vector.hpp; reserve moves the elements to a new buffer. */
module Vectors {
  import Utils

  /** How an operation ends: normally, or with the exception it throws. */
  datatype Status = Ok | LogicError | OutOfRange

  /** The largest value of a 64-bit size_t. */
  const SizeMax: nat := 0xFFFF_FFFF_FFFF_FFFF

  /** max_size(): the largest size_t divided by sizeof(int), for a 64-bit
      size_t and a 4-byte int. */
  const MaxSize: nat := SizeMax / 4

  /** `x + y` in size_t arithmetic, which wraps past SizeMax. */
  function SizeAdd(x: nat, y: nat): (r: nat)
    requires x <= SizeMax && y <= SizeMax
    ensures r <= SizeMax
    ensures x + y <= SizeMax ==> r == x + y
    ensures x + y > SizeMax ==> r == x + y - (SizeMax + 1) && r < x
  {
    (x + y) % (SizeMax + 1)
  }

  /** The capacity a successful reserve(n) leaves: the old capacity doubled,
      or n when that is larger. */
  function Regrown(capacity: nat, n: nat): (c: nat)
    ensures c >= n && c >= 2 * capacity
    ensures c == n || c == 2 * capacity
  {
    if n < 2 * capacity then 2 * capacity else n
  }

  /** n copies of v. */
  function Copies(v: int, n: nat): (s: seq<int>)
    ensures |s| == n && forall i :: 0 <= i < n ==> s[i] == v
  {
    seq(n, _ => v)
  }

  class Vector {
    var buf: array<int>
    var size: nat
    var capacity: nat

    /** The buffer has `capacity` slots, the elements fit in it, and no more
        elements than max_size() were ever admitted. */
    ghost predicate Valid()
      reads this
    {
      buf.Length == capacity && size <= capacity && size <= MaxSize
    }

    /** The elements, in order. */
    function Elements(): (s: seq<int>)
      reads this, buf
      requires Valid()
      ensures |s| == size
    {
      buf[..size]
    }

    /** The default constructor: no elements and no buffer. */
    constructor()
      ensures Valid() && Elements() == [] && capacity == 0
    {
      buf := new int[0];
      size := 0;
      capacity := 0;
    }

    /** reserve(n): throws logic_error past max_size(); otherwise always moves
        the elements into a new buffer of Regrown(capacity, n) slots. */
    method Reserve(n: nat) returns (st: Status)
      requires Valid()
      modifies this
      ensures Valid() && size == old(size) && Elements() == old(Elements())
      ensures n > MaxSize ==> st == LogicError && capacity == old(capacity) && buf == old(buf)
      ensures n <= MaxSize ==> st == Ok && capacity == Regrown(old(capacity), n) && fresh(buf)
    {
      if n > MaxSize {
        return LogicError;
      }
      var newCapacity := n;
      if newCapacity < 2 * capacity {
        newCapacity := 2 * capacity;
      }
      assert size <= capacity <= newCapacity;
      var tmp := new int[newCapacity];
      var i := 0;
      while i < size
        invariant 0 <= i <= size && tmp[..i] == buf[..i]
        modifies tmp
      {
        tmp[i] := buf[i];
        i := i + 1;
      }
      capacity := newCapacity;
      buf := tmp;
      st := Ok;
    }

    /** push_back(val): reserves room for one more element, then appends. */
    method PushBack(val: int) returns (st: Status)
      requires Valid()
      modifies this
      ensures Valid()
      ensures old(size) + 1 > MaxSize ==>
        st == LogicError && Elements() == old(Elements()) && capacity == old(capacity)
      ensures old(size) + 1 <= MaxSize ==>
        st == Ok && Elements() == old(Elements()) + [val] &&
        capacity == Regrown(old(capacity), old(size) + 1)
      ensures st == Ok ==> fresh(buf)
      ensures st != Ok ==> buf == old(buf)
    {
      st := Reserve(size + 1);
      if st != Ok {
        return;
      }
      buf[size] := val;
      size := size + 1;
      assert Elements() == old(Elements()) + [val] by {
        assert buf[..size - 1] == old(Elements());
      }
    }

    /** pop_back(): drops the last element; nothing happens when empty. */
    method PopBack()
      requires Valid()
      modifies this
      ensures Valid() && capacity == old(capacity) && buf == old(buf)
      ensures Elements() == if old(size) == 0 then [] else old(Elements())[..old(size) - 1]
    {
      if size > 0 {
        size := size - 1;
      }
    }

    /** The loop the three insert overloads share: moves the elements from
        offset d up by n slots, last one first, leaving the slots below
        d + n free for the new values. */
    method ShiftUp(d: nat, n: nat)
      requires Valid() && d <= size && size + n <= capacity
      modifies buf
      ensures buf[..d] == old(buf[..d])
      ensures buf[d + n..size + n] == old(buf[d..size])
    {
      ghost var a := buf[..];
      var i := 0;
      while size - i != d
        invariant 0 <= i <= size - d
        invariant forall j :: 0 <= j < size - i ==> buf[j] == a[j]
        invariant forall j :: size - i + n <= j < size + n ==> buf[j] == a[j - n]
        decreases size - d - i
      {
        buf[size - 1 - i + n] := buf[size - i - 1];
        i := i + 1;
      }
      assert buf[..d] == a[..d];
      assert buf[d + n..size + n] == a[d..size];
    }

    /** insert(position, val): throws logic_error for a position past end(),
        or when there is no room for one more element; otherwise puts val at
        the position, the elements from there one place further, and returns
        the position. */
    method Insert(pos: int, val: int) returns (st: Status, it: int)
      requires Valid() && 0 <= pos
      modifies this
      ensures Valid()
      ensures (pos > old(size) || old(size) + 1 > MaxSize) ==>
        st == LogicError && Elements() == old(Elements()) && capacity == old(capacity)
      ensures pos <= old(size) && old(size) + 1 <= MaxSize ==>
        st == Ok && it == pos && capacity == Regrown(old(capacity), old(size) + 1) &&
        Elements() == old(Elements())[..pos] + [val] + old(Elements())[pos..]
      ensures st == Ok ==> fresh(buf)
      ensures st != Ok ==> buf == old(buf)
    {
      var d := Utils.Distance(0, pos);
      it := pos;
      if pos > size {
        return LogicError, it;
      }
      st := Reserve(size + 1);
      if st != Ok {
        return;
      }
      PutAt(d, val);
    }

    /** The part of insert(position, val) after the reserve: moves the
        elements from d one slot up and puts val in the freed slot. */
    method PutAt(d: nat, val: int)
      requires Valid() && d <= size && size + 1 <= capacity && size + 1 <= MaxSize
      modifies this, buf
      ensures Valid() && buf == old(buf) && capacity == old(capacity)
      ensures Elements() == old(Elements())[..d] + [val] + old(Elements())[d..]
    {
      ShiftUp(d, 1);
      ghost var below, above := buf[..d], buf[d + 1..size + 1];
      buf[d] := val;
      assert buf[..d] == below && buf[d + 1..size + 1] == above;
      assert buf[..size + 1] == below + [val] + above;
      size := size + 1;
    }

    /** insert(position, n, val): throws logic_error for a position past
        end(), or when there is no room for n more elements; otherwise puts n
        copies of val at the position and the elements from there n places
        further, counting the size up as each copy is placed. */
    method InsertFill(pos: int, n: nat, val: int) returns (st: Status)
      requires Valid() && 0 <= pos
      modifies this
      ensures Valid()
      ensures (pos > old(size) || old(size) + n > MaxSize) ==>
        st == LogicError && Elements() == old(Elements()) && capacity == old(capacity)
      ensures pos <= old(size) && old(size) + n <= MaxSize ==>
        st == Ok && capacity == Regrown(old(capacity), old(size) + n) &&
        Elements() == old(Elements())[..pos] + Copies(val, n) + old(Elements())[pos..]
      ensures st == Ok ==> fresh(buf)
      ensures st != Ok ==> buf == old(buf)
    {
      var d := Utils.Distance(0, pos);
      if pos > size {
        return LogicError;
      }
      st := Reserve(size + n);
      if st != Ok {
        return;
      }
      FillGap(d, n, val);
    }

    /** The part of insert(position, n, val) after the reserve: opens a gap
        of n slots at d and fills it with copies of val, one size step per
        copy. */
    method FillGap(d: nat, n: nat, val: int)
      requires Valid() && d <= size && size + n <= capacity && size + n <= MaxSize
      modifies this, buf
      ensures Valid() && buf == old(buf) && capacity == old(capacity)
      ensures Elements() == old(Elements())[..d] + Copies(val, n) + old(Elements())[d..]
    {
      ghost var e := Elements();
      ghost var s0 := size;
      ShiftUp(d, n);
      ghost var a := buf[..];
      assert a[..d] == e[..d] && a[d + n..s0 + n] == e[d..];
      var i := 0;
      while i < n
        invariant 0 <= i <= n && size == s0 + i && Valid()
        invariant buf == old(buf) && capacity == old(capacity)
        invariant forall j :: 0 <= j < d ==> buf[j] == a[j]
        invariant forall j :: d <= j < d + i ==> buf[j] == val
        invariant forall j :: d + n <= j < s0 + n ==> buf[j] == a[j]
      {
        buf[d + i] := val;
        size := size + 1;
        i := i + 1;
      }
      ghost var b := buf[..size];
      assert b == a[..d] + Copies(val, n) + a[d + n..s0 + n];
    }

    /** insert(position, first, last): throws logic_error for a position past
        end(); copies the range into a staging buffer first, and if a copy
        throws (`failAt` names the element whose copy throws, when it is an
        offset of the range) throws logic_error with the vector unchanged;
        then reserves room, which may throw, and places the range at the
        position. */
    method InsertRange(pos: int, items: seq<int>, failAt: int) returns (st: Status)
      requires Valid() && 0 <= pos
      modifies this
      ensures Valid()
      ensures (pos > old(size) || 0 <= failAt < |items| || old(size) + |items| > MaxSize) ==>
        st == LogicError && Elements() == old(Elements()) && capacity == old(capacity)
      ensures pos <= old(size) && !(0 <= failAt < |items|) && old(size) + |items| <= MaxSize ==>
        st == Ok && capacity == Regrown(old(capacity), old(size) + |items|) &&
        Elements() == old(Elements())[..pos] + items + old(Elements())[pos..]
      ensures st == Ok ==> fresh(buf)
      ensures st != Ok ==> buf == old(buf)
    {
      var n := Utils.Distance(0, |items|);
      var d := Utils.Distance(0, pos);
      if pos > size {
        return LogicError;
      }
      var tmp := new int[n];
      var i := 0;
      while i < n
        invariant 0 <= i <= n && tmp[..i] == items[..i] && tmp.Length == n
        invariant !(0 <= failAt < i)
        modifies tmp
      {
        if i == failAt {
          return LogicError;
        }
        tmp[i] := items[i];
        i := i + 1;
      }
      assert tmp[..] == items;
      st := Reserve(size + n);
      if st != Ok {
        return;
      }
      CopyIntoGap(d, tmp);
    }

    /** The part of insert(position, first, last) after the reserve: opens a
        gap of |tmp| slots at d and copies the staged values into it, one
        size step per value. */
    method CopyIntoGap(d: nat, tmp: array<int>)
      requires Valid() && d <= size && size + tmp.Length <= capacity && size + tmp.Length <= MaxSize
      requires tmp != buf
      modifies this, buf
      ensures Valid() && buf == old(buf) && capacity == old(capacity)
      ensures Elements() == old(Elements())[..d] + old(tmp[..]) + old(Elements())[d..]
    {
      ghost var e := Elements();
      ghost var s0 := size;
      ghost var items := tmp[..];
      var n := tmp.Length;
      ShiftUp(d, n);
      ghost var a := buf[..];
      assert a[..d] == e[..d] && a[d + n..s0 + n] == e[d..];
      var i := 0;
      while i < n
        invariant 0 <= i <= n && size == s0 + i && Valid()
        invariant buf == old(buf) && capacity == old(capacity) && tmp[..] == items
        invariant forall j :: 0 <= j < d ==> buf[j] == a[j]
        invariant forall j :: d <= j < d + i ==> buf[j] == items[j - d]
        invariant forall j :: d + n <= j < s0 + n ==> buf[j] == a[j]
      {
        buf[d + i] := tmp[i];
        size := size + 1;
        i := i + 1;
      }
      ghost var b := buf[..size];
      assert b == a[..d] + items + a[d + n..s0 + n];
    }

    /** erase(position): on an empty vector returns end(); otherwise moves
        the elements after the position one place down, drops the last slot
        and returns the position.  The loop stops before reading the slot
        past the last element. */
    method Erase(pos: int) returns (it: int)
      requires Valid() && 0 <= pos && (size > 0 ==> pos < size)
      modifies this, buf
      ensures Valid() && capacity == old(capacity) && buf == old(buf)
      ensures old(size) == 0 ==> it == 0 && Elements() == []
      ensures old(size) > 0 ==>
        it == pos && Elements() == old(Elements())[..pos] + old(Elements())[pos + 1..]
    {
      var d := Utils.Distance(0, pos);
      if size == 0 {
        return size;
      }
      ghost var e := Elements();
      ShiftDown(d, 1, size);
      size := size - 1;
      it := d;
      assert Elements() == e[..d] + e[d + 1..];
    }

    /** erase(first, last): on an empty vector returns end(); otherwise
        drops the elements in [first, last), moves the ones after them down
        to `first`, and returns `first`. */
    method EraseRange(first: int, last: int) returns (it: int)
      requires Valid() && 0 <= first <= last <= size
      modifies this, buf
      ensures Valid() && capacity == old(capacity) && buf == old(buf)
      ensures old(size) == 0 ==> it == 0 && Elements() == []
      ensures old(size) > 0 ==>
        it == first && Elements() == old(Elements())[..first] + old(Elements())[last..]
    {
      var n := Utils.Distance(first, last);
      var d := Utils.Distance(0, first);
      if size == 0 {
        return size;
      }
      ghost var e := Elements();
      size := size - n;
      ShiftDown(d, n, size + n);
      it := d;
      assert Elements() == e[..d] + e[d + n..];
    }

    /** The loop both erase overloads share: moves the elements from offset
        d + n up to `end` down by n slots, first one first, over the erased
        ones. */
    method ShiftDown(d: nat, n: nat, end: nat)
      requires Valid() && d + n <= end <= capacity
      modifies buf
      ensures buf[..d] == old(buf[..d])
      ensures buf[d..end - n] == old(buf[d + n..end])
    {
      ghost var a := buf[..];
      var i := 0;
      while d + i != end - n
        invariant 0 <= i <= end - n - d
        invariant forall j :: 0 <= j < d ==> buf[j] == a[j]
        invariant forall j :: d <= j < d + i ==> buf[j] == a[j + n]
        invariant forall j :: d + i + n <= j < end ==> buf[j] == a[j]
        decreases end - n - d - i
      {
        buf[d + i] := buf[d + i + n];
        i := i + 1;
      }
      assert buf[..d] == a[..d];
      assert buf[d..end - n] == a[d + n..end];
    }

    /** clear(): counts the size down to zero; the buffer stays. */
    method Clear()
      requires Valid()
      modifies this
      ensures Valid() && Elements() == [] && capacity == old(capacity) && buf == old(buf)
    {
      while size > 0
        invariant Valid() && capacity == old(capacity) && buf == old(buf)
      {
        size := size - 1;
      }
    }

    /** resize(n, val): pads with copies of val up to n elements, through
        insert at end(), or counts the size down to n. */
    method Resize(n: nat, val: int) returns (st: Status)
      requires Valid()
      modifies this
      ensures Valid()
      ensures n > old(size) && n > MaxSize ==>
        st == LogicError && Elements() == old(Elements()) && capacity == old(capacity)
      ensures n <= old(size) ==>
        st == Ok && Elements() == old(Elements())[..n] && capacity == old(capacity) &&
        buf == old(buf)
      ensures old(size) < n <= MaxSize ==>
        st == Ok && Elements() == old(Elements()) + Copies(val, n - old(size)) &&
        capacity == Regrown(old(capacity), n) && fresh(buf)
      ensures st != Ok ==> buf == old(buf)
    {
      if n > size {
        st := InsertFill(size, n - size, val);
        assert old(Elements())[old(size)..] == [];
      } else {
        while size > n
          invariant n <= size <= old(size) && Valid()
          invariant capacity == old(capacity) && buf == old(buf)
        {
          size := size - 1;
        }
        st := Ok;
      }
    }

    /** swap(other): exchanges the buffers, sizes and capacities. */
    method Swap(other: Vector)
      requires Valid() && other.Valid()
      modifies this, other
      ensures Valid() && other.Valid()
      ensures buf == old(other.buf) && size == old(other.size) && capacity == old(other.capacity)
      ensures other.buf == old(buf) && other.size == old(size) && other.capacity == old(capacity)
    {
      var b, s, c := buf, size, capacity;
      buf, size, capacity := other.buf, other.size, other.capacity;
      other.buf, other.size, other.capacity := b, s, c;
    }

    /** assign(n, val): clears, then inserts n copies of val. */
    method AssignFill(n: nat, val: int) returns (st: Status)
      requires Valid()
      modifies this
      ensures Valid()
      ensures n <= MaxSize ==>
        st == Ok && Elements() == Copies(val, n) && capacity == Regrown(old(capacity), n)
      ensures n > MaxSize ==> st == LogicError && Elements() == [] && capacity == old(capacity)
      ensures st == Ok ==> fresh(buf)
      ensures st != Ok ==> buf == old(buf)
    {
      Clear();
      st := InsertFill(0, n, val);
    }

    /** assign(first, last): clears, then inserts the range. */
    method AssignRange(items: seq<int>, failAt: int) returns (st: Status)
      requires Valid()
      modifies this
      ensures Valid()
      ensures !(0 <= failAt < |items|) && |items| <= MaxSize ==>
        st == Ok && Elements() == items && capacity == Regrown(old(capacity), |items|)
      ensures (0 <= failAt < |items| || |items| > MaxSize) ==>
        st == LogicError && Elements() == [] && capacity == old(capacity)
      ensures st == Ok ==> fresh(buf)
      ensures st != Ok ==> buf == old(buf)
    {
      Clear();
      st := InsertRange(0, items, failAt);
    }

    /** operator=(x): unless x is this vector, clears, takes a fresh buffer of
        x's capacity and inserts x's elements. */
    method Assign(x: Vector)
      requires Valid() && x.Valid()
      modifies this
      ensures Valid() && x.Valid()
      ensures Elements() == old(x.Elements())
      ensures x != this ==> capacity == Regrown(old(x.capacity), old(x.size)) && fresh(buf)
      ensures x == this ==> capacity == old(capacity) && buf == old(buf)
    {
      if x != this {
        Clear();
        buf := new int[x.capacity];
        capacity := x.capacity;
        var st := InsertRange(0, x.Elements(), -1);
      }
    }

    /** operator[](n): the element at offset n. */
    method Get(n: nat) returns (v: int)
      requires Valid() && n < size
      ensures v == Elements()[n]
    {
      v := buf[n];
    }

    /** at(n): the element at offset n, or out_of_range when there is none. */
    method At(n: nat) returns (st: Status, v: int)
      requires Valid()
      ensures st == Ok || st == OutOfRange
      ensures st == Ok <==> n < |Elements()|
      ensures st == Ok ==> v == Elements()[n]
    {
      if n >= size {
        return OutOfRange, 0;
      }
      return Ok, buf[n];
    }

    /** front(): the first element of a non-empty vector. */
    method Front() returns (v: int)
      requires Valid() && size > 0
      ensures v == Elements()[0]
    {
      v := buf[0];
    }

    /** back(): the last element of a non-empty vector. */
    method Back() returns (v: int)
      requires Valid() && size > 0
      ensures v == Elements()[|Elements()| - 1]
    {
      v := buf[size - 1];
    }
  }

  /** The guard at() applies as written: it rejects only offsets past the
      size, so the offset equal to the size, where no element lives, gets
      through to the read. */
  function AtRejectsAsWritten(n: nat, size: nat): (r: bool)
    ensures r ==> n >= size
  {
    n > size
  }

  /** The as-written guard lets through the offset one past the last
      element: after one push_back on an empty vector the buffer has one
      slot and one element, and at(1) passes the guard to read the slot just
      past the buffer. */
  method AtAsWrittenReadsPastEnd() returns (v: Vector)
    ensures v.Valid() && v.size == 1 && v.capacity == v.buf.Length == 1
    ensures !AtRejectsAsWritten(1, v.size) && v.buf.Length <= 1
  {
    v := new Vector();
    var st := v.PushBack(0);
  }

  /** The capacity insert(position, n, val) asks reserve for as written:
      `_size + n` in size_t arithmetic, with no check that the sum fits. */
  function FillReserveAsWritten(size: nat, n: nat): (r: nat)
    requires size <= SizeMax && n <= SizeMax
    ensures size + n <= SizeMax ==> r == size + n
    ensures size + n > SizeMax ==> r < size
  {
    SizeAdd(size, n)
  }

  /** As written, the sum wraps: on a one-element vector, insert(begin(), n,
      val) with n the largest size_t (a count of -1 converted to size_t) asks
      reserve for 0 slots.  That passes the max_size() check, so no
      logic_error is thrown, and the buffer reserve leaves has 2 slots while
      the loops go on to place SizeMax + 1 elements in it. */
  method InsertFillAsWrittenWraps() returns (v: Vector)
    ensures v.Valid() && v.size == 1 && v.capacity == 1
    ensures FillReserveAsWritten(v.size, SizeMax) == 0 <= MaxSize
    ensures Regrown(v.capacity, FillReserveAsWritten(v.size, SizeMax)) == 2 < v.size + SizeMax
    ensures v.size + SizeMax > MaxSize
  {
    v := new Vector();
    var st := v.PushBack(0);
  }

  /** The slots erase(position) reads as written, in loop order, for an
      element at offset d of a vector of `size` elements: its loop runs while
      d + i != size and reads slot d + i + 1 each time. */
  function EraseReadsAsWritten(d: nat, size: nat): (r: seq<nat>)
    requires d < size
    ensures |r| == size - d && forall k :: 0 <= k < |r| ==> d < r[k] <= size
  {
    seq(size - d, i => d + i + 1)
  }

  /** The as-written loop always reads the slot `size`, which holds no
      element. */
  lemma EraseReadsSlotSize(d: nat, size: nat)
    requires d < size
    ensures size in EraseReadsAsWritten(d, size)
  {
    assert EraseReadsAsWritten(d, size)[size - d - 1] == size;
  }

  /** After one push_back on an empty vector the buffer has one slot, and
      erase(begin()) as written reads slot 1, which lies past it. */
  method EraseAsWrittenReadsPastEnd() returns (v: Vector)
    ensures v.Valid() && v.size == 1 && v.capacity == v.buf.Length == 1
    ensures v.buf.Length in EraseReadsAsWritten(0, v.size)
  {
    v := new Vector();
    var st := v.PushBack(0);
    EraseReadsSlotSize(0, v.size);
  }

  /** operator==: neither vector is lexicographically below the other,
      which holds exactly when their elements are equal. */
  method Equal(x: Vector, y: Vector) returns (r: bool)
    requires x.Valid() && y.Valid()
    ensures r <==> x.Elements() == y.Elements()
  {
    var a := Utils.LexicographicalCompare(x.Elements(), y.Elements());
    var b := Utils.LexicographicalCompare(y.Elements(), x.Elements());
    r := !a && !b;
    Utils.NeitherBelowIsEqual(x.Elements(), y.Elements());
  }

  /** operator!=: the negation of operator==. */
  method NotEqual(x: Vector, y: Vector) returns (r: bool)
    requires x.Valid() && y.Valid()
    ensures r <==> x.Elements() != y.Elements()
  {
    var e := Equal(x, y);
    r := !e;
  }

  /** operator<: lexicographical_compare over the two vectors. */
  method Less(x: Vector, y: Vector) returns (r: bool)
    requires x.Valid() && y.Valid()
    ensures r == Utils.LexLess(x.Elements(), y.Elements())
  {
    r := Utils.LexicographicalCompare(x.Elements(), y.Elements());
  }

  /** operator>: y < x. */
  method Greater(x: Vector, y: Vector) returns (r: bool)
    requires x.Valid() && y.Valid()
    ensures r == Utils.LexLess(y.Elements(), x.Elements())
  {
    r := Less(y, x);
  }

  /** operator<=: not x > y, which is "below or equal". */
  method LessEqual(x: Vector, y: Vector) returns (r: bool)
    requires x.Valid() && y.Valid()
    ensures r <==> Utils.LexLess(x.Elements(), y.Elements()) || x.Elements() == y.Elements()
  {
    var g := Greater(x, y);
    r := !g;
    Utils.LexTotal(x.Elements(), y.Elements());
    Utils.LexAsymmetric(x.Elements(), y.Elements());
    Utils.LexIrreflexive(x.Elements());
  }

  /** operator>=: not x < y, which is "above or equal". */
  method GreaterEqual(x: Vector, y: Vector) returns (r: bool)
    requires x.Valid() && y.Valid()
    ensures r <==> Utils.LexLess(y.Elements(), x.Elements()) || x.Elements() == y.Elements()
  {
    var l := Less(x, y);
    r := !l;
    Utils.LexTotal(x.Elements(), y.Elements());
    Utils.LexAsymmetric(x.Elements(), y.Elements());
    Utils.LexIrreflexive(x.Elements());
  }
}
