/** The sequence algorithms of utils.hpp.  Each walks one or two iterator
    ranges; a range is modelled by the sequence of values it visits, and the
    iterator pair by a position in that sequence. */
module Utils {

  /** less<int>, the default comparator of the containers. */
  function Less(x: int, y: int): (r: bool)
    ensures r <==> x < y
  {
    x < y
  }

  /** The order lexicographical_compare decides, one position at a time. */
  function LexLess(a: seq<int>, b: seq<int>): bool
  {
    if |a| == 0 || |b| == 0 then |a| == 0 && |b| != 0
    else if a[0] < b[0] then true
    else if b[0] < a[0] then false
    else LexLess(a[1..], b[1..])
  }

  /** The same order stated on a whole pair of sequences: after a common
      prefix of length i, either the first sequence holds the smaller value
      at i, or it ends there while the second goes on. */
  ghost predicate DiffersBelowAt(a: seq<int>, b: seq<int>, i: nat)
  {
    i <= |a| && i <= |b| && a[..i] == b[..i] &&
    ((i < |a| && i < |b| && a[i] < b[i]) || (i == |a| && i < |b|))
  }

  /** The recursive order and the prefix characterisation agree, both ways. */
  lemma {:induction false} LexLessIff(a: seq<int>, b: seq<int>)
    ensures LexLess(a, b) <==> exists i: nat :: DiffersBelowAt(a, b, i)
    decreases |a|
  {
    if |a| == 0 || |b| == 0 {
      if LexLess(a, b) {
        assert DiffersBelowAt(a, b, 0);
      }
      forall i: nat | DiffersBelowAt(a, b, i)
        ensures LexLess(a, b)
      {
      }
    } else if a[0] < b[0] {
      assert DiffersBelowAt(a, b, 0);
    } else if b[0] < a[0] {
      forall i: nat
        ensures !DiffersBelowAt(a, b, i)
      {
        if 0 < i <= |a| && i <= |b| {
          assert a[..i][0] == a[0] && b[..i][0] == b[0];
        }
      }
    } else {
      LexLessIff(a[1..], b[1..]);
      if LexLess(a, b) {
        var j: nat :| DiffersBelowAt(a[1..], b[1..], j);
        assert a[..j + 1] == [a[0]] + a[1..][..j];
        assert b[..j + 1] == [b[0]] + b[1..][..j];
        assert DiffersBelowAt(a, b, j + 1);
      }
      forall i: nat | DiffersBelowAt(a, b, i)
        ensures LexLess(a, b)
      {
        if i == 0 {
          assert false;
        }
        assert a[1..][..i - 1] == a[..i][1..];
        assert b[1..][..i - 1] == b[..i][1..];
        assert DiffersBelowAt(a[1..], b[1..], i - 1);
      }
    }
  }

  /** No sequence is below itself, so lexicographical_compare(a, a) is false. */
  lemma {:induction false} LexIrreflexive(a: seq<int>)
    ensures !LexLess(a, a)
    decreases |a|
  {
    if |a| > 0 {
      LexIrreflexive(a[1..]);
    }
  }

  /** At most one of two sequences is below the other. */
  lemma {:induction false} LexAsymmetric(a: seq<int>, b: seq<int>)
    ensures !(LexLess(a, b) && LexLess(b, a))
    decreases |a|
  {
    if |a| > 0 && |b| > 0 && a[0] == b[0] {
      LexAsymmetric(a[1..], b[1..]);
    }
  }

  /** Two different sequences are ordered one way or the other, so "neither
      is below the other" is exactly equality. */
  lemma {:induction false} LexTotal(a: seq<int>, b: seq<int>)
    ensures a != b ==> LexLess(a, b) || LexLess(b, a)
    decreases |a|
  {
    if |a| > 0 && |b| > 0 && a[0] == b[0] {
      LexTotal(a[1..], b[1..]);
      if a != b {
        assert a == [a[0]] + a[1..] && b == [b[0]] + b[1..];
      }
    }
  }

  /** The lexicographic order is transitive. */
  lemma {:induction false} LexTransitive(a: seq<int>, b: seq<int>, c: seq<int>)
    requires LexLess(a, b) && LexLess(b, c)
    ensures LexLess(a, c)
    decreases |a|
  {
    if |a| > 0 && |b| > 0 && |c| > 0 && a[0] == b[0] && b[0] == c[0] {
      LexTransitive(a[1..], b[1..], c[1..]);
    }
  }

  /** "Neither is below the other" holds exactly for equal sequences. */
  lemma NeitherBelowIsEqual(a: seq<int>, b: seq<int>)
    ensures (!LexLess(a, b) && !LexLess(b, a)) <==> a == b
  {
    LexTotal(a, b);
    LexIrreflexive(a);
  }

  /** lexicographical_compare (two-range form): walks both ranges together,
      answers true at the first position where the first range holds the
      smaller value and false where the second does, and otherwise answers
      whether the first range ran out while the second did not. */
  method LexicographicalCompare(a: seq<int>, b: seq<int>) returns (r: bool)
    ensures r == LexLess(a, b)
  {
    var i := 0;
    while i < |a| && i < |b|
      invariant 0 <= i <= |a| && i <= |b|
      invariant LexLess(a, b) == LexLess(a[i..], b[i..])
    {
      if a[i] < b[i] {
        return true;
      }
      if b[i] < a[i] {
        return false;
      }
      assert a[i..][1..] == a[i + 1..] && b[i..][1..] == b[i + 1..];
      i := i + 1;
    }
    return i == |a| && i != |b|;
  }

  /** equal(first1, last1, first2): every value of the first range equals the
      value at the same offset of the second, which must be at least as long. */
  method Equal(a: seq<int>, b: seq<int>) returns (r: bool)
    requires |a| <= |b|
    ensures r <==> a == b[..|a|]
  {
    var i := 0;
    while i < |a|
      invariant 0 <= i <= |a|
      invariant a[..i] == b[..i]
    {
      if !(a[i] == b[i]) {
        assert a[i] != b[..|a|][i];
        return false;
      }
      assert a[..i + 1] == a[..i] + [a[i]] && b[..i + 1] == b[..i] + [b[i]];
      i := i + 1;
    }
    assert a == a[..i];
    return true;
  }

  /** equal with a predicate: the predicate holds at every offset of the first
      range, against the second range, which must be at least as long. */
  method EqualBy(a: seq<int>, b: seq<int>, pred: (int, int) -> bool) returns (r: bool)
    requires |a| <= |b|
    ensures r <==> forall i :: 0 <= i < |a| ==> pred(a[i], b[i])
  {
    var i := 0;
    while i < |a|
      invariant 0 <= i <= |a|
      invariant forall j :: 0 <= j < i ==> pred(a[j], b[j])
    {
      if !pred(a[i], b[i]) {
        return false;
      }
      i := i + 1;
    }
    return true;
  }

  /** distance(first, last): the number of increments that take `first` to
      `last`, for iterators that step by one position.  `last` must be
      reachable from `first`. */
  method Distance(first: int, last: int) returns (d: nat)
    requires first <= last
    ensures first + d == last
  {
    d := 0;
    var it := first;
    while it != last
      invariant first <= it <= last && it == first + d
      decreases last - it
    {
      it := it + 1;
      d := d + 1;
    }
  }
}
