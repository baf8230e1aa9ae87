/**
 * What the operations do to the tree's in-order sequence, stated on
 * ascending sequences of values: insertion into its place, removal of a
 * value, and the neighbours of a value.
 */
module AvlOrder {
  import opened AvlNode

  /** `s` with `v` inserted in ascending position, unchanged when `v` is already there. */
  function InsertSorted(s: seq<int>, v: int): seq<int> {
    if s == [] then [v]
    else if v < s[0] then [v] + s
    else if v == s[0] then s
    else [s[0]] + InsertSorted(s[1..], v)
  }

  /** `s` without the value `v`. */
  function RemoveValue(s: seq<int>, v: int): seq<int> {
    if s == [] then []
    else if s[0] == v then RemoveValue(s[1..], v)
    else [s[0]] + RemoveValue(s[1..], v)
  }

  /** The first element of `s` greater than `x`: in an ascending sequence, the successor of `x`. */
  function LeastAbove(s: seq<int>, x: int): Option<int> {
    if s == [] then None
    else if s[0] > x then Some(s[0])
    else LeastAbove(s[1..], x)
  }

  /** The last element of `s` less than `x`: in an ascending sequence, the predecessor of `x`. */
  function GreatestBelow(s: seq<int>, x: int): Option<int> {
    if s == [] then None
    else if s[|s| - 1] < x then Some(s[|s| - 1])
    else GreatestBelow(s[..|s| - 1], x)
  }

  /** Insertion keeps the sequence ascending and adds exactly `v`. */
  lemma {:induction false} InsertSortedCorrect(s: seq<int>, v: int)
    requires Sorted(s)
    ensures Sorted(InsertSorted(s, v))
    ensures forall x :: x in InsertSorted(s, v) <==> x in s || x == v
  {
    if s != [] && v > s[0] {
      SortedSplit([s[0]], s[1..]);
      assert s == [s[0]] + s[1..];
      InsertSortedCorrect(s[1..], v);
      forall x | x in s[1..] ensures s[0] < x {
        var i :| 0 <= i < |s[1..]| && s[1..][i] == x;
        assert s[i + 1] == x;
      }
      SortedConcat([s[0]], InsertSorted(s[1..], v));
    } else if s != [] && v < s[0] {
      forall x | x in s ensures v < x {
        var i :| 0 <= i < |s| && s[i] == x;
        assert i == 0 || s[0] < s[i];
      }
      SortedConcat([v], s);
    }
  }

  /** Removal keeps the sequence ascending and drops exactly `v`. */
  lemma {:induction false} RemoveValueCorrect(s: seq<int>, v: int)
    requires Sorted(s)
    ensures Sorted(RemoveValue(s, v))
    ensures forall x :: x in RemoveValue(s, v) <==> x in s && x != v
  {
    if s != [] {
      assert s == [s[0]] + s[1..];
      SortedSplit([s[0]], s[1..]);
      RemoveValueCorrect(s[1..], v);
      if s[0] != v {
        forall x | x in RemoveValue(s[1..], v) ensures s[0] < x {
          var i :| 0 <= i < |s[1..]| && s[1..][i] == x;
          assert s[i + 1] == x;
        }
        SortedConcat([s[0]], RemoveValue(s[1..], v));
      }
    }
  }

  /** Inserting a value between two halves, one all below it and one all above it, puts it between them. */
  lemma {:induction false} InsertSortedSplit(a: seq<int>, v: int, b: seq<int>)
    requires forall x :: x in a ==> x < v
    requires forall x :: x in b ==> v < x
    ensures InsertSorted(a + b, v) == a + [v] + b
  {
    if a == [] {
      assert a + b == b;
      if b != [] {
        assert b[0] in b;
      }
    } else {
      assert a[0] in a;
      assert (a + b)[0] == a[0] && (a + b)[1..] == a[1..] + b;
      assert forall x :: x in a[1..] ==> x in a;
      InsertSortedSplit(a[1..], v, b);
      assert a == [a[0]] + a[1..];
    }
  }

  /** Inserting a value that is already there changes nothing. */
  lemma {:induction false} InsertPresent(s: seq<int>, v: int)
    requires Sorted(s) && v in s
    ensures InsertSorted(s, v) == s
  {
    if s[0] != v {
      var i :| 0 <= i < |s| && s[i] == v;
      assert s[0] < v;
      assert s[1..][i - 1] == v;
      SortedSplit([s[0]], s[1..]);
      assert s == [s[0]] + s[1..];
      InsertPresent(s[1..], v);
    }
  }

  /** Removing a value from an ascending sequence that holds it once closes the gap. */
  lemma {:induction false} RemoveValueSplit(a: seq<int>, v: int, b: seq<int>)
    requires Sorted(a + [v] + b)
    ensures RemoveValue(a + [v] + b, v) == a + b
  {
    var s := a + [v] + b;
    if a == [] {
      assert s == [v] + b;
      RemoveFront(v, b);
    } else {
      var rest := a[1..] + [v] + b;
      SplitFront(a, v, b);
      RemoveKeep(a[0], rest, v);
      RemoveValueSplit(a[1..], v, b);
      assert a == [a[0]] + a[1..];
    }
  }

  /** Taking the first element off the part before `v`. */
  lemma SplitFront(a: seq<int>, v: int, b: seq<int>)
    requires a != [] && Sorted(a + [v] + b)
    ensures a + [v] + b == [a[0]] + (a[1..] + [v] + b)
    ensures Sorted(a[1..] + [v] + b) && a[0] < v
  {
    var s := a + [v] + b;
    assert s == [a[0]] + (a[1..] + [v] + b);
    SortedSplit([a[0]], a[1..] + [v] + b);
    assert s[0] == a[0] && s[|a|] == v;
  }

  /** Removing the least element of an ascending sequence leaves the rest. */
  lemma RemoveFront(v: int, b: seq<int>)
    requires Sorted([v] + b)
    ensures RemoveValue([v] + b, v) == b
  {
    var s := [v] + b;
    assert s[1..] == b;
    forall y | y in b ensures y != v {
      var i :| 0 <= i < |b| && b[i] == y;
      assert s[i + 1] == y && s[0] == v;
    }
    RemoveAbsent(b, v);
  }

  /** A first element other than `v` stays in front. */
  lemma RemoveKeep(x: int, rest: seq<int>, v: int)
    requires x != v
    ensures RemoveValue([x] + rest, v) == [x] + RemoveValue(rest, v)
  {
    assert ([x] + rest)[1..] == rest;
  }

  /** Removing a value that is not there changes nothing. */
  lemma {:induction false} RemoveAbsent(s: seq<int>, v: int)
    requires forall x :: x in s ==> x != v
    ensures RemoveValue(s, v) == s
  {
    if s != [] {
      assert s[0] in s;
      assert forall x :: x in s[1..] ==> x in s;
      RemoveAbsent(s[1..], v);
      assert s == [s[0]] + s[1..];
    }
  }

  /** Removing a value just inserted gives back the original ascending sequence. */
  lemma {:induction false} InsertThenRemove(s: seq<int>, v: int)
    requires Sorted(s) && v !in s
    ensures RemoveValue(InsertSorted(s, v), v) == s
  {
    if s != [] && v > s[0] {
      assert s == [s[0]] + s[1..];
      SortedSplit([s[0]], s[1..]);
      assert s[0] in s;
      InsertThenRemove(s[1..], v);
    } else if s != [] {
      assert s[0] in s;
      RemoveAbsent(s, v);
    }
  }

  /** In an ascending sequence, the successor of an element is the element right after it. */
  lemma {:induction false} LeastAboveSplit(a: seq<int>, v: int, b: seq<int>)
    requires Sorted(a + [v] + b)
    ensures LeastAbove(a + [v] + b, v) == if b == [] then None else Some(b[0])
  {
    var s := a + [v] + b;
    if a == [] {
      assert s == [v] + b && s[1..] == b;
      if b != [] {
        assert b[0] == s[1];
      }
    } else {
      assert s[0] == a[0] && s[1..] == a[1..] + [v] + b;
      assert s[0] < s[|a|];
      SortedSplit([a[0]], a[1..] + [v] + b);
      assert s == [a[0]] + (a[1..] + [v] + b);
      LeastAboveSplit(a[1..], v, b);
    }
  }

  /** In an ascending sequence, the predecessor of an element is the element right before it. */
  lemma {:induction false} GreatestBelowSplit(a: seq<int>, v: int, b: seq<int>)
    requires Sorted(a + [v] + b)
    ensures GreatestBelow(a + [v] + b, v) == if a == [] then None else Some(a[|a| - 1])
    decreases |b|
  {
    var s := a + [v] + b;
    if b == [] {
      assert s == a + [v] && s[..|s| - 1] == a;
      if a != [] {
        assert a[|a| - 1] == s[|s| - 2];
      }
    } else {
      var b' := b[..|b| - 1];
      assert s[|s| - 1] == b[|b| - 1] && s[..|s| - 1] == a + [v] + b';
      assert s[|a|] < s[|s| - 1];
      SortedSplit(a + [v] + b', [b[|b| - 1]]);
      assert s == (a + [v] + b') + [b[|b| - 1]];
      GreatestBelowSplit(a, v, b');
    }
  }

  /** The successor is the least element above `x`, and there is none exactly when nothing is above `x`. */
  lemma {:induction false} LeastAboveIsLeast(s: seq<int>, x: int)
    requires Sorted(s)
    ensures LeastAbove(s, x).Some? ==>
      && LeastAbove(s, x).value in s && LeastAbove(s, x).value > x
      && forall y :: y in s && y > x ==> LeastAbove(s, x).value <= y
    ensures LeastAbove(s, x).None? <==> forall y :: y in s ==> y <= x
  {
    if s != [] {
      assert s == [s[0]] + s[1..];
      SortedSplit([s[0]], s[1..]);
      LeastAboveIsLeast(s[1..], x);
      forall y | y in s[1..] ensures s[0] < y {
        var i :| 0 <= i < |s[1..]| && s[1..][i] == y;
        assert s[i + 1] == y;
      }
    }
  }

  /** The predecessor is the greatest element below `x`, and there is none exactly when nothing is below `x`. */
  lemma {:induction false} GreatestBelowIsGreatest(s: seq<int>, x: int)
    requires Sorted(s)
    ensures GreatestBelow(s, x).Some? ==>
      && GreatestBelow(s, x).value in s && GreatestBelow(s, x).value < x
      && forall y :: y in s && y < x ==> y <= GreatestBelow(s, x).value
    ensures GreatestBelow(s, x).None? <==> forall y :: y in s ==> x <= y
  {
    if s != [] {
      var init, last := s[..|s| - 1], s[|s| - 1];
      assert s == init + [last];
      SplitLast(init, last);
      GreatestBelowIsGreatest(init, x);
      if last < x {
        assert GreatestBelow(s, x) == Some(last);
      } else {
        assert GreatestBelow(s, x) == GreatestBelow(init, x);
      }
    }
  }

  /** In an ascending sequence `init + [last]`, `init` is ascending and lies wholly below `last`. */
  lemma SplitLast(init: seq<int>, last: int)
    requires Sorted(init + [last])
    ensures Sorted(init)
    ensures forall y :: y in init + [last] <==> y in init || y == last
    ensures forall y :: y in init ==> y < last
  {
    var s := init + [last];
    SortedSplit(init, [last]);
    forall y | y in init ensures y < last {
      var i :| 0 <= i < |init| && init[i] == y;
      assert s[i] == y && s[|s| - 1] == last;
    }
  }

  /** Removing a value at or below `x` does not change what comes after `x`. */
  lemma {:induction false} LeastAboveRemove(s: seq<int>, v: int, x: int)
    requires v <= x
    ensures LeastAbove(RemoveValue(s, v), x) == LeastAbove(s, x)
  {
    if s != [] {
      LeastAboveRemove(s[1..], v, x);
      if s[0] != v {
        assert ([s[0]] + RemoveValue(s[1..], v))[1..] == RemoveValue(s[1..], v);
      }
    }
  }

  /** In an ascending sequence the first element is the least and the last the greatest. */
  lemma EndsAreExtremes(s: seq<int>)
    requires Sorted(s) && s != []
    ensures forall x :: x in s ==> s[0] <= x <= s[|s| - 1]
  {
    forall x | x in s ensures s[0] <= x <= s[|s| - 1] {
      var i :| 0 <= i < |s| && s[i] == x;
      assert i == 0 || s[0] < s[i];
      assert i == |s| - 1 || s[i] < s[|s| - 1];
    }
  }
}
