/**
  Order and uniqueness predicates on integer sequences, shared by the
  preprocessor (removeDuplicates / sortArray) and by the tree's traversals.
 */
module Sequences {

  /** Every element is smaller than or equal to every later element. */
  predicate Ascending(s: seq<int>) {
    forall i, j :: 0 <= i < j < |s| ==> s[i] <= s[j]
  }

  /** Every element is strictly smaller than every later element. */
  predicate StrictlyAscending(s: seq<int>) {
    forall i, j :: 0 <= i < j < |s| ==> s[i] < s[j]
  }

  /** No value occurs twice. */
  predicate NoDuplicates(s: seq<int>) {
    forall i, j :: 0 <= i < j < |s| ==> s[i] != s[j]
  }

  /** A strictly ascending sequence is ascending and repeats nothing; and back. */
  lemma StrictlyAscendingIff(s: seq<int>)
    ensures StrictlyAscending(s) <==> Ascending(s) && NoDuplicates(s)
  {
  }

  /** Every value on the left of the pivot is below it, every value on the right above it. */
  ghost predicate SplitsAt(a: seq<int>, x: int, b: seq<int>) {
    (forall y :: y in a ==> y < x) && (forall y :: y in b ==> x < y)
  }

  /**
    A sequence split around a pivot is strictly ascending exactly when both
    sides are, everything on the left is below the pivot and everything on
    the right above it. This is the in-order shape of a search-tree node.
   */
  lemma StrictlyAscendingAround(a: seq<int>, x: int, b: seq<int>)
    ensures StrictlyAscending(a + [x] + b) <==>
      StrictlyAscending(a) && StrictlyAscending(b) && SplitsAt(a, x, b)
  {
    if StrictlyAscending(a + [x] + b) {
      StrictlyAscendingParts(a, x, b);
    }
    if StrictlyAscending(a) && StrictlyAscending(b) && SplitsAt(a, x, b) {
      StrictlyAscendingJoin(a, x, b);
    }
  }

  lemma StrictlyAscendingParts(a: seq<int>, x: int, b: seq<int>)
    requires StrictlyAscending(a + [x] + b)
    ensures StrictlyAscending(a) && StrictlyAscending(b) && SplitsAt(a, x, b)
  {
    var s := a + [x] + b;
    assert forall i :: 0 <= i < |a| ==> s[i] == a[i];
    assert s[|a|] == x;
    assert forall i :: 0 <= i < |b| ==> s[|a| + 1 + i] == b[i];
    forall i, j | 0 <= i < j < |b| ensures b[i] < b[j] {
      assert s[|a| + 1 + i] < s[|a| + 1 + j];
    }
    forall y | y in a ensures y < x {
      var i :| 0 <= i < |a| && a[i] == y;
      assert s[i] < s[|a|];
    }
    forall y | y in b ensures x < y {
      var i :| 0 <= i < |b| && b[i] == y;
      assert s[|a|] < s[|a| + 1 + i];
    }
  }

  lemma StrictlyAscendingJoin(a: seq<int>, x: int, b: seq<int>)
    requires StrictlyAscending(a) && StrictlyAscending(b) && SplitsAt(a, x, b)
    ensures StrictlyAscending(a + [x] + b)
  {
    var s := a + [x] + b;
    forall i, j | 0 <= i < j < |s| ensures s[i] < s[j] {
      var u := if i < |a| then a[i] else if i == |a| then x else b[i - |a| - 1];
      var w := if j < |a| then a[j] else if j == |a| then x else b[j - |a| - 1];
      assert s[i] == u && s[j] == w;
      if i < |a| && j > |a| {
        assert u in a && w in b;
      } else if i < |a| && j == |a| {
        assert u in a;
      } else if i == |a| {
        assert w in b;
      }
    }
  }

  /**
    Two strictly ascending sequences holding the same values are the same
    sequence: sorting a duplicate-free collection is deterministic, so the
    contract of sortArray determines its result.
   */
  lemma {:induction false} StrictlyAscendingUnique(a: seq<int>, b: seq<int>)
    requires StrictlyAscending(a) && StrictlyAscending(b)
    requires forall x :: x in a <==> x in b
    ensures a == b
  {
    if a != [] || b != [] {
      SameFront(a, b);
      StrictlyAscendingUnique(a[1..], b[1..]);
      assert a == [a[0]] + a[1..] && b == [b[0]] + b[1..];
    }
  }

  /**
    Two strictly ascending sequences holding the same values, not both
    empty, start with the same (smallest) value and hold the same values
    after it.
   */
  lemma SameFront(a: seq<int>, b: seq<int>)
    requires StrictlyAscending(a) && StrictlyAscending(b)
    requires forall x :: x in a <==> x in b
    requires a != [] || b != []
    ensures a != [] && b != [] && a[0] == b[0]
    ensures StrictlyAscending(a[1..]) && StrictlyAscending(b[1..])
    ensures forall x :: x in a[1..] <==> x in b[1..]
  {
    assert a != [] ==> a[0] in a;
    assert b != [] ==> b[0] in b;
    assert a[0] in b && b[0] in a;
    var ka :| 0 <= ka < |b| && b[ka] == a[0];
    var kb :| 0 <= kb < |a| && a[kb] == b[0];
    assert b[0] <= b[ka] && a[0] <= a[kb];
    forall x ensures x in a[1..] ==> x in b[1..] {
      if x in a[1..] {
        var k :| 1 <= k < |a| && a[k] == x;
        assert x in a;
        var m :| 0 <= m < |b| && b[m] == x;
        assert b[1..][m - 1] == x;
      }
    }
    forall x ensures x in b[1..] ==> x in a[1..] {
      if x in b[1..] {
        var k :| 1 <= k < |b| && b[k] == x;
        assert x in b;
        var m :| 0 <= m < |a| && a[m] == x;
        assert a[1..][m - 1] == x;
      }
    }
  }
}
