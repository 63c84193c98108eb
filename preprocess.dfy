/**
  The sort-and-dedupe preprocessor that feeds tree construction:
  removeDuplicates and sortArray of src/modules/binary-search-tree.js.

  sortArray calls mergeSort from merge-sort.js; merge-sort.js is not part of
  this model. Sort below is a plain insertion sort standing in for it: it is
  specified by what any ascending sort must deliver (ascending order, same
  multiset of values), which is all the tree relies on.
 */
module Preprocess {
  import opened Sequences

  /** The position of the first occurrence of x in a. */
  function FirstIndex(a: seq<int>, x: int): (k: nat)
    requires x in a
    ensures k < |a| && a[k] == x && x !in a[..k]
  {
    if a[0] == x then 0
    else
      var k := 1 + FirstIndex(a[1..], x);
      assert a[..k] == [a[0]] + a[1..][..k - 1];
      k
  }

  /** A value occurring before position i first occurs before position i. */
  lemma FirstIndexBefore(a: seq<int>, x: int, i: nat)
    requires i <= |a| && x in a[..i]
    ensures FirstIndex(a, x) < i
  {
    var j :| 0 <= j < i && a[..i][j] == x;
  }

  /** A value not occurring before position i first occurs at i itself. */
  lemma FirstIndexAt(a: seq<int>, i: nat)
    requires i < |a| && a[i] !in a[..i]
    ensures FirstIndex(a, a[i]) == i
  {
    var k := FirstIndex(a, a[i]);
  }

  /**
    What removeDuplicates has built after scanning a[..i]: each value of
    a[..i] once, in the order of first occurrence.
   */
  ghost predicate DedupedPrefix(a: seq<int>, r: seq<int>, i: nat)
    requires i <= |a|
  {
    && NoDuplicates(r)
    && (forall x :: x in r ==> x in a && x in a[..i])
    && (forall j :: 0 <= j < i ==> a[j] in r)
    && (forall k :: 0 <= k < |r| ==> r[k] in a && FirstIndex(a, r[k]) < i)
    && (forall k, l :: 0 <= k < l < |r| ==> r[k] in a && r[l] in a && FirstIndex(a, r[k]) < FirstIndex(a, r[l]))
  }

  /** A value already kept is skipped. */
  lemma DedupedSkip(a: seq<int>, r: seq<int>, i: nat)
    requires i < |a| && DedupedPrefix(a, r, i) && a[i] in r
    ensures DedupedPrefix(a, r, i + 1)
  {
    assert a[..i + 1] == a[..i] + [a[i]];
  }

  /** A value met for the first time is kept, after everything kept so far. */
  lemma DedupedKeep(a: seq<int>, r: seq<int>, i: nat)
    requires i < |a| && DedupedPrefix(a, r, i) && a[i] !in r
    ensures DedupedPrefix(a, r + [a[i]], i + 1)
  {
    assert a[..i + 1] == a[..i] + [a[i]];
    assert a[i] !in a[..i];
    FirstIndexAt(a, i);
  }

  /**
    removeDuplicates: keeps each distinct value once, in the order of its
    first occurrence (the array's `includes` test before each `push`).
   */
  method RemoveDuplicates(a: seq<int>) returns (r: seq<int>)
    ensures NoDuplicates(r)
    ensures forall x :: x in r <==> x in a
    ensures forall i, j :: 0 <= i < j < |r| ==> FirstIndex(a, r[i]) < FirstIndex(a, r[j])
  {
    r := [];
    for i := 0 to |a|
      invariant DedupedPrefix(a, r, i)
    {
      if a[i] !in r {
        DedupedKeep(a, r, i);
        r := r + [a[i]];
      } else {
        DedupedSkip(a, r, i);
      }
    }
  }

  /** Inserts x into an ascending sequence, keeping it ascending. */
  function InsertSorted(x: int, s: seq<int>): (r: seq<int>)
    requires Ascending(s)
    ensures Ascending(r)
    ensures multiset(r) == multiset(s) + multiset{x}
  {
    if s == [] || x <= s[0] then
      AscendingCons(x, s);
      [x] + s
    else
      var t := InsertSorted(x, s[1..]);
      assert s == [s[0]] + s[1..];
      AscendingCons(s[0], t);
      [s[0]] + t
  }

  /** A value at most every element of an ascending sequence can go in front of it. */
  lemma AscendingCons(y: int, t: seq<int>)
    requires Ascending(t)
    requires forall z :: z in multiset(t) ==> y <= z
    ensures Ascending([y] + t)
  {
    var r := [y] + t;
    forall i, j | 0 <= i < j < |r| ensures r[i] <= r[j] {
      if i == 0 {
        assert r[j] == t[j - 1] && t[j - 1] in multiset(t);
      } else {
        assert r[i] == t[i - 1] && r[j] == t[j - 1];
      }
    }
  }

  /** Sorts ascending: the ordered permutation of s. */
  function Sort(s: seq<int>): (r: seq<int>)
    ensures Ascending(r)
    ensures multiset(r) == multiset(s)
  {
    if s == [] then []
    else
      assert s == [s[0]] + s[1..];
      InsertSorted(s[0], Sort(s[1..]))
  }

  /** A duplicate-free sequence holds each value at most once. */
  lemma {:induction false} NoDuplicatesCount(s: seq<int>, x: int)
    requires NoDuplicates(s)
    ensures multiset(s)[x] <= 1
  {
    if s != [] {
      assert s == [s[0]] + s[1..];
      assert NoDuplicates(s[1..]) by {
        forall i, j | 0 <= i < j < |s[1..]| ensures s[1..][i] != s[1..][j] {
          assert s[i + 1] != s[j + 1];
        }
      }
      NoDuplicatesCount(s[1..], x);
      if x == s[0] {
        assert x !in s[1..];
      }
    }
  }

  /** A permutation of a duplicate-free sequence is duplicate-free. */
  lemma PermutationNoDuplicates(s: seq<int>, t: seq<int>)
    requires NoDuplicates(s) && multiset(s) == multiset(t)
    ensures NoDuplicates(t)
  {
    forall i, j | 0 <= i < j < |t| ensures t[i] != t[j] {
      if t[i] == t[j] {
        var x := t[i];
        assert t == t[..j] + [t[j]] + t[j + 1..];
        assert t[..j][i] == x;
        assert multiset(t[..j])[x] >= 1;
        assert multiset(t)[x] >= 2;
        NoDuplicatesCount(s, x);
      }
    }
  }

  /**
    sortArray: the distinct values of the input in strictly ascending
    order, which is exactly what buildTree expects.
   */
  method SortArray(a: seq<int>) returns (r: seq<int>)
    ensures StrictlyAscending(r)
    ensures forall x :: x in r <==> x in a
  {
    var d := RemoveDuplicates(a);
    r := Sort(d);
    PermutationNoDuplicates(d, r);
    StrictlyAscendingIff(r);
    forall x ensures x in r <==> x in d {
      assert x in r <==> x in multiset(r);
      assert x in d <==> x in multiset(d);
    }
  }
}
