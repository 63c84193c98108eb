/**
  buildTree and rebalance: the midpoint split rebuilds exactly the given
  sequence in order, keeps the ordering of a sorted input, and is balanced
  whatever the input.
 */
module BuildLemmas {
  import opened Sequences
  import opened Trees
  import SearchLemmas

  /** buildTree over a[start..end] lists exactly that slice in order. */
  lemma {:induction false} BuildTreeInOrder(a: seq<int>, start: int, end: int)
    requires 0 <= start <= end + 1 <= |a|
    ensures InOrder(BuildTree(a, start, end)) == a[start..end + 1]
    decreases end - start + 1
  {
    if start <= end {
      var mid := (start + end) / 2;
      BuildTreeRoot(a, start, end, mid);
      var l, r := BuildTree(a, start, mid - 1), BuildTree(a, mid + 1, end);
      BuildTreeInOrder(a, start, mid - 1);
      BuildTreeInOrder(a, mid + 1, end);
      InOrderAroundSlice(a, start, mid, end + 1, l, r);
    }
  }

  /** One unfolding of buildTree on a non-empty slice. */
  lemma BuildTreeRoot(a: seq<int>, start: int, end: int, mid: int)
    requires 0 <= start <= end < |a| && mid == (start + end) / 2
    ensures start <= mid <= end
    ensures BuildTree(a, start, end) == Node(BuildTree(a, start, mid - 1), a[mid], BuildTree(a, mid + 1, end))
  {
  }

  /** A node over the midpoint value whose subtrees are built over the two halves is the built slice. */
  lemma BuiltOver(a: seq<int>, start: int, end: int, l: Tree, r: Tree, t: Tree)
    requires 0 <= start <= end < |a|
    requires l == BuildTree(a, start, (start + end) / 2 - 1)
    requires r == BuildTree(a, (start + end) / 2 + 1, end)
    requires t == Node(l, a[(start + end) / 2], r)
    ensures t == BuildTree(a, start, end)
  {
  }

  /** A node over a[m] whose subtrees list the slices either side of m lists the whole slice. */
  lemma InOrderAroundSlice(a: seq<int>, i: int, m: int, j: int, l: Tree, r: Tree)
    requires 0 <= i <= m < j <= |a|
    requires InOrder(l) == a[i..m] && InOrder(r) == a[m + 1..j]
    ensures InOrder(Node(l, a[m], r)) == a[i..j]
  {
    assert a[i..j] == a[i..m] + [a[m]] + a[m + 1..j];
  }

  /** Of the n values of a slice, (n - 1) / 2 lie left of the midpoint and n / 2 right of it. */
  lemma MidpointSplit(start: int, end: int, mid: int, n: nat)
    requires 0 <= start <= end && mid == (start + end) / 2 && n == end - start + 1
    ensures mid - start == (n - 1) / 2
    ensures end - mid == n / 2
  {
  }

  /** The two halves of n > 0 values differ in size by at most one. */
  lemma Halves(n: nat)
    requires n > 0
    ensures (n - 1) / 2 == n / 2 || (n - 1) / 2 + 1 == n / 2
  {
  }

  /**
    The height of the tree buildTree makes from n values; it depends on n
    alone. The left part has (n - 1) / 2 values, the right part n / 2.
   */
  function BuiltHeight(n: nat): (h: int)
    ensures -1 <= h
  {
    if n == 0 then -1
    else
      var hl, hr := BuiltHeight((n - 1) / 2), BuiltHeight(n / 2);
      1 + if hl < hr then hr else hl
  }

  /** More values never make a lower built tree. */
  lemma {:induction false} BuiltHeightMonotone(m: nat, n: nat)
    requires m <= n
    ensures BuiltHeight(m) <= BuiltHeight(n)
    decreases n
  {
    if m > 0 {
      BuiltHeightMonotone((m - 1) / 2, (n - 1) / 2);
      BuiltHeightMonotone(m / 2, n / 2);
    }
  }

  /** One more value raises the built tree by at most one level. */
  lemma {:induction false} BuiltHeightStep(n: nat)
    ensures BuiltHeight(n + 1) <= BuiltHeight(n) + 1
    decreases n
  {
    if n > 0 {
      var k := n / 2;
      BuiltHeightMonotone((n - 1) / 2, k);
      BuiltHeightMonotone(k, (n + 1) / 2);
      assert BuiltHeight(n) == 1 + BuiltHeight(k);
      assert BuiltHeight(n + 1) == 1 + BuiltHeight((n + 1) / 2);
      if (n + 1) / 2 != k {
        assert (n + 1) / 2 == k + 1;
        BuiltHeightStep(k);
      }
    }
  }

  /** The two halves of a split differ in height by at most one. */
  lemma SplitHeightsClose(n: nat)
    requires n > 0
    ensures -1 <= BuiltHeight((n - 1) / 2) - BuiltHeight(n / 2) <= 1
  {
    var k, j := (n - 1) / 2, n / 2;
    Halves(n);
    BuiltHeightMonotone(k, j);
    if k != j {
      BuiltHeightStep(k);
      assert k + 1 == j;
    }
  }

  /**
    The shape buildTree gives n values: absent for none, otherwise a node
    with (n - 1) / 2 values split the same way on its left and n / 2 on its
    right.
   */
  ghost predicate MidpointShaped(t: Tree, n: nat) {
    match t
    case Nil => n == 0
    case Node(l, _, r) => n > 0 && MidpointShaped(l, (n - 1) / 2) && MidpointShaped(r, n / 2)
  }

  /** buildTree over a[start..end] has the midpoint shape of the slice's length. */
  lemma {:induction false} BuildTreeShaped(a: seq<int>, start: int, end: int)
    requires 0 <= start <= end + 1 <= |a|
    ensures MidpointShaped(BuildTree(a, start, end), end - start + 1)
    decreases end - start + 1
  {
    if start <= end {
      var mid, n := (start + end) / 2, end - start + 1;
      BuildTreeRoot(a, start, end, mid);
      MidpointSplit(start, end, mid, n);
      BuildTreeShaped(a, start, mid - 1);
      BuildTreeShaped(a, mid + 1, end);
    }
  }

  /** A midpoint-shaped tree has the built height of its size. */
  lemma {:induction false} ShapedHeight(t: Tree, n: nat)
    requires MidpointShaped(t, n)
    ensures Height(t) == BuiltHeight(n)
  {
    match t
    case Nil =>
    case Node(l, _, r) =>
      var k, j := (n - 1) / 2, n / 2;
      ShapedHeight(l, k);
      ShapedHeight(r, j);
      assert BuiltHeight(n) == 1 + if BuiltHeight(k) < BuiltHeight(j) then BuiltHeight(j) else BuiltHeight(k);
  }

  /** A midpoint-shaped tree is balanced. */
  lemma {:induction false} ShapedBalanced(t: Tree, n: nat)
    requires MidpointShaped(t, n)
    ensures IsBalanced(t)
  {
    match t
    case Nil =>
    case Node(l, _, r) =>
      var k, j := (n - 1) / 2, n / 2;
      ShapedBalanced(l, k);
      ShapedBalanced(r, j);
      ShapedHeight(l, k);
      ShapedHeight(r, j);
      SplitHeightsClose(n);
  }

  /**
    buildTree (binary-search-tree.js:219-231) over any slice is balanced,
    and its height is the built height of the slice's length.
   */
  lemma BuildTreeBalanced(a: seq<int>, start: int, end: int)
    requires 0 <= start <= end + 1 <= |a|
    ensures Height(BuildTree(a, start, end)) == BuiltHeight(end - start + 1)
    ensures IsBalanced(BuildTree(a, start, end))
  {
    BuildTreeShaped(a, start, end);
    ShapedHeight(BuildTree(a, start, end), end - start + 1);
    ShapedBalanced(BuildTree(a, start, end), end - start + 1);
  }

  /**
    The constructor's promise (binary-search-tree.js:16, 219-231): from a
    strictly ascending array, buildTree makes a balanced search tree whose
    in-order traversal is the array and whose elements are its values.
   */
  lemma BuildFromSorted(a: seq<int>)
    requires StrictlyAscending(a)
    ensures var t := BuildTree(a, 0, |a| - 1);
      && InOrder(t) == a
      && IsBST(t)
      && IsBalanced(t)
      && forall x :: x in Elements(t) <==> x in a
  {
    var t := BuildTree(a, 0, |a| - 1);
    assert InOrder(t) == a by {
      BuildTreeInOrder(a, 0, |a| - 1);
      assert a[0..|a|] == a;
    }
    assert IsBST(t) by {
      SearchLemmas.InOrderAscendingIff(t);
    }
    assert IsBalanced(t) by {
      BuildTreeBalanced(a, 0, |a| - 1);
    }
    assert forall x :: x in Elements(t) <==> x in a by {
      SearchLemmas.InOrderElements(t);
    }
  }

  /**
    Any strictly ascending listing of the values of an array builds the
    same tree: the one the constructor builds over its sorted array.
   */
  lemma BuildFromSameValues(sorted: seq<int>, values: seq<int>)
    requires StrictlyAscending(sorted) && forall x :: x in sorted <==> x in values
    ensures forall s :: StrictlyAscending(s) && (forall x :: x in s <==> x in values) ==>
      BuildTree(s, 0, |s| - 1) == BuildTree(sorted, 0, |sorted| - 1)
  {
    forall s | StrictlyAscending(s) && (forall x :: x in s <==> x in values)
      ensures s == sorted
    {
      StrictlyAscendingUnique(s, sorted);
    }
  }

  /**
    rebalance (binary-search-tree.js:210-217): whatever the prior skew, the
    rebuilt tree is balanced, lists the same values in the same in-order
    sequence, and is a search tree when the original was.
   */
  lemma RebalanceCorrect(t: Tree)
    ensures IsBalanced(Rebalance(t))
    ensures InOrder(Rebalance(t)) == InOrder(t)
    ensures Elements(Rebalance(t)) == Elements(t)
    ensures IsBST(t) ==> IsBST(Rebalance(t))
  {
    RebalanceInOrder(t);
    RebalanceBalanced(t);
    SearchLemmas.SameInOrderSameElements(Rebalance(t), t);
    assert IsBST(t) ==> IsBST(Rebalance(t)) by {
      SearchLemmas.InOrderAscendingIff(t);
      SearchLemmas.InOrderAscendingIff(Rebalance(t));
    }
  }

  /** The rebuilt tree lists the original in-order sequence. */
  lemma RebalanceInOrder(t: Tree)
    ensures InOrder(Rebalance(t)) == InOrder(t)
  {
    var s := InOrder(t);
    BuildTreeInOrder(s, 0, |s| - 1);
    assert s[0..|s|] == s;
  }

  /** The rebuilt tree is balanced. */
  lemma RebalanceBalanced(t: Tree)
    ensures IsBalanced(Rebalance(t))
  {
    var s := InOrder(t);
    BuildTreeBalanced(s, 0, |s| - 1);
  }

  /** A tree built over the in-order sequence of t is what rebalance makes of t. */
  lemma RebuiltFrom(t: Tree, s: seq<int>, b: Tree)
    requires s == InOrder(t) && b == BuildTree(s, 0, |s| - 1)
    ensures b == Rebalance(t)
  {
  }

  /** Rebalancing twice gives the same tree as rebalancing once. */
  lemma RebalanceIdempotent(t: Tree)
    ensures Rebalance(Rebalance(t)) == Rebalance(t)
  {
    RebalanceCorrect(t);
  }
}
