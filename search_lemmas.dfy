/**
  What the ordering invariant buys: in-order traversal is sorted, find is
  exact, insert and delete keep the invariant and change the element set
  by exactly one value, depth finds exactly the stored values.
 */
module SearchLemmas {
  import opened Sequences
  import opened Trees

  /** The multiset of node values and the set of elements agree on membership. */
  lemma {:induction false} ValuesElements(t: Tree)
    ensures forall x :: x in Values(t) <==> x in Elements(t)
  {
    if t.Node? {
      ValuesElements(t.left);
      ValuesElements(t.right);
    }
  }

  /** inOrder visits every node exactly once: its values are the tree's, with multiplicity. */
  lemma {:induction false} InOrderValues(t: Tree)
    ensures multiset(InOrder(t)) == Values(t)
  {
    if t.Node? {
      InOrderValues(t.left);
      InOrderValues(t.right);
    }
  }

  /** The in-order sequence holds exactly the elements. */
  lemma InOrderElements(t: Tree)
    ensures forall x :: x in InOrder(t) <==> x in Elements(t)
  {
    ValuesElements(t);
    InOrderValues(t);
    forall x ensures x in InOrder(t) <==> x in Elements(t) {
      assert x in InOrder(t) <==> x in multiset(InOrder(t));
    }
  }

  /** Two trees with the same in-order sequence hold the same elements. */
  lemma SameInOrderSameElements(t: Tree, u: Tree)
    requires InOrder(t) == InOrder(u)
    ensures Elements(t) == Elements(u)
  {
    InOrderElements(t);
    InOrderElements(u);
    forall x ensures x in Elements(t) <==> x in Elements(u) {
      assert x in Elements(t) <==> x in InOrder(t);
      assert x in Elements(u) <==> x in InOrder(u);
    }
  }

  /**
    The ordering invariant holds exactly when the in-order traversal is
    strictly ascending (binary-search-tree.js:134-143 visits a search tree
    in sorted order, with no repeats).
   */
  lemma {:induction false} InOrderAscendingIff(t: Tree)
    ensures IsBST(t) <==> StrictlyAscending(InOrder(t))
  {
    match t
    case Nil =>
    case Node(l, x, r) =>
      InOrderAscendingIff(l);
      InOrderAscendingIff(r);
      InOrderElements(l);
      InOrderElements(r);
      StrictlyAscendingAround(InOrder(l), x, InOrder(r));
  }

  /** On a search tree every stored value sits in exactly one node. */
  lemma {:induction false} ValuesOnce(t: Tree)
    requires IsBST(t)
    ensures forall x :: Values(t)[x] == if x in Elements(t) then 1 else 0
  {
    if t.Node? {
      ValuesOnce(t.left);
      ValuesOnce(t.right);
    }
  }

  /**
    find (binary-search-tree.js:87-96) on a search tree: the descent reaches
    a node exactly when the value is stored, and that node holds it.
   */
  lemma {:induction false} FindCorrect(t: Tree, v: int)
    requires IsBST(t)
    ensures Find(t, v) != Nil <==> v in Elements(t)
    ensures Find(t, v) != Nil ==> Find(t, v).value == v
  {
    if t.Node? && t.value != v {
      if v < t.value {
        FindCorrect(t.left, v);
      } else {
        FindCorrect(t.right, v);
      }
    }
  }

  /**
    Insert keeps the ordering invariant (binary-search-tree.js:19-37); its
    element set grows by exactly v (see Trees.Insert).
   */
  lemma {:induction false} InsertPreservesBST(t: Tree, v: int)
    requires IsBST(t)
    ensures IsBST(Insert(t, v))
  {
    match t
    case Nil =>
    case Node(l, x, r) =>
      if v > x {
        InsertPreservesBST(r, v);
      } else if v < x {
        InsertPreservesBST(l, v);
      }
  }

  /** When the descent finds v, insert returns the subtree unchanged (duplicates are rejected). */
  lemma {:induction false} InsertFoundUnchanged(t: Tree, v: int)
    requires Find(t, v) != Nil
    ensures Insert(t, v) == t
  {
    match t
    case Nil =>
    case Node(l, x, r) =>
      if v > x {
        InsertFoundUnchanged(r, v);
      } else if v < x {
        InsertFoundUnchanged(l, v);
      }
  }

  /**
    On a search tree: after insert(v), find(v) reaches a node holding v;
    inserting a present value changes nothing.
   */
  lemma InsertThenFind(t: Tree, v: int)
    requires IsBST(t)
    ensures Find(Insert(t, v), v) != Nil && Find(Insert(t, v), v).value == v
    ensures v in Elements(t) ==> Insert(t, v) == t
  {
    InsertPreservesBST(t, v);
    FindCorrect(Insert(t, v), v);
    FindCorrect(t, v);
    if v in Elements(t) {
      InsertFoundUnchanged(t, v);
    }
  }

  /** When the descent misses v, delete returns the subtree unchanged. */
  lemma {:induction false} DeleteMissingUnchanged(t: Tree, v: int)
    requires Find(t, v) == Nil
    ensures Delete(t, v) == t
  {
    match t
    case Nil =>
    case Node(l, x, r) =>
      if v < x {
        DeleteMissingUnchanged(l, v);
      } else if v > x {
        DeleteMissingUnchanged(r, v);
      }
  }

  /**
    deleteItem (binary-search-tree.js:39-75) on a search tree returns a
    search tree holding every element but v: siblings survive in the zero-,
    one- and two-child cases.
   */
  lemma {:induction false} DeleteCorrect(t: Tree, v: int)
    requires IsBST(t)
    ensures IsBST(Delete(t, v))
    ensures Elements(Delete(t, v)) == Elements(t) - {v}
  {
    match t
    case Nil =>
    case Node(l, x, r) =>
      if v < x {
        DeleteCorrect(l, v);
      } else if v > x {
        DeleteCorrect(r, v);
      } else if l != Nil && r != Nil {
        var m := MinValue(r);
        DeleteCorrect(r, m);
        assert Elements(Delete(r, m)) == Elements(r) - {m};
        assert x !in Elements(l) && x !in Elements(r);
        assert Elements(l) + {m} + (Elements(r) - {m}) == Elements(t) - {v};
      }
  }

  /** On a search tree, find(v) misses after deleteItem(v), whatever v's children were. */
  lemma DeleteThenFind(t: Tree, v: int)
    requires IsBST(t)
    ensures Find(Delete(t, v), v) == Nil
    ensures v !in Elements(t) ==> Delete(t, v) == t
  {
    DeleteCorrect(t, v);
    FindCorrect(Delete(t, v), v);
    FindCorrect(t, v);
    if v !in Elements(t) {
      DeleteMissingUnchanged(t, v);
    }
  }

  /**
    The public deleteItem(v), whose result is not stored into root, keeps
    the ordering invariant; it removes v unless v is at a root with fewer
    than two children, where it removes nothing.
   */
  lemma DeleteKeepingRootEffect(t: Tree, v: int)
    requires IsBST(t)
    ensures IsBST(DeleteKeepingRoot(t, v))
    ensures Elements(DeleteKeepingRoot(t, v)) ==
      if t.Node? && t.value == v && (t.left == Nil || t.right == Nil)
      then Elements(t) else Elements(t) - {v}
  {
    DeleteCorrect(t, v);
  }

  /**
    The discrepancy in deleteItem: on the one-node tree holding 5,
    deleteItem(5) leaves 5 in the tree, and find(5) still reaches it.
   */
  lemma DeleteItemLeavesLoneRoot()
    ensures var t := Node(Nil, 5, Nil);
      Find(DeleteKeepingRoot(t, 5), 5) == t && Delete(t, 5) == Nil
  {
  }

  /**
    depth (binary-search-tree.js:180-192) on a search tree: the descent
    reaches depth >= 0 exactly for stored values; the root is at depth 0.
   */
  lemma {:induction false} DepthCorrect(t: Tree, v: int)
    requires IsBST(t)
    ensures Depth(t, v) >= 0 <==> v in Elements(t)
    ensures t != Nil && t.value == v ==> Depth(t, v) == 0
  {
    if t.Node? && t.value != v {
      if v < t.value {
        DepthCorrect(t.left, v);
      } else {
        DepthCorrect(t.right, v);
      }
    }
  }
}
