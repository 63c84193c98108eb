/**
  The example tree of tests/binary-search-tree.test.js, built from the
  values 10, 5, 20, 3, 7, 15, 25 (sorted: 3, 5, 7, 10, 15, 20, 25).
 */
module Scenarios {
  import opened Sequences
  import opened Trees
  import BuildLemmas
  import BinarySearchTree

  /** The array of tests/binary-search-tree.test.js:7. */
  const TestArray: seq<int> := [10, 5, 20, 3, 7, 15, 25]

  /** The tree buildTree makes from the example values in ascending order. */
  function Example(): (t: Tree)
    ensures t == Node(Node(Node(Nil, 3, Nil), 5, Node(Nil, 7, Nil)), 10, Node(Node(Nil, 15, Nil), 20, Node(Nil, 25, Nil)))
  {
    var a := [3, 5, 7, 10, 15, 20, 25];
    BuildLemmas.BuildTreeRoot(a, 0, 6, 3);
    BuildLemmas.BuildTreeRoot(a, 0, 2, 1);
    BuildLemmas.BuildTreeRoot(a, 4, 6, 5);
    BuildTree(a, 0, 6)
  }

  /** The test array's values in ascending order: its only strictly ascending listing. */
  lemma TestArraySorted()
    ensures StrictlyAscending([3, 5, 7, 10, 15, 20, 25])
    ensures forall x :: x in [3, 5, 7, 10, 15, 20, 25] <==> x in TestArray
  {
  }

  /**
    A tree that every strictly ascending listing of the test array's values
    builds is Example(), so Example() is the tree `new Tree(array)` makes
    (tests/binary-search-tree.test.js:7-8).
   */
  lemma ExampleFromTestArray(m: Tree)
    requires forall s :: StrictlyAscending(s) && (forall x :: x in s <==> x in TestArray) ==>
      m == BuildTree(s, 0, |s| - 1)
    ensures m == Example()
  {
    TestArraySorted();
    var sorted := [3, 5, 7, 10, 15, 20, 25];
    assert m == BuildTree(sorted, 0, |sorted| - 1);
  }

  /** The example tree after insert(100) and then insert(110). */
  lemma ExampleInserted()
    ensures Insert(Insert(Example(), 100), 110) ==
      Node(Example().left, 10, Node(Node(Nil, 15, Nil), 20, Node(Nil, 25, Node(Nil, 100, Node(Nil, 110, Nil)))))
  {
  }

  /** The example tree is balanced (tests/binary-search-tree.test.js:11-13). */
  lemma ExampleBalanced()
    ensures IsBalanced(Example()) && Height(Example()) == 2
  {
    var t := Example();
    assert Height(t.left) == 1 && Height(t.right) == 1;
  }

  /** The example tree lists its values in ascending order (tests/binary-search-tree.test.js:55-58). */
  lemma ExampleInOrder()
    ensures InOrder(Example()) == [3, 5, 7, 10, 15, 20, 25]
  {
    var t := Example();
    assert InOrder(t.left) == [3, 5, 7] && InOrder(t.right) == [15, 20, 25];
  }

  /** The example tree holds 25 at depth 2, below the root (tests/binary-search-tree.test.js:84-88). */
  lemma ExampleDepth()
    ensures Depth(Example(), 25) == 2
  {
  }

  /**
    Inserting 100 and then 110 into the example tree unbalances it; rebalancing
    restores the balance (tests/binary-search-tree.test.js:90-103).
   */
  lemma ExampleSkewed()
    ensures !IsBalanced(Insert(Insert(Example(), 100), 110))
    ensures IsBalanced(Rebalance(Insert(Insert(Example(), 100), 110)))
  {
    var u := Insert(Insert(Example(), 100), 110);
    ExampleInserted();
    assert Height(u.right.right) == 2 && Height(u.right.left) == 0;
    BuildLemmas.RebalanceCorrect(u);
  }

  /** A valid object tree spelling Example(), as `new Tree(array)` builds it. */
  method NewTestTree() returns (t: BinarySearchTree.Tree)
    ensures t.Valid() && fresh(t.Repr)
    ensures t.Model() == Example()
  {
    t := new BinarySearchTree.Tree(TestArray);
    ExampleFromTestArray(t.Model());
  }

  /**
    The test of tests/binary-search-tree.test.js:84-88 on the object tree:
    the node that find(25) returns is at depth 2, below the root.
   */
  method DepthScenario() returns (depth: int)
    ensures depth == 2
  {
    var t := NewTestTree();
    var node := t.Find(25);
    BinarySearchTree.ModelOfPresent(t.root);
    depth := t.Depth(node);
    ExampleDepth();
  }

  /** insert(100) and then insert(110) on the object tree that spells Example(). */
  method InsertSkewing(t: BinarySearchTree.Tree)
    requires t.Valid() && t.Model() == Example()
    modifies t.Repr
    ensures t.Valid() && t.Model() == Insert(Insert(Example(), 100), 110)
  {
    BinarySearchTree.ModelOfPresent(t.root);
    var failed := t.Insert(100);
    failed := t.Insert(110);
  }

  /**
    The tests of tests/binary-search-tree.test.js:90-103 on the object
    tree: balanced as built, unbalanced after insert(100) and insert(110),
    balanced again after rebalance().
   */
  method RebalanceScenario() returns (built: bool, skewed: bool, rebalanced: bool)
    ensures built && !skewed && rebalanced
  {
    var t := NewTestTree();
    ExampleBalanced();
    built := t.IsBalanced();
    InsertSkewing(t);
    ExampleSkewed();
    skewed := t.IsBalanced();
    t.Rebalance();
    rebalanced := t.IsBalanced();
  }
}
