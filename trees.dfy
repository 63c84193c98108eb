/**
  The binary search tree of src/modules/binary-search-tree.js as a value:
  the shape the linked Node objects describe, and the recursive operations
  of the Tree class stated over that shape. The linked, mutable version in
  BinarySearchTree is proved to agree with these definitions.
 */
module Trees {
  /** A subtree: absent (null in the source) or a node with a value and two children. */
  datatype Tree = Nil | Node(left: Tree, value: int, right: Tree)

  /** The set of values stored in t. */
  function Elements(t: Tree): set<int> {
    match t
    case Nil => {}
    case Node(l, x, r) => Elements(l) + {x} + Elements(r)
  }

  /** The values stored in t, one occurrence per node. */
  function Values(t: Tree): (m: multiset<int>)
    ensures |m| == Size(t)
  {
    match t
    case Nil => multiset{}
    case Node(l, x, r) => Values(l) + multiset{x} + Values(r)
  }

  /** The number of nodes of t. */
  function Size(t: Tree): nat {
    match t
    case Nil => 0
    case Node(l, _, r) => Size(l) + 1 + Size(r)
  }

  /**
    The ordering invariant: at every node, the left subtree holds only
    smaller values and the right subtree only larger ones (so no value
    occurs twice).
   */
  predicate IsBST(t: Tree) {
    match t
    case Nil => true
    case Node(l, x, r) =>
      && IsBST(l) && IsBST(r)
      && (forall y :: y in Elements(l) ==> y < x)
      && (forall y :: y in Elements(r) ==> x < y)
  }

  /**
    find (binary-search-tree.js:87-96): the subtree whose root holds v,
    found by binary descent, or Nil.
   */
  function Find(t: Tree, v: int): (r: Tree)
    ensures r == Nil || r.value == v
    ensures Elements(r) <= Elements(t)
  {
    if t == Nil || t.value == v then t
    else if v < t.value then Find(t.left, v)
    else Find(t.right, v)
  }

  /**
    insert (binary-search-tree.js:19-37) on a non-empty subtree: descends
    by comparison and hangs a new leaf where the search falls off the tree;
    an equal value stops the descent and changes nothing. On Nil it stands
    for the leaf `new Node(value)` that the parent attaches.
   */
  function Insert(t: Tree, v: int): (r: Tree)
    ensures Elements(r) == Elements(t) + {v}
    ensures r != Nil
  {
    match t
    case Nil => Node(Nil, v, Nil)
    case Node(l, x, r) =>
      if v == x then t
      else if v > x then Node(l, x, Insert(r, v))
      else Node(Insert(l, v), x, r)
  }

  /**
    The value of the leftmost node: what getMinValueNode
    (binary-search-tree.js:78-84) reaches by following left children.
   */
  function MinValue(t: Tree): (m: int)
    requires t != Nil
    ensures m in Elements(t)
    ensures IsBST(t) ==> forall y :: y in Elements(t) ==> m <= y
  {
    if t.left == Nil then t.value else MinValue(t.left)
  }

  /**
    deleteItem (binary-search-tree.js:39-75): the subtree the recursive call
    returns. A node with at most one child is replaced by that child; a node
    with two children takes the value of its in-order successor, which is
    then deleted from the right subtree.
   */
  function Delete(t: Tree, v: int): (r: Tree)
    ensures Elements(r) <= Elements(t)
  {
    match t
    case Nil => Nil
    case Node(l, x, r) =>
      if v < x then Node(Delete(l, v), x, r)
      else if v > x then Node(l, x, Delete(r, v))
      else if l == Nil then r
      else if r == Nil then l
      else
        var m := MinValue(r);
        Node(l, m, Delete(r, m))
  }

  /**
    What the tree holds after the public call `deleteItem(v)`, which never
    stores the returned subtree back into `root`: when the root itself holds
    v and has fewer than two children, the returned child is dropped and the
    tree is left as it was; otherwise the deletion happens inside the root
    node and takes effect.
   */
  function DeleteKeepingRoot(t: Tree, v: int): (r: Tree)
    ensures Elements(r) <= Elements(t)
  {
    if t.Node? && t.value == v && (t.left == Nil || t.right == Nil) then t
    else Delete(t, v)
  }

  /** height (binary-search-tree.js:170-177): -1 for an absent subtree. */
  function Height(t: Tree): (h: int)
    ensures -1 <= h < Size(t)
    ensures h == -1 <==> t == Nil
  {
    match t
    case Nil => -1
    case Node(l, _, r) =>
      var hl, hr := Height(l), Height(r);
      1 + if hl < hr then hr else hl
  }

  /**
    isBalanced (binary-search-tree.js:195-207): at every node the heights of
    the two subtrees differ by at most one.
   */
  predicate IsBalanced(t: Tree) {
    match t
    case Nil => true
    case Node(l, _, r) =>
      && -1 <= Height(l) - Height(r) <= 1
      && IsBalanced(l) && IsBalanced(r)
  }

  /**
    depth by value (binary-search-tree.js:180-192 with the identity test
    read as a value test): the number of steps the comparison-guided descent
    takes to reach v, or -1 when it falls off the tree.
   */
  function Depth(t: Tree, v: int): (d: int)
    ensures -1 <= d <= Height(t)
  {
    match t
    case Nil => -1
    case Node(l, x, r) =>
      if v == x then 0
      else
        var d := Depth(if v < x then l else r, v);
        if d < 0 then -1 else d + 1
  }

  /** inOrder (binary-search-tree.js:134-143): the values visited, left, node, right. */
  function InOrder(t: Tree): seq<int> {
    match t
    case Nil => []
    case Node(l, x, r) => InOrder(l) + [x] + InOrder(r)
  }

  /** preOrder (binary-search-tree.js:146-155): node, left, right. */
  function PreOrder(t: Tree): seq<int> {
    match t
    case Nil => []
    case Node(l, x, r) => [x] + PreOrder(l) + PreOrder(r)
  }

  /** postOrder (binary-search-tree.js:158-167): left, right, node. */
  function PostOrder(t: Tree): seq<int> {
    match t
    case Nil => []
    case Node(l, x, r) => PostOrder(l) + PostOrder(r) + [x]
  }

  /** The total number of nodes in a queue of subtrees. */
  function ForestSize(q: seq<Tree>): nat {
    if q == [] then 0 else Size(q[0]) + ForestSize(q[1..])
  }

  /** The children the level-order loop pushes for a node: only the present ones. */
  function Children(l: Tree, r: Tree): (c: seq<Tree>)
    ensures |c| <= 2 && ForestSize(c) == Size(l) + Size(r)
    ensures forall k :: 0 <= k < |c| ==> c[k] != Nil
  {
    if l != Nil && r != Nil then
      assert [l, r][1..] == [r] && [r][1..] == [];
      assert ForestSize([r]) == Size(r);
      [l, r]
    else if l != Nil then
      assert [l][1..] == [];
      [l]
    else if r != Nil then
      assert [r][1..] == [];
      [r]
    else []
  }

  /**
    The level-order visit of a FIFO queue of subtrees, as levelOrder and
    levelOrderRecursive (binary-search-tree.js:99-131) run it: take the
    front; if present, visit it and push its present children at the back.
   */
  function LevelOrderQueue(q: seq<Tree>): (s: seq<int>)
    decreases 2 * ForestSize(q) + |q|
  {
    if q == [] then []
    else
      match q[0]
      case Nil => LevelOrderQueue(q[1..])
      case Node(l, x, r) =>
        ForestSizeAppend(q[1..], Children(l, r));
        [x] + LevelOrderQueue(q[1..] + Children(l, r))
  }

  /** levelOrder: the queue starts out holding the root (which may be absent). */
  function LevelOrder(t: Tree): (s: seq<int>) {
    LevelOrderQueue([t])
  }

  lemma {:induction false} ForestSizeAppend(p: seq<Tree>, q: seq<Tree>)
    ensures ForestSize(p + q) == ForestSize(p) + ForestSize(q)
  {
    if p != [] {
      assert (p + q)[1..] == p[1..] + q;
      ForestSizeAppend(p[1..], q);
    } else {
      assert p + q == q;
    }
  }

  /**
    buildTree (binary-search-tree.js:219-231): the subtree over the slice
    a[start..end] (inclusive), rooted at the midpoint floor((start+end)/2).
   */
  function BuildTree(a: seq<int>, start: int, end: int): (t: Tree)
    requires 0 <= start <= end + 1 <= |a|
    decreases end - start + 1
  {
    if start > end then Nil
    else
      var mid := (start + end) / 2;
      Node(BuildTree(a, start, mid - 1), a[mid], BuildTree(a, mid + 1, end))
  }

  /**
    rebalance (binary-search-tree.js:210-217): rebuild from the in-order
    sequence of values.
   */
  function Rebalance(t: Tree): Tree {
    var s := InOrder(t);
    BuildTree(s, 0, |s| - 1)
  }
}
