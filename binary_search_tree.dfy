/**
  The Tree and Node classes of src/modules/binary-search-tree.js as linked,
  mutable objects. Every node carries, as ghost state, the set of objects
  of its subtree (Repr) and the value tree that subtree spells (Model, a
  Trees.Tree); Valid() ties the two to the fields. Each operation is proved
  against the value-level definition in Trees, whose properties are proved
  in SearchLemmas, TraversalLemmas and BuildLemmas.
 */
module BinarySearchTree {
  import opened Sequences
  import Trees
  import Preprocess
  import SearchLemmas
  import BuildLemmas
  import TraversalLemmas

  /** A node: a value and two links, null when the child is absent. */
  class Node {
    var value: int
    var left: Node?
    var right: Node?
    ghost var Repr: set<object>
    ghost var Model: Trees.Tree

    /**
      The subtree below this node is a finite tree: the two children own
      disjoint sets of nodes, neither contains this node, and Model is the
      value tree the links spell.
     */
    ghost predicate Valid()
      reads this, Repr
      decreases Repr
    {
      && this in Repr
      && (left != null ==>
            && left in Repr && left.Repr <= Repr && this !in left.Repr
            && left.Valid())
      && (right != null ==>
            && right in Repr && right.Repr <= Repr && this !in right.Repr
            && right.Valid())
      && (left != null && right != null ==> left.Repr !! right.Repr)
      && Repr == {this} + ReprOf(left) + ReprOf(right)
      && Model == Trees.Node(ModelOf(left), value, ModelOf(right))
    }

    /** new Node(value) (binary-search-tree.js:3-9): a leaf. */
    constructor(value: int)
      ensures Valid() && fresh(Repr)
      ensures this.value == value && left == null && right == null
      ensures Model == Trees.Node(Trees.Nil, value, Trees.Nil)
    {
      this.value := value;
      left := null;
      right := null;
      Repr := {this};
      Model := Trees.Node(Trees.Nil, value, Trees.Nil);
    }
  }

  /** The objects of the subtree at n (none for an absent subtree). */
  ghost function ReprOf(n: Node?): set<object>
    reads n
  {
    if n == null then {} else n.Repr
  }

  /** The value tree of the subtree at n (Nil for an absent subtree). */
  ghost function ModelOf(n: Node?): Trees.Tree
    reads n
  {
    if n == null then Trees.Nil else n.Model
  }

  ghost predicate ValidOf(n: Node?)
    reads n, ReprOf(n)
  {
    n == null || n.Valid()
  }

  /** The value trees of the subtrees in a queue, front first. */
  ghost function Models(q: seq<Node?>): seq<Trees.Tree>
    reads q
  {
    if q == [] then [] else [ModelOf(q[0])] + Models(q[1..])
  }

  /**
    Recomputes the ghost footprint and model of n from its fields, once its
    children are valid, disjoint and do not contain n.
   */
  ghost method Relink(n: Node)
    requires ValidOf(n.left) && ValidOf(n.right)
    requires n !in ReprOf(n.left) && n !in ReprOf(n.right)
    requires ReprOf(n.left) !! ReprOf(n.right)
    modifies n
    ensures n.Valid()
    ensures n.Repr == {n} + ReprOf(n.left) + ReprOf(n.right)
    ensures n.Model == Trees.Node(ModelOf(n.left), n.value, ModelOf(n.right))
    ensures n.value == old(n.value) && n.left == old(n.left) && n.right == old(n.right)
  {
    n.Repr := {n} + ReprOf(n.left) + ReprOf(n.right);
    n.Model := Trees.Node(ModelOf(n.left), n.value, ModelOf(n.right));
  }

  /** What to report to: the source's traversals refuse to run without a callback. */
  datatype Outcome = Visits(values: seq<int>) | CallbackRequired

  /** A present subtree has a non-empty model, and its root value is the model's. */
  lemma ModelOfPresent(n: Node?)
    requires ValidOf(n)
    ensures n == null <==> ModelOf(n) == Trees.Nil
    ensures n != null ==> ModelOf(n).value == n.value
  {
  }

  /**
    Every node of a valid subtree is itself valid, and the value it holds
    is one of the subtree's elements.
   */
  lemma {:induction false} InRepr(n: Node, m: Node)
    requires n.Valid() && m in n.Repr
    ensures m.Valid() && m.Repr <= n.Repr
    ensures m.value in Trees.Elements(n.Model)
    decreases n.Repr
  {
    if m != n {
      if n.left != null && m in n.left.Repr {
        InRepr(n.left, m);
      } else {
        InRepr(n.right, m);
      }
    }
  }

  /** The tree: a possibly absent root node. Valid() adds the ordering invariant. */
  class Tree {
    var root: Node?
    ghost var Repr: set<object>

    /** The tree owns exactly itself and the nodes reachable from root. */
    ghost predicate Valid()
      reads this, Repr
    {
      && this in Repr
      && (root != null ==> root in Repr)
      && Repr == {this} + ReprOf(root)
      && this !in ReprOf(root)
      && ValidOf(root)
      && Trees.IsBST(ModelOf(root))
    }

    /** The value tree the whole object graph spells. */
    ghost function Model(): Trees.Tree
      reads this, root
    {
      ModelOf(root)
    }

    /**
      constructor(array) (binary-search-tree.js:12-17): deduplicate and sort
      the values, then build the tree over them. The result is a balanced
      search tree holding exactly the distinct values of the array; its
      shape is the midpoint construction over those values in ascending
      order.
     */
    constructor(values: seq<int>)
      ensures Valid() && fresh(Repr)
      ensures Trees.IsBalanced(Model())
      ensures forall x :: x in Trees.Elements(Model()) <==> x in values
      ensures forall s :: StrictlyAscending(s) && (forall x :: x in s <==> x in values) ==>
        Model() == Trees.BuildTree(s, 0, |s| - 1)
    {
      var r := BuildSorted(values);
      root := r;
      Repr := {this} + ReprOf(r);
    }

    /** Line 16: buildTree over sortArray(array), as fresh nodes. */
    static method BuildSorted(values: seq<int>) returns (r: Node?)
      ensures ValidOf(r) && fresh(ReprOf(r))
      ensures Trees.IsBST(ModelOf(r)) && Trees.IsBalanced(ModelOf(r))
      ensures forall x :: x in Trees.Elements(ModelOf(r)) <==> x in values
      ensures forall s :: StrictlyAscending(s) && (forall x :: x in s <==> x in values) ==>
        ModelOf(r) == Trees.BuildTree(s, 0, |s| - 1)
    {
      var sorted := Preprocess.SortArray(values);
      r := BuildTree(sorted, 0, |sorted| - 1);
      BuildLemmas.BuildFromSorted(sorted);
      BuildLemmas.BuildFromSameValues(sorted, values);
    }

    /**
      buildTree (binary-search-tree.js:219-231): fresh nodes over the slice
      a[start..end], rooted at the midpoint.
     */
    static method BuildTree(a: seq<int>, start: int, end: int) returns (r: Node?)
      requires 0 <= start <= end + 1 <= |a|
      ensures ValidOf(r) && fresh(ReprOf(r))
      ensures ModelOf(r) == Trees.BuildTree(a, start, end)
      decreases end - start + 1
    {
      if start > end {
        return null;
      }
      var mid := (start + end) / 2;
      BuildLemmas.BuildTreeRoot(a, start, end, mid);
      r := new Node(a[mid]);
      var l := BuildTree(a, start, mid - 1);
      var rt := BuildTree(a, mid + 1, end);
      Attach(r, l, rt);
      BuildLemmas.BuiltOver(a, start, end, ModelOf(l), ModelOf(rt), ModelOf(r));
    }

    /** The two child assignments of buildTree (binary-search-tree.js:227-228). */
    static method Attach(r: Node, l: Node?, rt: Node?)
      requires Separate(r, l, rt)
      modifies r
      ensures ValidOf(r) && r.left == l && r.right == rt
      ensures ReprOf(r) == {r} + old(ReprOf(l)) + old(ReprOf(rt))
      ensures ModelOf(r) == Trees.Node(old(ModelOf(l)), old(r.value), old(ModelOf(rt)))
    {
      r.left := l;
      r.right := rt;
      Relink(r);
    }

    /**
      find(value, node) (binary-search-tree.js:87-96): the node reached by
      binary descent, or null; its subtree is the one Trees.Find selects.
     */
    static function FindAt(value: int, node: Node?): (r: Node?)
      reads node, ReprOf(node)
      requires ValidOf(node)
      ensures r != null ==> r in ReprOf(node) && r.Repr <= ReprOf(node) && r.Valid() && r.value == value
      ensures ModelOf(r) == Trees.Find(ModelOf(node), value)
      decreases ReprOf(node)
    {
      if node == null || node.value == value then node
      else if value < node.value then FindAt(value, node.left)
      else FindAt(value, node.right)
    }

    /** height(node) (binary-search-tree.js:170-177): -1 for null. */
    static function Height(node: Node?): (h: int)
      reads node, ReprOf(node)
      requires ValidOf(node)
      ensures h == Trees.Height(ModelOf(node))
      decreases ReprOf(node)
    {
      if node == null then -1
      else
        var lh, rh := Height(node.left), Height(node.right);
        1 + if lh < rh then rh else lh
    }

    /** isBalanced(node) (binary-search-tree.js:195-207). */
    static function IsBalancedAt(node: Node?): (b: bool)
      reads node, ReprOf(node)
      requires ValidOf(node)
      ensures b == Trees.IsBalanced(ModelOf(node))
      decreases ReprOf(node)
    {
      if node == null then true
      else
        var lh, rh := Height(node.left), Height(node.right);
        && -1 <= lh - rh <= 1
        && IsBalancedAt(node.left)
        && IsBalancedAt(node.right)
    }

    /** inOrder(callback, node) (binary-search-tree.js:134-143): the values the callback receives. */
    static function InOrderAt(node: Node?): (s: seq<int>)
      reads node, ReprOf(node)
      requires ValidOf(node)
      ensures s == Trees.InOrder(ModelOf(node))
      decreases ReprOf(node)
    {
      if node == null then [] else InOrderAt(node.left) + [node.value] + InOrderAt(node.right)
    }

    /** preOrder(callback, node) (binary-search-tree.js:146-155). */
    static function PreOrderAt(node: Node?): (s: seq<int>)
      reads node, ReprOf(node)
      requires ValidOf(node)
      ensures s == Trees.PreOrder(ModelOf(node))
      decreases ReprOf(node)
    {
      if node == null then [] else [node.value] + PreOrderAt(node.left) + PreOrderAt(node.right)
    }

    /** postOrder(callback, node) (binary-search-tree.js:158-167). */
    static function PostOrderAt(node: Node?): (s: seq<int>)
      reads node, ReprOf(node)
      requires ValidOf(node)
      ensures s == Trees.PostOrder(ModelOf(node))
      decreases ReprOf(node)
    {
      if node == null then [] else PostOrderAt(node.left) + PostOrderAt(node.right) + [node.value]
    }

    /**
      depth(node, current, depthLevel) (binary-search-tree.js:180-192): the
      descent follows node's value but stops only at node itself. On a
      search tree it finds node exactly when node belongs to the subtree,
      at the depth of node's value; otherwise it reports -1.
     */
    static function DepthAt(node: Node?, current: Node?, level: int): (d: int)
      reads node, current, ReprOf(current)
      requires current != null ==> node != null
      requires ValidOf(current) && Trees.IsBST(ModelOf(current))
      ensures node != null && node in ReprOf(current) ==>
        d == level + Trees.Depth(ModelOf(current), node.value) && d >= level
      ensures node == null || node !in ReprOf(current) ==> d == -1
      decreases ReprOf(current)
    {
      if current == null then -1
      else if current == node then level
      else
        DepthStep(node, current);
        if node.value < current.value then DepthAt(node, current.left, level + 1)
        else DepthAt(node, current.right, level + 1)
    }

    /**
      getMinValueNode(node) (binary-search-tree.js:78-84): follows left
      links to the leftmost node, whose value is the subtree's minimum.
     */
    method GetMinValueNode(node: Node) returns (m: Node)
      requires node.Valid()
      ensures m in node.Repr && m.Valid() && m.left == null
      ensures m == Leftmost(node)
      ensures m.value == Trees.MinValue(node.Model)
      ensures m.value in Trees.Elements(node.Model)
      ensures Trees.IsBST(node.Model) ==> forall y :: y in Trees.Elements(node.Model) ==> m.value <= y
    {
      var current := node;
      while current.left != null
        invariant current in node.Repr && current.Repr <= node.Repr && current.Valid()
        invariant Trees.MinValue(current.Model) == Trees.MinValue(node.Model)
        invariant Leftmost(current) == Leftmost(node)
        decreases current.Repr
      {
        current := current.left;
      }
      m := current;
    }

    /**
      insert(value, node) (binary-search-tree.js:19-37): descends by
      comparison and links a new leaf where the descent falls off the tree;
      a value already on the descent path stops it and changes nothing.
     */
    method InsertAt(value: int, node: Node)
      requires node.Valid()
      modifies node.Repr
      ensures node.Valid() && fresh(node.Repr - old(node.Repr))
      ensures node.Model == Trees.Insert(old(node.Model), value)
      ensures Trees.Find(old(node.Model), value) != Trees.Nil ==>
        node.Repr == old(node.Repr) && unchanged(old(node.Repr))
      decreases node.Repr, 1
    {
      if value == node.value {
        return;
      }
      if value > node.value {
        InsertRightOf(value, node);
      } else if value < node.value {
        InsertLeftOf(value, node);
      }
    }

    /** The branch of insert for a value above node's (binary-search-tree.js:23-28). */
    method InsertRightOf(value: int, node: Node)
      requires node.Valid() && value > node.value
      modifies node.Repr
      ensures node.Valid() && fresh(node.Repr - old(node.Repr))
      ensures node.Model == Trees.Node(old(ModelOf(node.left)), old(node.value), Trees.Insert(old(ModelOf(node.right)), value))
      ensures Trees.Find(old(ModelOf(node.right)), value) != Trees.Nil ==>
        node.Repr == old(node.Repr) && unchanged(old(node.Repr))
      decreases node.Repr, 0
    {
      if node.right == null {
        var leaf := new Node(value);
        node.right := leaf;
        Relink(node);
        return;
      }
      ghost var found := Trees.Find(node.right.Model, value) != Trees.Nil;
      InsertAt(value, node.right);
      if !found {
        Relink(node);
      }
    }

    /** The branch of insert for a value below node's (binary-search-tree.js:29-34). */
    method InsertLeftOf(value: int, node: Node)
      requires node.Valid() && value < node.value
      modifies node.Repr
      ensures node.Valid() && fresh(node.Repr - old(node.Repr))
      ensures node.Model == Trees.Node(Trees.Insert(old(ModelOf(node.left)), value), old(node.value), old(ModelOf(node.right)))
      ensures Trees.Find(old(ModelOf(node.left)), value) != Trees.Nil ==>
        node.Repr == old(node.Repr) && unchanged(old(node.Repr))
      decreases node.Repr, 0
    {
      if node.left == null {
        var leaf := new Node(value);
        node.left := leaf;
        Relink(node);
        return;
      }
      ghost var found := Trees.Find(node.left.Model, value) != Trees.Nil;
      InsertAt(value, node.left);
      if !found {
        Relink(node);
      }
    }

    /**
      deleteItem(value, node) (binary-search-tree.js:39-75): returns the
      subtree that replaces node once value is deleted from it. Below node
      the links are updated in place; a node holding value with a missing
      child is bypassed (its other child is returned, nothing is modified),
      and a node with two children takes its in-order successor's value.
     */
    method DeleteItemAt(value: int, node: Node?) returns (r: Node?)
      requires ValidOf(node)
      modifies ReprOf(node)
      ensures ValidOf(r) && ReprOf(r) <= old(ReprOf(node))
      ensures ModelOf(r) == Trees.Delete(old(ModelOf(node)), value)
      ensures node != null && !(old(node.value) == value && (old(node.left) == null || old(node.right) == null)) ==>
        r == node
      ensures node == null || (old(node.value) == value && (old(node.left) == null || old(node.right) == null)) ==>
        unchanged(old(ReprOf(node)))
      decreases ReprOf(node), 2
    {
      if node == null {
        return null;
      }
      if value < node.value {
        DeleteLeftOf(value, node);
      } else if value > node.value {
        DeleteRightOf(value, node);
      } else {
        if node.left == null {
          return node.right;
        } else if node.right == null {
          return node.left;
        }
        DeleteWithTwoChildren(node);
      }
      return node;
    }

    /** node.left = deleteItem(value, node.left) (binary-search-tree.js:46-49). */
    method DeleteLeftOf(value: int, node: Node)
      requires node.Valid()
      modifies node.Repr
      ensures node.Valid() && node.Repr <= old(node.Repr)
      ensures node.Model == Trees.Node(Trees.Delete(old(ModelOf(node.left)), value), old(node.value), old(ModelOf(node.right)))
      decreases node.Repr, 0
    {
      var l := DeleteItemAt(value, node.left);
      node.left := l;
      Relink(node);
    }

    /** node.right = deleteItem(value, node.right) (binary-search-tree.js:50-53 and 72). */
    method DeleteRightOf(value: int, node: Node)
      requires node.Valid()
      modifies node.Repr
      ensures node.Valid() && node.Repr <= old(node.Repr)
      ensures node.Model == Trees.Node(old(ModelOf(node.left)), old(node.value), Trees.Delete(old(ModelOf(node.right)), value))
      decreases node.Repr, 0
    {
      var rt := DeleteItemAt(value, node.right);
      node.right := rt;
      Relink(node);
    }

    /**
      The two-children case (binary-search-tree.js:64-72): node takes the
      value of the leftmost node of its right subtree, which is then deleted
      from that subtree; this is deleting node's own value.
     */
    method DeleteWithTwoChildren(node: Node)
      requires node.Valid() && node.left != null && node.right != null
      modifies node.Repr
      ensures node.Valid() && node.Repr <= old(node.Repr)
      ensures node.Model == Trees.Delete(old(node.Model), old(node.value))
      decreases node.Repr, 1
    {
      var successor := GetMinValueNode(node.right);
      node.value := successor.value;
      Relink(node);
      DeleteRightOf(successor.value, node);
    }

    /**
      insert(value) on the whole tree (binary-search-tree.js:19-37, node
      defaulting to root). On an empty tree the source reads a field of null
      and throws; that is reported as failed and nothing changes. Otherwise
      the tree stays a search tree and gains exactly value; a value already
      present leaves every object as it was, so find returns the same node.
     */
    method Insert(value: int) returns (failed: bool)
      requires Valid()
      modifies Repr
      ensures Valid() && fresh(Repr - old(Repr))
      ensures root == old(root)
      ensures failed <==> old(root) == null
      ensures !failed ==> Model() == Trees.Insert(old(Model()), value)
      ensures !failed ==> Trees.Elements(Model()) == Trees.Elements(old(Model())) + {value}
      ensures failed || value in Trees.Elements(old(Model())) ==> unchanged(old(Repr)) && Repr == old(Repr)
      ensures failed || value in Trees.Elements(old(Model())) ==> Find(value) == old(Find(value))
    {
      if root == null {
        return true;
      }
      SearchLemmas.FindCorrect(root.Model, value);
      SearchLemmas.InsertPreservesBST(root.Model, value);
      ghost var present := value in Trees.Elements(root.Model);
      InsertAt(value, root);
      if !present {
        Repr := {this} + root.Repr;
      }
      return false;
    }

    /**
      deleteItem(value) as the public call makes it (binary-search-tree.js:
      39-75 with node defaulting to root): the returned subtree is thrown
      away and root is never reassigned. The tree stays a search tree; what
      it then holds is Trees.DeleteKeepingRoot, which misses the deletion
      exactly when value sits at a root with fewer than two children.
     */
    method DeleteItem(value: int)
      requires Valid()
      modifies Repr
      ensures Valid() && root == old(root)
      ensures Model() == Trees.DeleteKeepingRoot(old(Model()), value)
    {
      SearchLemmas.DeleteKeepingRootEffect(Model(), value);
      if root != null {
        ModelOfPresent(root.left);
        ModelOfPresent(root.right);
      }
      var discarded := DeleteItemAt(value, root);
      Repr := {this} + ReprOf(root);
    }

    /**
      deleteItem(value) with the returned subtree stored back into root:
      the tree stays a search tree and loses exactly value, at the root as
      anywhere else.
     */
    method DeleteItemAndUpdateRoot(value: int)
      requires Valid()
      modifies Repr
      ensures Valid()
      ensures Model() == Trees.Delete(old(Model()), value)
      ensures Trees.Elements(Model()) == Trees.Elements(old(Model())) - {value}
    {
      SearchLemmas.DeleteCorrect(Model(), value);
      root := DeleteItemAt(value, root);
      Repr := {this} + ReprOf(root);
    }

    /**
      find(value) (binary-search-tree.js:87-96, node defaulting to root):
      null exactly when value is not stored; otherwise a node of the tree
      holding value.
     */
    function Find(value: int): (r: Node?)
      reads this, Repr
      requires Valid()
      ensures r == null <==> value !in Trees.Elements(Model())
      ensures r != null ==> r in Repr && r.Valid() && r.value == value
    {
      SearchLemmas.FindCorrect(ModelOf(root), value);
      FindAt(value, root)
    }

    /**
      depth(node) (binary-search-tree.js:180-192, from the root at level 0):
      the depth of a node of the tree, which is where the descent by its
      value reaches it; -1 for a node that is not part of the tree. The
      source dereferences node, so it must be present unless the tree is empty.
     */
    function Depth(node: Node?): (d: int)
      reads this, Repr, node
      requires Valid() && (root != null ==> node != null)
      ensures node != null && node in ReprOf(root) ==>
        d == Trees.Depth(Model(), node.value) && 0 <= d <= Trees.Height(Model())
      ensures node == null || node !in ReprOf(root) ==> d == -1
    {
      DepthAt(node, root, 0)
    }

    /** isBalanced() (binary-search-tree.js:195-207 at the root). */
    function IsBalanced(): (b: bool)
      reads this, Repr
      requires Valid()
      ensures b == Trees.IsBalanced(Model())
    {
      IsBalancedAt(root)
    }

    /**
      inOrder(callback) (binary-search-tree.js:134-143): without a callback
      the source throws; with one, it receives the stored values in
      ascending order, each exactly once.
     */
    function InOrder(callbackGiven: bool): (o: Outcome)
      reads this, Repr
      requires Valid()
      ensures o.Visits? <==> callbackGiven
      ensures o.Visits? ==> o.values == Trees.InOrder(Model())
      ensures o.Visits? ==> StrictlyAscending(o.values)
      ensures o.Visits? ==> forall x :: x in o.values <==> x in Trees.Elements(Model())
    {
      if !callbackGiven then CallbackRequired
      else
        TraversalLemmas.VisitsOnceOnBST(Model());
        SearchLemmas.InOrderElements(Model());
        Visits(InOrderAt(root))
    }

    /**
      preOrder(callback) (binary-search-tree.js:146-155): each stored value
      exactly once, the root's first.
     */
    function PreOrder(callbackGiven: bool): (o: Outcome)
      reads this, Repr
      requires Valid()
      ensures o.Visits? <==> callbackGiven
      ensures o.Visits? ==> o.values == Trees.PreOrder(Model())
      ensures o.Visits? ==> forall x :: multiset(o.values)[x] == if x in Trees.Elements(Model()) then 1 else 0
      ensures o.Visits? && root != null ==> o.values != [] && o.values[0] == root.value
    {
      if !callbackGiven then CallbackRequired
      else
        SearchLemmas.ValuesOnce(Model());
        TraversalLemmas.PreOrderVisits(Model());
        Visits(PreOrderAt(root))
    }

    /**
      postOrder(callback) (binary-search-tree.js:158-167): each stored
      value exactly once, the root's last.
     */
    function PostOrder(callbackGiven: bool): (o: Outcome)
      reads this, Repr
      requires Valid()
      ensures o.Visits? <==> callbackGiven
      ensures o.Visits? ==> o.values == Trees.PostOrder(Model())
      ensures o.Visits? ==> forall x :: multiset(o.values)[x] == if x in Trees.Elements(Model()) then 1 else 0
      ensures o.Visits? && root != null ==> o.values != [] && o.values[|o.values| - 1] == root.value
    {
      if !callbackGiven then CallbackRequired
      else
        SearchLemmas.ValuesOnce(Model());
        TraversalLemmas.PostOrderVisits(Model());
        Visits(PostOrderAt(root))
    }

    /**
      levelOrder(callback) (binary-search-tree.js:99-113): the FIFO loop
      over a queue that starts with the root. It visits what
      Trees.LevelOrder lists: each stored value once, level by level.
     */
    method LevelOrder(callbackGiven: bool) returns (o: Outcome)
      requires Valid()
      ensures o.Visits? <==> callbackGiven
      ensures o.Visits? ==> o.values == Trees.LevelOrder(Model())
      ensures o.Visits? ==> forall x :: multiset(o.values)[x] == if x in Trees.Elements(Model()) then 1 else 0
    {
      if !callbackGiven {
        return CallbackRequired;
      }
      var queue: seq<Node?> := [root];
      var visited: seq<int> := [];
      ghost var all := Trees.LevelOrder(Model());
      assert Models(queue) == [Model()] by {
        assert queue[1..] == [];
      }
      while |queue| > 0
        invariant forall k :: 0 <= k < |queue| ==> ValidOf(queue[k])
        invariant visited + Trees.LevelOrderQueue(Models(queue)) == all
        decreases QueueMeasure(queue)
      {
        var node, next := Shift(queue);
        QueueStep(queue, next);
        if node != null {
          VisitFront(visited, node.value, Trees.LevelOrderQueue(Models(next)), all);
          visited := visited + [node.value];
        }
        queue := next;
      }
      assert forall x :: multiset(visited)[x] == if x in Trees.Elements(Model()) then 1 else 0 by {
        SearchLemmas.ValuesOnce(Model());
        TraversalLemmas.LevelOrderVisits(Model());
      }
      return Visits(visited);
    }

    /**
      levelOrderRecursive(callback) (binary-search-tree.js:116-131): the
      same queue discipline, one step per call; it visits the same values
      in the same order as levelOrder.
     */
    method LevelOrderRecursive(callbackGiven: bool) returns (o: Outcome)
      requires Valid()
      ensures o.Visits? <==> callbackGiven
      ensures o.Visits? ==> o.values == Trees.LevelOrder(Model())
    {
      if !callbackGiven {
        return CallbackRequired;
      }
      var visited := LevelOrderFrom([root]);
      return Visits(visited);
    }

    /** One call of levelOrderRecursive on the queue it is given. */
    static method LevelOrderFrom(queue: seq<Node?>) returns (visited: seq<int>)
      requires forall k :: 0 <= k < |queue| ==> ValidOf(queue[k])
      ensures visited == Trees.LevelOrderQueue(Models(queue))
      decreases QueueMeasure(queue)
    {
      if |queue| == 0 {
        return [];
      }
      var node, next := Shift(queue);
      var seen: seq<int> := [];
      if node != null {
        seen := [node.value];
      }
      QueueStep(queue, next);
      var tail := LevelOrderFrom(next);
      visited := seen + tail;
    }

    /**
      The queue handling shared by levelOrder and levelOrderRecursive
      (binary-search-tree.js:106-110 and 123-127): shift the front off and,
      when it is present, push its present children, left first.
     */
    static method Shift(queue: seq<Node?>) returns (node: Node?, next: seq<Node?>)
      requires |queue| > 0
      ensures node == queue[0]
      ensures next == queue[1..] + Pushed(node)
    {
      node := queue[0];
      next := queue[1..];
      if node != null {
        if node.left != null {
          next := next + [node.left];
        }
        if node.right != null {
          next := next + [node.right];
        }
      }
    }

    /**
      rebalance() (binary-search-tree.js:210-217): collect the values in
      order and rebuild the tree over them. The result is balanced and holds
      the same values in the same in-order sequence.
     */
    method Rebalance()
      requires Valid()
      modifies this
      ensures Valid() && fresh(Repr - {this})
      ensures Model() == Trees.Rebalance(old(Model()))
      ensures Trees.IsBalanced(Model())
      ensures Trees.InOrder(Model()) == Trees.InOrder(old(Model()))
      ensures Trees.Elements(Model()) == Trees.Elements(old(Model()))
    {
      BuildLemmas.RebalanceCorrect(Model());
      root := Rebuild(root);
      Repr := {this} + ReprOf(root);
      RootedValid(this);
    }

    /**
      The two steps of rebalance (binary-search-tree.js:211-216): the values
      of the subtree at node in order, then a fresh tree built over them.
     */
    static method Rebuild(node: Node?) returns (r: Node?)
      requires ValidOf(node)
      ensures ValidOf(r) && fresh(ReprOf(r))
      ensures ModelOf(r) == Trees.Rebalance(ModelOf(node))
    {
      var values := InOrderAt(node);
      r := BuildTree(values, 0, |values| - 1);
      BuildLemmas.RebuiltFrom(ModelOf(node), values, ModelOf(r));
    }
  }

  /** The node reached from n by following left links to the end. */
  ghost function Leftmost(n: Node): Node
    requires n.Valid()
    reads n.Repr
    decreases n.Repr
  {
    if n.left == null then n else Leftmost(n.left)
  }

  /** Two valid subtrees that share no node with each other or with r. */
  ghost predicate Separate(r: Node, l: Node?, rt: Node?)
    reads l, rt, ReprOf(l), ReprOf(rt)
  {
    && ValidOf(l) && ValidOf(rt)
    && r !in ReprOf(l) && r !in ReprOf(rt) && ReprOf(l) !! ReprOf(rt)
  }

  /** A tree owning exactly itself and a valid search-tree root is valid. */
  lemma RootedValid(t: Tree)
    requires t.Repr == {t} + ReprOf(t.root) && t !in ReprOf(t.root)
    requires ValidOf(t.root) && Trees.IsBST(ModelOf(t.root))
    ensures t.Valid()
  {
  }

  /**
    The step of depth that leaves current: a node other than current that
    belongs to current's subtree lies on the side its value points to.
   */
  lemma DepthStep(node: Node, current: Node)
    requires current.Valid() && Trees.IsBST(current.Model) && current != node
    ensures node in current.Repr && node.value < current.value ==>
      current.left != null && node in current.left.Repr
    ensures node in current.Repr && !(node.value < current.value) ==>
      current.right != null && node in current.right.Repr
    ensures node in current.Repr && node.value < current.value ==>
      Trees.Depth(current.Model, node.value) == 1 + Trees.Depth(current.left.Model, node.value) &&
      Trees.Depth(current.left.Model, node.value) >= 0
    ensures node in current.Repr && !(node.value < current.value) ==>
      Trees.Depth(current.Model, node.value) == 1 + Trees.Depth(current.right.Model, node.value) &&
      Trees.Depth(current.right.Model, node.value) >= 0
  {
    if node in current.Repr {
      if current.left != null && node in current.left.Repr {
        InRepr(current.left, node);
        SearchLemmas.DepthCorrect(current.left.Model, node.value);
      } else {
        assert current.right != null && node in current.right.Repr;
        InRepr(current.right, node);
        SearchLemmas.DepthCorrect(current.right.Model, node.value);
      }
    }
  }

  /** What each step of the level-order queue loop decreases (as in Trees.LevelOrderQueue). */
  ghost function QueueMeasure(q: seq<Node?>): nat
    reads q
  {
    2 * Trees.ForestSize(Models(q)) + |q|
  }

  /** The present children of n, left first: what the level-order loop pushes for it. */
  ghost function Pushed(n: Node?): seq<Node?>
    reads n
  {
    if n == null then []
    else (if n.left != null then [n.left] else []) + (if n.right != null then [n.right] else [])
  }

  /**
    One step of the level-order queue: taking the front and pushing its
    present children visits the front's value (if any) and leaves the rest
    of the visit to the new queue, whose measure is smaller.
   */
  lemma QueueStep(queue: seq<Node?>, next: seq<Node?>)
    requires |queue| > 0 && forall k :: 0 <= k < |queue| ==> ValidOf(queue[k])
    requires next == queue[1..] + Pushed(queue[0])
    ensures forall k :: 0 <= k < |next| ==> ValidOf(next[k])
    ensures queue[0] == null ==> Trees.LevelOrderQueue(Models(queue)) == Trees.LevelOrderQueue(Models(next))
    ensures queue[0] != null ==> Trees.LevelOrderQueue(Models(queue)) == [queue[0].value] + Trees.LevelOrderQueue(Models(next))
    ensures QueueMeasure(next) < QueueMeasure(queue)
  {
    var n, rest := queue[0], queue[1..];
    assert forall k :: 0 <= k < |rest| ==> ValidOf(rest[k]) by {
      assert forall k :: 0 <= k < |rest| ==> rest[k] == queue[k + 1];
    }
    var ms := Models(queue);
    assert ms == [ModelOf(n)] + Models(rest);
    assert ms[1..] == Models(rest);
    if n == null {
      assert next == rest;
    } else {
      PushChildren(n, rest, next);
      Trees.ForestSizeAppend(Models(rest), Trees.Children(n.Model.left, n.Model.right));
    }
  }

  /** Moving the visited front value from the rest of a visit to what has been visited. */
  lemma VisitFront(visited: seq<int>, x: int, rest: seq<int>, all: seq<int>)
    requires visited + ([x] + rest) == all
    ensures (visited + [x]) + rest == all
  {
  }

  /**
    Pushing the present children of node, left then right, appends to the
    queue's models exactly the children Trees.LevelOrderQueue pushes.
   */
  lemma PushChildren(node: Node, rest: seq<Node?>, queue: seq<Node?>)
    requires node.Valid()
    requires forall k :: 0 <= k < |rest| ==> ValidOf(rest[k])
    requires queue == rest + Pushed(node)
    ensures forall k :: 0 <= k < |queue| ==> ValidOf(queue[k])
    ensures Models(queue) == Models(rest) + Trees.Children(node.Model.left, node.Model.right)
  {
    var p := Pushed(node);
    PushedModels(node);
    ModelsConcat(rest, p);
    forall k | 0 <= k < |queue|
      ensures ValidOf(queue[k])
    {
      if k < |rest| {
        assert queue[k] == rest[k];
      } else {
        assert queue[k] == p[k - |rest|];
      }
    }
  }

  /** The children pushed for a valid node are valid, and their models are Trees.Children. */
  lemma PushedModels(node: Node)
    requires node.Valid()
    ensures forall k :: 0 <= k < |Pushed(node)| ==> ValidOf(Pushed(node)[k])
    ensures Models(Pushed(node)) == Trees.Children(node.Model.left, node.Model.right)
  {
    var l, r := node.left, node.right;
    ModelOfPresent(l);
    ModelOfPresent(r);
    if l != null && r != null {
      assert Pushed(node) == [l, r] && [l, r][1..] == [r] && [r][1..] == [];
      assert Models([r]) == [ModelOf(r)];
    } else if l != null {
      assert Pushed(node) == [l];
    } else if r != null {
      assert Pushed(node) == [r];
    }
  }

  /** The models of two queues one after the other. */
  lemma {:induction false} ModelsConcat(p: seq<Node?>, q: seq<Node?>)
    ensures Models(p + q) == Models(p) + Models(q)
  {
    if p != [] {
      assert (p + q)[1..] == p[1..] + q;
      ModelsConcat(p[1..], q);
    } else {
      assert p + q == q;
    }
  }

}
