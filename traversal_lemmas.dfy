/**
  The four traversals: each visits every node exactly once; pre-order
  starts and post-order ends at the root; level order starts at the root
  and visits the tree level by level, left to right.
 */
module TraversalLemmas {
  import opened Sequences
  import opened Trees
  import SearchLemmas

  /** preOrder (binary-search-tree.js:146-155) visits every node once, the root first. */
  lemma {:induction false} PreOrderVisits(t: Tree)
    ensures multiset(PreOrder(t)) == Values(t)
    ensures t == Nil <==> PreOrder(t) == []
    ensures t != Nil ==> PreOrder(t)[0] == t.value
  {
    match t
    case Nil =>
    case Node(l, x, r) =>
      PreOrderVisits(l);
      PreOrderVisits(r);
      var s := [x] + PreOrder(l);
      assert PreOrder(t) == s + PreOrder(r) && s[0] == x;
  }

  /** postOrder (binary-search-tree.js:158-167) visits every node once, the root last. */
  lemma {:induction false} PostOrderVisits(t: Tree)
    ensures multiset(PostOrder(t)) == Values(t)
    ensures t == Nil <==> PostOrder(t) == []
    ensures t != Nil ==> PostOrder(t)[|PostOrder(t)| - 1] == t.value
  {
    match t
    case Nil =>
    case Node(l, x, r) =>
      PostOrderVisits(l);
      PostOrderVisits(r);
      var s := PostOrder(l) + PostOrder(r);
      assert PostOrder(t) == s + [x];
  }

  /** The values of all subtrees in a queue, one occurrence per node. */
  function ForestValues(q: seq<Tree>): multiset<int> {
    if q == [] then multiset{} else Values(q[0]) + ForestValues(q[1..])
  }

  lemma {:induction false} ForestValuesAppend(p: seq<Tree>, q: seq<Tree>)
    ensures ForestValues(p + q) == ForestValues(p) + ForestValues(q)
  {
    if p != [] {
      assert (p + q)[1..] == p[1..] + q;
      ForestValuesAppend(p[1..], q);
    } else {
      assert p + q == q;
    }
  }

  /** The pushed children hold exactly the values of both subtrees. */
  lemma ChildrenValues(l: Tree, r: Tree)
    ensures ForestValues(Children(l, r)) == Values(l) + Values(r)
  {
    if l != Nil && r != Nil {
      assert [l, r][1..] == [r] && [r][1..] == [];
      assert ForestValues([r]) == Values(r);
    } else if l != Nil {
      assert [l][1..] == [];
    } else if r != Nil {
      assert [r][1..] == [];
    }
  }

  /** Draining a queue visits every node of every subtree in it, once. */
  lemma {:induction false} LevelOrderQueueValues(q: seq<Tree>)
    ensures multiset(LevelOrderQueue(q)) == ForestValues(q)
    decreases 2 * ForestSize(q) + |q|
  {
    if q != [] {
      match q[0]
      case Nil =>
        LevelOrderQueueValues(q[1..]);
      case Node(l, x, r) =>
        ForestSizeAppend(q[1..], Children(l, r));
        LevelOrderQueueValues(q[1..] + Children(l, r));
        ForestValuesAppend(q[1..], Children(l, r));
        ChildrenValues(l, r);
    }
  }

  /**
    levelOrder (binary-search-tree.js:99-113) visits every node once, the
    root first; an empty tree yields no visits.
   */
  lemma LevelOrderVisits(t: Tree)
    ensures multiset(LevelOrder(t)) == Values(t)
    ensures t == Nil <==> LevelOrder(t) == []
    ensures t != Nil ==> LevelOrder(t)[0] == t.value
  {
    LevelOrderQueueValues([t]);
    assert [t][1..] == [];
  }

  /**
    On a search tree every traversal lists each stored value exactly once,
    and nothing else; in-order also lists them in ascending order.
   */
  lemma VisitsOnceOnBST(t: Tree)
    requires IsBST(t)
    ensures forall x :: multiset(InOrder(t))[x] == if x in Elements(t) then 1 else 0
    ensures forall x :: multiset(PreOrder(t))[x] == if x in Elements(t) then 1 else 0
    ensures forall x :: multiset(PostOrder(t))[x] == if x in Elements(t) then 1 else 0
    ensures forall x :: multiset(LevelOrder(t))[x] == if x in Elements(t) then 1 else 0
    ensures StrictlyAscending(InOrder(t))
  {
    SearchLemmas.ValuesOnce(t);
    SearchLemmas.InOrderValues(t);
    PreOrderVisits(t);
    PostOrderVisits(t);
    LevelOrderVisits(t);
    SearchLemmas.InOrderAscendingIff(t);
  }

  // Level order as a level-by-level listing.

  /** The values at depth k of t, left to right. */
  function Level(t: Tree, k: nat): seq<int> {
    match t
    case Nil => []
    case Node(l, x, r) => if k == 0 then [x] else Level(l, k - 1) + Level(r, k - 1)
  }

  /** The values at depth k, left to right, of all subtrees of a queue, front first. */
  function LevelF(q: seq<Tree>, k: nat): seq<int> {
    if q == [] then [] else Level(q[0], k) + LevelF(q[1..], k)
  }

  /** Levels k, k + 1, ..., k + n - 1 of t, one after another. */
  function Levels(t: Tree, k: nat, n: nat): seq<int>
    decreases n
  {
    if n == 0 then [] else Level(t, k) + Levels(t, k + 1, n - 1)
  }

  /** Levels k, ..., k + n - 1 of a queue of subtrees, one level after another. */
  function LevelsF(q: seq<Tree>, k: nat, n: nat): seq<int>
    decreases n
  {
    if n == 0 then [] else LevelF(q, k) + LevelsF(q, k + 1, n - 1)
  }

  /** The present children of all present subtrees of a queue, in queue order. */
  function ChildrenF(q: seq<Tree>): seq<Tree> {
    if q == [] then []
    else
      match q[0]
      case Nil => ChildrenF(q[1..])
      case Node(l, _, r) => Children(l, r) + ChildrenF(q[1..])
  }

  /** Every subtree of the queue has height below n. */
  ghost predicate LowerThan(q: seq<Tree>, n: int) {
    forall i :: 0 <= i < |q| ==> Height(q[i]) < n
  }

  lemma {:induction false} LevelFAppend(p: seq<Tree>, q: seq<Tree>, k: nat)
    ensures LevelF(p + q, k) == LevelF(p, k) + LevelF(q, k)
  {
    if p != [] {
      assert (p + q)[1..] == p[1..] + q;
      LevelFAppend(p[1..], q, k);
    } else {
      assert p + q == q;
    }
  }

  /**
    Draining the subtrees at the front of a queue visits their roots, in
    order, and leaves their children behind everything that was already
    queued.
   */
  lemma {:induction false} DrainFront(q: seq<Tree>, p: seq<Tree>)
    ensures LevelOrderQueue(q + p) == LevelF(q, 0) + LevelOrderQueue(p + ChildrenF(q))
  {
    if q == [] {
      assert q + p == p && p + ChildrenF(q) == p;
    } else {
      var h, rest := q[0], q[1..];
      assert (q + p)[0] == h && (q + p)[1..] == rest + p;
      match h
      case Nil =>
        DrainFront(rest, p);
      case Node(l, x, r) =>
        var c := Children(l, r);
        assert (rest + p) + c == rest + (p + c);
        DrainFront(rest, p + c);
        assert (p + c) + ChildrenF(rest) == p + (c + ChildrenF(rest));
    }
  }

  /** The pushed children list, at depth k, what the node lists at depth k + 1. */
  lemma ChildrenLevel(l: Tree, x: int, r: Tree, k: nat)
    ensures LevelF(Children(l, r), k) == Level(Node(l, x, r), k + 1)
  {
    if l != Nil && r != Nil {
      assert [l, r][1..] == [r] && [r][1..] == [];
      assert LevelF([r], k) == Level(r, k);
    } else if l != Nil {
      assert [l][1..] == [];
      assert LevelF([l], k) == Level(l, k);
    } else if r != Nil {
      assert [r][1..] == [];
      assert LevelF([r], k) == Level(r, k);
    }
  }

  /** One generation down: level k of the children is level k + 1 of the queue. */
  lemma {:induction false} ChildrenFLevel(q: seq<Tree>, k: nat)
    ensures LevelF(ChildrenF(q), k) == LevelF(q, k + 1)
  {
    if q != [] {
      ChildrenFLevel(q[1..], k);
      match q[0]
      case Nil =>
      case Node(l, x, r) =>
        LevelFAppend(Children(l, r), ChildrenF(q[1..]), k);
        ChildrenLevel(l, x, r, k);
    }
  }

  lemma {:induction false} ChildrenFLevels(q: seq<Tree>, k: nat, n: nat)
    ensures LevelsF(ChildrenF(q), k, n) == LevelsF(q, k + 1, n)
    decreases n
  {
    if n > 0 {
      ChildrenFLevel(q, k);
      ChildrenFLevels(q, k + 1, n - 1);
    }
  }

  /** Children are one level lower than their parents. */
  lemma {:induction false} ChildrenFLower(q: seq<Tree>, n: int)
    requires LowerThan(q, n + 1)
    ensures LowerThan(ChildrenF(q), n)
  {
    if q != [] {
      assert LowerThan(q[1..], n + 1) by {
        forall i | 0 <= i < |q[1..]| ensures Height(q[1..][i]) < n + 1 {
          assert q[1..][i] == q[i + 1];
        }
      }
      ChildrenFLower(q[1..], n);
      match q[0]
      case Nil =>
      case Node(l, _, r) =>
        assert Height(q[0]) < n + 1;
        var c, d := Children(l, r), ChildrenF(q[1..]);
        forall i | 0 <= i < |c + d| ensures Height((c + d)[i]) < n {
          if i < |c| {
            assert c[i] == l || c[i] == r;
          } else {
            assert (c + d)[i] == d[i - |c|];
          }
        }
    }
  }

  /** A queue of absent subtrees visits nothing and pushes nothing. */
  lemma {:induction false} AbsentQueue(q: seq<Tree>, k: nat)
    requires LowerThan(q, 0)
    ensures LevelF(q, k) == [] && ChildrenF(q) == []
  {
    if q != [] {
      assert q[0] == Nil by {
        assert Height(q[0]) < 0;
      }
      assert LowerThan(q[1..], 0) by {
        forall i | 0 <= i < |q[1..]| ensures Height(q[1..][i]) < 0 {
          assert q[1..][i] == q[i + 1];
        }
      }
      AbsentQueue(q[1..], k);
    }
  }

  /**
    Draining a queue whose subtrees are all lower than n lists their
    levels 0 .. n - 1, one level after another.
   */
  lemma {:induction false} DrainByLevels(q: seq<Tree>, n: nat)
    requires LowerThan(q, n)
    ensures LevelOrderQueue(q) == LevelsF(q, 0, n)
    decreases n
  {
    DrainFront(q, []);
    assert q + [] == q && [] + ChildrenF(q) == ChildrenF(q);
    if n == 0 {
      AbsentQueue(q, 0);
    } else {
      ChildrenFLower(q, n - 1);
      DrainByLevels(ChildrenF(q), n - 1);
      ChildrenFLevels(q, 0, n - 1);
    }
  }

  lemma {:induction false} SingletonLevels(t: Tree, k: nat, n: nat)
    ensures LevelsF([t], k, n) == Levels(t, k, n)
    decreases n
  {
    if n > 0 {
      assert [t][1..] == [];
      assert LevelF([t], k) == Level(t, k) + [];
      SingletonLevels(t, k + 1, n - 1);
    }
  }

  /**
    levelOrder (binary-search-tree.js:99-113) lists the tree level by level,
    top down, each level left to right: depth 0, then depth 1, and so on
    down to the height.
   */
  lemma LevelOrderByLevels(t: Tree)
    ensures LevelOrder(t) == Levels(t, 0, Height(t) + 1)
  {
    assert LowerThan([t], Height(t) + 1);
    DrainByLevels([t], Height(t) + 1);
    SingletonLevels(t, 0, Height(t) + 1);
  }
}
