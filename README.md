# Binary search tree, verified model

This project models the binary search tree of `src/modules/binary-search-tree.js`.

- `Node` objects hold an integer value and links to a left and a right child, `null` when absent.
- The `Tree` class holds a root node. It keeps the ordering invariant: left subtree < node < right subtree, so no value occurs twice.
- The constructor removes duplicates from an array, sorts it and builds a balanced tree by splitting at the midpoint (`buildTree`).
- `insert` links a new leaf in place and ignores a value that is already present.
- `deleteItem` rewires the child links and, for a node with two children, overwrites the node's value with its in-order successor.
- `find` descends by comparison. `height`, `depth` and `isBalanced` are structural queries.
- There are four traversals that report each node to a callback. `levelOrder` and `levelOrderRecursive` use a FIFO queue.
- `rebalance` collects the values in order and rebuilds the tree.

The model has two layers:

- **Values.** `Trees` describes a tree as a value, `Tree = Nil | Node(left, value, right)`. Each recursive operation of the class is a function over that value. `SearchLemmas`, `TraversalLemmas` and `BuildLemmas` prove what the operations promise: ordering, exact element sets, visiting each node once, balance.
- **Objects.** `BinarySearchTree` holds the classes `Node` and `Tree`. Their fields are updated in place as in the source. Each node carries a ghost footprint (`Repr`) and a ghost value tree (`Model`), and every method and function is proved to agree with the value-level definition.

`Preprocess` models the array preprocessing: `removeDuplicates` as a loop, and `sortArray`. `Scenarios` works through the example tree used by the repository's tests.

A traversal's callback is modelled by the sequence of values it receives. A call without a callback gives the outcome `CallbackRequired`; the source throws `Error("Callback function is required.")` there.

## Model

| member | source | states |
|---|---|---|
| BinarySearchTree.Node.constructor | src/modules/binary-search-tree.js:3-9 | a new node is a valid leaf holding the value, with both links null |
| BinarySearchTree.Tree.constructor | src/modules/binary-search-tree.js:12-17 | the new tree is a valid search tree, balanced, whose elements are exactly the distinct values of the array, shaped as buildTree over those values in ascending order |
| BinarySearchTree.Tree.BuildSorted | src/modules/binary-search-tree.js:16 | buildTree over sortArray(array) gives fresh, valid nodes forming a balanced search tree with exactly the array's values, shaped as buildTree over their ascending listing |
| BinarySearchTree.Tree.BuildTree | src/modules/binary-search-tree.js:219-231 | builds fresh, valid nodes whose tree is the midpoint construction Trees.BuildTree over a[start..end] |
| BinarySearchTree.Tree.Attach | src/modules/binary-search-tree.js:227-228 | after the two child assignments, the node is valid, owns itself and both subtrees, and spells the node over both subtrees |
| BinarySearchTree.Tree.FindAt | src/modules/binary-search-tree.js:87-96 | returns null or a valid node of the subtree holding value; its subtree is the one Trees.Find selects |
| BinarySearchTree.Tree.Find | src/modules/binary-search-tree.js:87-96 | null exactly when value is not stored (an empty tree included); otherwise a valid node of the tree holding value |
| BinarySearchTree.Tree.Height | src/modules/binary-search-tree.js:170-177 | the height of the linked subtree is Trees.Height of its model (-1 for null) |
| BinarySearchTree.Tree.IsBalancedAt | src/modules/binary-search-tree.js:195-207 | the recursive check holds exactly when Trees.IsBalanced holds of the subtree's model |
| BinarySearchTree.Tree.IsBalanced | src/modules/binary-search-tree.js:195-207 | the check at the root holds exactly when the whole tree is balanced |
| BinarySearchTree.Tree.InOrderAt | src/modules/binary-search-tree.js:134-143 | the values reported for the subtree, left-node-right, are Trees.InOrder of its model |
| BinarySearchTree.Tree.PreOrderAt | src/modules/binary-search-tree.js:146-155 | the values reported, node-left-right, are Trees.PreOrder of the model |
| BinarySearchTree.Tree.PostOrderAt | src/modules/binary-search-tree.js:158-167 | the values reported, left-right-node, are Trees.PostOrder of the model |
| BinarySearchTree.Tree.InOrder | src/modules/binary-search-tree.js:134-143 | refuses to run without a callback; otherwise reports the stored values in strictly ascending order, exactly the elements |
| BinarySearchTree.Tree.PreOrder | src/modules/binary-search-tree.js:146-155 | refuses to run without a callback; otherwise reports every stored value exactly once, the root's first |
| BinarySearchTree.Tree.PostOrder | src/modules/binary-search-tree.js:158-167 | refuses to run without a callback; otherwise reports every stored value exactly once, the root's last |
| BinarySearchTree.Tree.LevelOrder | src/modules/binary-search-tree.js:99-113 | the queue loop refuses to run without a callback; otherwise reports Trees.LevelOrder of the tree, every stored value exactly once |
| BinarySearchTree.Tree.LevelOrderRecursive | src/modules/binary-search-tree.js:116-131 | refuses to run without a callback; otherwise reports the same sequence as levelOrder |
| BinarySearchTree.Tree.LevelOrderFrom | src/modules/binary-search-tree.js:121-130 | one recursive call on a queue reports Trees.LevelOrderQueue of the queue's subtrees |
| BinarySearchTree.Tree.Shift | src/modules/binary-search-tree.js:106-110 | takes the front of the queue and appends its present children behind the rest, left first |
| BinarySearchTree.Tree.DepthAt | src/modules/binary-search-tree.js:180-192 | on a search tree, finds a node of the subtree at level plus the depth of its value; a node outside the subtree gives -1 |
| BinarySearchTree.Tree.Depth | src/modules/binary-search-tree.js:180-192 | a node of the tree is at the depth of its value, between 0 and the height; any other node gives -1 |
| BinarySearchTree.Tree.GetMinValueNode | src/modules/binary-search-tree.js:78-84 | the loop reaches the leftmost node of the subtree (Leftmost, following left links); its value is an element and, on a search tree, no larger than any element |
| BinarySearchTree.Tree.InsertAt | src/modules/binary-search-tree.js:19-37 | the subtree becomes Trees.Insert of its old model, with only fresh nodes added; a value already on the path changes nothing |
| BinarySearchTree.Tree.InsertRightOf | src/modules/binary-search-tree.js:23-28 | a value above the node's goes into the right subtree, or becomes a new right leaf; the left subtree and the value stay |
| BinarySearchTree.Tree.InsertLeftOf | src/modules/binary-search-tree.js:29-34 | a value below the node's goes into the left subtree, or becomes a new left leaf; the right subtree and the value stay |
| BinarySearchTree.Tree.Insert | src/modules/binary-search-tree.js:19-37 | root is never reassigned; on a non-empty tree, the tree stays a search tree and its elements become the old ones plus value; a present value changes no object, so find returns the same node; on an empty tree it fails and changes nothing |
| BinarySearchTree.Tree.DeleteItemAt | src/modules/binary-search-tree.js:39-75 | returns a valid subtree within the old nodes whose tree is Trees.Delete of the old one; the same node comes back unless it held value with a missing child, in which case nothing is modified |
| BinarySearchTree.Tree.DeleteLeftOf | src/modules/binary-search-tree.js:46-49 | the left subtree becomes the deletion from it; the value and the right subtree stay |
| BinarySearchTree.Tree.DeleteRightOf | src/modules/binary-search-tree.js:50-53 | the right subtree becomes the deletion from it; the value and the left subtree stay |
| BinarySearchTree.Tree.DeleteWithTwoChildren | src/modules/binary-search-tree.js:64-72 | copying the in-order successor's value and deleting it from the right subtree is deleting the node's own value |
| BinarySearchTree.Tree.DeleteItem | src/modules/binary-search-tree.js:39-75 | the public call keeps root and the ordering invariant; the tree becomes Trees.DeleteKeepingRoot of the old tree |
| BinarySearchTree.Tree.DeleteItemAndUpdateRoot | src/modules/binary-search-tree.js:39-75 | with the result stored into root, the tree stays a search tree and its elements lose exactly value |
| BinarySearchTree.Tree.Rebalance | src/modules/binary-search-tree.js:210-217 | the tree becomes Trees.Rebalance of the old one, built from fresh nodes; it is balanced, with the same in-order sequence and the same elements |
| BinarySearchTree.Tree.Rebuild | src/modules/binary-search-tree.js:211-216 | collecting the values in order and building over them gives fresh, valid nodes spelling Trees.Rebalance of the subtree |
| BinarySearchTree.DepthStep | src/modules/binary-search-tree.js:187-191 | on a search tree, a node other than current lies on the side its value points to, one level deeper |
| BinarySearchTree.QueueStep | src/modules/binary-search-tree.js:106-110 | one shift-and-push step keeps every queued node valid, adds the front's value (if present) to the visit and decreases the measure |
| Trees.Find | src/modules/binary-search-tree.js:87-96 | the descent returns Nil or a subtree rooted at v, whose elements are among the tree's |
| Trees.Insert | src/modules/binary-search-tree.js:19-37 | the element set becomes the old one plus v, and the result is never empty |
| Trees.MinValue | src/modules/binary-search-tree.js:78-84 | the leftmost value is an element and, on a search tree, the least |
| Trees.Delete | src/modules/binary-search-tree.js:39-75 | deletion never adds an element |
| Trees.DeleteKeepingRoot | src/modules/binary-search-tree.js:39-75 | the public deleteItem, whose result is dropped, never adds an element |
| Trees.Height | src/modules/binary-search-tree.js:170-177 | the height is -1 exactly for an empty tree and below the number of nodes |
| Trees.Depth | src/modules/binary-search-tree.js:180-192 | the depth is -1 or between 0 and the height |
| Trees.Children | src/modules/binary-search-tree.js:109-110 | at most two children are pushed, only present ones, holding all the nodes below the front |
| SearchLemmas.InOrderAscendingIff | src/modules/binary-search-tree.js:134-143 | the ordering invariant holds exactly when the in-order sequence is strictly ascending |
| SearchLemmas.InOrderElements | src/modules/binary-search-tree.js:134-143 | the in-order sequence holds exactly the elements |
| SearchLemmas.ValuesOnce | src/modules/binary-search-tree.js:19-37 | on a search tree each element sits in exactly one node |
| SearchLemmas.FindCorrect | src/modules/binary-search-tree.js:87-96 | on a search tree, find reaches a node exactly when v is stored, and that node holds v |
| SearchLemmas.InsertPreservesBST | src/modules/binary-search-tree.js:19-37 | insert keeps the ordering invariant |
| SearchLemmas.InsertFoundUnchanged | src/modules/binary-search-tree.js:20-22 | when the descent finds v, insert returns the tree unchanged |
| SearchLemmas.InsertThenFind | src/modules/binary-search-tree.js:19-37 | after insert(v), find(v) reaches a node holding v; inserting a stored value changes nothing |
| SearchLemmas.DeleteMissingUnchanged | src/modules/binary-search-tree.js:39-75 | deleting a value the descent misses returns the tree unchanged |
| SearchLemmas.DeleteCorrect | src/modules/binary-search-tree.js:39-75 | deletion keeps the ordering invariant and removes exactly v, the siblings surviving in the zero-, one- and two-child cases |
| SearchLemmas.DeleteThenFind | src/modules/binary-search-tree.js:39-75 | after deleteItem(v), find(v) misses; deleting an absent value changes nothing |
| SearchLemmas.DeleteKeepingRootEffect | src/modules/binary-search-tree.js:39-75 | the public deleteItem keeps the ordering invariant and removes v, except at a root with fewer than two children, where it removes nothing |
| SearchLemmas.DeleteItemLeavesLoneRoot | src/modules/binary-search-tree.js:39-75 | on the one-node tree holding 5, the public deleteItem(5) leaves 5 findable, while the corrected deletion empties the tree |
| SearchLemmas.DepthCorrect | src/modules/binary-search-tree.js:180-192 | on a search tree the descent reaches depth >= 0 exactly for stored values; the root is at depth 0 |
| TraversalLemmas.PreOrderVisits | src/modules/binary-search-tree.js:146-155 | pre-order visits every node once, the root first; an empty tree yields no visits |
| TraversalLemmas.PostOrderVisits | src/modules/binary-search-tree.js:158-167 | post-order visits every node once, the root last; an empty tree yields no visits |
| TraversalLemmas.LevelOrderQueueValues | src/modules/binary-search-tree.js:104-112 | draining a queue visits every node of its subtrees exactly once |
| TraversalLemmas.LevelOrderVisits | src/modules/binary-search-tree.js:99-113 | level order visits every node once, the root first; an empty tree yields no visits |
| TraversalLemmas.VisitsOnceOnBST | src/modules/binary-search-tree.js:99-167 | on a search tree all four traversals list each element exactly once, in-order ascending |
| TraversalLemmas.DrainFront | src/modules/binary-search-tree.js:104-112 | draining the front of a queue visits the front roots in order and queues their children behind the rest |
| TraversalLemmas.LevelOrderByLevels | src/modules/binary-search-tree.js:99-113 | level order lists depth 0, then depth 1, and so on to the height, each level left to right |
| BuildLemmas.BuildTreeInOrder | src/modules/binary-search-tree.js:219-231 | the tree built over a slice lists exactly that slice in order |
| BuildLemmas.BuildTreeBalanced | src/modules/binary-search-tree.js:219-231 | the tree built over any slice is balanced, with the height fixed by the slice's length |
| BuildLemmas.SplitHeightsClose | src/modules/binary-search-tree.js:224-228 | the two halves of a midpoint split differ in built height by at most one |
| BuildLemmas.BuildFromSameValues | src/modules/binary-search-tree.js:16 | every strictly ascending listing of an array's values builds the same tree |
| BuildLemmas.BuildFromSorted | src/modules/binary-search-tree.js:219-231 | from a strictly ascending array, buildTree makes a balanced search tree whose in-order sequence is the array and whose elements are its values |
| BuildLemmas.RebalanceCorrect | src/modules/binary-search-tree.js:210-217 | whatever the prior skew, the rebuilt tree is balanced, with the same in-order sequence and elements, and a search tree when the original was |
| BuildLemmas.RebalanceIdempotent | src/modules/binary-search-tree.js:210-217 | rebalancing twice gives the same tree as rebalancing once |
| Preprocess.RemoveDuplicates | src/modules/binary-search-tree.js:251-259 | the loop returns each value of the input once, in the order of first occurrence, and nothing else |
| Preprocess.Sort | src/modules/binary-search-tree.js:262 | a substitute sort whose result is ascending and a permutation of its input |
| Preprocess.InsertSorted | src/modules/binary-search-tree.js:262 | inserting into an ascending sequence keeps it ascending and adds exactly that value |
| Preprocess.SortArray | src/modules/binary-search-tree.js:261-263 | the result is strictly ascending and holds exactly the input's values |
| Sequences.StrictlyAscendingUnique | src/modules/binary-search-tree.js:261-263 | two strictly ascending sequences with the same values are equal, so sortArray's contract fixes its result |
| Sequences.StrictlyAscendingAround | src/modules/binary-search-tree.js:134-143 | a node's in-order listing is strictly ascending exactly when both sides are and the value separates them |
| Scenarios.Example | tests/binary-search-tree.test.js:6-9 | the test values in ascending order build the tree rooted at 10 with 5 and 20 as children and 3, 7, 15, 25 as leaves |
| Scenarios.ExampleFromTestArray | tests/binary-search-tree.test.js:6-9 | a tree built over every strictly ascending listing of the test array's values is Example() |
| Scenarios.NewTestTree | tests/binary-search-tree.test.js:6-9 | `new Tree([10, 5, 20, 3, 7, 15, 25])` is a valid object tree spelling Example() |
| Scenarios.DepthScenario | tests/binary-search-tree.test.js:84-88 | on the object tree, depth(find(25)) is 2 |
| Scenarios.RebalanceScenario | tests/binary-search-tree.test.js:90-103 | on the object tree: balanced as built, unbalanced after insert(100) and insert(110), balanced after rebalance() |
| Scenarios.ExampleInserted | tests/binary-search-tree.test.js:90-95 | inserting 100 and 110 hangs them as a chain below 25 |
| Scenarios.ExampleBalanced | tests/binary-search-tree.test.js:11-13 | the example tree is balanced, with height 2 |
| Scenarios.ExampleInOrder | tests/binary-search-tree.test.js:55-58 | in-order lists 3, 5, 7, 10, 15, 20, 25 |
| Scenarios.ExampleDepth | tests/binary-search-tree.test.js:84-88 | the node holding 25 is at depth 2 |
| Scenarios.ExampleSkewed | tests/binary-search-tree.test.js:97-103 | after inserting 100 and 110 the tree is unbalanced, and after rebalance it is balanced |

## Left out

- prettyPrint (src/modules/binary-search-tree.js:233-248) only writes to the console.
- mergeSort: `src/modules/merge-sort.js` is not part of this model. `Preprocess.Sort` is a stand-in insertion sort, specified only by its result: ascending, and a permutation of the input. `Sequences.StrictlyAscendingUnique` shows that, on the duplicate-free input sortArray passes it, any sort meeting that contract gives the same result.
- The constructor's non-array path (lines 13-15) is left out. It leaves `root` undefined, which has no meaning outside JavaScript. Values are modelled as mathematical integers, so JavaScript's mixed-type and NaN comparisons are out too.
- Callbacks are not modelled as closures. Each traversal returns the sequence of values its callback would receive. The missing-callback throw becomes the outcome `CallbackRequired`.
- BinarySearchTree.Tree.Insert: on an empty tree the source reads `node.value` of `null` and throws a TypeError. The model reports `failed` and changes nothing instead of raising an exception.
- BinarySearchTree.Tree.Depth requires a non-null node when the tree is non-empty. The source reads `node.value` (line 187) and throws otherwise; on an empty tree it returns -1 first, as the model does.
- Trees.Depth reads the source's identity test `current === node` as a value test. For a node of the tree the two agree (BinarySearchTree.Tree.DepthAt). A node outside the tree, whether fresh or detached by deleteItem, gets -1 from the source, while Trees.Depth of its value may be a depth of 0 or more. The linked model keeps the identity test.
- The queues of levelOrder and levelOrderRecursive (BinarySearchTree.Tree.LevelOrder, BinarySearchTree.Tree.LevelOrderFrom) are modelled as sequence values, not as a shared array mutated by `shift` and `push`. A queue array that a caller passes to levelOrderRecursive is emptied in place by the source; the model does not capture that effect on the caller's array.
- Fresh nodes are stated to be fresh, but the model says nothing about the order in which they are allocated.

## Findings

| source | as written | input that shows it | evidently intended | confidence | as-written member | corrected member |
|---|---|---|---|---|---|---|
| src/modules/binary-search-tree.js:39-75 | the public `deleteItem(value)` drops the subtree the recursion returns, so `root` is never reassigned | a tree holding only 5, then `deleteItem(5)`: `find(5)` still returns the node | store the returned subtree back into `root`, so a root with fewer than two children is removed too | not executed | BinarySearchTree.Tree.DeleteItem, Trees.DeleteKeepingRoot, SearchLemmas.DeleteItemLeavesLoneRoot | BinarySearchTree.Tree.DeleteItemAndUpdateRoot, SearchLemmas.DeleteCorrect |
