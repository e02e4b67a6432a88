# Binary tree nodes (pydsa `BTNode`), modelled and verified in Dafny

This project models `BTNode`, the binary tree class of pydsa
(`build/lib/pydsa/binary_tree.py`). A node holds a key and two optional child
links. The class offers these operations:

- `insert`: links a new leaf on the "left" or "right" side, overwriting that side.
- `delete`/`deleteUtil`: removes a node by identity. Both subtrees are rebuilt
  first. A node with at most one child is replaced by that child. A node with
  two children takes its inorder successor's key, and the successor is then
  deleted.
- `getLeftmost`.
- inorder, preorder and postorder traversals.
- the boundary traversal: the root, the top-down left boundary, the leaves of
  both subtrees, then the bottom-up right boundary.

The files:

- `trees.dfy` (module `Trees`) holds the abstract value of a tree. A node is
  `Node(id, key, left, right)`, where `id` stands for the node object. The file
  also defines, as pure functions, what each operation computes:
  - `Attach` for insert;
  - `Leftmost`, `RemoveLeftmost`, `Deleted` and `DeleteFrom` for deletion;
  - one function per traversal, each returning a sequence of `Visit(id, key)`.
- `traversal_facts.dfy` (module `TraversalFacts`) proves:
  - each of the three classic traversals lists every node exactly once;
  - the boundary traversal never lists a node twice;
  - the first inorder node is the one `getLeftmost` finds;
  - `insert` drops the subtree it overwrites;
  - the key list of each recursive helper is assembled the way the helper
    appends to its list.
- `deletion_facts.dfy` (module `DeletionFacts`) proves, among other things:
  - deleting `x` removes exactly one node;
  - the inorder keys afterwards are the old inorder keys without `x`'s entry;
  - for a target with at most one child, each of the inorder, preorder and
    postorder traversals loses exactly that node's entry;
  - the boundary traversal has no such property: deleting a leaf can bring
    another node onto the boundary;
  - `delete` on the receiver behaves as its code says.
- `binary_tree.dfy` (module `BinaryTree`) holds the class `BTNode<K>` with its
  mutable `key`, `left` and `right` fields. Two ghost fields support the proofs:
  - `Repr`, the set of nodes the node owns;
  - `Subtree`, its abstract value, with node references as ids.

  `Valid()` states that the links form a strict tree and that `Subtree`
  mirrors them. Each method is proved against the pure functions: for
  example, `DeleteUtil` ensures that the subtree of the node it returns is
  `Deleted(old subtree, target)`.

These design notes follow the code:

- **The boundary traversal never emits a node twice.** `boundaryLeft` and
  `boundaryRight` append a node only when it has a child (lines 174-179,
  186-191). `leavesNode` appends only childless nodes (line 200). So even a
  single left-only chain yields each node once (`BoundaryEmitsNoNodeTwice`).
- **A deletion can add a node to the boundary.** When a left-boundary node
  loses its left child, `boundaryLeft` (lines 174-179) continues through its
  right child instead, so nodes that were not on the boundary can join it
  (`BoundaryCanGainNode`).
- **An unknown side string in `insert` is a silent no-op.** The code checks
  only "left" and "right" and raises nothing.
- **`delete` drops the value `deleteUtil` returns** (line 55). Deleting the
  receiver itself, when it has at most one child, leaves the tree unchanged.
  With two children, the successor's key is copied into it
  (`DeleteFromCases`).
- **Node identity.** `node == root` at line 70 compares node identity, since
  `BTNode` defines no `__eq__`. The model uses reference equality.

## Model

| member | source | states |
|---|---|---|
| BinaryTree.BTNode.constructor | build/lib/pydsa/binary_tree.py:31-38 | the new node holds `key` and the given children; it is valid and its subtree is the node over the children's subtrees |
| BinaryTree.BTNode.Insert | build/lib/pydsa/binary_tree.py:43-52 | a fresh leaf replaces the named side's link (`Attach`); the other side and the key are kept; any other side string leaves links and subtree unchanged |
| TraversalFacts.InsertReplacesSubtree | build/lib/pydsa/binary_tree.py:43-52 | after `insert` with a fresh node the tree stays strict; the overwritten subtree's nodes are gone, and the new leaf sits next to the parent in inorder |
| BinaryTree.BTNode.Delete | build/lib/pydsa/binary_tree.py:54-55 | the receiver stays valid; its subtree becomes `DeleteFrom(old subtree, target)`, i.e. it keeps its old subtree when `deleteUtil` returns another node |
| BinaryTree.BTNode.DeleteUtil | build/lib/pydsa/binary_tree.py:57-88 | the returned node (or null) is valid and roots `Deleted(old subtree, target)`; if it is not `node`, then `node`'s own subtree is unchanged |
| BinaryTree.BTNode.DeleteInLeft | build/lib/pydsa/binary_tree.py:67 | after relinking the left child to `deleteUtil`'s result, the node's subtree is the old one with the left part replaced by `Deleted(old left, target)` |
| BinaryTree.BTNode.DeleteInRight | build/lib/pydsa/binary_tree.py:68 | the same for the right link |
| BinaryTree.BTNode.ReplaceBySuccessor | build/lib/pydsa/binary_tree.py:81-86 | the node takes the key of `Leftmost(old right)`; its right subtree becomes `Deleted(old right, that node)`; the left subtree is kept |
| BinaryTree.BTNode.SetKey | build/lib/pydsa/binary_tree.py:83 | only the node's key changes in its subtree; validity is kept |
| BinaryTree.BTNode.GetLeftmost | build/lib/pydsa/binary_tree.py:90-97 | the loop ends at a node of the tree whose subtree is `Leftmost(root subtree)`, a node with no left child |
| Trees.Leftmost | build/lib/pydsa/binary_tree.py:90-97 | the node reached has no left child and belongs to the tree |
| TraversalFacts.LeftmostIsFirstInorder | build/lib/pydsa/binary_tree.py:81-86 | the leftmost node is the first inorder entry (the inorder successor used at line 82); removing it leaves the rest of the inorder sequence |
| Trees.Deleted | build/lib/pydsa/binary_tree.py:57-88 | deletion never adds nodes: the size does not grow |
| DeletionFacts.DeletedAbsent | build/lib/pydsa/binary_tree.py:57-88 | deleting a node that is not in the tree rebuilds the same tree |
| DeletionFacts.DeletedKeepsShape | build/lib/pydsa/binary_tree.py:57-88 | the nodes after deletion are a subset of those before; a strict tree stays strict |
| DeletionFacts.DeletedLeftmost | build/lib/pydsa/binary_tree.py:86 | deleting the leftmost node splices it out, replacing it by its right subtree |
| DeletionFacts.DeletedAtTarget | build/lib/pydsa/binary_tree.py:70-86 | at the target: no left child gives the right subtree; no right child gives the left subtree; two children give the successor's key over the left subtree and the right subtree without the successor |
| DeletionFacts.DeletedInorder | build/lib/pydsa/binary_tree.py:57-88 | in a strict tree, the inorder keys after deleting `x` equal the old inorder keys with `x`'s entry skipped |
| DeletionFacts.DeleteRemovesOneNode | build/lib/pydsa/binary_tree.py:57-88 | deleting a present node lowers the size by exactly one and removes exactly one inorder entry, the one for `x` |
| DeletionFacts.DeletedSplicesOut | build/lib/pydsa/binary_tree.py:70-79 | when the target has at most one child, each of the inorder, preorder and postorder sequences loses exactly the target's entry |
| DeletionFacts.SubtreeAtFound | build/lib/pydsa/binary_tree.py:67-70 | the recursive search finds a subtree rooted at `x` exactly when `x` is in the tree |
| DeletionFacts.DeleteFromCases | build/lib/pydsa/binary_tree.py:54-55 | `delete` keeps the receiver as root; it is a no-op for an absent target and for the receiver itself with at most one child; otherwise it equals `deleteUtil`'s result |
| DeletionFacts.DeleteFromInorder | build/lib/pydsa/binary_tree.py:54-55 | when `delete` acts, it removes one node and the target's inorder entry |
| BinaryTree.BTNode.Inorder | build/lib/pydsa/binary_tree.py:99-101 | the list is the keys of `InorderVisits` of the tree |
| BinaryTree.BTNode.InorderUtil | build/lib/pydsa/binary_tree.py:103-112 | the list afterwards is the list before, then the keys of the subtree in inorder |
| TraversalFacts.InorderAppends | build/lib/pydsa/binary_tree.py:108-111 | appending left, key, right gives the node's inorder key list |
| BinaryTree.BTNode.Preorder | build/lib/pydsa/binary_tree.py:114-116 | the list is the keys of `PreorderVisits` of the tree |
| BinaryTree.BTNode.PreorderUtil | build/lib/pydsa/binary_tree.py:118-127 | the list afterwards is the list before, then the keys of the subtree in preorder |
| TraversalFacts.PreorderAppends | build/lib/pydsa/binary_tree.py:123-126 | appending key, left, right gives the node's preorder key list |
| BinaryTree.BTNode.Postorder | build/lib/pydsa/binary_tree.py:129-131 | the list is the keys of `PostorderVisits` of the tree |
| BinaryTree.BTNode.PostorderUtil | build/lib/pydsa/binary_tree.py:133-142 | the list afterwards is the list before, then the keys of the subtree in postorder |
| TraversalFacts.PostorderAppends | build/lib/pydsa/binary_tree.py:138-141 | appending left, right, key gives the node's postorder key list |
| TraversalFacts.InorderListsEveryNode | build/lib/pydsa/binary_tree.py:103-112 | the inorder sequence holds exactly the tree's nodes with their keys, as a multiset |
| TraversalFacts.PreorderListsEveryNode | build/lib/pydsa/binary_tree.py:118-127 | the same for preorder |
| TraversalFacts.PostorderListsEveryNode | build/lib/pydsa/binary_tree.py:133-142 | the same for postorder |
| TraversalFacts.TraversalLength | build/lib/pydsa/binary_tree.py:99-142 | each of the three traversals has one entry per node |
| TraversalFacts.TraversalIds | build/lib/pydsa/binary_tree.py:99-142 | each of the three traversals visits exactly the nodes of the tree |
| TraversalFacts.InorderVisitsEachNodeOnce | build/lib/pydsa/binary_tree.py:103-112 | in a strict tree, inorder lists every node and none twice |
| TraversalFacts.PreorderVisitsEachNodeOnce | build/lib/pydsa/binary_tree.py:118-127 | the same for preorder |
| TraversalFacts.PostorderVisitsEachNodeOnce | build/lib/pydsa/binary_tree.py:133-142 | the same for postorder |
| BinaryTree.BTNode.BoundaryTrav | build/lib/pydsa/binary_tree.py:144-149 | the list is the keys of `BoundaryVisits` of the tree |
| BinaryTree.BTNode.BoundaryTravUtil | build/lib/pydsa/binary_tree.py:151-167 | the list afterwards is the list before, then the root's boundary keys |
| TraversalFacts.BoundaryAppends | build/lib/pydsa/binary_tree.py:156-166 | the root key, the left boundary, the leaves of both sides and the right boundary, appended in order, give the boundary key list |
| BinaryTree.BTNode.BoundaryLeft | build/lib/pydsa/binary_tree.py:169-179 | the list afterwards is the list before, then the top-down left boundary keys |
| TraversalFacts.LeftBoundaryAppends | build/lib/pydsa/binary_tree.py:173-179 | a node with a left child emits itself, then its left subtree's boundary; with only a right child, itself, then the right subtree's boundary; a leaf emits nothing |
| BinaryTree.BTNode.BoundaryRight | build/lib/pydsa/binary_tree.py:181-191 | the list afterwards is the list before, then the bottom-up right boundary keys |
| TraversalFacts.RightBoundaryAppends | build/lib/pydsa/binary_tree.py:185-191 | a node emits its right (or else left) subtree's boundary, then itself; a leaf emits nothing |
| BinaryTree.BTNode.LeavesNode | build/lib/pydsa/binary_tree.py:193-203 | the list afterwards is the list before, then the keys of the childless nodes, left to right |
| TraversalFacts.LeavesAppends | build/lib/pydsa/binary_tree.py:197-203 | left leaves, the node when it has no child, then right leaves, give the leaf key list |
| TraversalFacts.LeftBoundaryParts | build/lib/pydsa/binary_tree.py:169-179 | the left boundary lists no node twice and only nodes with a child |
| TraversalFacts.RightBoundaryParts | build/lib/pydsa/binary_tree.py:181-191 | the right boundary lists no node twice and only nodes with a child |
| TraversalFacts.LeavesParts | build/lib/pydsa/binary_tree.py:193-203 | the leaf pass lists no node twice and exactly the childless nodes |
| TraversalFacts.InternalAndLeaves | build/lib/pydsa/binary_tree.py:174-200 | the nodes with a child and the childless nodes together are all nodes of the tree; in a strict tree no node is both |
| TraversalFacts.BoundaryEmitsNoNodeTwice | build/lib/pydsa/binary_tree.py:151-203 | in a strict tree the boundary traversal lists no node twice, and only nodes of the tree |
| BinaryTree.ValidIsStrictTree | build/lib/pydsa/binary_tree.py:12-41 | the links of a valid node form a strict tree (no sharing, no cycles) whose nodes are exactly its `Repr` |
| DeletionFacts.BoundaryCanGainNode | build/lib/pydsa/binary_tree.py:169-179 | in 1(2(4, 5(6, 7)), -) the boundary is [1, 2, 4, 6, 7]; after deleting leaf 4 it is [1, 2, 5, 6, 7], so node 5 joins it |
| Trees.Attach | build/lib/pydsa/binary_tree.py:43-52 | the subtree after `insert`: "left" or "right" overwrites that link with the new leaf, and any other string leaves the subtree as it was |
| Trees.RemoveLeftmost | build/lib/pydsa/binary_tree.py:86 | the tree with its leftmost node replaced by that node's right subtree |
| Trees.DeleteFrom | build/lib/pydsa/binary_tree.py:54-55 | the receiver's subtree after `delete`: `deleteUtil`'s result when that is still rooted at the receiver, and the old subtree otherwise |
| Trees.InorderVisits | build/lib/pydsa/binary_tree.py:103-112 | the left subtree's visits, the node, then the right subtree's visits |
| Trees.PreorderVisits | build/lib/pydsa/binary_tree.py:118-127 | the node, then the left and right subtrees' visits |
| Trees.PostorderVisits | build/lib/pydsa/binary_tree.py:133-142 | the left and right subtrees' visits, then the node |
| Trees.LeftBoundary | build/lib/pydsa/binary_tree.py:169-179 | top-down, preferring the left child, the nodes that have a child |
| Trees.RightBoundary | build/lib/pydsa/binary_tree.py:181-191 | bottom-up, preferring the right child, the nodes that have a child |
| Trees.Leaves | build/lib/pydsa/binary_tree.py:193-203 | the childless nodes, left to right |
| Trees.BoundaryVisits | build/lib/pydsa/binary_tree.py:151-167 | the root, the left subtree's left boundary, the leaves of both subtrees, then the right subtree's right boundary |
| BinaryTree.BTNode.Valid | build/lib/pydsa/binary_tree.py:12-41 | the links below the node form a strict tree: the children own disjoint node sets, neither owns the node, and `Subtree` mirrors the links and keys |
| BinaryTree.DocumentedTree | build/lib/pydsa/binary_tree.py:17-29 | for root 1 with leaves 2 and 3: inorder [2, 1, 3], preorder [1, 2, 3], postorder [2, 3, 1], boundary [1, 2, 3]; after deleting the left child, inorder [1, 3] |
| BinaryTree.DocumentedBuild | build/lib/pydsa/binary_tree.py:18-20 | `BTNode(1)` followed by two inserts gives root 1 with left leaf 2 and right leaf 3 |
| BinaryTree.DocumentedTraversals | build/lib/pydsa/binary_tree.py:21-26 | the traversal methods return [2, 1, 3], [1, 2, 3], [2, 3, 1] and boundary [1, 2, 3] |
| BinaryTree.DocumentedDelete | build/lib/pydsa/binary_tree.py:27-29 | `delete(bt.left)` followed by `inorder` returns [1, 3] |

## Left out

- The accumulator fields `inlist`, `prelist`, `postlist` and `boundaryTrav_list` are not fields of the class here. Each recursive helper takes the list so far and returns the extended list. The traversal methods are static, because the receiver only holds that list. Not modelled:
  - the aliasing of the returned list with the field;
  - the `AttributeError` that `boundaryTrav_Util` raises when called before `boundaryTrav` has created its list.
- BinaryTree.BTNode.constructor: requires the given children to be valid trees that share no node. Python accepts any objects, including shared or cyclic links; the model does not cover those.
- Each node's ghost view is its own subtree. Calling `insert` or `delete` on an inner node updates that node's view but not its ancestors'. The root's `Valid()` then no longer holds: after `bt.left.insert("left", 4)` no traversal or `delete` on `bt` can be proved. This is the usual way to build a deeper tree in Python. In this model, deeper trees have to be built bottom-up with the constructor, which takes existing subtrees as children.
- Python's `root = None` at lines 73 and 78 rebinds a local name only and has no effect; it is not modelled.
- The complexity claims of the module docstring (O(1) insertion, O(n) deletion and traversals) are not modelled.
- Keys are of any type `K`; the model needs no equality or ordering on keys, since deletion matches nodes by identity.
