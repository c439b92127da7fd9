# A verified model of `bst.py`

`bst.py` is a binary search tree made of linked `BTNode` objects. Each node holds a value and
three references: left child, right child and parent. A `BSTree` holds the root node. The
tree supports `insert`, `height`, `search`, `range` and `delete`, which are built on the
recursive helpers `_insert`, `_search`, `_range` and `_delete`. The module-level
`in_order_predecessor` and `in_order_successor` find a node's neighbour in sorted order by
walking child links down or parent links up. `_delete` uses them to refill a node that has
two children.

This project models that core in Dafny and proves what it promises.

- **`trees.dfy` (module `Trees`): the value-level theory.**
  - A tree of values, and the binary-search-tree property `Bst`.
  - Height counted in nodes.
  - `Insert` and `Delete` as pure functions. `Delete` includes bst.py's tie-break for a node
    with two children: it takes the in-order predecessor when the right subtree is not
    taller than the left, and the in-order successor otherwise.
  - What the in-order predecessor and successor of a position are.
- **`heap.dfy` (module `Heap`): the node objects as a table.**
  - `nodes[k]` is node `k`, with its value and its `left`, `right` and `parent` links.
    `Null` plays the part of `None`.
  - A ghost shape records which node sits where.
  - `Linked` says the child and parent links agree with the shape. `Rooted` also says the
    root has no parent.
  - `Abs` reads the tree of values off the table.
- **`nodes.dfy` (module `Nodes`): the `BTNode` methods on that table.**
  - `set_left` and `set_right` as table updates.
  - `is_left_child`, `is_right_child`, `is_leaf`, `height` and `depth`.
- **`queries.dfy` (module `Queries`):** `_search` and `_range`, which return nodes.
- **`neighbours.dfy` (module `Neighbours`):** `in_order_predecessor` and
  `in_order_successor`, as loops that follow the links.
- **`bstree.dfy` (module `BSTrees`):**
  - The class `BSTree` with its node table, root reference and ghost shape. `Valid` is the
    invariant every operation keeps.
  - `_insert` and `_delete`, as methods that take the table and return the changed one.
- **`findings.dfy` (module `Findings`):** the two places where `bst.py` does not do what it
  evidently intends (see "## Findings").
- **`scenarios.dfy` (module `Scenarios`):** the complex tree of `test_bst.py`, built by the
  same insertions. The lemmas give its height, the neighbours the tests check, and the
  results of the tests' three deletions.

The tree operations (`_insert`, `_search`, `_range`, `_delete` and the two neighbour walks)
are proved against the value model. `set_left`, `set_right` and the child and leaf queries
are stated on the node table and the shape. `BSTree.Insert` and `BSTree.Delete` keep
`Valid`. The tree of values they leave behind is `Trees.Insert` and `Trees.Delete` of
the tree before, and the lemmas in `Trees` prove what those two functions do.

## Model

| member | source | states |
|---|---|---|
| BSTrees.BSTree.constructor | bst.py:105-110 | `BSTree()` is a valid tree holding no values |
| BSTrees.BSTree.Singleton | bst.py:105-110 | `BSTree(BTNode(v))` is a valid tree holding exactly `v` |
| BSTrees.BSTree.Height | bst.py:129-135 | the tree's height in nodes; 0 exactly when the tree is empty |
| BSTrees.BSTree.Search | bst.py:137-143 | Null exactly when `v` is not stored; otherwise a node of the tree (not a node deleted earlier) holding `v` |
| BSTrees.BSTree.Range | bst.py:145-153 | every returned node is a node of the tree; their values strictly ascend, and a value appears exactly when it is stored and lies in `[lo, hi]` |
| BSTrees.BSTree.Insert | bst.py:119-127 | keeps the tree valid (links consistent, root without parent, BST order); the values become `Trees.Insert` of the old ones |
| BSTrees.BSTree.Delete | bst.py:155-160 | keeps the tree valid, including a root without a parent; the values become `Trees.Delete` of the old ones |
| BSTrees.InsertAt | bst.py:179-196 | below a node of a linked BST, the subtree now reads as `Trees.Insert` of the old one; at most one node is appended; no node outside the subtree changes; the top keeps its parent |
| BSTrees.DeleteAt | bst.py:245-260 | the returned subtree is linked, uses only the old subtree's nodes and reads as `Trees.Delete` of the old one; no node outside it changes; if the top node holds `v` and has no right child, the table is unchanged and its left child is returned |
| BSTrees.RemoveAt | bst.py:261-282 | removing the value of the found node yields `Trees.Delete` of the subtree; with at most one child, the table is unchanged and the remaining child is returned (Null for a leaf) |
| BSTrees.DeleteTwoChildren | bst.py:263-273 | a node with two children keeps its place and the subtree reads as `Trees.Delete` of its own value |
| BSTrees.TakePredecessor | bst.py:264-268 | when the right subtree is not taller, the node takes the left subtree's largest value, and that value is deleted from the left subtree |
| BSTrees.TakeSuccessor | bst.py:269-273 | when the right subtree is taller, the node takes the right subtree's smallest value, and that value is deleted from the right subtree |
| BSTrees.PredecessorValue | bst.py:265-266 | `in_order_predecessor(root).value` for a node with a left child is the largest value of that left subtree |
| BSTrees.SuccessorValue | bst.py:270-271 | the in-order successor's value for a node with a right child is the smallest value of that right subtree |
| BSTrees.PredecessorIsMaxLeft | bst.py:300-305 | for a node with a left child, a node that is its predecessor in the whole tree holds the left subtree's largest value |
| BSTrees.SuccessorIsMinRight | bst.py:326-331 | for a node with a right child, a node that is its successor in the whole tree holds the right subtree's smallest value |
| Nodes.SetLeft | bst.py:41-48 | `p.left` becomes `n`; when `n` exists its parent becomes `p`, and it is then a left child; no other node changes |
| Nodes.SetRight | bst.py:32-39 | `p.right` becomes `n`; when `n` exists its parent becomes `p`, and it is then a right child; no other node changes |
| Nodes.IsLeftChild | bst.py:50-55 | `is_left_child`: true only when the parent link exists and that parent's left link points back; `Nodes.ChildSide` shows that in a whole tree this means the node's path ends with a left step |
| Nodes.IsRightChild | bst.py:57-62 | `is_right_child`: true only when the parent link exists and that parent's right link points back; `Nodes.ChildSide` gives its meaning in a whole tree |
| Nodes.IsLeaf | bst.py:64-68 | `is_leaf`: both child links are absent; `Nodes.LeafShape` shows that in a linked shape this means the node has no subtrees |
| Nodes.ChildSide | bst.py:50-62 | in a whole tree, `is_left_child` holds exactly when the node's last step from the root goes left, and `is_right_child` exactly when it goes right; the root is neither |
| Nodes.LeafShape | bst.py:64-68 | `is_leaf` holds exactly when the node has no children in the shape |
| Nodes.NodeHeight | bst.py:70-86 | the four-case height (leaf 1, one child 1 + its height, two children 1 + the larger) equals the height of the node's subtree counted in nodes |
| Nodes.Depth | bst.py:88-96 | following parent links, the depth is 1 + the length of the node's path from the root |
| Queries.SearchFrom | bst.py:199-213 | Null exactly when `v` is not stored below the node; otherwise a node of that subtree holding `v` |
| Queries.RangeFrom | bst.py:216-244 | nodes of the subtree whose values strictly ascend; a value is listed exactly when it is stored there and lies in `[lo, hi]` |
| Queries.AscendingJoin | bst.py:233-244 | the left results, the node and the right results join into one ascending list |
| Neighbours.InOrderPredecessor | bst.py:291-314 | None for None; otherwise a node of the tree holding the largest value below the node's own, or None exactly when no stored value is smaller |
| Neighbours.InOrderSuccessor | bst.py:317-340 | None for None; otherwise a node of the tree holding the smallest value above the node's own, or None exactly when no stored value is larger |
| Trees.InsertContents | bst.py:179-196 | inserting adds exactly `v` to the stored values |
| Trees.InsertBst | bst.py:179-196 | inserting keeps the BST order |
| Trees.InsertPresent | bst.py:185-186 | inserting a value already stored changes nothing |
| Trees.InsertHeight | bst.py:187-196 | the new node is a leaf, so the height grows by at most one |
| Trees.Delete | bst.py:245-285 | deleting never adds a value |
| Trees.DeleteContents | bst.py:245-285 | in a BST, deleting removes exactly `v` from the stored values |
| Trees.DeleteBst | bst.py:245-285 | deleting keeps the BST order, in both the predecessor and the successor case |
| Trees.DeleteAbsent | bst.py:253-260 | deleting a value that is not stored changes nothing |
| Trees.Max | bst.py:300-305 | the end of the right spine is a stored value |
| Trees.MaxIsLargest | bst.py:300-305 | in a BST, the end of the right spine is the largest stored value |
| Trees.Min | bst.py:326-331 | the end of the left spine is a stored value |
| Trees.MinIsSmallest | bst.py:326-331 | in a BST, the end of the left spine is the smallest stored value |
| Trees.RightSpineEndsAtMax | bst.py:302-305 | right links followed to the end reach the node of the largest value |
| Trees.LeftSpineEndsAtMin | bst.py:328-331 | left links followed to the end reach the node of the smallest value |
| Trees.PredecessorBelow | bst.py:300-305 | a node with a left child has as its predecessor the largest value of that left subtree |
| Trees.PredecessorAbove | bst.py:308-312 | a node without a left child, reached from a node by one right step and then left steps only, has that node's value as its predecessor |
| Trees.PredecessorNone | bst.py:313-314 | a node without a left child, reached by left steps only, has no stored value below it |
| Trees.SuccessorBelow | bst.py:326-331 | a node with a right child has as its successor the smallest value of that right subtree |
| Trees.SuccessorAbove | bst.py:334-338 | a node without a right child, reached from a node by one left step and then right steps only, has that node's value as its successor |
| Trees.SuccessorNone | bst.py:339-340 | a node without a right child, reached by right steps only, has no stored value above it |
| Trees.BelowSplit | bst.py:306-312 | the values below a node's value are its left subtree's values plus those passed on the way down by right steps |
| Trees.AboveSplit | bst.py:332-338 | the values above a node's value are its right subtree's values plus those passed on the way down by left steps |
| Findings.DeleteAsWritten | bst.py:245-285 | `_delete` as written, on values: when it finishes, it never adds a value; its successor branch fails before changing anything (see `Findings.AsWrittenCrashes`) |
| Findings.AsWrittenCrashes | bst.py:245-285 | on a BST, `_delete` as written fails exactly when the search for `v` reaches a node with two children whose right subtree is taller; otherwise it computes `Trees.Delete` |
| Findings.MaxAvoidsSuccessorCase | bst.py:264-266 | the recursive deletion of the predecessor's value never reaches the failing branch |
| Findings.SuccessorCaseWitness | bst.py:269-271 | deleting 2 from the tree 1 < 2 > 3 > 4 fails as written; the corrected deletion moves 3 up |
| Findings.DeleteKeepingParent | bst.py:155-160 | `delete` as written gives the right values; deleting a root without a right child leaves the table unchanged and makes the root's left child the new root |
| Findings.StaleParentWitness | bst.py:160 | after deleting the root 5 above a single left child 3, that child is the root but still has a parent, counts as a left child and has depth 2 |
| Scenarios.InsertAllContents | test_bst.py:111-113 | a run of insertions stores exactly the inserted values |
| Scenarios.InsertAllBst | test_bst.py:111-113 | a run of insertions keeps the BST order |
| Scenarios.ComplexTreeBuilt | test_bst.py:101-113 | inserting 5, 2, 6, 1, 3, 8, 4, 7 builds the tree drawn in the test |
| Scenarios.ComplexTreeShape | test_bst.py:123-125 | that tree is a BST of height 4 |
| Scenarios.ComplexTreeNeighbours | test_bst.py:146-159 | 1 has no predecessor, 6 is the predecessor of 7, 8 has no successor, 3 is the successor of 2 |
| Scenarios.ComplexTreeDeletes | test_bst.py:161-172 | deleting 1, then 8, then 5 leaves 2 without a left child, 7 as the right child of 6, and 4 at the root with 2 on its left |

## Left out

- `print_tree`, `_print_tree`, `__str__` and `__repr__` are output only and are not modelled.
- The `unittest` classes of `test_bst.py` are not modelled. Their expectations for the complex tree are stated
  as lemmas in `Scenarios`.
- Node identity is an index into a table of nodes. A node that `_delete` drops from the tree
  stays in the table, because Python's garbage collection is not modelled.
- Python's recursion limit is not modelled. `_insert`, `_search`, `_range`, `_delete`,
  `BTNode.height` and `BTNode.depth` recurse once per level. On a degenerate tree about
  1000 levels deep, such as one built by inserting 1 to 1000 in ascending order, Python
  stops them with `RecursionError`, while the model's recursion has no bound.
- Values are mathematical integers. `bst.py` accepts any values that Python can compare, and
  nothing is modelled for values that do not compare consistently.
- `BSTree(root)` is modelled for a single fresh node (`BSTree.Singleton`). A whole linked
  tree handed to the constructor is not modelled, because nothing checks it is a BST.
- The last branch of `_delete` (bst.py:283-285) cannot be reached. A node with neither two
  children, nor one child, is a leaf. So the model has no such branch.
- BSTrees.TakePredecessor: the source reads `IOP.value` twice, once before and once after
  the recursive `_delete`. Nothing in between changes the predecessor node's value (the
  removal may splice the node out, but it does not rewrite its value), so the model reads it
  once.
- Neighbours.InOrderPredecessor, Neighbours.InOrderSuccessor: modelled for nodes of one
  whole valid tree, whose root has no parent. On a node whose links are broken, the walk may
  not end, and this is not modelled.
- BSTrees.BSTree.Delete: follows the corrected behaviour and clears the new root's parent
  link. The as-written behaviour is `Findings.DeleteKeepingParent`.
- BSTrees.DeleteTwoChildren: follows the corrected successor branch. The as-written failure
  is `Findings.DeleteAsWritten`.

## Findings

| source | as written | input that shows it | evidently intended | confidence | as-written member | corrected member |
|---|---|---|---|---|---|---|
| bst.py:270-271 | `IOS = in_order_successor(root).value` then reads `IOS.value`, i.e. `.value` on a value | delete 2 from the tree holding 1 on the left and 3 with a right child 4 on the right (the right subtree is taller) | move the successor's value up and delete it from the right subtree, as the predecessor branch does | high; not executed | Findings.AsWrittenCrashes | BSTrees.TakeSuccessor |
| bst.py:160 | `self.root = _delete(self.root, v)`: when the root is spliced out, its child becomes the root but keeps the old root as its parent | insert 5, insert 3, delete 5: node 3 is the root yet `is_left_child()` is true and `depth()` is 2 | the new root has no parent, as the invariant "root has no parent" (`BSTree()` / `insert`) requires | high; not executed | Findings.StaleParentWitness | BSTrees.BSTree.Delete |
