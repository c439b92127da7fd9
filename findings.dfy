/**
 * Two places where bst.py does not do what its comments and tests intend, each modelled as
 * written next to the corrected behaviour that the rest of the model uses.
 *
 * In `_delete`, the branch for a node with two children whose right subtree is taller
 * reads `.value` off the in-order successor and then reads `.value` again off that value,
 * which fails.  In `BSTree.delete`, the node that takes the root's place keeps its old
 * parent link, so the new root still claims a parent.
 */
module Findings {
  import opened Trees
  import opened Heap
  import opened Nodes
  import BSTrees

  /** What running `_delete` yields: the remaining tree, or the failure. */
  datatype Outcome = Done(tree: Tree<int>) | Crash

  /** `_delete` as written, on values: the successor branch fails before changing anything. */
  function DeleteAsWritten(t: Tree<int>, v: int): (r: Outcome)
    ensures r.Done? ==> Contents(r.tree) <= Contents(t)
  {
    match t
    case Nil => Done(Nil)
    case Node(l, x, r) =>
      if x > v then
        match DeleteAsWritten(l, v)
        case Crash => Crash
        case Done(l') => Done(Node(l', x, r))
      else if x < v then
        match DeleteAsWritten(r, v)
        case Crash => Crash
        case Done(r') => Done(Node(l, x, r'))
      else if r != Nil && l != Nil then
        if Height(r) <= Height(l) then
          match DeleteAsWritten(l, Max(l))
          case Crash => Crash
          case Done(l') => Done(Node(l', Max(l), r))
        else Crash
      else if r != Nil then Done(r)
      else if l != Nil then Done(l)
      else Done(Nil)
  }

  /** The search for `v` ends at a node with two children whose right subtree is taller. */
  ghost predicate ReachesSuccessorCase(t: Tree<int>, v: int)
  {
    match t
    case Nil => false
    case Node(l, x, r) =>
      if x > v then ReachesSuccessorCase(l, v)
      else if x < v then ReachesSuccessorCase(r, v)
      else r != Nil && l != Nil && Height(l) < Height(r)
  }

  /** The search for the largest value ends at a node without a right child. */
  lemma {:induction false} MaxAvoidsSuccessorCase(t: Tree<int>)
    requires Bst(t) && t != Nil
    ensures !ReachesSuccessorCase(t, Max(t))
  {
    if t.right != Nil {
      assert Max(t) in Contents(t.right);
      MaxAvoidsSuccessorCase(t.right);
    }
  }

  /**
   * On a BST, `_delete` as written fails exactly when the search reaches the successor
   * case, and otherwise it computes the corrected deletion.
   */
  lemma {:induction false} AsWrittenCrashes(t: Tree<int>, v: int)
    requires Bst(t)
    ensures DeleteAsWritten(t, v) == Crash <==> ReachesSuccessorCase(t, v)
    ensures DeleteAsWritten(t, v).Done? ==> DeleteAsWritten(t, v).tree == Trees.Delete(t, v)
  {
    match t
    case Nil =>
    case Node(l, x, r) =>
      if x > v {
        AsWrittenCrashes(l, v);
      } else if x < v {
        AsWrittenCrashes(r, v);
      } else if r != Nil && l != Nil && Height(r) <= Height(l) {
        AsWrittenCrashes(l, Max(l));
        MaxAvoidsSuccessorCase(l);
      }
  }

  /**
   * Deleting 2 from the tree with 1 on its left and 3, 4 on its right: the right subtree
   * is taller, so bst.py fails, while the corrected deletion moves 3 up.
   */
  lemma SuccessorCaseWitness()
    ensures DeleteAsWritten(Node(Node(Nil, 1, Nil), 2, Node(Nil, 3, Node(Nil, 4, Nil))), 2) == Crash
    ensures Trees.Delete(Node(Node(Nil, 1, Nil), 2, Node(Nil, 3, Node(Nil, 4, Nil))), 2)
      == Node(Node(Nil, 1, Nil), 3, Node(Nil, 4, Nil))
  {
    assert Min(Node(Nil, 3, Node(Nil, 4, Nil))) == 3;
  }

  /**
   * `BSTree.delete` as written: the root reference becomes whatever `_delete` returns, and
   * nothing clears that node's parent link.
   */
  method DeleteKeepingParent(nodes: seq<NodeRec>, ghost shape: Tree<Ptr>, root: Ptr, v: int)
    returns (nodes': seq<NodeRec>, root': Ptr, ghost s': Tree<Ptr>)
    requires Rooted(nodes, shape) && Bst(Abs(nodes, shape)) && Top(shape) == root
    ensures Linked(nodes', s') && Top(s') == root'
    ensures Abs(nodes', s') == Trees.Delete(Abs(nodes, shape), v)
    ensures 0 <= root < |nodes| && nodes[root].value == v && nodes[root].right == Null
      ==> nodes' == nodes && root' == nodes[root].left
  {
    nodes', root', s' := BSTrees.DeleteAt(nodes, shape, root, v, []);
  }

  /** A root holding 5 with one left child holding 3. */
  const TwoNodes: seq<NodeRec> := [NodeRec(5, 1, Null, Null), NodeRec(3, Null, Null, 0)]

  /**
   * Deleting 5 from TwoNodes: as written, the table is left as it is and node 1 becomes
   * the root, yet it still reports a parent, counts as a left child and has depth 2.
   */
  lemma StaleParentWitness()
    ensures Rooted(TwoNodes, Node(Node(Nil, 1, Nil), 0, Nil))
    ensures Bst(Abs(TwoNodes, Node(Node(Nil, 1, Nil), 0, Nil)))
    ensures TwoNodes[0].value == 5 && TwoNodes[0].right == Null && TwoNodes[0].left == 1
    ensures Abs(TwoNodes, Node(Nil, 1, Nil)) == Trees.Delete(Abs(TwoNodes, Node(Node(Nil, 1, Nil), 0, Nil)), 5)
    ensures !Rooted(TwoNodes, Node(Nil, 1, Nil))
    ensures IsLeftChild(TwoNodes, 1)
    ensures Depth(TwoNodes, 1, Node(Node(Nil, 1, Nil), 0, Nil), [L]) == 2
  {
  }
}
