/**
 * The structural queries of bst.py's `BTNode`, read off the node table: which side of its
 * parent a node hangs on, whether it is a leaf, its height and its depth.
 */
module Nodes {
  import opened Trees
  import opened Heap

  /**
   * `BTNode.set_left`: node `n` (or None) becomes the left child of `p`, and `p` becomes the
   * parent of `n`; nothing else changes.
   */
  function SetLeft(nodes: seq<NodeRec>, p: Ptr, n: Ptr): (r: seq<NodeRec>)
    requires 0 <= p < |nodes| && (n == Null || 0 <= n < |nodes|)
    ensures |r| == |nodes|
    ensures r[p].left == n && r[p].value == nodes[p].value && r[p].right == nodes[p].right
    ensures n != p ==> r[p].parent == nodes[p].parent
    ensures n != Null && n != p ==> r[n] == nodes[n].(parent := p) && IsLeftChild(r, n)
    ensures forall k :: 0 <= k < |nodes| && k != p && k != n ==> r[k] == nodes[k]
  {
    var linked := nodes[p := nodes[p].(left := n)];
    if n == Null then linked else linked[n := linked[n].(parent := p)]
  }

  /**
   * `BTNode.set_right`: node `n` (or None) becomes the right child of `p`, and `p` becomes
   * the parent of `n`; nothing else changes.
   */
  function SetRight(nodes: seq<NodeRec>, p: Ptr, n: Ptr): (r: seq<NodeRec>)
    requires 0 <= p < |nodes| && (n == Null || 0 <= n < |nodes|)
    ensures |r| == |nodes|
    ensures r[p].right == n && r[p].value == nodes[p].value && r[p].left == nodes[p].left
    ensures n != p ==> r[p].parent == nodes[p].parent
    ensures n != Null && n != p ==> r[n] == nodes[n].(parent := p) && IsRightChild(r, n)
    ensures forall k :: 0 <= k < |nodes| && k != p && k != n ==> r[k] == nodes[k]
  {
    var linked := nodes[p := nodes[p].(right := n)];
    if n == Null then linked else linked[n := linked[n].(parent := p)]
  }

  /** `BTNode.is_left_child`: the parent exists and has node `i` as its left child. */
  function IsLeftChild(nodes: seq<NodeRec>, i: Ptr): (r: bool)
    requires 0 <= i < |nodes|
    ensures r ==> 0 <= nodes[i].parent < |nodes| && nodes[nodes[i].parent].left == i
  {
    var p := nodes[i].parent;
    p != Null && 0 <= p < |nodes| && nodes[p].left == i
  }

  /** `BTNode.is_right_child`: the parent exists and has node `i` as its right child. */
  function IsRightChild(nodes: seq<NodeRec>, i: Ptr): (r: bool)
    requires 0 <= i < |nodes|
    ensures r ==> 0 <= nodes[i].parent < |nodes| && nodes[nodes[i].parent].right == i
  {
    var p := nodes[i].parent;
    p != Null && 0 <= p < |nodes| && nodes[p].right == i
  }

  /** `BTNode.is_leaf`: both child links are absent. */
  function IsLeaf(nodes: seq<NodeRec>, i: Ptr): (r: bool)
    requires 0 <= i < |nodes|
    ensures r <==> nodes[i].left == Null && nodes[i].right == Null
  {
    nodes[i].right == Null && nodes[i].left == Null
  }

  /**
   * In a whole tree, a node is a left child exactly when the last step of its path goes
   * left, and a right child exactly when it goes right; the root is neither.
   */
  lemma ChildSide(nodes: seq<NodeRec>, s: Tree<Ptr>, p: Path)
    requires Rooted(nodes, s) && Unique(s) && Subtree(s, p) != Nil
    ensures 0 <= Top(Subtree(s, p)) < |nodes|
    ensures IsLeftChild(nodes, Top(Subtree(s, p))) <==> p != [] && p[|p| - 1] == L
    ensures IsRightChild(nodes, Top(Subtree(s, p))) <==> p != [] && p[|p| - 1] == R
  {
    ParentOnPath(nodes, s, p);
    if p != [] {
      var q, d := p[..|p| - 1], p[|p| - 1];
      assert p == q + [d];
      var a := Subtree(s, q);
      SubtreeStep(s, q, d);
      LinkedSubtree(nodes, s, q);
      UniqueSubtree(s, q);
      LinkedInTable(nodes, a);
    }
  }

  /** In a linked shape, `is_leaf` holds exactly when the node has no sub-shapes. */
  lemma LeafShape(nodes: seq<NodeRec>, s: Tree<Ptr>)
    requires Linked(nodes, s) && s != Nil
    ensures IsLeaf(nodes, s.value) <==> s.left == Nil && s.right == Nil
  {
  }

  /**
   * `BTNode.height`, with its four cases: a leaf has height 1, a node with one child one
   * more than that child, a node with two children one more than the taller of them.
   * It agrees with the usual height in which an absent child counts 0.
   */
  function NodeHeight(nodes: seq<NodeRec>, i: Ptr, ghost s: Tree<Ptr>): (h: nat)
    requires Linked(nodes, s) && s != Nil && Top(s) == i
    ensures h == Height(s)
    decreases s
  {
    if IsLeaf(nodes, i) then 1
    else if nodes[i].right != Null && nodes[i].left == Null then
      NodeHeight(nodes, nodes[i].right, s.right) + 1
    else if nodes[i].left != Null && nodes[i].right == Null then
      NodeHeight(nodes, nodes[i].left, s.left) + 1
    else
      Larger(NodeHeight(nodes, nodes[i].right, s.right) + 1, NodeHeight(nodes, nodes[i].left, s.left) + 1)
  }

  /**
   * `BTNode.depth`: 1 for a node without a parent, otherwise one more than the parent's
   * depth.  In a whole tree this is the number of nodes on the path from the root.
   */
  function Depth(nodes: seq<NodeRec>, i: Ptr, ghost s: Tree<Ptr>, ghost q: Path): (d: nat)
    requires Rooted(nodes, s) && Subtree(s, q) != Nil && Top(Subtree(s, q)) == i
    ensures d == |q| + 1
    decreases |q|
  {
    ParentOnPath(nodes, s, q);
    if nodes[i].parent == Null then 1
    else Depth(nodes, nodes[i].parent, s, q[..|q| - 1]) + 1
  }
}
