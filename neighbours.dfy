/**
 * bst.py's `in_order_predecessor` and `in_order_successor`: find a node's neighbour in
 * sorted order by following child links down or parent links up, without a traversal.
 * The walks read the node table; a ghost path tracks where in the shape they are.
 */
module Neighbours {
  import opened Trees
  import opened Heap
  import opened Nodes

  /** What the walks know about a node of a whole BST: where it is and what it links to. */
  lemma Locate(nodes: seq<NodeRec>, s: Tree<Ptr>, i: Ptr) returns (p: Path)
    requires Rooted(nodes, s) && Bst(Abs(nodes, s)) && i in Contents(s)
    ensures Subtree(s, p) != Nil && Top(Subtree(s, p)) == i && 0 <= i < |nodes|
    ensures Unique(s)
    ensures Linked(nodes, Subtree(s, p))
    ensures Subtree(Abs(nodes, s), p) == Abs(nodes, Subtree(s, p))
  {
    p := PathTo(s, i);
    BstUnique(nodes, s);
    LinkedSubtree(nodes, s, p);
    AbsSubtree(nodes, s, p);
  }

  /** The node at position `p`, seen in the tree of values. */
  lemma AtPosition(nodes: seq<NodeRec>, s: Tree<Ptr>, p: Path)
    requires Linked(nodes, s) && Subtree(s, p) != Nil
    ensures Linked(nodes, Subtree(s, p))
    ensures Subtree(Abs(nodes, s), p) == Abs(nodes, Subtree(s, p))
    ensures Subtree(Abs(nodes, s), p) != Nil
    ensures Subtree(Abs(nodes, s), p).value == Val(nodes, Top(Subtree(s, p)))
    ensures Subtree(Abs(nodes, s), p).left == Nil <==> Subtree(s, p).left == Nil
    ensures Subtree(Abs(nodes, s), p).right == Nil <==> Subtree(s, p).right == Nil
  {
    LinkedSubtree(nodes, s, p);
    AbsSubtree(nodes, s, p);
  }

  /** One step down from a node with a child on side `d`: the walk stays on the shape. */
  lemma Descend(nodes: seq<NodeRec>, s: Tree<Ptr>, p: Path, d: Dir)
    requires Linked(nodes, s) && Subtree(s, p) != Nil && 0 <= Top(Subtree(s, p)) < |nodes|
    requires (if d == L then nodes[Top(Subtree(s, p))].left else nodes[Top(Subtree(s, p))].right) != Null
    ensures Subtree(s, p + [d]) != Nil
    ensures Top(Subtree(s, p + [d])) == if d == L then nodes[Top(Subtree(s, p))].left else nodes[Top(Subtree(s, p))].right
    ensures 0 <= Top(Subtree(s, p + [d])) < |nodes|
    ensures Height(Subtree(s, p + [d])) < Height(Subtree(s, p))
  {
    LinkedSubtree(nodes, s, p);
    SubtreeStep(s, p, d);
    LinkedSubtree(nodes, s, p + [d]);
  }

  /**
   * One step up from a node that is not a child on side `e`: it has no parent exactly at
   * the top, and otherwise it is the child on the other side of the node one step up.
   */
  lemma Ascend(nodes: seq<NodeRec>, s: Tree<Ptr>, p: Path, d: Dir, e: Dir) returns (up: Path)
    requires Rooted(nodes, s) && Unique(s) && Subtree(s, p) != Nil && d != e
    requires 0 <= Top(Subtree(s, p)) < |nodes|
    requires if e == R then !IsRightChild(nodes, Top(Subtree(s, p))) else !IsLeftChild(nodes, Top(Subtree(s, p)))
    ensures nodes[Top(Subtree(s, p))].parent == Null <==> p == []
    ensures p != [] ==> p == up + [d] && Subtree(s, up) != Nil
    ensures p != [] ==> Top(Subtree(s, up)) == nodes[Top(Subtree(s, p))].parent
    ensures p != [] ==> 0 <= Top(Subtree(s, up)) < |nodes|
  {
    ChildSide(nodes, s, p);
    ParentOnPath(nodes, s, p);
    up := [];
    if p != [] {
      up := p[..|p| - 1];
      assert p == up + [p[|p| - 1]];
      LinkedSubtree(nodes, s, up);
    }
  }

  /** The end of the walk down: the last node of the right spine of the left part. */
  lemma PredecessorDown(nodes: seq<NodeRec>, s: Tree<Ptr>, p: Path, spine: Path)
    requires Rooted(nodes, s) && Bst(Abs(nodes, s)) && AllDir(spine, R)
    requires Subtree(s, p) != Nil && Subtree(s, p + [L] + spine) != Nil
    requires 0 <= Top(Subtree(s, p + [L] + spine)) < |nodes|
    requires nodes[Top(Subtree(s, p + [L] + spine))].right == Null
    ensures Top(Subtree(s, p + [L] + spine)) in Contents(s)
    ensures IsPredecessor(Abs(nodes, s), Val(nodes, Top(Subtree(s, p))), Val(nodes, Top(Subtree(s, p + [L] + spine))))
  {
    var t := Abs(nodes, s);
    var pj := p + [L] + spine;
    AtPosition(nodes, s, p);
    AtPosition(nodes, s, pj);
    SubtreeStep(s, p, L);
    SubtreeAppend(t, p + [L], spine);
    RightSpineEndsAtMax(Subtree(t, p + [L]), spine);
    SubtreeStep(t, p, L);
    PredecessorBelow(t, p);
    SubtreeContents(s, pj);
  }

  /** The end of the climb: the parent of the first right child on the way up. */
  lemma PredecessorUp(nodes: seq<NodeRec>, s: Tree<Ptr>, p: Path, pj: Path, ls: Path)
    requires Rooted(nodes, s) && Bst(Abs(nodes, s)) && Unique(s) && AllDir(ls, L) && p == pj + ls
    requires Subtree(s, p) != Nil && 0 <= Top(Subtree(s, p)) < |nodes|
    requires nodes[Top(Subtree(s, p))].left == Null
    requires Subtree(s, pj) != Nil && 0 <= Top(Subtree(s, pj)) < |nodes|
    requires IsRightChild(nodes, Top(Subtree(s, pj)))
    ensures nodes[Top(Subtree(s, pj))].parent in Contents(s)
    ensures IsPredecessor(Abs(nodes, s), Val(nodes, Top(Subtree(s, p))), Val(nodes, nodes[Top(Subtree(s, pj))].parent))
  {
    var t := Abs(nodes, s);
    ChildSide(nodes, s, pj);
    ParentOnPath(nodes, s, pj);
    var q := pj[..|pj| - 1];
    assert pj == q + [R];
    assert p == q + [R] + ls;
    AtPosition(nodes, s, p);
    PredecessorAbove(t, q, ls);
    AtPosition(nodes, s, q);
    SubtreeContents(s, q);
  }

  /** The end of a climb that never met a right child: nothing is stored below. */
  lemma PredecessorTop(nodes: seq<NodeRec>, s: Tree<Ptr>, p: Path)
    requires Rooted(nodes, s) && Bst(Abs(nodes, s)) && AllDir(p, L)
    requires Subtree(s, p) != Nil && 0 <= Top(Subtree(s, p)) < |nodes|
    requires nodes[Top(Subtree(s, p))].left == Null
    ensures NoneBelow(Abs(nodes, s), Val(nodes, Top(Subtree(s, p))))
  {
    AtPosition(nodes, s, p);
    PredecessorNone(Abs(nodes, s), p);
  }

  /** The mirror image of PredecessorDown. */
  lemma SuccessorDown(nodes: seq<NodeRec>, s: Tree<Ptr>, p: Path, spine: Path)
    requires Rooted(nodes, s) && Bst(Abs(nodes, s)) && AllDir(spine, L)
    requires Subtree(s, p) != Nil && Subtree(s, p + [R] + spine) != Nil
    requires 0 <= Top(Subtree(s, p + [R] + spine)) < |nodes|
    requires nodes[Top(Subtree(s, p + [R] + spine))].left == Null
    ensures Top(Subtree(s, p + [R] + spine)) in Contents(s)
    ensures IsSuccessor(Abs(nodes, s), Val(nodes, Top(Subtree(s, p))), Val(nodes, Top(Subtree(s, p + [R] + spine))))
  {
    var t := Abs(nodes, s);
    var pj := p + [R] + spine;
    AtPosition(nodes, s, p);
    AtPosition(nodes, s, pj);
    SubtreeStep(s, p, R);
    SubtreeAppend(t, p + [R], spine);
    LeftSpineEndsAtMin(Subtree(t, p + [R]), spine);
    SubtreeStep(t, p, R);
    SuccessorBelow(t, p);
    SubtreeContents(s, pj);
  }

  /** The mirror image of PredecessorUp. */
  lemma SuccessorUp(nodes: seq<NodeRec>, s: Tree<Ptr>, p: Path, pj: Path, rs: Path)
    requires Rooted(nodes, s) && Bst(Abs(nodes, s)) && Unique(s) && AllDir(rs, R) && p == pj + rs
    requires Subtree(s, p) != Nil && 0 <= Top(Subtree(s, p)) < |nodes|
    requires nodes[Top(Subtree(s, p))].right == Null
    requires Subtree(s, pj) != Nil && 0 <= Top(Subtree(s, pj)) < |nodes|
    requires IsLeftChild(nodes, Top(Subtree(s, pj)))
    ensures nodes[Top(Subtree(s, pj))].parent in Contents(s)
    ensures IsSuccessor(Abs(nodes, s), Val(nodes, Top(Subtree(s, p))), Val(nodes, nodes[Top(Subtree(s, pj))].parent))
  {
    var t := Abs(nodes, s);
    ChildSide(nodes, s, pj);
    ParentOnPath(nodes, s, pj);
    var q := pj[..|pj| - 1];
    assert pj == q + [L];
    assert p == q + [L] + rs;
    AtPosition(nodes, s, p);
    SuccessorAbove(t, q, rs);
    AtPosition(nodes, s, q);
    SubtreeContents(s, q);
  }

  /** The mirror image of PredecessorTop. */
  lemma SuccessorTop(nodes: seq<NodeRec>, s: Tree<Ptr>, p: Path)
    requires Rooted(nodes, s) && Bst(Abs(nodes, s)) && AllDir(p, R)
    requires Subtree(s, p) != Nil && 0 <= Top(Subtree(s, p)) < |nodes|
    requires nodes[Top(Subtree(s, p))].right == Null
    ensures NoneAbove(Abs(nodes, s), Val(nodes, Top(Subtree(s, p))))
  {
    AtPosition(nodes, s, p);
    SuccessorNone(Abs(nodes, s), p);
  }

  /**
   * `in_order_predecessor`: with a left child, go left once and then right as far as
   * possible; without one, climb until the climb leaves a right child and return that
   * child's parent.  The result holds the largest stored value below node `i`'s value, or
   * is Null when nothing is stored below it (and when `i` is Null).
   */
  method InOrderPredecessor(nodes: seq<NodeRec>, ghost s: Tree<Ptr>, i: Ptr) returns (r: Ptr)
    requires Rooted(nodes, s) && Bst(Abs(nodes, s))
    requires i == Null || i in Contents(s)
    ensures r == Null || r in Contents(s)
    ensures i == Null ==> r == Null
    ensures i != Null && r != Null ==> IsPredecessor(Abs(nodes, s), Val(nodes, i), Val(nodes, r))
    ensures i != Null && r == Null ==> NoneBelow(Abs(nodes, s), Val(nodes, i))
  {
    if i == Null {
      return Null;
    }
    ghost var p := Locate(nodes, s, i);
    if nodes[i].left != Null {
      Descend(nodes, s, p, L);
      var j := nodes[i].left;
      ghost var spine: Path := [];
      assert p + [L] + spine == p + [L];
      while nodes[j].right != Null
        invariant AllDir(spine, R)
        invariant Subtree(s, p + [L] + spine) != Nil && Top(Subtree(s, p + [L] + spine)) == j && 0 <= j < |nodes|
        decreases Height(Subtree(s, p + [L] + spine))
      {
        Descend(nodes, s, p + [L] + spine, R);
        assert p + [L] + spine + [R] == p + [L] + (spine + [R]);
        j := nodes[j].right;
        spine := spine + [R];
      }
      PredecessorDown(nodes, s, p, spine);
      return j;
    } else {
      var j := i;
      ghost var pj := p;
      ghost var ls: Path := [];
      while j != Null && !IsRightChild(nodes, j)
        invariant AllDir(ls, L)
        invariant j != Null ==> 0 <= j < |nodes|
        invariant j != Null ==> Subtree(s, pj) != Nil && Top(Subtree(s, pj)) == j && p == pj + ls
        invariant j == Null ==> AllDir(p, L)
        decreases if j == Null then 0 else |pj| + 1
      {
        ghost var up := Ascend(nodes, s, pj, L, R);
        j := nodes[j].parent;
        if pj != [] {
          assert p == up + ([L] + ls);
          pj, ls := up, [L] + ls;
        }
      }
      if j == Null {
        PredecessorTop(nodes, s, p);
        return Null;
      }
      PredecessorUp(nodes, s, p, pj, ls);
      return nodes[j].parent;
    }
  }

  /**
   * `in_order_successor`: the mirror image.  The result holds the smallest stored value
   * above node `i`'s value, or is Null when nothing is stored above it (and when `i` is Null).
   */
  method InOrderSuccessor(nodes: seq<NodeRec>, ghost s: Tree<Ptr>, i: Ptr) returns (r: Ptr)
    requires Rooted(nodes, s) && Bst(Abs(nodes, s))
    requires i == Null || i in Contents(s)
    ensures r == Null || r in Contents(s)
    ensures i == Null ==> r == Null
    ensures i != Null && r != Null ==> IsSuccessor(Abs(nodes, s), Val(nodes, i), Val(nodes, r))
    ensures i != Null && r == Null ==> NoneAbove(Abs(nodes, s), Val(nodes, i))
  {
    if i == Null {
      return Null;
    }
    ghost var p := Locate(nodes, s, i);
    if nodes[i].right != Null {
      Descend(nodes, s, p, R);
      var j := nodes[i].right;
      ghost var spine: Path := [];
      assert p + [R] + spine == p + [R];
      while nodes[j].left != Null
        invariant AllDir(spine, L)
        invariant Subtree(s, p + [R] + spine) != Nil && Top(Subtree(s, p + [R] + spine)) == j && 0 <= j < |nodes|
        decreases Height(Subtree(s, p + [R] + spine))
      {
        Descend(nodes, s, p + [R] + spine, L);
        assert p + [R] + spine + [L] == p + [R] + (spine + [L]);
        j := nodes[j].left;
        spine := spine + [L];
      }
      SuccessorDown(nodes, s, p, spine);
      return j;
    } else {
      var j := i;
      ghost var pj := p;
      ghost var rs: Path := [];
      while j != Null && !IsLeftChild(nodes, j)
        invariant AllDir(rs, R)
        invariant j != Null ==> 0 <= j < |nodes|
        invariant j != Null ==> Subtree(s, pj) != Nil && Top(Subtree(s, pj)) == j && p == pj + rs
        invariant j == Null ==> AllDir(p, R)
        decreases if j == Null then 0 else |pj| + 1
      {
        ghost var up := Ascend(nodes, s, pj, R, L);
        j := nodes[j].parent;
        if pj != [] {
          assert p == up + ([R] + rs);
          pj, rs := up, [R] + rs;
        }
      }
      if j == Null {
        SuccessorTop(nodes, s, p);
        return Null;
      }
      SuccessorUp(nodes, s, p, pj, rs);
      return nodes[j].parent;
    }
  }
}
