/**
 * bst.py's `BSTree` and the recursive helpers behind it.  The tree object holds the node
 * table (every `BTNode` created so far) and the root reference; `Valid` is what it keeps
 * true: the links agree with one shape whose root has no parent, and the values form a
 * BST.  The helpers `_insert` and `_delete` take the table and hand back the changed one.
 */
module BSTrees {
  import opened Trees
  import opened Heap
  import opened Nodes
  import opened Queries
  import opened Neighbours

  class BSTree {
    var nodes: seq<NodeRec>
    var root: Ptr
    /** Which node sits where in the tree reachable from `root`. */
    ghost var shape: Tree<Ptr>

    ghost predicate Valid()
      reads this
    {
      root == Top(shape) && Rooted(nodes, shape) && Bst(Abs(nodes, shape))
    }

    /** The tree of values held. */
    ghost function Model(): Tree<int>
      reads this
    {
      Abs(nodes, shape)
    }

    /** `BSTree()`: the empty tree. */
    constructor ()
      ensures Valid() && Model() == Nil && nodes == []
    {
      nodes := [];
      root := Null;
      shape := Nil;
    }

    /** `BSTree(BTNode(v))`: a tree whose root is a single new node. */
    constructor Singleton(v: int)
      ensures Valid() && Model() == Node(Nil, v, Nil)
    {
      nodes := [NodeRec(v, Null, Null, Null)];
      root := 0;
      shape := Node(Nil, 0, Nil);
      new;
      assert Linked(nodes, Nil);
    }

    /** `BSTree.height`: 0 for the empty tree, otherwise the root's height. */
    function Height(): (h: nat)
      reads this
      requires Valid()
      ensures h == Trees.Height(Model())
      ensures h == 0 <==> Model() == Nil
    {
      AbsHeight(nodes, shape);
      if root == Null then 0 else NodeHeight(nodes, root, shape)
    }

    /** `BSTree.search`: a node holding `v`, or Null when `v` is not stored. */
    function Search(v: int): (r: Ptr)
      reads this
      requires Valid()
      ensures r == Null <==> v !in Contents(Model())
      ensures r != Null ==> r in Contents(shape) && 0 <= r < |nodes| && nodes[r].value == v
    {
      SearchFrom(nodes, root, v, shape)
    }

    /** `BSTree.range`: the nodes whose values lie in [lo, hi], in ascending order of value. */
    function Range(lo: int, hi: int): (r: seq<Ptr>)
      reads this
      requires Valid()
      ensures forall k :: 0 <= k < |r| ==> r[k] in Contents(shape)
      ensures Ascending(Values(nodes, r))
      ensures forall x :: x in Values(nodes, r) <==> x in Contents(Model()) && lo <= x <= hi
    {
      RangeFrom(nodes, root, lo, hi, shape)
    }

    /** `BSTree.insert`: a new root node for the empty tree, `_insert` otherwise. */
    method Insert(v: int)
      requires Valid()
      modifies this
      ensures Valid()
      ensures Model() == Trees.Insert(old(Model()), v)
    {
      InsertBst(Model(), v);
      if root == Null {
        assert shape == Nil;
        root := |nodes|;
        nodes := nodes + [NodeRec(v, Null, Null, Null)];
        shape := Node(Nil, root, Nil);
        assert Linked(nodes, Nil);
        assert Abs(nodes, shape) == Node(Nil, v, Nil);
        return;
      }
      nodes, shape := InsertAt(nodes, root, v, shape);
    }

    /**
     * `BSTree.delete`: the root becomes whatever `_delete` returns.  The new root's parent
     * link is cleared, which keeps `Valid`; bst.py itself leaves it as it was.
     */
    method Delete(v: int)
      requires Valid()
      modifies this
      ensures Valid()
      ensures Model() == Trees.Delete(old(Model()), v)
    {
      DeleteBst(Model(), v);
      var table, n;
      ghost var s';
      table, n, s' := DeleteAt(nodes, shape, root, v, []);
      BstUnique(table, s');
      if n != Null {
        LinkedInTable(table, s');
        ghost var c := table;
        table := table[n := table[n].(parent := Null)];
        assert SameBelow(c, table, s');
        LinkedFrame(c, table, s');
      }
      nodes, root, shape := table, n, s';
    }
  }

  /**
   * `_insert` below node `i`, the top of `s`: stop at a node holding `v`; otherwise descend
   * by comparison and hang a new leaf where the descent runs out, linked both ways.  Only
   * the nodes of `s` change, and the new node is the one appended to the table.
   */
  method InsertAt(nodes: seq<NodeRec>, i: Ptr, v: int, ghost s: Tree<Ptr>)
    returns (nodes': seq<NodeRec>, ghost s': Tree<Ptr>)
    requires Linked(nodes, s) && s != Nil && Top(s) == i && Bst(Abs(nodes, s))
    ensures Linked(nodes', s') && s' != Nil && Top(s') == i
    ensures Abs(nodes', s') == Trees.Insert(Abs(nodes, s), v)
    ensures |nodes| <= |nodes'| <= |nodes| + 1
    ensures forall k :: k in Contents(s') ==> k in Contents(s) || |nodes| <= k < |nodes'|
    ensures forall k :: 0 <= k < |nodes| && k !in Contents(s) ==> nodes'[k] == nodes[k]
    ensures nodes'[i].parent == nodes[i].parent
    decreases s
  {
    BstUnique(nodes, s);
    LinkedInTable(nodes, s);
    if nodes[i].value == v {
      assert Abs(nodes, s).value == v;
      return nodes, s;
    }
    if v < nodes[i].value {
      ghost var sl;
      if nodes[i].left != Null {
        nodes', sl := InsertAt(nodes, nodes[i].left, v, s.left);
      } else {
        var n := |nodes|;
        nodes' := SetLeft(nodes + [NodeRec(v, Null, Null, Null)], i, n);
        sl := Node(Nil, n, Nil);
        assert Linked(nodes', Nil);
      }
      GraftLeft(nodes, nodes', s, sl);
      s' := Node(sl, i, s.right);
    } else {
      ghost var sr;
      if nodes[i].right != Null {
        nodes', sr := InsertAt(nodes, nodes[i].right, v, s.right);
      } else {
        var n := |nodes|;
        nodes' := SetRight(nodes + [NodeRec(v, Null, Null, Null)], i, n);
        sr := Node(Nil, n, Nil);
        assert Linked(nodes', Nil);
      }
      GraftRight(nodes, nodes', s, sr);
      s' := Node(s.left, i, sr);
    }
  }

  /**
   * `_delete` on the subtree at position `q` of a whole BST `shape`, whose top node is `i`:
   * returns the changed table and the top node of what remains.  A node holding `v` with
   * two children keeps its place (see DeleteTwoChildren), a node with one child gives way
   * to that child, and a leaf to nothing.  Only the nodes of that subtree change.
   */
  method DeleteAt(nodes: seq<NodeRec>, ghost shape: Tree<Ptr>, i: Ptr, v: int, ghost q: Path)
    returns (nodes': seq<NodeRec>, n: Ptr, ghost s': Tree<Ptr>)
    requires Rooted(nodes, shape) && Bst(Abs(nodes, shape)) && Top(Subtree(shape, q)) == i
    ensures |nodes'| == |nodes|
    ensures Linked(nodes', s') && Top(s') == n
    ensures Contents(s') <= Contents(Subtree(shape, q))
    ensures Abs(nodes', s') == Trees.Delete(Abs(nodes, Subtree(shape, q)), v)
    ensures forall k :: 0 <= k < |nodes| && k !in Contents(Subtree(shape, q)) ==> nodes'[k] == nodes[k]
    ensures 0 <= i < |nodes| && nodes[i].value == v && nodes[i].right == Null ==> nodes' == nodes && n == nodes[i].left
    decreases Trees.Height(Subtree(shape, q)), 3
  {
    ghost var s := Subtree(shape, q);
    AtSubtree(nodes, shape, q);
    if i == Null {
      return nodes, Null, Nil;
    }
    ghost var l, r := s.left, s.right;
    ghost var x := nodes[i].value;
    assert i in Contents(shape);
    assert Abs(nodes, s) == Node(Abs(nodes, l), x, Abs(nodes, r));
    if nodes[i].value > v {
      var c, m;
      ghost var sl;
      c, m, sl := DeleteAt(nodes, shape, nodes[i].left, v, q + [L]);
      DeleteBst(Abs(nodes, l), v);
      nodes' := SetLeft(c, i, m);
      RejoinLeft(nodes, c, nodes', s, sl);
      n, s' := i, Node(sl, i, r);
      DeleteStep(Abs(nodes, s), v);
    } else if nodes[i].value < v {
      var c, m;
      ghost var sr;
      c, m, sr := DeleteAt(nodes, shape, nodes[i].right, v, q + [R]);
      DeleteBst(Abs(nodes, r), v);
      nodes' := SetRight(c, i, m);
      RejoinRight(nodes, c, nodes', s, sr);
      n, s' := i, Node(l, i, sr);
      DeleteStep(Abs(nodes, s), v);
    } else {
      nodes', n, s' := RemoveAt(nodes, shape, i, q);
    }
  }

  /**
   * The branch of `_delete` that has found the node `i` holding the value: with two children
   * it stays (see DeleteTwoChildren), with one child that child takes its place, and a
   * leaf gives way to nothing.
   */
  method RemoveAt(nodes: seq<NodeRec>, ghost shape: Tree<Ptr>, i: Ptr, ghost q: Path)
    returns (nodes': seq<NodeRec>, n: Ptr, ghost s': Tree<Ptr>)
    requires Rooted(nodes, shape) && Bst(Abs(nodes, shape))
    requires Subtree(shape, q) != Nil && Top(Subtree(shape, q)) == i && 0 <= i < |nodes|
    ensures |nodes'| == |nodes|
    ensures Linked(nodes', s') && Top(s') == n
    ensures Contents(s') <= Contents(Subtree(shape, q))
    ensures Abs(nodes', s') == Trees.Delete(Abs(nodes, Subtree(shape, q)), nodes[i].value)
    ensures forall k :: 0 <= k < |nodes| && k !in Contents(Subtree(shape, q)) ==> nodes'[k] == nodes[k]
    ensures nodes[i].left == Null ==> nodes' == nodes && n == nodes[i].right
    ensures nodes[i].right == Null ==> nodes' == nodes && n == nodes[i].left
    decreases Trees.Height(Subtree(shape, q)), 2
  {
    ghost var s := Subtree(shape, q);
    AtSubtree(nodes, shape, q);
    ghost var l, r := s.left, s.right;
    ghost var v := nodes[i].value;
    assert Abs(nodes, s) == Node(Abs(nodes, l), v, Abs(nodes, r));
    if nodes[i].right != Null && nodes[i].left != Null {
      nodes', s' := DeleteTwoChildren(nodes, shape, i, q);
      n := i;
    } else if nodes[i].right != Null {
      nodes', n, s' := nodes, nodes[i].right, r;
      assert Abs(nodes, r) != Nil;
      DeleteStep(Abs(nodes, s), v);
    } else if nodes[i].left != Null {
      nodes', n, s' := nodes, nodes[i].left, l;
      assert Abs(nodes, r) == Nil && Abs(nodes, l) != Nil;
      DeleteStep(Abs(nodes, s), v);
    } else {
      nodes', n, s' := nodes, Null, Nil;
      assert Abs(nodes, r) == Nil && Abs(nodes, l) == Nil;
      DeleteStep(Abs(nodes, s), v);
    }
  }

  /**
   * The two-children case of `_delete`, for node `i` at position `q`: the node takes the
   * value of its in-order predecessor when its right subtree is not taller than its left
   * one, of its in-order successor otherwise.
   */
  method DeleteTwoChildren(nodes: seq<NodeRec>, ghost shape: Tree<Ptr>, i: Ptr, ghost q: Path)
    returns (nodes': seq<NodeRec>, ghost s': Tree<Ptr>)
    requires Rooted(nodes, shape) && Bst(Abs(nodes, shape))
    requires Subtree(shape, q) != Nil && Top(Subtree(shape, q)) == i
    requires 0 <= i < |nodes| && nodes[i].left != Null && nodes[i].right != Null
    ensures |nodes'| == |nodes|
    ensures Linked(nodes', s') && Top(s') == i
    ensures Contents(s') <= Contents(Subtree(shape, q))
    ensures Abs(nodes', s') == Trees.Delete(Abs(nodes, Subtree(shape, q)), nodes[i].value)
    ensures forall k :: 0 <= k < |nodes| && k !in Contents(Subtree(shape, q)) ==> nodes'[k] == nodes[k]
    decreases Trees.Height(Subtree(shape, q)), 1
  {
    ghost var s := Subtree(shape, q);
    LinkedSubtree(nodes, shape, q);
    AbsHeight(nodes, s.left);
    AbsHeight(nodes, s.right);
    if NodeHeight(nodes, nodes[i].right, s.right) <= NodeHeight(nodes, nodes[i].left, s.left) {
      nodes', s' := TakePredecessor(nodes, shape, i, q);
    } else {
      nodes', s' := TakeSuccessor(nodes, shape, i, q);
    }
  }

  /**
   * Node `i`, with two children, takes the value of its in-order predecessor, and that value
   * is deleted from its left subtree.
   */
  method TakePredecessor(nodes: seq<NodeRec>, ghost shape: Tree<Ptr>, i: Ptr, ghost q: Path)
    returns (nodes': seq<NodeRec>, ghost s': Tree<Ptr>)
    requires Rooted(nodes, shape) && Bst(Abs(nodes, shape))
    requires Subtree(shape, q) != Nil && Top(Subtree(shape, q)) == i
    requires 0 <= i < |nodes| && nodes[i].left != Null && nodes[i].right != Null
    requires Trees.Height(Subtree(shape, q).right) <= Trees.Height(Subtree(shape, q).left)
    ensures |nodes'| == |nodes|
    ensures Linked(nodes', s') && Top(s') == i
    ensures Contents(s') <= Contents(Subtree(shape, q))
    ensures Abs(nodes', s') == Trees.Delete(Abs(nodes, Subtree(shape, q)), nodes[i].value)
    ensures forall k :: 0 <= k < |nodes| && k !in Contents(Subtree(shape, q)) ==> nodes'[k] == nodes[k]
    decreases Trees.Height(Subtree(shape, q)), 0
  {
    ghost var s := Subtree(shape, q);
    AtSubtree(nodes, shape, q);
    ghost var l, r := s.left, s.right;
    ghost var v := nodes[i].value;
    assert Abs(nodes, s) == Node(Abs(nodes, l), v, Abs(nodes, r));
    AbsHeight(nodes, l);
    AbsHeight(nodes, r);
    var w := PredecessorValue(nodes, shape, i, q);
    var c, m;
    ghost var sl;
    c, m, sl := DeleteAt(nodes, shape, nodes[i].left, w, q + [L]);
    DeleteBst(Abs(nodes, l), w);
    nodes' := SetLeft(c, i, m);
    nodes' := nodes'[i := nodes'[i].(value := w)];
    RejoinLeft(nodes, c, nodes', s, sl);
    s' := Node(sl, i, r);
    DeleteByPredecessor(Abs(nodes, s), Abs(c, sl), w);
  }

  /**
   * Node `i`, with two children, takes the value of its in-order successor, and that value
   * is deleted from its right subtree.
   */
  method TakeSuccessor(nodes: seq<NodeRec>, ghost shape: Tree<Ptr>, i: Ptr, ghost q: Path)
    returns (nodes': seq<NodeRec>, ghost s': Tree<Ptr>)
    requires Rooted(nodes, shape) && Bst(Abs(nodes, shape))
    requires Subtree(shape, q) != Nil && Top(Subtree(shape, q)) == i
    requires 0 <= i < |nodes| && nodes[i].left != Null && nodes[i].right != Null
    requires Trees.Height(Subtree(shape, q).left) < Trees.Height(Subtree(shape, q).right)
    ensures |nodes'| == |nodes|
    ensures Linked(nodes', s') && Top(s') == i
    ensures Contents(s') <= Contents(Subtree(shape, q))
    ensures Abs(nodes', s') == Trees.Delete(Abs(nodes, Subtree(shape, q)), nodes[i].value)
    ensures forall k :: 0 <= k < |nodes| && k !in Contents(Subtree(shape, q)) ==> nodes'[k] == nodes[k]
    decreases Trees.Height(Subtree(shape, q)), 0
  {
    ghost var s := Subtree(shape, q);
    AtSubtree(nodes, shape, q);
    ghost var l, r := s.left, s.right;
    ghost var v := nodes[i].value;
    assert Abs(nodes, s) == Node(Abs(nodes, l), v, Abs(nodes, r));
    AbsHeight(nodes, l);
    AbsHeight(nodes, r);
    var w := SuccessorValue(nodes, shape, i, q);
    var c, m;
    ghost var sr;
    c, m, sr := DeleteAt(nodes, shape, nodes[i].right, w, q + [R]);
    DeleteBst(Abs(nodes, r), w);
    nodes' := SetRight(c, i, m);
    nodes' := nodes'[i := nodes'[i].(value := w)];
    RejoinRight(nodes, c, nodes', s, sr);
    s' := Node(l, i, sr);
    DeleteBySuccessor(Abs(nodes, s), Abs(c, sr), w);
  }

  /** `in_order_predecessor(root).value` for a node with a left child: the largest value below it. */
  method PredecessorValue(nodes: seq<NodeRec>, ghost shape: Tree<Ptr>, i: Ptr, ghost q: Path)
    returns (w: int)
    requires Rooted(nodes, shape) && Bst(Abs(nodes, shape))
    requires Subtree(shape, q) != Nil && Top(Subtree(shape, q)) == i
    requires Subtree(shape, q).left != Nil
    ensures w == Max(Abs(nodes, Subtree(shape, q).left))
  {
    AtSubtree(nodes, shape, q);
    var p := InOrderPredecessor(nodes, shape, i);
    PredecessorIsMaxLeft(nodes, shape, q, p);
    w := nodes[p].value;
  }

  /** `in_order_successor(root).value` for a node with a right child: the smallest value above it. */
  method SuccessorValue(nodes: seq<NodeRec>, ghost shape: Tree<Ptr>, i: Ptr, ghost q: Path)
    returns (w: int)
    requires Rooted(nodes, shape) && Bst(Abs(nodes, shape))
    requires Subtree(shape, q) != Nil && Top(Subtree(shape, q)) == i
    requires Subtree(shape, q).right != Nil
    ensures w == Min(Abs(nodes, Subtree(shape, q).right))
  {
    AtSubtree(nodes, shape, q);
    var p := InOrderSuccessor(nodes, shape, i);
    SuccessorIsMinRight(nodes, shape, q, p);
    w := nodes[p].value;
  }

  /** One step of Delete at the top of a non-empty tree. */
  lemma DeleteStep(t: Tree<int>, v: int)
    requires t != Nil
    ensures v < t.value ==> Delete(t, v) == Node(Delete(t.left, v), t.value, t.right)
    ensures t.value < v ==> Delete(t, v) == Node(t.left, t.value, Delete(t.right, v))
    ensures t.value == v && t.right != Nil && t.left == Nil ==> Delete(t, v) == t.right
    ensures t.value == v && t.right == Nil ==> Delete(t, v) == t.left
  {
  }

  /** Deleting the value of a node whose predecessor `w` moves up into its place. */
  lemma DeleteByPredecessor(t: Tree<int>, l': Tree<int>, w: int)
    requires t != Nil && t.left != Nil && t.right != Nil && Height(t.right) <= Height(t.left)
    requires w == Max(t.left) && l' == Delete(t.left, w)
    ensures Delete(t, t.value) == Node(l', w, t.right)
  {
  }

  /** Deleting the value of a node whose successor `w` moves up into its place. */
  lemma DeleteBySuccessor(t: Tree<int>, r': Tree<int>, w: int)
    requires t != Nil && t.left != Nil && t.right != Nil && Height(t.left) < Height(t.right)
    requires w == Min(t.right) && r' == Delete(t.right, w)
    ensures Delete(t, t.value) == Node(t.left, w, r')
  {
  }

  /** What `_delete` knows about the subtree at position `q` of a valid tree. */
  lemma AtSubtree(nodes: seq<NodeRec>, shape: Tree<Ptr>, q: Path)
    requires Linked(nodes, shape) && Bst(Abs(nodes, shape))
    ensures Linked(nodes, Subtree(shape, q)) && Unique(Subtree(shape, q))
    ensures Bst(Abs(nodes, Subtree(shape, q)))
    ensures forall k :: k in Contents(Subtree(shape, q)) ==> 0 <= k < |nodes|
    ensures Contents(Subtree(shape, q)) <= Contents(shape)
    ensures Subtree(shape, q + [L]) == Child(Subtree(shape, q), L)
    ensures Subtree(shape, q + [R]) == Child(Subtree(shape, q), R)
  {
    BstUnique(nodes, shape);
    UniqueSubtree(shape, q);
    LinkedSubtree(nodes, shape, q);
    AbsSubtree(nodes, shape, q);
    BstSubtree(Abs(nodes, shape), q);
    LinkedInTable(nodes, Subtree(shape, q));
    SubtreeStep(shape, q, L);
    SubtreeStep(shape, q, R);
    SubtreeContents(shape, q);
  }

  /**
   * `_delete` rebuilt the left part of `s` as `sl` (table `a` became `c`), then `set_left`
   * hung it back under the top node of `s`, which may also have taken a new value (table `c`
   * became `b`): the subtree is linked again and reads as `sl` beside the old right part.
   */
  lemma RejoinLeft(a: seq<NodeRec>, c: seq<NodeRec>, b: seq<NodeRec>, s: Tree<Ptr>, sl: Tree<Ptr>)
    requires Linked(a, s) && Unique(s) && s != Nil
    requires Linked(c, sl) && Bst(Abs(c, sl)) && Contents(sl) <= Contents(s.left)
    requires |c| == |a| && forall k :: 0 <= k < |c| && k !in Contents(s.left) ==> c[k] == a[k]
    requires |b| == |c|
    requires b[s.value] == c[s.value].(left := Top(sl), value := b[s.value].value)
    requires sl != Nil ==> 0 <= sl.value < |c| && b[sl.value] == c[sl.value].(parent := s.value)
    requires forall k :: 0 <= k < |c| && k != s.value && k != Top(sl) ==> b[k] == c[k]
    ensures Linked(b, Node(sl, s.value, s.right))
    ensures Abs(b, Node(sl, s.value, s.right)) == Node(Abs(c, sl), b[s.value].value, Abs(a, s.right))
    ensures forall k :: 0 <= k < |b| && k !in Contents(s) ==> b[k] == a[k]
  {
    BstUnique(c, sl);
    assert s == Node(s.left, s.value, s.right);
    Relinked(c, b, sl, s.value);
    GraftLeft(a, b, s, sl);
  }

  /** The mirror image of RejoinLeft, for `set_right`. */
  lemma RejoinRight(a: seq<NodeRec>, c: seq<NodeRec>, b: seq<NodeRec>, s: Tree<Ptr>, sr: Tree<Ptr>)
    requires Linked(a, s) && Unique(s) && s != Nil
    requires Linked(c, sr) && Bst(Abs(c, sr)) && Contents(sr) <= Contents(s.right)
    requires |c| == |a| && forall k :: 0 <= k < |c| && k !in Contents(s.right) ==> c[k] == a[k]
    requires |b| == |c|
    requires b[s.value] == c[s.value].(right := Top(sr), value := b[s.value].value)
    requires sr != Nil ==> 0 <= sr.value < |c| && b[sr.value] == c[sr.value].(parent := s.value)
    requires forall k :: 0 <= k < |c| && k != s.value && k != Top(sr) ==> b[k] == c[k]
    ensures Linked(b, Node(s.left, s.value, sr))
    ensures Abs(b, Node(s.left, s.value, sr)) == Node(Abs(a, s.left), b[s.value].value, Abs(c, sr))
    ensures forall k :: 0 <= k < |b| && k !in Contents(s) ==> b[k] == a[k]
  {
    BstUnique(c, sr);
    assert s == Node(s.left, s.value, s.right);
    Relinked(c, b, sr, s.value);
    GraftRight(a, b, s, sr);
  }

  /** The predecessor of a node with a left child is the largest value of that left subtree. */
  lemma PredecessorIsMaxLeft(nodes: seq<NodeRec>, s: Tree<Ptr>, q: Path, p: Ptr)
    requires Linked(nodes, s) && Bst(Abs(nodes, s))
    requires Subtree(s, q) != Nil && Subtree(s, q).left != Nil
    requires p == Null || p in Contents(s)
    requires p != Null ==> IsPredecessor(Abs(nodes, s), Val(nodes, Top(Subtree(s, q))), Val(nodes, p))
    requires p == Null ==> NoneBelow(Abs(nodes, s), Val(nodes, Top(Subtree(s, q))))
    ensures 0 <= p < |nodes| && Val(nodes, p) == Max(Abs(nodes, Subtree(s, q).left))
  {
    LinkedInTable(nodes, s);
    AtPosition(nodes, s, q);
    PredecessorBelow(Abs(nodes, s), q);
  }

  /** The successor of a node with a right child is the smallest value of that right subtree. */
  lemma SuccessorIsMinRight(nodes: seq<NodeRec>, s: Tree<Ptr>, q: Path, p: Ptr)
    requires Linked(nodes, s) && Bst(Abs(nodes, s))
    requires Subtree(s, q) != Nil && Subtree(s, q).right != Nil
    requires p == Null || p in Contents(s)
    requires p != Null ==> IsSuccessor(Abs(nodes, s), Val(nodes, Top(Subtree(s, q))), Val(nodes, p))
    requires p == Null ==> NoneAbove(Abs(nodes, s), Val(nodes, Top(Subtree(s, q))))
    ensures 0 <= p < |nodes| && Val(nodes, p) == Min(Abs(nodes, Subtree(s, q).right))
  {
    LinkedInTable(nodes, s);
    AtPosition(nodes, s, q);
    SuccessorBelow(Abs(nodes, s), q);
  }
}
