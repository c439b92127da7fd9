/**
 * The node objects of bst.py as a table: node `k` is `nodes[k]`, a `BTNode` with its value
 * and its three links, and `Null` stands for Python's `None`.  A ghost `Tree<Ptr>` (the
 * shape) records which node sits where; `Linked` says that the links stored in the table
 * agree with the shape, and `Abs` reads the tree of values off the table.
 */
module Heap {
  import opened Trees

  /** A reference to a node: an index into the node table, or Null. */
  type Ptr = int

  const Null: Ptr := -1

  /** One `BTNode`: its value and its left, right and parent links. */
  datatype NodeRec = NodeRec(value: int, left: Ptr, right: Ptr, parent: Ptr)

  /** The node at the top of a shape, or Null for the empty shape. */
  function Top(s: Tree<Ptr>): Ptr
  {
    if s == Nil then Null else s.value
  }

  /** The value stored in node `k` (0 for a reference outside the table). */
  function Val(nodes: seq<NodeRec>, k: Ptr): int
  {
    if 0 <= k < |nodes| then nodes[k].value else 0
  }

  /**
   * Every node of `s` is in the table, its child links point at the tops of its two
   * sub-shapes, and each child's parent link points back.  The parent link of the top node
   * itself is not constrained here.
   */
  ghost predicate Linked(nodes: seq<NodeRec>, s: Tree<Ptr>)
  {
    match s
    case Nil => true
    case Node(l, i, r) =>
      && 0 <= i < |nodes|
      && nodes[i].left == Top(l)
      && nodes[i].right == Top(r)
      && Linked(nodes, l)
      && Linked(nodes, r)
      && (l != Nil ==> 0 <= l.value < |nodes| && nodes[l.value].parent == i)
      && (r != Nil ==> 0 <= r.value < |nodes| && nodes[r.value].parent == i)
  }

  /** `s` is a whole tree: linked, and its top node has no parent. */
  ghost predicate Rooted(nodes: seq<NodeRec>, s: Tree<Ptr>)
  {
    Linked(nodes, s) && (s != Nil ==> 0 <= s.value < |nodes| && nodes[s.value].parent == Null)
  }

  /** The tree of values stored at the nodes of `s`. */
  ghost function Abs(nodes: seq<NodeRec>, s: Tree<Ptr>): Tree<int>
  {
    match s
    case Nil => Nil
    case Node(l, i, r) => Node(Abs(nodes, l), Val(nodes, i), Abs(nodes, r))
  }

  /** No node occurs twice in `s`. */
  ghost predicate Unique(s: Tree<Ptr>)
  {
    match s
    case Nil => true
    case Node(l, i, r) =>
      && i !in Contents(l) && i !in Contents(r) && Contents(l) !! Contents(r)
      && Unique(l) && Unique(r)
  }

  /**
   * Table `b` keeps the values and child links of every node of `s` that table `a` has,
   * and the parent links of all of them except possibly the top one.
   */
  ghost predicate SameBelow(a: seq<NodeRec>, b: seq<NodeRec>, s: Tree<Ptr>)
  {
    forall k :: k in Contents(s) ==>
      && 0 <= k < |a| && 0 <= k < |b|
      && b[k].value == a[k].value && b[k].left == a[k].left && b[k].right == a[k].right
      && (k != Top(s) ==> b[k].parent == a[k].parent)
  }

  lemma {:induction false} LinkedInTable(nodes: seq<NodeRec>, s: Tree<Ptr>)
    requires Linked(nodes, s)
    ensures forall k :: k in Contents(s) ==> 0 <= k < |nodes|
  {
    match s
    case Nil =>
    case Node(l, i, r) =>
      LinkedInTable(nodes, l);
      LinkedInTable(nodes, r);
  }

  lemma {:induction false} ValueInAbs(nodes: seq<NodeRec>, s: Tree<Ptr>, k: Ptr)
    requires k in Contents(s)
    ensures Val(nodes, k) in Contents(Abs(nodes, s))
  {
    match s
    case Node(l, i, r) =>
      if k in Contents(l) {
        ValueInAbs(nodes, l, k);
      } else if k in Contents(r) {
        ValueInAbs(nodes, r, k);
      }
  }

  /** Values are distinct in a BST, so no node can occur twice in its shape. */
  lemma {:induction false} BstUnique(nodes: seq<NodeRec>, s: Tree<Ptr>)
    requires Bst(Abs(nodes, s))
    ensures Unique(s)
  {
    match s
    case Nil =>
    case Node(l, i, r) =>
      BstUnique(nodes, l);
      BstUnique(nodes, r);
      forall k | k in Contents(l)
        ensures k != i && k !in Contents(r)
      {
        ValueInAbs(nodes, l, k);
        if k in Contents(r) {
          ValueInAbs(nodes, r, k);
        }
      }
      if i in Contents(r) {
        ValueInAbs(nodes, r, i);
      }
  }

  lemma {:induction false} UniqueSubtree(s: Tree<Ptr>, p: Path)
    requires Unique(s)
    ensures Unique(Subtree(s, p))
    decreases |p|
  {
    if p != [] {
      UniqueSubtree(Child(s, p[0]), p[1..]);
    }
  }

  lemma {:induction false} AbsSubtree(nodes: seq<NodeRec>, s: Tree<Ptr>, p: Path)
    ensures Abs(nodes, Subtree(s, p)) == Subtree(Abs(nodes, s), p)
    decreases |p|
  {
    if p != [] {
      AbsSubtree(nodes, Child(s, p[0]), p[1..]);
    }
  }

  lemma {:induction false} AbsHeight(nodes: seq<NodeRec>, s: Tree<Ptr>)
    ensures Height(Abs(nodes, s)) == Height(s)
  {
    match s
    case Nil =>
    case Node(l, _, r) =>
      AbsHeight(nodes, l);
      AbsHeight(nodes, r);
  }

  lemma {:induction false} LinkedSubtree(nodes: seq<NodeRec>, s: Tree<Ptr>, p: Path)
    requires Linked(nodes, s)
    ensures Linked(nodes, Subtree(s, p))
    decreases |p|
  {
    if p != [] {
      LinkedSubtree(nodes, Child(s, p[0]), p[1..]);
    }
  }

  /** The node one step below position `q` has the node at `q` as its parent. */
  lemma ParentLink(nodes: seq<NodeRec>, s: Tree<Ptr>, q: Path, d: Dir)
    requires Linked(nodes, s) && Subtree(s, q + [d]) != Nil
    ensures Subtree(s, q) != Nil
    ensures 0 <= Top(Subtree(s, q)) < |nodes| && 0 <= Top(Subtree(s, q + [d])) < |nodes|
    ensures nodes[Top(Subtree(s, q + [d]))].parent == Top(Subtree(s, q))
  {
    SubtreeStep(s, q, d);
    LinkedSubtree(nodes, s, q);
  }

  /**
   * In a whole tree, a node has no parent exactly when it is the top, and otherwise its
   * parent is the node one step up its path.
   */
  lemma ParentOnPath(nodes: seq<NodeRec>, s: Tree<Ptr>, q: Path)
    requires Rooted(nodes, s) && Subtree(s, q) != Nil
    ensures 0 <= Top(Subtree(s, q)) < |nodes|
    ensures nodes[Top(Subtree(s, q))].parent == Null <==> q == []
    ensures q != [] ==> Subtree(s, q[..|q| - 1]) != Nil
    ensures q != [] ==> nodes[Top(Subtree(s, q))].parent == Top(Subtree(s, q[..|q| - 1]))
  {
    LinkedSubtree(nodes, s, q);
    if q != [] {
      var up := q[..|q| - 1];
      assert q == up + [q[|q| - 1]];
      ParentLink(nodes, s, up, q[|q| - 1]);
    }
  }

  /** Changing nodes outside `s`, or only the parent link of its top, leaves `s` as it was. */
  lemma {:induction false} LinkedFrame(a: seq<NodeRec>, b: seq<NodeRec>, s: Tree<Ptr>)
    requires Linked(a, s) && Unique(s) && SameBelow(a, b, s)
    ensures Linked(b, s) && Abs(b, s) == Abs(a, s)
  {
    match s
    case Nil =>
    case Node(l, i, r) =>
      assert SameBelow(a, b, l);
      assert SameBelow(a, b, r);
      LinkedFrame(a, b, l);
      LinkedFrame(a, b, r);
  }

  /**
   * Table `b` hangs a rebuilt left part `sl` under the top node of `s`, made of nodes of the
   * old left part or of nodes new to the table, and leaves every other node of `a` alone:
   * the result is linked and reads as `sl` beside the old right part.
   */
  lemma {:induction false} GraftLeft(a: seq<NodeRec>, b: seq<NodeRec>, s: Tree<Ptr>, sl: Tree<Ptr>)
    requires Linked(a, s) && Unique(s) && s != Nil && Linked(b, sl)
    requires forall k :: k in Contents(sl) ==> k in Contents(s.left) || |a| <= k
    requires |a| <= |b| && b[s.value].left == Top(sl) && b[s.value].right == a[s.value].right
    requires sl != Nil ==> 0 <= sl.value < |b| && b[sl.value].parent == s.value
    requires forall k :: 0 <= k < |a| && k != s.value && k !in Contents(s.left) ==> b[k] == a[k]
    ensures Linked(b, Node(sl, s.value, s.right))
    ensures Abs(b, Node(sl, s.value, s.right)) == Node(Abs(b, sl), Val(b, s.value), Abs(a, s.right))
  {
    var i, r := s.value, s.right;
    assert s == Node(s.left, i, r);
    assert i !in Contents(r) && Contents(s.left) !! Contents(r);
    LinkedInTable(a, s);
    forall k | k in Contents(r)
      ensures 0 <= k < |a| && k != i && k !in Contents(s.left) && k !in Contents(sl)
    {
      assert k in Contents(s);
    }
    assert SameBelow(a, b, r);
    LinkedFrame(a, b, r);
    assert r != Nil ==> b[r.value] == a[r.value];
  }

  /** The mirror image of GraftLeft. */
  lemma {:induction false} GraftRight(a: seq<NodeRec>, b: seq<NodeRec>, s: Tree<Ptr>, sr: Tree<Ptr>)
    requires Linked(a, s) && Unique(s) && s != Nil && Linked(b, sr)
    requires forall k :: k in Contents(sr) ==> k in Contents(s.right) || |a| <= k
    requires |a| <= |b| && b[s.value].right == Top(sr) && b[s.value].left == a[s.value].left
    requires sr != Nil ==> 0 <= sr.value < |b| && b[sr.value].parent == s.value
    requires forall k :: 0 <= k < |a| && k != s.value && k !in Contents(s.right) ==> b[k] == a[k]
    ensures Linked(b, Node(s.left, s.value, sr))
    ensures Abs(b, Node(s.left, s.value, sr)) == Node(Abs(a, s.left), Val(b, s.value), Abs(b, sr))
  {
    var i, l := s.value, s.left;
    assert s == Node(l, i, s.right);
    assert i !in Contents(l) && Contents(l) !! Contents(s.right);
    LinkedInTable(a, s);
    forall k | k in Contents(l)
      ensures 0 <= k < |a| && k != i && k !in Contents(s.right) && k !in Contents(sr)
    {
      assert k in Contents(s);
    }
    assert SameBelow(a, b, l);
    LinkedFrame(a, b, l);
    assert l != Nil ==> b[l.value] == a[l.value];
  }

  /** Giving the top node of `s` a new parent, and changing only nodes outside `s`, keeps `s`. */
  lemma {:induction false} Relinked(c: seq<NodeRec>, b: seq<NodeRec>, s: Tree<Ptr>, i: Ptr)
    requires Linked(c, s) && Unique(s) && i !in Contents(s) && |c| == |b|
    requires forall k :: 0 <= k < |c| && k != i && k != Top(s) ==> b[k] == c[k]
    requires s != Nil ==> 0 <= s.value < |c| && b[s.value] == c[s.value].(parent := i)
    ensures Linked(b, s) && Abs(b, s) == Abs(c, s)
  {
    LinkedInTable(c, s);
    assert SameBelow(c, b, s);
    LinkedFrame(c, b, s);
  }
}
