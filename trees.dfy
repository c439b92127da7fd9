/**
 * Value-level model of the binary search tree of bst.py.
 *
 * A `Tree<int>` is the tree of values a `BSTree` holds; a `Tree<Ptr>` (see heap.dfy) is the
 * same tree with each node replaced by its identity.  This module states the BST property,
 * the value-level effect of `_insert` and `_delete`, and what "in-order predecessor" and
 * "in-order successor" mean, and proves the facts the imperative code relies on.
 */
module Trees {

  datatype Tree<T> = Nil | Node(left: Tree<T>, value: T, right: Tree<T>)

  /** A step from a node to one of its children. */
  datatype Dir = L | R

  /** The steps from the root of a tree down to one of its nodes. */
  type Path = seq<Dir>

  ghost function Contents<T>(t: Tree<T>): set<T>
  {
    match t
    case Nil => {}
    case Node(l, x, r) => Contents(l) + {x} + Contents(r)
  }

  /** Height counted in nodes: the empty tree has height 0 and a leaf height 1. */
  function Height<T>(t: Tree<T>): nat
  {
    match t
    case Nil => 0
    case Node(l, _, r) => 1 + Larger(Height(l), Height(r))
  }

  function Larger(a: nat, b: nat): nat
  {
    if a < b then b else a
  }

  // ---------------------------------------------------------------------------------------
  // Positions in a tree

  function Child<T>(t: Tree<T>, d: Dir): Tree<T>
  {
    if t == Nil then Nil else if d == L then t.left else t.right
  }

  /** The subtree reached by following `p` from the root (Nil once the path leaves the tree). */
  function Subtree<T>(t: Tree<T>, p: Path): Tree<T>
    decreases |p|
  {
    if p == [] then t else Subtree(Child(t, p[0]), p[1..])
  }

  ghost predicate AllDir(p: Path, d: Dir)
  {
    forall k :: 0 <= k < |p| ==> p[k] == d
  }

  lemma {:induction false} SubtreeNil<T>(p: Path)
    ensures Subtree<T>(Nil, p) == Nil
    decreases |p|
  {
    if p != [] {
      SubtreeNil<T>(p[1..]);
    }
  }

  lemma {:induction false} SubtreeAppend<T>(t: Tree<T>, p: Path, q: Path)
    ensures Subtree(t, p + q) == Subtree(Subtree(t, p), q)
    decreases |p|
  {
    if p == [] {
      assert p + q == q;
    } else {
      assert (p + q)[0] == p[0];
      assert (p + q)[1..] == p[1..] + q;
      SubtreeAppend(Child(t, p[0]), p[1..], q);
    }
  }

  lemma SubtreeStep<T>(t: Tree<T>, p: Path, d: Dir)
    ensures Subtree(t, p + [d]) == Child(Subtree(t, p), d)
  {
    SubtreeAppend(t, p, [d]);
    assert Subtree(Subtree(t, p), [d]) == Subtree(Child(Subtree(t, p), d), []);
  }

  lemma {:induction false} SubtreeContents<T>(t: Tree<T>, p: Path)
    ensures Contents(Subtree(t, p)) <= Contents(t)
    decreases |p|
  {
    if p != [] {
      SubtreeContents(Child(t, p[0]), p[1..]);
    }
  }

  /** Every node of a tree is reached by some path. */
  lemma {:induction false} PathTo<T>(t: Tree<T>, x: T) returns (p: Path)
    requires x in Contents(t)
    ensures Subtree(t, p) != Nil && Subtree(t, p).value == x
  {
    var l, y, r := t.left, t.value, t.right;
    if x == y {
      p := [];
    } else if x in Contents(l) {
      var q := PathTo(l, x);
      p := [L] + q;
      assert p[1..] == q;
    } else {
      var q := PathTo(r, x);
      p := [R] + q;
      assert p[1..] == q;
    }
  }

  // ---------------------------------------------------------------------------------------
  // The BST property

  /** For every node with value k, the left subtree holds values below k and the right one above. */
  ghost predicate Bst(t: Tree<int>)
  {
    match t
    case Nil => true
    case Node(l, x, r) =>
      && Bst(l) && Bst(r)
      && (forall y :: y in Contents(l) ==> y < x)
      && (forall y :: y in Contents(r) ==> x < y)
  }

  lemma {:induction false} BstSubtree(t: Tree<int>, p: Path)
    requires Bst(t)
    ensures Bst(Subtree(t, p))
    decreases |p|
  {
    if p != [] {
      BstSubtree(Child(t, p[0]), p[1..]);
    }
  }

  /** The right-most value: what `in_order_predecessor` finds below a left child. */
  function Max(t: Tree<int>): (m: int)
    requires t != Nil
    ensures m in Contents(t)
  {
    if t.right == Nil then t.value else Max(t.right)
  }

  lemma {:induction false} MaxIsLargest(t: Tree<int>)
    requires t != Nil && Bst(t)
    ensures forall y :: y in Contents(t) ==> y <= Max(t)
  {
    if t.right != Nil {
      MaxIsLargest(t.right);
    }
  }

  /** The left-most value: what `in_order_successor` finds below a right child. */
  function Min(t: Tree<int>): (m: int)
    requires t != Nil
    ensures m in Contents(t)
  {
    if t.left == Nil then t.value else Min(t.left)
  }

  lemma {:induction false} MinIsSmallest(t: Tree<int>)
    requires t != Nil && Bst(t)
    ensures forall y :: y in Contents(t) ==> Min(t) <= y
  {
    if t.left != Nil {
      MinIsSmallest(t.left);
    }
  }

  /** Following right links from the root until there is none ends at the maximum. */
  lemma {:induction false} RightSpineEndsAtMax(t: Tree<int>, p: Path)
    requires AllDir(p, R)
    requires Subtree(t, p) != Nil && Subtree(t, p).right == Nil
    ensures t != Nil && Subtree(t, p).value == Max(t)
    decreases |p|
  {
    if p == [] {
    } else {
      SubtreeNil<int>(p[1..]);
      RightSpineEndsAtMax(t.right, p[1..]);
    }
  }

  /** Following left links from the root until there is none ends at the minimum. */
  lemma {:induction false} LeftSpineEndsAtMin(t: Tree<int>, p: Path)
    requires AllDir(p, L)
    requires Subtree(t, p) != Nil && Subtree(t, p).left == Nil
    ensures t != Nil && Subtree(t, p).value == Min(t)
    decreases |p|
  {
    if p == [] {
    } else {
      SubtreeNil<int>(p[1..]);
      LeftSpineEndsAtMin(t.left, p[1..]);
    }
  }

  // ---------------------------------------------------------------------------------------
  // Insertion (bst.py `BSTree.insert` / `_insert`): descend by comparison, add a leaf,
  // ignore a value that is already present.

  function Insert(t: Tree<int>, v: int): Tree<int>
  {
    match t
    case Nil => Node(Nil, v, Nil)
    case Node(l, x, r) =>
      if x == v then t
      else if v < x then Node(Insert(l, v), x, r)
      else Node(l, x, Insert(r, v))
  }

  lemma {:induction false} InsertContents(t: Tree<int>, v: int)
    ensures Contents(Insert(t, v)) == Contents(t) + {v}
  {
    match t
    case Nil =>
    case Node(l, x, r) =>
      if x != v {
        if v < x { InsertContents(l, v); } else { InsertContents(r, v); }
      }
  }

  lemma {:induction false} InsertBst(t: Tree<int>, v: int)
    requires Bst(t)
    ensures Bst(Insert(t, v))
  {
    match t
    case Nil =>
    case Node(l, x, r) =>
      if x != v {
        if v < x {
          InsertBst(l, v);
          InsertContents(l, v);
        } else {
          InsertBst(r, v);
          InsertContents(r, v);
        }
      }
  }

  /** Inserting a value that is already stored returns the very same tree. */
  lemma {:induction false} InsertPresent(t: Tree<int>, v: int)
    requires Bst(t) && v in Contents(t)
    ensures Insert(t, v) == t
  {
    match t
    case Node(l, x, r) =>
      if v < x {
        InsertPresent(l, v);
      } else if x < v {
        InsertPresent(r, v);
      }
  }

  /** The node that receives the new value is a fresh leaf: the height grows by at most one. */
  lemma {:induction false} InsertHeight(t: Tree<int>, v: int)
    ensures Height(t) <= Height(Insert(t, v)) <= Height(t) + 1
  {
    match t
    case Nil =>
    case Node(l, x, r) =>
      if x != v {
        if v < x { InsertHeight(l, v); } else { InsertHeight(r, v); }
      }
  }

  // ---------------------------------------------------------------------------------------
  // Deletion (bst.py `_delete`).  A leaf disappears, a node with one child is replaced by
  // that child, and a node with two children keeps its place and takes the value of its
  // in-order predecessor when the right subtree is not taller than the left one, of its
  // in-order successor otherwise; that value is then deleted from the subtree it came from.

  function Delete(t: Tree<int>, v: int): (r: Tree<int>)
    ensures Contents(r) <= Contents(t)
  {
    match t
    case Nil => Nil
    case Node(l, x, r) =>
      if x > v then Node(Delete(l, v), x, r)
      else if x < v then Node(l, x, Delete(r, v))
      else if r != Nil && l != Nil then
        if Height(r) <= Height(l) then Node(Delete(l, Max(l)), Max(l), r)
        else Node(l, Min(r), Delete(r, Min(r)))
      else if r != Nil then r
      else if l != Nil then l
      else Nil
  }

  lemma {:induction false} DeleteContents(t: Tree<int>, v: int)
    requires Bst(t)
    ensures Contents(Delete(t, v)) == Contents(t) - {v}
  {
    match t
    case Nil =>
    case Node(l, x, r) =>
      if x > v {
        DeleteContents(l, v);
      } else if x < v {
        DeleteContents(r, v);
      } else if r != Nil && l != Nil {
        if Height(r) <= Height(l) {
          DeleteContents(l, Max(l));
        } else {
          DeleteContents(r, Min(r));
        }
      }
  }

  lemma {:induction false} DeleteBst(t: Tree<int>, v: int)
    requires Bst(t)
    ensures Bst(Delete(t, v))
  {
    match t
    case Nil =>
    case Node(l, x, r) =>
      if x > v {
        DeleteBst(l, v);
      } else if x < v {
        DeleteBst(r, v);
      } else if r != Nil && l != Nil {
        if Height(r) <= Height(l) {
          DeleteBst(l, Max(l));
          DeleteContents(l, Max(l));
          MaxIsLargest(l);
        } else {
          DeleteBst(r, Min(r));
          DeleteContents(r, Min(r));
          MinIsSmallest(r);
        }
      }
  }

  /** Deleting a value that is not stored returns the very same tree. */
  lemma {:induction false} DeleteAbsent(t: Tree<int>, v: int)
    requires v !in Contents(t)
    ensures Delete(t, v) == t
  {
    match t
    case Nil =>
    case Node(l, x, r) =>
      if x > v {
        DeleteAbsent(l, v);
      } else if x < v {
        DeleteAbsent(r, v);
      }
  }

  // ---------------------------------------------------------------------------------------
  // In-order neighbours

  /** `m` is the largest stored value below `v`. */
  ghost predicate IsPredecessor(t: Tree<int>, v: int, m: int)
  {
    m in Contents(t) && m < v && forall x :: x in Contents(t) && x < v ==> x <= m
  }

  /** No stored value lies below `v`. */
  ghost predicate NoneBelow(t: Tree<int>, v: int)
  {
    forall x :: x in Contents(t) ==> v <= x
  }

  /** `m` is the smallest stored value above `v`. */
  ghost predicate IsSuccessor(t: Tree<int>, v: int, m: int)
  {
    m in Contents(t) && v < m && forall x :: x in Contents(t) && v < x ==> m <= x
  }

  /** No stored value lies above `v`. */
  ghost predicate NoneAbove(t: Tree<int>, v: int)
  {
    forall x :: x in Contents(t) ==> x <= v
  }

  /**
   * The values outside the subtree at `p` that lie to its left: each step to a right child
   * passes a node whose value and left subtree come before everything further down.
   */
  ghost function LeftOf(t: Tree<int>, p: Path): set<int>
    decreases |p|
  {
    if p == [] || t == Nil then {}
    else if p[0] == L then LeftOf(t.left, p[1..])
    else Contents(t.left) + {t.value} + LeftOf(t.right, p[1..])
  }

  /** The values outside the subtree at `p` that lie to its right. */
  ghost function RightOf(t: Tree<int>, p: Path): set<int>
    decreases |p|
  {
    if p == [] || t == Nil then {}
    else if p[0] == R then RightOf(t.right, p[1..])
    else Contents(t.right) + {t.value} + RightOf(t.left, p[1..])
  }

  lemma {:induction false} LeftOfAppend(t: Tree<int>, p: Path, q: Path)
    ensures LeftOf(t, p + q) == LeftOf(t, p) + LeftOf(Subtree(t, p), q)
    decreases |p|
  {
    if p == [] {
      assert p + q == q;
    } else if t == Nil {
      SubtreeNil<int>(p[1..]);
    } else {
      assert (p + q)[0] == p[0];
      assert (p + q)[1..] == p[1..] + q;
      LeftOfAppend(Child(t, p[0]), p[1..], q);
    }
  }

  lemma {:induction false} RightOfAppend(t: Tree<int>, p: Path, q: Path)
    ensures RightOf(t, p + q) == RightOf(t, p) + RightOf(Subtree(t, p), q)
    decreases |p|
  {
    if p == [] {
      assert p + q == q;
    } else if t == Nil {
      SubtreeNil<int>(p[1..]);
    } else {
      assert (p + q)[0] == p[0];
      assert (p + q)[1..] == p[1..] + q;
      RightOfAppend(Child(t, p[0]), p[1..], q);
    }
  }

  lemma {:induction false} LeftOfLefts(t: Tree<int>, p: Path)
    requires AllDir(p, L)
    ensures LeftOf(t, p) == {}
    decreases |p|
  {
    if p != [] && t != Nil {
      LeftOfLefts(t.left, p[1..]);
    }
  }

  lemma {:induction false} RightOfRights(t: Tree<int>, p: Path)
    requires AllDir(p, R)
    ensures RightOf(t, p) == {}
    decreases |p|
  {
    if p != [] && t != Nil {
      RightOfRights(t.right, p[1..]);
    }
  }

  /**
   * In a BST, the values below the value `v` at position `p` are exactly the values of the
   * left subtree at `p` together with LeftOf(t, p), and all of LeftOf(t, p) lie below the
   * whole subtree at `p`.
   */
  lemma {:induction false} BelowSplit(t: Tree<int>, p: Path)
    requires Bst(t) && Subtree(t, p) != Nil
    ensures forall y, z :: y in LeftOf(t, p) && z in Contents(Subtree(t, p)) ==> y < z
    ensures forall x :: x in Contents(t) && x < Subtree(t, p).value ==>
                          x in LeftOf(t, p) || x in Contents(Subtree(t, p).left)
    decreases |p|
  {
    if p != [] {
      SubtreeNil<int>(p[1..]);
      SubtreeContents(Child(t, p[0]), p[1..]);
      BelowSplit(Child(t, p[0]), p[1..]);
    }
  }

  /** The mirror image of BelowSplit. */
  lemma {:induction false} AboveSplit(t: Tree<int>, p: Path)
    requires Bst(t) && Subtree(t, p) != Nil
    ensures forall y, z :: y in RightOf(t, p) && z in Contents(Subtree(t, p)) ==> z < y
    ensures forall x :: x in Contents(t) && Subtree(t, p).value < x ==>
                          x in RightOf(t, p) || x in Contents(Subtree(t, p).right)
    decreases |p|
  {
    if p != [] {
      SubtreeNil<int>(p[1..]);
      SubtreeContents(Child(t, p[0]), p[1..]);
      AboveSplit(Child(t, p[0]), p[1..]);
    }
  }

  /** A node with a left child: its predecessor is the maximum of that left subtree. */
  lemma PredecessorBelow(t: Tree<int>, p: Path)
    requires Bst(t) && Subtree(t, p) != Nil && Subtree(t, p).left != Nil
    ensures IsPredecessor(t, Subtree(t, p).value, Max(Subtree(t, p).left))
  {
    var s := Subtree(t, p);
    BelowSplit(t, p);
    BstSubtree(t, p);
    SubtreeContents(t, p);
    MaxIsLargest(s.left);
  }

  /**
   * A node without a left child, reached from the node at `q` by one step right and then
   * only steps left: its predecessor is the value at `q`.
   */
  lemma PredecessorAbove(t: Tree<int>, q: Path, ls: Path)
    requires Bst(t) && AllDir(ls, L)
    requires Subtree(t, q + [R] + ls) != Nil && Subtree(t, q + [R] + ls).left == Nil
    ensures Subtree(t, q) != Nil
    ensures IsPredecessor(t, Subtree(t, q + [R] + ls).value, Subtree(t, q).value)
  {
    var p := q + [R] + ls;
    var a := Subtree(t, q);
    SubtreeAppend(t, q + [R], ls);
    SubtreeStep(t, q, R);
    SubtreeNil<int>(ls);
    LeftOfAppend(t, q + [R], ls);
    LeftOfLefts(Subtree(t, q + [R]), ls);
    LeftOfAppend(t, q, [R]);
    assert LeftOf(a, [R]) == Contents(a.left) + {a.value} + LeftOf(a.right, []);
    BelowSplit(t, p);
    BelowSplit(t, q);
    BstSubtree(t, q);
    SubtreeContents(t, q);
    SubtreeContents(a.right, ls);
  }

  /** A node without a left child reached by steps left only: nothing is stored below it. */
  lemma PredecessorNone(t: Tree<int>, p: Path)
    requires Bst(t) && AllDir(p, L)
    requires Subtree(t, p) != Nil && Subtree(t, p).left == Nil
    ensures NoneBelow(t, Subtree(t, p).value)
  {
    LeftOfLefts(t, p);
    BelowSplit(t, p);
  }

  /** A node with a right child: its successor is the minimum of that right subtree. */
  lemma SuccessorBelow(t: Tree<int>, p: Path)
    requires Bst(t) && Subtree(t, p) != Nil && Subtree(t, p).right != Nil
    ensures IsSuccessor(t, Subtree(t, p).value, Min(Subtree(t, p).right))
  {
    var s := Subtree(t, p);
    AboveSplit(t, p);
    BstSubtree(t, p);
    SubtreeContents(t, p);
    MinIsSmallest(s.right);
  }

  /**
   * A node without a right child, reached from the node at `q` by one step left and then
   * only steps right: its successor is the value at `q`.
   */
  lemma SuccessorAbove(t: Tree<int>, q: Path, rs: Path)
    requires Bst(t) && AllDir(rs, R)
    requires Subtree(t, q + [L] + rs) != Nil && Subtree(t, q + [L] + rs).right == Nil
    ensures Subtree(t, q) != Nil
    ensures IsSuccessor(t, Subtree(t, q + [L] + rs).value, Subtree(t, q).value)
  {
    var p := q + [L] + rs;
    var a := Subtree(t, q);
    SubtreeAppend(t, q + [L], rs);
    SubtreeStep(t, q, L);
    SubtreeNil<int>(rs);
    RightOfAppend(t, q + [L], rs);
    RightOfRights(Subtree(t, q + [L]), rs);
    RightOfAppend(t, q, [L]);
    assert RightOf(a, [L]) == Contents(a.right) + {a.value} + RightOf(a.left, []);
    AboveSplit(t, p);
    AboveSplit(t, q);
    BstSubtree(t, q);
    SubtreeContents(t, q);
    SubtreeContents(a.left, rs);
  }

  /** A node without a right child reached by steps right only: nothing is stored above it. */
  lemma SuccessorNone(t: Tree<int>, p: Path)
    requires Bst(t) && AllDir(p, R)
    requires Subtree(t, p) != Nil && Subtree(t, p).right == Nil
    ensures NoneAbove(t, Subtree(t, p).value)
  {
    RightOfRights(t, p);
    AboveSplit(t, p);
  }
}
