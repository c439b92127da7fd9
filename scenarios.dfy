/**
 * The complex tree of the repository's test suite, built and taken apart on values: the
 * expected shape, height, neighbours and the results of deleting a leaf, a node with one
 * child and the root with two children.
 */
module Scenarios {
  import opened Trees

  /** Inserting the values of `vs` one after another, as a sequence of `BSTree.insert` calls. */
  function InsertAll(t: Tree<int>, vs: seq<int>): Tree<int>
    decreases |vs|
  {
    if vs == [] then t else InsertAll(Insert(t, vs[0]), vs[1..])
  }

  lemma {:induction false} InsertAllContents(t: Tree<int>, vs: seq<int>)
    ensures Contents(InsertAll(t, vs)) == Contents(t) + set x | x in vs
    decreases |vs|
  {
    if vs != [] {
      InsertContents(t, vs[0]);
      InsertAllContents(Insert(t, vs[0]), vs[1..]);
      assert forall x :: x in vs <==> x == vs[0] || x in vs[1..];
    }
  }

  lemma {:induction false} InsertAllBst(t: Tree<int>, vs: seq<int>)
    requires Bst(t)
    ensures Bst(InsertAll(t, vs))
    decreases |vs|
  {
    if vs != [] {
      InsertBst(t, vs[0]);
      InsertAllBst(Insert(t, vs[0]), vs[1..]);
    }
  }

  const Complex: Tree<int> :=
    Node(Node(Node(Nil, 1, Nil), 2, Node(Nil, 3, Node(Nil, 4, Nil))), 5,
         Node(Nil, 6, Node(Node(Nil, 7, Nil), 8, Nil)))

  lemma ComplexTreeBuilt()
    ensures InsertAll(Nil, [5, 2, 6, 1, 3, 8, 4, 7]) == Complex
  {
    var t1 := Node(Node(Nil, 2, Nil), 5, Node(Nil, 6, Nil));
    var t2 := Node(Node(Node(Nil, 1, Nil), 2, Node(Nil, 3, Nil)), 5, Node(Nil, 6, Node(Nil, 8, Nil)));
    assert InsertAll(Nil, [5, 2, 6, 1, 3, 8, 4, 7]) == InsertAll(t1, [1, 3, 8, 4, 7]);
    assert InsertAll(t1, [1, 3, 8, 4, 7]) == InsertAll(t2, [4, 7]);
  }

  lemma ComplexTreeShape()
    ensures Bst(Complex) && Height(Complex) == 4
  {
    ComplexTreeBuilt();
    InsertAllBst(Nil, [5, 2, 6, 1, 3, 8, 4, 7]);
  }

  lemma ComplexContents()
    ensures Contents(Complex) == {1, 2, 3, 4, 5, 6, 7, 8}
  {
  }

  lemma ComplexTreeNeighbours()
    ensures NoneBelow(Complex, 1) && IsPredecessor(Complex, 7, 6)
    ensures NoneAbove(Complex, 8) && IsSuccessor(Complex, 2, 3)
  {
    var all := Contents(Complex);
    ComplexContents();
    assert forall x :: x in all ==> 1 <= x <= 8;
    assert forall x :: x in all && x < 7 ==> x <= 6;
    assert forall x :: x in all && 2 < x ==> 3 <= x;
  }

  /** A leaf, then a node with one child, then the root with a taller left subtree. */
  lemma ComplexTreeDeletes()
    ensures Delete(Complex, 1).left == Node(Nil, 2, Node(Nil, 3, Node(Nil, 4, Nil)))
    ensures Delete(Delete(Complex, 1), 8).right == Node(Nil, 6, Node(Nil, 7, Nil))
    ensures Delete(Delete(Delete(Complex, 1), 8), 5) == Node(Node(Nil, 2, Node(Nil, 3, Nil)), 4, Node(Nil, 6, Node(Nil, 7, Nil)))
  {
    var t := Delete(Delete(Complex, 1), 8);
    assert t == Node(Node(Nil, 2, Node(Nil, 3, Node(Nil, 4, Nil))), 5, Node(Nil, 6, Node(Nil, 7, Nil)));
    assert Max(t.left) == 4;
  }
}
