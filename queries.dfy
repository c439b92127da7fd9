/**
 * bst.py's recursive look-ups `_search` and `_range`, over the node table.  Both return
 * nodes (references into the table), as the originals return `BTNode` objects.
 */
module Queries {
  import opened Trees
  import opened Heap

  /** The values stored at a sequence of nodes, in order. */
  function Values(nodes: seq<NodeRec>, ids: seq<Ptr>): seq<int>
  {
    seq(|ids|, k requires 0 <= k < |ids| => Val(nodes, ids[k]))
  }

  ghost predicate Ascending(xs: seq<int>)
  {
    forall a, b :: 0 <= a < b < |xs| ==> xs[a] < xs[b]
  }

  lemma ValuesJoin(nodes: seq<NodeRec>, a: seq<Ptr>, i: Ptr, b: seq<Ptr>)
    ensures Values(nodes, a + [i] + b) == Values(nodes, a) + [Val(nodes, i)] + Values(nodes, b)
  {
  }

  /** Two ascending runs separated by `v` join into one ascending run. */
  lemma AscendingJoin(xs: seq<int>, v: int, ys: seq<int>)
    requires Ascending(xs) && Ascending(ys)
    requires forall x :: x in xs ==> x < v
    requires forall y :: y in ys ==> v < y
    ensures Ascending(xs + [v] + ys)
  {
    var zs := xs + [v] + ys;
    forall a, b | 0 <= a < b < |zs|
      ensures zs[a] < zs[b]
    {
      if b < |xs| {
      } else if a < |xs| {
        assert zs[a] in xs;
        if b > |xs| {
          assert zs[b] in ys;
        }
      } else if a == |xs| {
        assert zs[b] in ys;
      } else {
        assert zs[a] == ys[a - |xs| - 1] && zs[b] == ys[b - |xs| - 1];
      }
    }
  }

  /**
   * `_search`: descend by comparison from node `i`.  The result is a node holding `v` when
   * `v` is stored below `i`, and Null otherwise.
   */
  function SearchFrom(nodes: seq<NodeRec>, i: Ptr, v: int, ghost s: Tree<Ptr>): (r: Ptr)
    requires Linked(nodes, s) && Top(s) == i && Bst(Abs(nodes, s))
    ensures r == Null <==> v !in Contents(Abs(nodes, s))
    ensures r != Null ==> r in Contents(s) && 0 <= r < |nodes| && nodes[r].value == v
    decreases s
  {
    if i == Null then Null
    else if nodes[i].value == v then i
    else if nodes[i].value < v then SearchFrom(nodes, nodes[i].right, v, s.right)
    else SearchFrom(nodes, nodes[i].left, v, s.left)
  }

  /**
   * `_range`: the nodes below `i` whose values lie in [lo, hi], in ascending order of value.
   * A subtree is skipped when the whole interval lies on the other side of the node.
   */
  function RangeFrom(nodes: seq<NodeRec>, i: Ptr, lo: int, hi: int, ghost s: Tree<Ptr>): (r: seq<Ptr>)
    requires Linked(nodes, s) && Top(s) == i && Bst(Abs(nodes, s))
    ensures forall k :: 0 <= k < |r| ==> r[k] in Contents(s)
    ensures Ascending(Values(nodes, r))
    ensures forall x :: x in Values(nodes, r) <==> x in Contents(Abs(nodes, s)) && lo <= x <= hi
    decreases s
  {
    if i == Null then []
    else if lo > nodes[i].value then RangeFrom(nodes, nodes[i].right, lo, hi, s.right)
    else if hi < nodes[i].value then RangeFrom(nodes, nodes[i].left, lo, hi, s.left)
    else
      var below := RangeFrom(nodes, nodes[i].left, lo, hi, s.left);
      var above := RangeFrom(nodes, nodes[i].right, lo, hi, s.right);
      ValuesJoin(nodes, below, i, above);
      AscendingJoin(Values(nodes, below), nodes[i].value, Values(nodes, above));
      below + [i] + above
  }
}
