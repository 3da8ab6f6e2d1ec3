/** The valued binary node every in-order cursor walks (src/avl/bin-node.ts):
    a node holds a value, two optional children and the cached `count` and
    `summary` of its subtree; AVL nodes add a `version` stamp and a `rank`.
    Nodes are values here: a mutation of an owned node is modelled as
    building the node again with the changed field. */
module BinNode {
  import opened Common

  /** An absent child is `Null`. The cached fields are stored exactly as the
      source stores them; `Counted` says that they are up to date. */
  datatype AvlNode<V> =
    | Null
    | Node(left: AvlNode<V>, value: V, version: nat, right: AvlNode<V>,
           count: nat, rank: nat, summary: nat)

  /** In-order sequence of the values of a subtree. */
  ghost function ElemsOf<V>(n: AvlNode<V>): seq<V>
  {
    if n.Null? then [] else ElemsOf(n.left) + [n.value] + ElemsOf(n.right)
  }

  /** `countOf`: the cached count of a node, 0 for an absent node. */
  function CountOf<V>(n: AvlNode<V>): nat
  {
    if n.Null? then 0 else n.count
  }

  /** `summaryOf`: the cached summary of a node, 0 for an absent node. */
  function SummaryOf<V>(n: AvlNode<V>): nat
  {
    if n.Null? then 0 else n.summary
  }

  /** Every node of the subtree caches the number of its values and the sum
      of their weights, as `update` computes them from the children. */
  ghost predicate Counted<V>(w: V -> nat, n: AvlNode<V>)
  {
    n.Null? ||
    (Counted(w, n.left) && Counted(w, n.right) &&
     n.count == CountOf(n.left) + 1 + CountOf(n.right) &&
     n.summary == SummaryOf(n.left) + w(n.value) + SummaryOf(n.right))
  }

  /** The cached `count` is the number of values of the subtree and the cached
      `summary` is the total weight of those values. */
  lemma {:induction false} CachedCounters<V>(w: V -> nat, n: AvlNode<V>)
    requires Counted(w, n)
    ensures CountOf(n) == |ElemsOf(n)|
    ensures SummaryOf(n) == Sum(w, ElemsOf(n))
  {
    if n.Node? {
      CachedCounters(w, n.left);
      CachedCounters(w, n.right);
      SumConcat3(w, ElemsOf(n.left), n.value, ElemsOf(n.right));
    }
  }

  /** `leftmost`: the first value of the in-order sequence. */
  function Leftmost<V>(n: AvlNode<V>): (v: V)
    requires n.Node?
    ensures v == ElemsOf(n)[0]
  {
    if n.left.Node? then Leftmost(n.left) else n.value
  }
}
