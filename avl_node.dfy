/** The partially persistent AVL order-statistics tree (src/avl/avl-node.ts).

    A node is a value of `BinNode.AvlNode`. The source mutates a node in
    place only when it is `owned` by the mutation's version, and clones it
    otherwise; here every mutation yields the rebuilt node, and the
    copy-on-write discipline is stated by `Shared`: every node of the result
    that does not carry the mutation's stamp is one of the input's subtrees,
    untouched. */
module AvlTree {
  import opened Common
  import opened BinNode

  /** `rankOf`: the cached rank of a node, 0 for an absent node. */
  function RankOf<V>(n: AvlNode<V>): nat
  {
    if n.Null? then 0 else n.rank
  }

  /** Every node of the subtree caches one more than its taller child's rank. */
  ghost predicate Ranked<V>(n: AvlNode<V>)
  {
    n.Null? ||
    (Ranked(n.left) && Ranked(n.right) &&
     n.rank == 1 + Max(RankOf(n.left), RankOf(n.right)))
  }

  /** Number of nodes on the longest path from the root of the subtree down. */
  ghost function Height<V>(n: AvlNode<V>): nat
  {
    if n.Null? then 0 else 1 + Max(Height(n.left), Height(n.right))
  }

  /** Where the ranks are up to date, `rankOf` is the height of the subtree. */
  lemma {:induction false} RankIsHeight<V>(n: AvlNode<V>)
    requires Ranked(n)
    ensures RankOf(n) == Height(n)
    ensures RankOf(n) == 0 <==> n.Null?
  {
    if n.Node? {
      RankIsHeight(n.left);
      RankIsHeight(n.right);
    }
  }

  /** Every cached counter of the subtree is up to date. */
  ghost predicate Valid<V>(w: V -> nat, n: AvlNode<V>)
  {
    Counted(w, n) && Ranked(n)
  }

  /** Every node of the subtree carries the stamp `ver`. */
  ghost predicate AllStamped<V>(n: AvlNode<V>, ver: nat)
  {
    n.Null? || (n.version == ver && AllStamped(n.left, ver) && AllStamped(n.right, ver))
  }

  // Construction and raw modification

  /** `new AvlNode(l, v, ver, r)`: the constructor runs `update`, so the new
      node's counters are computed from its children. */
  function NewNode<V>(w: V -> nat, l: AvlNode<V>, v: V, ver: nat, r: AvlNode<V>): (n: AvlNode<V>)
    ensures n.Node? && n.left == l && n.value == v && n.version == ver && n.right == r
    ensures Valid(w, l) && Valid(w, r) ==> Valid(w, n)
    ensures ElemsOf(n) == ElemsOf(l) + [v] + ElemsOf(r)
  {
    Node(l, v, ver, r,
         CountOf(l) + 1 + CountOf(r),
         1 + Max(RankOf(l), RankOf(r)),
         SummaryOf(l) + w(v) + SummaryOf(r))
  }

  /** `leaf(v, ver)`: a node without children. */
  function Leaf<V>(w: V -> nat, v: V, ver: nat): (n: AvlNode<V>)
    ensures n.Node? && n.version == ver && Valid(w, n) && AllStamped(n, ver)
    ensures ElemsOf(n) == [v] && n.rank == 1
  {
    NewNode(w, Null, v, ver, Null)
  }

  /** `update`: recompute the cached counters of a node from its children. */
  function Update<V>(w: V -> nat, n: AvlNode<V>): (r: AvlNode<V>)
    requires n.Node?
    ensures r.Node? && r.left == n.left && r.value == n.value && r.version == n.version && r.right == n.right
    ensures Valid(w, n.left) && Valid(w, n.right) ==> Valid(w, r)
    ensures Valid(w, n) ==> r == n
  {
    NewNode(w, n.left, n.value, n.version, n.right)
  }

  /** `setLeft(l)`: replace the left child, then `update`. */
  function SetLeft<V>(w: V -> nat, n: AvlNode<V>, l: AvlNode<V>): (r: AvlNode<V>)
    requires n.Node?
    ensures r.Node? && r.left == l && r.value == n.value && r.version == n.version && r.right == n.right
    ensures Valid(w, l) && Valid(w, n.right) ==> Valid(w, r)
    ensures ElemsOf(r) == ElemsOf(l) + [n.value] + ElemsOf(n.right)
  {
    Update(w, n.(left := l))
  }

  /** `setRight(r)`: replace the right child, then `update`. */
  function SetRight<V>(w: V -> nat, n: AvlNode<V>, rt: AvlNode<V>): (r: AvlNode<V>)
    requires n.Node?
    ensures r.Node? && r.left == n.left && r.value == n.value && r.version == n.version && r.right == rt
    ensures Valid(w, n.left) && Valid(w, rt) ==> Valid(w, r)
    ensures ElemsOf(r) == ElemsOf(n.left) + [n.value] + ElemsOf(rt)
  {
    Update(w, n.(right := rt))
  }

  /** `setValue(v)`: replace the stored value, then `update`. */
  function SetValue<V>(w: V -> nat, n: AvlNode<V>, v: V): (r: AvlNode<V>)
    requires n.Node?
    ensures r.Node? && r.left == n.left && r.value == v && r.version == n.version && r.right == n.right
    ensures Valid(w, n) ==> Valid(w, r) && r.rank == n.rank && r.count == n.count
    ensures ElemsOf(r) == ElemsOf(n.left) + [v] + ElemsOf(n.right)
  {
    Update(w, n.(value := v))
  }

  /** `owned(ver)`: the node itself when it already carries `ver`, otherwise
      a copy stamped `ver` with the same value and children. */
  function Owned<V>(w: V -> nat, n: AvlNode<V>, ver: nat): (r: AvlNode<V>)
    requires n.Node?
    ensures r == n <==> n.version == ver
    ensures r.Node? && r.version == ver && r.left == n.left && r.value == n.value && r.right == n.right
    ensures Valid(w, n) ==>
      Valid(w, r) && r.count == n.count && r.rank == n.rank && r.summary == n.summary
  {
    if n.version == ver then n else NewNode(w, n.left, n.value, ver, n.right)
  }

  // Balancing

  predicate IsRightUnbalanced<V>(n: AvlNode<V>)
    requires n.Node?
  {
    n.rank - RankOf(n.left) >= 3
  }

  predicate IsRightOriented<V>(n: AvlNode<V>)
    requires n.Node?
  {
    n.rank - RankOf(n.left) == 2
  }

  predicate IsLeftUnbalanced<V>(n: AvlNode<V>)
    requires n.Node?
  {
    n.rank - RankOf(n.right) >= 3
  }

  predicate IsLeftOriented<V>(n: AvlNode<V>)
    requires n.Node?
  {
    n.rank - RankOf(n.right) == 2
  }

  /** `isBalanced`: a check of this node only, not of its descendants. */
  predicate IsBalanced<V>(n: AvlNode<V>)
    requires n.Node?
  {
    !IsRightUnbalanced(n) && !IsLeftUnbalanced(n)
  }

  /** On a node whose rank is up to date, the rank tests of the source are
      the AVL conditions on the ranks of the two children. */
  lemma RankTests<V>(n: AvlNode<V>)
    requires n.Node? && Ranked(n)
    ensures IsBalanced(n) <==> -1 <= RankOf(n.left) - RankOf(n.right) <= 1
    ensures IsRightUnbalanced(n) <==> RankOf(n.right) >= RankOf(n.left) + 2
    ensures IsLeftUnbalanced(n) <==> RankOf(n.left) >= RankOf(n.right) + 2
    ensures IsRightOriented(n) <==> RankOf(n.right) == RankOf(n.left) + 1
    ensures IsLeftOriented(n) <==> RankOf(n.left) == RankOf(n.right) + 1
  {
  }

  /** The AVL invariant: every node of the subtree is balanced. */
  ghost predicate AllBalanced<V>(n: AvlNode<V>)
  {
    n.Null? || (IsBalanced(n) && AllBalanced(n.left) && AllBalanced(n.right))
  }

  /** `rotateLeft`: the right child, owned by this node's version, becomes
      the root; this node takes its former left subtree as right child. */
  function RotateLeft<V>(w: V -> nat, n: AvlNode<V>): (t: AvlNode<V>)
    requires n.Node? && n.right.Node?
    ensures t.Node? && t.version == n.version && t.value == n.right.value && t.right == n.right.right
    ensures t.left.Node? && t.left.version == n.version && t.left.left == n.left
    ensures t.left.value == n.value && t.left.right == n.right.left
    ensures Valid(w, n) ==> Valid(w, t) && ElemsOf(t) == ElemsOf(n)
  {
    var r := Owned(w, n.right, n.version);
    var self := SetRight(w, n, r.left);
    var t := SetLeft(w, r, self);
    RegroupRight(ElemsOf(n.left), n.value, ElemsOf(n.right.left), n.right.value, ElemsOf(n.right.right));
    t
  }

  /** `rotateRight`: the mirror image of `rotateLeft`. */
  function RotateRight<V>(w: V -> nat, n: AvlNode<V>): (t: AvlNode<V>)
    requires n.Node? && n.left.Node?
    ensures t.Node? && t.version == n.version && t.value == n.left.value && t.left == n.left.left
    ensures t.right.Node? && t.right.version == n.version && t.right.right == n.right
    ensures t.right.value == n.value && t.right.left == n.left.right
    ensures Valid(w, n) ==> Valid(w, t) && ElemsOf(t) == ElemsOf(n)
  {
    var l := Owned(w, n.left, n.version);
    var self := SetLeft(w, n, l.right);
    var t := SetRight(w, l, self);
    RegroupRight(ElemsOf(n.left.left), n.left.value, ElemsOf(n.left.right), n.value, ElemsOf(n.right));
    t
  }

  /** `balance` with the double rotation made copy-on-write: the child that is
      rotated first is owned by this node's version before it is rotated. */
  function Balance<V>(w: V -> nat, n: AvlNode<V>): (r: AvlNode<V>)
    requires n.Node? && Valid(w, n)
    ensures r.Node? && Valid(w, r) && r.version == n.version
    ensures ElemsOf(r) == ElemsOf(n)
  {
    RankTests(n);
    if IsRightUnbalanced(n) then
      RankTests(n.right);
      var m := if IsLeftOriented(n.right)
        then SetRight(w, n, RotateRight(w, Owned(w, n.right, n.version)))
        else n;
      RotateLeft(w, m)
    else if IsLeftUnbalanced(n) then
      RankTests(n.left);
      var m := if IsRightOriented(n.left)
        then SetLeft(w, n, RotateLeft(w, Owned(w, n.left, n.version)))
        else n;
      RotateRight(w, m)
    else
      n
  }

  /** Balancing a node whose children are AVL trees of ranks at most 2 apart
      makes the whole subtree an AVL tree, lowers the rank by at most 1, and
      leaves an already balanced node as it is. */
  lemma BalanceRestores<V>(w: V -> nat, n: AvlNode<V>)
    requires n.Node? && Valid(w, n)
    requires AllBalanced(n.left) && AllBalanced(n.right)
    requires -2 <= RankOf(n.left) - RankOf(n.right) <= 2
    ensures AllBalanced(Balance(w, n))
    ensures n.rank - 1 <= Balance(w, n).rank <= n.rank
    ensures IsBalanced(n) ==> Balance(w, n) == n
  {
    RankTests(n);
    if IsRightUnbalanced(n) {
      RightHeavyRestored(w, n);
    } else if IsLeftUnbalanced(n) {
      LeftHeavyRestored(w, n);
    }
  }

  lemma RightHeavyRestored<V>(w: V -> nat, n: AvlNode<V>)
    requires n.Node? && Valid(w, n) && IsRightUnbalanced(n)
    requires AllBalanced(n.left) && AllBalanced(n.right)
    requires RankOf(n.right) == RankOf(n.left) + 2
    ensures AllBalanced(Balance(w, n))
    ensures n.rank - 1 <= Balance(w, n).rank <= n.rank
  {
    RankTests(n);
    RankTests(n.right);
    if IsLeftOriented(n.right) {
      RankTests(n.right.left);
      var t := RotateRight(w, Owned(w, n.right, n.version));
      var m := SetRight(w, n, t);
      RankTests(t.right);
      RankTests(m);
      var r := RotateLeft(w, m);
      assert Balance(w, n) == r;
      RankTests(r.left);
      RankTests(r);
    } else {
      var r := RotateLeft(w, n);
      assert Balance(w, n) == r;
      RankTests(r.left);
      RankTests(r);
    }
  }

  lemma LeftHeavyRestored<V>(w: V -> nat, n: AvlNode<V>)
    requires n.Node? && Valid(w, n) && IsLeftUnbalanced(n)
    requires AllBalanced(n.left) && AllBalanced(n.right)
    requires RankOf(n.left) == RankOf(n.right) + 2
    ensures AllBalanced(Balance(w, n))
    ensures n.rank - 1 <= Balance(w, n).rank <= n.rank
  {
    RankTests(n);
    RankTests(n.left);
    if IsRightOriented(n.left) {
      RankTests(n.left.right);
      var t := RotateLeft(w, Owned(w, n.left, n.version));
      var m := SetLeft(w, n, t);
      RankTests(t.left);
      RankTests(m);
      var r := RotateRight(w, m);
      assert Balance(w, n) == r;
      RankTests(r.right);
      RankTests(r);
    } else {
      var r := RotateRight(w, n);
      assert Balance(w, n) == r;
      RankTests(r.right);
      RankTests(r);
    }
  }

  /** `balance` as the source writes it: the double rotation rotates the
      child itself, whatever its stamp, and only then relinks it. */
  function BalanceAsWritten<V>(w: V -> nat, n: AvlNode<V>): (r: AvlNode<V>)
    requires n.Node? && Valid(w, n)
    ensures r.Node? && Valid(w, r) && ElemsOf(r) == ElemsOf(n)
  {
    RankTests(n);
    if IsRightUnbalanced(n) then
      RankTests(n.right);
      var m := if IsLeftOriented(n.right) then SetRight(w, n, RotateRight(w, n.right)) else n;
      RotateLeft(w, m)
    else if IsLeftUnbalanced(n) then
      RankTests(n.left);
      var m := if IsRightOriented(n.left) then SetLeft(w, n, RotateLeft(w, n.left)) else n;
      RotateRight(w, m)
    else
      n
  }

  /** Where the heavy child already carries the node's version, as the child
      an insertion has just rebuilt does, `balance` as written and the
      copy-on-write `Balance` build the same node. */
  lemma BalanceAgreesOnOwnedChild<V>(w: V -> nat, n: AvlNode<V>)
    requires n.Node? && Valid(w, n)
    requires IsRightUnbalanced(n) && n.right.Node? ==> n.right.version == n.version
    requires IsLeftUnbalanced(n) && n.left.Node? ==> n.left.version == n.version
    ensures BalanceAsWritten(w, n) == Balance(w, n)
  {
    RankTests(n);
    if IsRightUnbalanced(n) {
      assert Owned(w, n.right, n.version) == n.right;
    } else if IsLeftUnbalanced(n) {
      assert Owned(w, n.left, n.version) == n.left;
    }
  }

  // Construction from values

  /** Number of binary digits of `n`: the rank of the tree `from` builds
      over `n` values. */
  function Bits(n: nat): nat
  {
    if n == 0 then 0 else 1 + Bits(n / 2)
  }

  lemma {:induction false} BitsStep(n: nat)
    ensures Bits(n) <= Bits(n + 1) <= Bits(n) + 1
    decreases n
  {
    if n > 0 && (n + 1) / 2 != n / 2 {
      BitsStep(n / 2);
    }
  }

  lemma {:induction false} BitsMonotone(a: nat, b: nat)
    requires a <= b
    ensures Bits(a) <= Bits(b)
    decreases b - a
  {
    if a < b {
      BitsStep(a);
      BitsMonotone(a + 1, b);
    }
  }

  /** `from(vs, start, length, ver)`: a tree stamped `ver` over
      `vs[start..start + length]`, split at the middle so that sibling sizes
      differ by at most one; it is an AVL tree of rank `Bits(length)`. */
  method From<V>(w: V -> nat, vs: seq<V>, start: nat, length: nat, ver: nat) returns (r: AvlNode<V>)
    requires start + length <= |vs|
    ensures Built(w, r, vs[start..start + length], ver)
    decreases length
  {
    if length == 0 {
      r := Null;
    } else if length == 1 {
      r := Leaf(w, vs[start], ver);
      LeafBuilt(w, vs[start], ver);
      assert vs[start..start + length] == [vs[start]];
    } else {
      var mid := start + length / 2;
      var l := From(w, vs, start, mid - start, ver);
      var rStart := mid + 1;
      var rt := From(w, vs, rStart, start + length - rStart, ver);
      r := NewNode(w, l, vs[mid], ver, rt);
      JoinRun(w, vs, start, length, ver, l, rt);
    }
  }

  /** `fromIterator(vs, start, length, ver)`: the tree `from` builds, over
      the next `length` values of the stream, read in order. */
  method FromIterator<V>(w: V -> nat, vs: ValueStream<V>, start: nat, length: nat, ver: nat)
      returns (r: AvlNode<V>)
    requires vs.pos + length <= |vs.items|
    modifies vs
    ensures vs.pos == old(vs.pos) + length
    ensures Built(w, r, vs.items[old(vs.pos)..vs.pos], ver)
    decreases length
  {
    ghost var p := vs.pos;
    if length == 0 {
      r := Null;
    } else if length == 1 {
      var v := vs.Next();
      r := Leaf(w, v, ver);
      LeafBuilt(w, v, ver);
    } else {
      var mid := start + length / 2;
      var l := FromIterator(w, vs, start, mid - start, ver);
      assert vs.pos == p + length / 2;
      var midVal := vs.Next();
      var rStart := mid + 1;
      var rt := FromIterator(w, vs, rStart, start + length - rStart, ver);
      assert vs.pos == p + length && midVal == vs.items[p + length / 2];
      r := NewNode(w, l, midVal, ver, rt);
      JoinRun(w, vs.items, p, length, ver, l, rt);
    }
  }

  /** The midpoint split at every node: the left subtree holds as many
      values as the right one, or one more. */
  ghost predicate SizeBalanced<V>(n: AvlNode<V>)
  {
    n.Null? ||
    ((|ElemsOf(n.left)| == |ElemsOf(n.right)| || |ElemsOf(n.left)| == |ElemsOf(n.right)| + 1) &&
     SizeBalanced(n.left) && SizeBalanced(n.right))
  }

  /** What `from` promises of the tree it builds over the values `s`: a
      valid AVL tree, every node stamped `ver`, holding `s` in order, empty
      exactly when `s` is, of rank `Bits(|s|)`, with sibling sizes differing
      by at most one. */
  ghost predicate Built<V>(w: V -> nat, r: AvlNode<V>, s: seq<V>, ver: nat)
  {
    Valid(w, r) && AllStamped(r, ver) && AllBalanced(r) &&
    ElemsOf(r) == s && (r.Null? <==> s == []) && RankOf(r) == Bits(|s|) &&
    SizeBalanced(r)
  }

  /** A single value makes a built tree of rank 1. */
  lemma LeafBuilt<V>(w: V -> nat, v: V, ver: nat)
    ensures Built(w, Leaf(w, v, ver), [v], ver)
  {
    var n := Leaf(w, v, ver);
    RankTests(n);
    assert Bits(1) == 1;
  }

  /** The split step of `from`: the halves, built over `l` and `r` values
      with `|l|` equal to `|r|` or one more, under a new node holding `x`
      make the tree built over `l + [x] + r`. */
  lemma Join<V>(w: V -> nat, l: AvlNode<V>, x: V, ver: nat, r: AvlNode<V>)
    requires Built(w, l, ElemsOf(l), ver) && Built(w, r, ElemsOf(r), ver)
    requires |ElemsOf(l)| == |ElemsOf(r)| || |ElemsOf(l)| == |ElemsOf(r)| + 1
    ensures Built(w, NewNode(w, l, x, ver, r), ElemsOf(l) + [x] + ElemsOf(r), ver)
  {
    var n := NewNode(w, l, x, ver, r);
    var s := ElemsOf(l) + [x] + ElemsOf(r);
    assert |s| == |ElemsOf(l)| + 1 + |ElemsOf(r)|;
    HalvesBits(|ElemsOf(l)|, |ElemsOf(r)|);
    assert RankOf(n) == Bits(|s|);
    RankTests(n);
  }

  /** `Join` on the run `vs[lo..lo + length]` split at its middle. */
  lemma JoinRun<V>(w: V -> nat, vs: seq<V>, lo: nat, length: nat, ver: nat, l: AvlNode<V>, r: AvlNode<V>)
    requires length >= 2 && lo + length <= |vs|
    requires Built(w, l, vs[lo..lo + length / 2], ver)
    requires Built(w, r, vs[lo + length / 2 + 1..lo + length], ver)
    ensures Built(w, NewNode(w, l, vs[lo + length / 2], ver, r), vs[lo..lo + length], ver)
  {
    SliceAround(vs, lo, length / 2, lo + length);
    Join(w, l, vs[lo + length / 2], ver, r);
  }

  /** The sizes `a` and `b` of the two halves `from` splits a run of
      `a + 1 + b` values into have ranks that differ by at most one, the
      larger being one less than the rank of the whole. */
  lemma HalvesBits(a: nat, b: nat)
    requires a == b || a == b + 1
    ensures Bits(a + 1 + b) == 1 + Bits(a)
    ensures Bits(b) <= Bits(a) <= Bits(b) + 1
  {
    assert (a + 1 + b) / 2 == a;
    if a == b {
      BitsMonotone(b, a);
    } else {
      BitsStep(b);
    }
  }

  lemma SliceAround<V>(vs: seq<V>, lo: nat, k: nat, hi: nat)
    requires lo + k < hi <= |vs|
    ensures vs[lo..hi] == vs[lo..lo + k] + [vs[lo + k]] + vs[lo + k + 1..hi]
  {
  }

  /** The iterator `fromIterator` reads: the values still to come are
      `items[pos..]`. */
  class ValueStream<V> {
    const items: seq<V>
    var pos: nat

    constructor (items: seq<V>)
      ensures this.items == items && pos == 0
    {
      this.items := items;
      pos := 0;
    }

    /** `next().value`: the next value, consumed. */
    method Next() returns (v: V)
      requires pos < |items|
      modifies this
      ensures v == items[old(pos)] && pos == old(pos) + 1
    {
      v := items[pos];
      pos := pos + 1;
    }
  }

  // Access

  /** `index`: the position of the node's own value in its subtree. */
  function Index<V>(w: V -> nat, n: AvlNode<V>): (i: nat)
    requires n.Node? && Valid(w, n)
    ensures i < |ElemsOf(n)| && ElemsOf(n)[i] == n.value
  {
    CachedCounters(w, n.left);
    CountOf(n.left)
  }

  /** `reduce`, with `reduceOf` for an absent node: the left fold of `f` over
      the in-order sequence. */
  function Reduce<U, V>(n: AvlNode<V>, f: (U, V) -> U, prefix: U): (r: U)
    ensures r == FoldLeft(f, prefix, ElemsOf(n))
  {
    if n.Null? then prefix
    else
      var acc := f(Reduce(n.left, f, prefix), n.value);
      assert (ElemsOf(n.left) + [n.value])[..|ElemsOf(n.left)|] == ElemsOf(n.left);
      FoldLeftConcat(f, prefix, ElemsOf(n.left) + [n.value], ElemsOf(n.right));
      Reduce(n.right, f, acc)
  }

  // Partial persistence

  /** `m` is `n` or one of its descendants. */
  ghost predicate IsSubtree<V>(m: AvlNode<V>, n: AvlNode<V>)
  {
    m == n || (n.Node? && (IsSubtree(m, n.left) || IsSubtree(m, n.right)))
  }

  /** Copy-on-write: every node of `n` that does not carry the stamp `ver`
      is a subtree of `o`, kept whole. A mutation at version `ver` of the
      tree `o` only ever changes nodes it owns, so the older versions that
      still reach the other nodes are unaffected. */
  ghost predicate Shared<V>(n: AvlNode<V>, o: AvlNode<V>, ver: nat)
  {
    n.Null? ||
    if n.version == ver then Shared(n.left, o, ver) && Shared(n.right, o, ver)
    else IsSubtree(n, o)
  }

  lemma {:induction false} SubtreeTrans<V>(a: AvlNode<V>, b: AvlNode<V>, c: AvlNode<V>)
    requires IsSubtree(a, b) && IsSubtree(b, c)
    ensures IsSubtree(a, c)
    decreases c
  {
    if b != c {
      if IsSubtree(b, c.left) {
        SubtreeTrans(a, b, c.left);
      } else {
        SubtreeTrans(a, b, c.right);
      }
    }
  }

  /** A subtree of `o` is shared with `o` whatever its stamps. */
  lemma {:induction false} SubtreeShared<V>(x: AvlNode<V>, o: AvlNode<V>, ver: nat)
    requires IsSubtree(x, o)
    ensures Shared(x, o, ver)
    decreases x
  {
    if x.Node? && x.version == ver {
      SubtreeTrans(x.left, x, o);
      SubtreeTrans(x.right, x, o);
      SubtreeShared(x.left, o, ver);
      SubtreeShared(x.right, o, ver);
    }
  }

  lemma SharedChildren<V>(x: AvlNode<V>, o: AvlNode<V>, ver: nat)
    requires x.Node? && Shared(x, o, ver)
    ensures Shared(x.left, o, ver) && Shared(x.right, o, ver)
  {
    if x.version != ver {
      SubtreeTrans(x.left, x, o);
      SubtreeTrans(x.right, x, o);
      SubtreeShared(x.left, o, ver);
      SubtreeShared(x.right, o, ver);
    }
  }

  /** Sharing with a subtree of `o` is sharing with `o`. */
  lemma {:induction false} SharedMono<V>(x: AvlNode<V>, o: AvlNode<V>, p: AvlNode<V>, ver: nat)
    requires Shared(x, o, ver) && IsSubtree(o, p)
    ensures Shared(x, p, ver)
    decreases x
  {
    if x.Node? {
      if x.version == ver {
        SharedMono(x.left, o, p, ver);
        SharedMono(x.right, o, p, ver);
      } else {
        SubtreeTrans(x, o, p);
      }
    }
  }

  lemma RotateLeftShares<V>(w: V -> nat, n: AvlNode<V>, o: AvlNode<V>, ver: nat)
    requires n.Node? && n.right.Node? && n.version == ver && Shared(n, o, ver)
    ensures Shared(RotateLeft(w, n), o, ver)
  {
    SharedChildren(n, o, ver);
    SharedChildren(n.right, o, ver);
  }

  lemma RotateRightShares<V>(w: V -> nat, n: AvlNode<V>, o: AvlNode<V>, ver: nat)
    requires n.Node? && n.left.Node? && n.version == ver && Shared(n, o, ver)
    ensures Shared(RotateRight(w, n), o, ver)
  {
    SharedChildren(n, o, ver);
    SharedChildren(n.left, o, ver);
  }

  /** Balancing a node owned by `ver` only rebuilds nodes stamped `ver`. */
  lemma BalanceShares<V>(w: V -> nat, n: AvlNode<V>, o: AvlNode<V>, ver: nat)
    requires n.Node? && Valid(w, n) && n.version == ver && Shared(n, o, ver)
    ensures Shared(Balance(w, n), o, ver)
  {
    RankTests(n);
    SharedChildren(n, o, ver);
    if IsRightUnbalanced(n) {
      RankTests(n.right);
      if IsLeftOriented(n.right) {
        SharedChildren(n.right, o, ver);
        var t := RotateRight(w, Owned(w, n.right, ver));
        RotateRightShares(w, Owned(w, n.right, ver), o, ver);
        var m := SetRight(w, n, t);
        assert Balance(w, n) == RotateLeft(w, m);
        RotateLeftShares(w, m, o, ver);
      } else {
        RotateLeftShares(w, n, o, ver);
      }
    } else if IsLeftUnbalanced(n) {
      RankTests(n.left);
      if IsRightOriented(n.left) {
        SharedChildren(n.left, o, ver);
        var t := RotateLeft(w, Owned(w, n.left, ver));
        RotateLeftShares(w, Owned(w, n.left, ver), o, ver);
        var m := SetLeft(w, n, t);
        assert Balance(w, n) == RotateRight(w, m);
        RotateRightShares(w, m, o, ver);
      } else {
        RotateRightShares(w, n, o, ver);
      }
    }
  }

  /** Relinking a rebuilt child into the owned copy of `n` and rebalancing
      keeps the sharing the child had with the child it replaces. */
  lemma RelinkLeftShares<V>(w: V -> nat, n: AvlNode<V>, left: AvlNode<V>, ver: nat)
    requires n.Node? && Valid(w, n) && Valid(w, left) && Shared(left, n.left, ver)
    ensures Shared(Balance(w, SetLeft(w, Owned(w, n, ver), left)), n, ver)
  {
    SubtreeShared(n.right, n, ver);
    SharedMono(left, n.left, n, ver);
    BalanceShares(w, SetLeft(w, Owned(w, n, ver), left), n, ver);
  }

  lemma RelinkRightShares<V>(w: V -> nat, n: AvlNode<V>, right: AvlNode<V>, ver: nat)
    requires n.Node? && Valid(w, n) && Valid(w, right) && Shared(right, n.right, ver)
    ensures Shared(Balance(w, SetRight(w, Owned(w, n, ver), right)), n, ver)
  {
    SubtreeShared(n.left, n, ver);
    SharedMono(right, n.right, n, ver);
    BalanceShares(w, SetRight(w, Owned(w, n, ver), right), n, ver);
  }


  // Rebalancing after one child changed

  /** Relinking a child whose rank moved by at most 1 into the owned copy of
      an AVL node and rebalancing yields an AVL tree whose rank moved the
      same way by at most 1. */
  lemma RelinkLeftBalanced<V>(w: V -> nat, n: AvlNode<V>, left: AvlNode<V>, ver: nat)
    requires n.Node? && Valid(w, n) && Valid(w, left)
    ensures AllBalanced(n) && AllBalanced(left) && -1 <= RankOf(left) - RankOf(n.left) <= 1 ==>
      var r := Balance(w, SetLeft(w, Owned(w, n, ver), left));
      AllBalanced(r) &&
      (RankOf(n.left) <= RankOf(left) ==> n.rank <= r.rank <= n.rank + 1) &&
      (RankOf(left) <= RankOf(n.left) ==> n.rank - 1 <= r.rank <= n.rank)
  {
    if AllBalanced(n) && AllBalanced(left) && -1 <= RankOf(left) - RankOf(n.left) <= 1 {
      RankTests(n);
      var m := SetLeft(w, Owned(w, n, ver), left);
      RankTests(m);
      BalanceRestores(w, m);
    }
  }

  lemma RelinkRightBalanced<V>(w: V -> nat, n: AvlNode<V>, right: AvlNode<V>, ver: nat)
    requires n.Node? && Valid(w, n) && Valid(w, right)
    ensures AllBalanced(n) && AllBalanced(right) && -1 <= RankOf(right) - RankOf(n.right) <= 1 ==>
      var r := Balance(w, SetRight(w, Owned(w, n, ver), right));
      AllBalanced(r) &&
      (RankOf(n.right) <= RankOf(right) ==> n.rank <= r.rank <= n.rank + 1) &&
      (RankOf(right) <= RankOf(n.right) ==> n.rank - 1 <= r.rank <= n.rank)
  {
    if AllBalanced(n) && AllBalanced(right) && -1 <= RankOf(right) - RankOf(n.right) <= 1 {
      RankTests(n);
      var m := SetRight(w, Owned(w, n, ver), right);
      RankTests(m);
      BalanceRestores(w, m);
    }
  }

  /** Two trees of the same shape. */
  ghost predicate SameShape<V>(a: AvlNode<V>, b: AvlNode<V>)
  {
    (a.Null? && b.Null?) ||
    (a.Node? && b.Node? && SameShape(a.left, b.left) && SameShape(a.right, b.right))
  }

  lemma SameShapeReflexive<V>(a: AvlNode<V>)
    ensures SameShape(a, a)
  {
  }

  /** Trees of the same shape have the same ranks, so `replace`, which keeps
      the shape, keeps the tree balanced. */
  lemma {:induction false} SameShapeBalanced<V>(a: AvlNode<V>, b: AvlNode<V>)
    requires Ranked(a) && Ranked(b) && SameShape(a, b)
    ensures RankOf(a) == RankOf(b)
    ensures AllBalanced(a) <==> AllBalanced(b)
  {
    if a.Node? {
      SameShapeBalanced(a.left, b.left);
      SameShapeBalanced(a.right, b.right);
      RankTests(a);
      RankTests(b);
    }
  }

  // Safe modification

  /** `insert(index, v, ver)`: `v` spliced into the in-order sequence at
      `index`, clamped to the end. The path is owned by `ver` and
      rebalanced: an AVL tree stays one, one level taller at most. */
  function Insert<V>(w: V -> nat, n: AvlNode<V>, index: nat, v: V, ver: nat): (r: AvlNode<V>)
    requires n.Node? && Valid(w, n)
    ensures r.Node? && Valid(w, r) && r.version == ver
    ensures ElemsOf(r) == SeqInsert(ElemsOf(n), index, v)
    ensures Shared(r, n, ver)
    ensures AllBalanced(n) ==> AllBalanced(r) && n.rank <= r.rank <= n.rank + 1
    decreases n
  {
    var currIndex := CountOf(n.left);
    var self := Owned(w, n, ver);
    if index <= currIndex then
      var left := if n.left.Node? then Insert(w, n.left, index, v, ver) else Leaf(w, v, ver);
      assert n.left.Null? ==> ElemsOf(left) == SeqInsert([], index, v);
      InsertInLeftChild(w, n, index, v, ver, left);
      Balance(w, SetLeft(w, self, left))
    else
      var right := if n.right.Node? then Insert(w, n.right, index - currIndex - 1, v, ver)
        else Leaf(w, v, ver);
      assert n.right.Null? ==> ElemsOf(right) == SeqInsert([], index - currIndex - 1, v);
      InsertInRightChild(w, n, index, v, ver, right);
      Balance(w, SetRight(w, self, right))
  }

  lemma InsertInLeftChild<V>(w: V -> nat, n: AvlNode<V>, index: nat, v: V, ver: nat, left: AvlNode<V>)
    requires n.Node? && Valid(w, n) && index <= CountOf(n.left)
    requires Valid(w, left) && ElemsOf(left) == SeqInsert(ElemsOf(n.left), index, v)
    requires Shared(left, n.left, ver)
    requires AllBalanced(n.left) ==> AllBalanced(left) && RankOf(n.left) <= RankOf(left) <= RankOf(n.left) + 1
    ensures var r := Balance(w, SetLeft(w, Owned(w, n, ver), left));
      ElemsOf(r) == SeqInsert(ElemsOf(n), index, v) && Shared(r, n, ver) &&
      (AllBalanced(n) ==> AllBalanced(r) && n.rank <= r.rank <= n.rank + 1)
  {
    CachedCounters(w, n.left);
    InsertInLeft(ElemsOf(n.left), n.value, ElemsOf(n.right), index, v);
    RelinkLeftShares(w, n, left, ver);
    RelinkLeftBalanced(w, n, left, ver);
  }

  lemma InsertInRightChild<V>(w: V -> nat, n: AvlNode<V>, index: nat, v: V, ver: nat, right: AvlNode<V>)
    requires n.Node? && Valid(w, n) && index > CountOf(n.left)
    requires Valid(w, right) && ElemsOf(right) == SeqInsert(ElemsOf(n.right), index - CountOf(n.left) - 1, v)
    requires Shared(right, n.right, ver)
    requires AllBalanced(n.right) ==> AllBalanced(right) && RankOf(n.right) <= RankOf(right) <= RankOf(n.right) + 1
    ensures var r := Balance(w, SetRight(w, Owned(w, n, ver), right));
      ElemsOf(r) == SeqInsert(ElemsOf(n), index, v) && Shared(r, n, ver) &&
      (AllBalanced(n) ==> AllBalanced(r) && n.rank <= r.rank <= n.rank + 1)
  {
    CachedCounters(w, n.left);
    InsertInRight(ElemsOf(n.left), n.value, ElemsOf(n.right), index, v);
    RelinkRightShares(w, n, right, ver);
    RelinkRightBalanced(w, n, right, ver);
  }

  /** `replace(index, v, ver)`: the value at `index`, clamped to the last
      one, becomes `v`; the tree keeps its shape and is not rebalanced. */
  function Replace<V>(w: V -> nat, n: AvlNode<V>, index: nat, v: V, ver: nat): (r: AvlNode<V>)
    requires n.Node? && Valid(w, n)
    ensures r.Node? && Valid(w, r) && r.version == ver
    ensures ElemsOf(r) == SeqReplace(ElemsOf(n), index, v)
    ensures SameShape(r, n)
    ensures Shared(r, n, ver)
    decreases n
  {
    var currIndex := CountOf(n.left);
    var self := Owned(w, n, ver);
    if index < currIndex && n.left.Node? then
      var left := Replace(w, n.left, index, v, ver);
      ReplaceInLeftChild(w, n, index, v, ver, left);
      SetLeft(w, self, left)
    else if index > currIndex && n.right.Node? then
      var right := Replace(w, n.right, index - currIndex - 1, v, ver);
      ReplaceInRightChild(w, n, index, v, ver, right);
      SetRight(w, self, right)
    else
      ReplaceHere(w, n, index, v, ver);
      SetValue(w, self, v)
  }

  lemma ReplaceInLeftChild<V>(w: V -> nat, n: AvlNode<V>, index: nat, v: V, ver: nat, left: AvlNode<V>)
    requires n.Node? && Valid(w, n) && index < CountOf(n.left)
    requires Valid(w, left) && ElemsOf(left) == SeqReplace(ElemsOf(n.left), index, v)
    requires SameShape(left, n.left) && Shared(left, n.left, ver)
    ensures var r := SetLeft(w, Owned(w, n, ver), left);
      ElemsOf(r) == SeqReplace(ElemsOf(n), index, v) && SameShape(r, n) && Shared(r, n, ver)
  {
    CachedCounters(w, n.left);
    ReplaceInLeft(ElemsOf(n.left), n.value, ElemsOf(n.right), index, v);
    SameShapeReflexive(n.right);
    SubtreeShared(n.right, n, ver);
    SharedMono(left, n.left, n, ver);
  }

  lemma ReplaceInRightChild<V>(w: V -> nat, n: AvlNode<V>, index: nat, v: V, ver: nat, right: AvlNode<V>)
    requires n.Node? && Valid(w, n) && index > CountOf(n.left) && n.right.Node?
    requires Valid(w, right) && ElemsOf(right) == SeqReplace(ElemsOf(n.right), index - CountOf(n.left) - 1, v)
    requires SameShape(right, n.right) && Shared(right, n.right, ver)
    ensures var r := SetRight(w, Owned(w, n, ver), right);
      ElemsOf(r) == SeqReplace(ElemsOf(n), index, v) && SameShape(r, n) && Shared(r, n, ver)
  {
    CachedCounters(w, n.left);
    CachedCounters(w, n.right);
    ReplaceInRight(ElemsOf(n.left), n.value, ElemsOf(n.right), index, v);
    SameShapeReflexive(n.left);
    SubtreeShared(n.left, n, ver);
    SharedMono(right, n.right, n, ver);
  }

  lemma ReplaceHere<V>(w: V -> nat, n: AvlNode<V>, index: nat, v: V, ver: nat)
    requires n.Node? && Valid(w, n)
    requires !(index < CountOf(n.left) && n.left.Node?) && !(index > CountOf(n.left) && n.right.Node?)
    ensures var r := SetValue(w, Owned(w, n, ver), v);
      ElemsOf(r) == SeqReplace(ElemsOf(n), index, v) && SameShape(r, n) && Shared(r, n, ver)
  {
    CachedCounters(w, n.left);
    CachedCounters(w, n.right);
    ReplaceAtNode(ElemsOf(n.left), n.value, ElemsOf(n.right), index, v);
    SameShapeReflexive(n.left);
    SameShapeReflexive(n.right);
    SubtreeShared(n.left, n, ver);
    SubtreeShared(n.right, n, ver);
  }

  /** `replace` keeps an AVL tree balanced, at the same rank. */
  lemma ReplaceBalanced<V>(w: V -> nat, n: AvlNode<V>, index: nat, v: V, ver: nat)
    requires n.Node? && Valid(w, n) && AllBalanced(n)
    ensures AllBalanced(Replace(w, n, index, v, ver))
    ensures Replace(w, n, index, v, ver).rank == n.rank
  {
    SameShapeBalanced(Replace(w, n, index, v, ver), n);
  }

  /** `delete(index, ver)`: the value at `index`, clamped to the last one,
      removed from the in-order sequence; an AVL tree stays one, one level
      lower at most. */
  function Delete<V>(w: V -> nat, n: AvlNode<V>, index: nat, ver: nat): (r: AvlNode<V>)
    requires n.Node? && Valid(w, n)
    ensures Valid(w, r)
    ensures ElemsOf(r) == SeqDelete(ElemsOf(n), index)
    ensures Shared(r, n, ver)
    ensures AllBalanced(n) ==> AllBalanced(r) && n.rank - 1 <= RankOf(r) <= n.rank
    decreases n
  {
    var currIndex := CountOf(n.left);
    if index < currIndex && n.left.Node? then
      var self := Owned(w, n, ver);
      var left := Delete(w, n.left, index, ver);
      DeleteInLeftChild(w, n, index, ver, left);
      Balance(w, SetLeft(w, self, left))
    else if index > currIndex && n.right.Node? then
      var self := Owned(w, n, ver);
      var right := Delete(w, n.right, index - currIndex - 1, ver);
      DeleteInRightChild(w, n, index, ver, right);
      Balance(w, SetRight(w, self, right))
    else
      DeleteHere(w, n, index, ver);
      DeleteCurrent(w, n, ver)
  }

  lemma DeleteInLeftChild<V>(w: V -> nat, n: AvlNode<V>, index: nat, ver: nat, left: AvlNode<V>)
    requires n.Node? && Valid(w, n) && index < CountOf(n.left)
    requires Valid(w, left) && ElemsOf(left) == SeqDelete(ElemsOf(n.left), index)
    requires Shared(left, n.left, ver)
    requires AllBalanced(n.left) ==> AllBalanced(left) && RankOf(n.left) - 1 <= RankOf(left) <= RankOf(n.left)
    ensures var r := Balance(w, SetLeft(w, Owned(w, n, ver), left));
      ElemsOf(r) == SeqDelete(ElemsOf(n), index) && Shared(r, n, ver) &&
      (AllBalanced(n) ==> AllBalanced(r) && n.rank - 1 <= r.rank <= n.rank)
  {
    CachedCounters(w, n.left);
    DeleteInLeft(ElemsOf(n.left), n.value, ElemsOf(n.right), index);
    RelinkLeftShares(w, n, left, ver);
    RelinkLeftBalanced(w, n, left, ver);
  }

  lemma DeleteInRightChild<V>(w: V -> nat, n: AvlNode<V>, index: nat, ver: nat, right: AvlNode<V>)
    requires n.Node? && Valid(w, n) && index > CountOf(n.left) && n.right.Node?
    requires Valid(w, right) && ElemsOf(right) == SeqDelete(ElemsOf(n.right), index - CountOf(n.left) - 1)
    requires Shared(right, n.right, ver)
    requires AllBalanced(n.right) ==> AllBalanced(right) && RankOf(n.right) - 1 <= RankOf(right) <= RankOf(n.right)
    ensures var r := Balance(w, SetRight(w, Owned(w, n, ver), right));
      ElemsOf(r) == SeqDelete(ElemsOf(n), index) && Shared(r, n, ver) &&
      (AllBalanced(n) ==> AllBalanced(r) && n.rank - 1 <= r.rank <= n.rank)
  {
    CachedCounters(w, n.left);
    CachedCounters(w, n.right);
    DeleteInRight(ElemsOf(n.left), n.value, ElemsOf(n.right), index);
    RelinkRightShares(w, n, right, ver);
    RelinkRightBalanced(w, n, right, ver);
  }

  lemma DeleteHere<V>(w: V -> nat, n: AvlNode<V>, index: nat, ver: nat)
    requires n.Node? && Valid(w, n)
    requires !(index < CountOf(n.left) && n.left.Node?) && !(index > CountOf(n.left) && n.right.Node?)
    ensures ElemsOf(n.left) + ElemsOf(n.right) == SeqDelete(ElemsOf(n), index)
  {
    CachedCounters(w, n.left);
    CachedCounters(w, n.right);
    DeleteAtNode(ElemsOf(n.left), n.value, ElemsOf(n.right), index);
  }

  /** `deleteCurrent(ver)`: the subtree without its root value. A node with
      one child is replaced by that child, unchanged; a node with two
      children takes the first value of its right subtree. */
  function DeleteCurrent<V>(w: V -> nat, n: AvlNode<V>, ver: nat): (r: AvlNode<V>)
    requires n.Node? && Valid(w, n)
    ensures Valid(w, r)
    ensures ElemsOf(r) == ElemsOf(n.left) + ElemsOf(n.right)
    ensures n.left.Null? ==> r == n.right
    ensures n.left.Node? && n.right.Null? ==> r == n.left
    ensures Shared(r, n, ver)
    ensures AllBalanced(n) ==> AllBalanced(r) && n.rank - 1 <= RankOf(r) <= n.rank
  {
    if n.left.Null? then
      SubtreeShared(n.right, n, ver);
      n.right
    else if n.right.Null? then
      SubtreeShared(n.left, n, ver);
      n.left
    else
      var self := Owned(w, n, ver);
      var right := DeleteLeftmost(w, n.right, ver);
      TwoChildrenElems(w, n, ver, right);
      TwoChildrenShares(w, n, ver, right);
      TwoChildrenBalanced(w, n, ver, right);
      Balance(w, SetRight(w, SetValue(w, self, Leftmost(n.right)), right))
  }

  // The three facts about `deleteCurrent` on a node with two children,
  // where `right` is the right subtree without its first value.

  lemma TwoChildrenElems<V>(w: V -> nat, n: AvlNode<V>, ver: nat, right: AvlNode<V>)
    requires n.Node? && Valid(w, n) && n.left.Node? && n.right.Node?
    requires Valid(w, right) && ElemsOf(right) == ElemsOf(n.right)[1..]
    ensures ElemsOf(Balance(w, SetRight(w, SetValue(w, Owned(w, n, ver), Leftmost(n.right)), right)))
      == ElemsOf(n.left) + ElemsOf(n.right)
  {
    var first := Leftmost(n.right);
    assert [first] + ElemsOf(n.right)[1..] == ElemsOf(n.right);
  }

  lemma TwoChildrenShares<V>(w: V -> nat, n: AvlNode<V>, ver: nat, right: AvlNode<V>)
    requires n.Node? && Valid(w, n) && n.left.Node? && n.right.Node?
    requires Valid(w, right) && Shared(right, n.right, ver)
    ensures Shared(Balance(w, SetRight(w, SetValue(w, Owned(w, n, ver), Leftmost(n.right)), right)), n, ver)
  {
    SubtreeShared(n.left, n, ver);
    SharedMono(right, n.right, n, ver);
    BalanceShares(w, SetRight(w, SetValue(w, Owned(w, n, ver), Leftmost(n.right)), right), n, ver);
  }

  lemma TwoChildrenBalanced<V>(w: V -> nat, n: AvlNode<V>, ver: nat, right: AvlNode<V>)
    requires n.Node? && Valid(w, n) && n.left.Node? && n.right.Node? && Valid(w, right)
    requires AllBalanced(n.right) ==> AllBalanced(right) && RankOf(n.right) - 1 <= RankOf(right) <= RankOf(n.right)
    ensures var r := Balance(w, SetRight(w, SetValue(w, Owned(w, n, ver), Leftmost(n.right)), right));
      AllBalanced(n) ==> AllBalanced(r) && n.rank - 1 <= r.rank <= n.rank
  {
    var self' := SetValue(w, Owned(w, n, ver), Leftmost(n.right));
    assert Owned(w, self', ver) == self';
    assert AllBalanced(n) ==> AllBalanced(self');
    RelinkRightBalanced(w, self', right, ver);
  }

  /** `deleteLeftmost(ver)`: the subtree without its first value. */
  function DeleteLeftmost<V>(w: V -> nat, n: AvlNode<V>, ver: nat): (r: AvlNode<V>)
    requires n.Node? && Valid(w, n)
    ensures Valid(w, r)
    ensures ElemsOf(r) == ElemsOf(n)[1..]
    ensures Shared(r, n, ver)
    ensures AllBalanced(n) ==> AllBalanced(r) && n.rank - 1 <= RankOf(r) <= n.rank
    decreases n
  {
    if n.left.Node? then
      var self := Owned(w, n, ver);
      var left := DeleteLeftmost(w, n.left, ver);
      DeleteLeftmostInLeftChild(w, n, ver, left);
      Balance(w, SetLeft(w, self, left))
    else
      SubtreeShared(n.right, n, ver);
      RankTests(n);
      n.right
  }

  lemma DeleteLeftmostInLeftChild<V>(w: V -> nat, n: AvlNode<V>, ver: nat, left: AvlNode<V>)
    requires n.Node? && Valid(w, n) && n.left.Node?
    requires Valid(w, left) && ElemsOf(left) == ElemsOf(n.left)[1..]
    requires Shared(left, n.left, ver)
    requires AllBalanced(n.left) ==> AllBalanced(left) && RankOf(n.left) - 1 <= RankOf(left) <= RankOf(n.left)
    ensures var r := Balance(w, SetLeft(w, Owned(w, n, ver), left));
      ElemsOf(r) == ElemsOf(n)[1..] && Shared(r, n, ver) &&
      (AllBalanced(n) ==> AllBalanced(r) && n.rank - 1 <= r.rank <= n.rank)
  {
    assert (ElemsOf(n.left) + [n.value] + ElemsOf(n.right))[1..]
      == ElemsOf(n.left)[1..] + [n.value] + ElemsOf(n.right);
    RelinkLeftShares(w, n, left, ver);
    RelinkLeftBalanced(w, n, left, ver);
  }

  // The double rotation of `balance` as written

  /** Deleting the first value of a tree whose left child is a leaf owns
      the root and relinks an empty left child before balancing. */
  lemma DeleteFirstOfLeafLeft<V>(w: V -> nat, n: AvlNode<V>, ver: nat)
    requires n.Node? && Valid(w, n) && n.left.Node? && n.left.left.Null? && n.left.right.Null?
    ensures Delete(w, n, 0, ver) == Balance(w, SetLeft(w, Owned(w, n, ver), Null))
  {
    var l := n.left;
    assert Counted(w, l);
    assert CountOf(l) == 1;
    assert Delete(w, l, 0, ver) == DeleteCurrent(w, l, ver) == Null;
  }

  lemma NotInLeaf<V>(m: AvlNode<V>, leaf: AvlNode<V>)
    requires m.Node? && leaf.Node? && leaf.left.Null? && leaf.right.Null? && m.value != leaf.value
    ensures !IsSubtree(m, leaf)
  {
    assert !IsSubtree(m, leaf.left) && !IsSubtree(m, leaf.right);
  }

  /** Deleting the first value of [x1, x2, x3, x4], built at version `v0`,
      at a later version `v1` leaves a right-heavy root whose right child,
      stamped `v0`, leans left. `balance` as written rotates that child
      itself, so its result links a node stamped `v0` that the version-`v0`
      tree does not contain: in the source it is the old node, changed in
      place, and version `v0` then reads [x1, x2, x4]. The copy-on-write
      `Balance`, which `Delete` uses, shares the old nodes intact. */
  lemma BalanceAsWrittenChangesOldVersion<V>(w: V -> nat, x1: V, x2: V, x3: V, x4: V, v0: nat, v1: nat)
    requires v0 != v1 && x4 != x1 && x4 != x3
    ensures var d := NewNode(w, Leaf(w, x3, v0), x4, v0, Null);
      var root := NewNode(w, Leaf(w, x1, v0), x2, v0, d);
      var m := SetLeft(w, Owned(w, root, v1), Null);
      ElemsOf(root) == [x1, x2, x3, x4] &&
      Delete(w, root, 0, v1) == Balance(w, m) &&
      !Shared(BalanceAsWritten(w, m), root, v1) && Shared(Balance(w, m), root, v1)
  {
    var a := Leaf(w, x1, v0);
    var c := Leaf(w, x3, v0);
    var d := NewNode(w, c, x4, v0, Null);
    var root := NewNode(w, a, x2, v0, d);
    DeleteFirstOfLeafLeft(w, root, v1);
    var m := SetLeft(w, Owned(w, root, v1), Null);
    assert m.right == d && m.rank == 3 && d.rank == 2;
    // The old node holding x4, rotated in place, loses its left child.
    var d' := SetLeft(w, d, Null);
    assert RotateRight(w, d).right == d';
    var r := BalanceAsWritten(w, m);
    assert r.right == d' && d'.version == v0;
    assert !IsSubtree(d', root) by {
      assert d'.value == x4 && d'.left.Null?;
      NotInLeaf(d', a);
      NotInLeaf(d', c);
      assert !IsSubtree(d', Null);
      assert d' != d && !IsSubtree(d', d);
      assert d' != root;
    }
  }

  // Versions of a list handle

  /** No node of the subtree carries a stamp newer than `ver`. */
  ghost predicate StampedAtMost<V>(n: AvlNode<V>, ver: nat)
  {
    n.Null? || (n.version <= ver && StampedAtMost(n.left, ver) && StampedAtMost(n.right, ver))
  }

  lemma {:induction false} AllStampedAtMost<V>(n: AvlNode<V>, ver: nat)
    requires AllStamped(n, ver)
    ensures StampedAtMost(n, ver)
    decreases n
  {
    if n.Node? {
      AllStampedAtMost(n.left, ver);
      AllStampedAtMost(n.right, ver);
    }
  }

  lemma {:induction false} StampedWeaken<V>(n: AvlNode<V>, v: nat, ver: nat)
    requires StampedAtMost(n, v) && v <= ver
    ensures StampedAtMost(n, ver)
    decreases n
  {
    if n.Node? {
      StampedWeaken(n.left, v, ver);
      StampedWeaken(n.right, v, ver);
    }
  }

  lemma {:induction false} SubtreeStamped<V>(m: AvlNode<V>, n: AvlNode<V>, ver: nat)
    requires IsSubtree(m, n) && StampedAtMost(n, ver)
    ensures StampedAtMost(m, ver)
    decreases n
  {
    if m != n {
      if IsSubtree(m, n.left) {
        SubtreeStamped(m, n.left, ver);
      } else {
        SubtreeStamped(m, n.right, ver);
      }
    }
  }

  /** A mutation at `ver` of a tree without newer stamps leaves none either. */
  lemma {:induction false} SharedStamped<V>(r: AvlNode<V>, o: AvlNode<V>, ver: nat)
    requires Shared(r, o, ver) && StampedAtMost(o, ver)
    ensures StampedAtMost(r, ver)
    decreases r
  {
    if r.Node? {
      if r.version == ver {
        SharedStamped(r.left, o, ver);
        SharedStamped(r.right, o, ver);
      } else {
        SubtreeStamped(r, o, ver);
      }
    }
  }

  /** In a tree whose stamps are all older than `ver`, no node is owned at
      `ver`: the first mutation at `ver` of any of its nodes clones it. */
  lemma OlderNotOwned<V>(w: V -> nat, m: AvlNode<V>, n: AvlNode<V>, v: nat, ver: nat)
    requires IsSubtree(m, n) && m.Node? && StampedAtMost(n, v) && v < ver
    ensures Owned(w, m, ver) != m
  {
    SubtreeStamped(m, n, v);
  }

  /** A node of `b` that `b` does not own at `ver` is, when `b` shares with
      `c`, a node of `c`. */
  lemma {:induction false} SubtreeOfShared<V>(a: AvlNode<V>, b: AvlNode<V>, c: AvlNode<V>, ver: nat)
    requires Shared(b, c, ver) && IsSubtree(a, b) && a.Node? && a.version != ver
    ensures IsSubtree(a, c)
    decreases b
  {
    if a != b {
      if b.version == ver {
        if IsSubtree(a, b.left) {
          SubtreeOfShared(a, b.left, c, ver);
        } else {
          SubtreeOfShared(a, b.right, c, ver);
        }
      } else {
        SubtreeTrans(a, b, c);
      }
    }
  }

  /** Successive mutations at one version share with the tree before the
      first of them. */
  lemma {:induction false} SharedTrans<V>(a: AvlNode<V>, b: AvlNode<V>, c: AvlNode<V>, ver: nat)
    requires Shared(a, b, ver) && Shared(b, c, ver)
    ensures Shared(a, c, ver)
    decreases a
  {
    if a.Node? {
      if a.version == ver {
        SharedTrans(a.left, b, c, ver);
        SharedTrans(a.right, b, c, ver);
      } else {
        SubtreeOfShared(a, b, c, ver);
      }
    }
  }

  /** A tree shares with itself. */
  lemma SharedReflexive<V>(n: AvlNode<V>, ver: nat)
    ensures Shared(n, n, ver)
  {
    SubtreeShared(n, n, ver);
  }
}
