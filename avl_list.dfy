/** The list handle over an AVL tree (src/avl/avl-list.ts).

    A handle holds a root and a version. Mutations through the handle are
    stamped with its version, so they change in place only the nodes the
    handle created itself; `cow` and `fork` hand out a handle one version
    newer, whose first write to any node reachable from older handles
    clones that node. */
module AvlLists {
  import opened Common
  import opened BinNode
  import opened AvlTree
  import opened BinTreeIter
  import opened ListOps

  /** `INITIAL_VERSION`. */
  const InitialVersion: nat := 0

  class AvlList<V> {
    const weight: V -> nat
    var root: AvlNode<V>
    var version: nat

    /** The list's values, in order. */
    ghost function Elems(): seq<V>
      reads this
    {
      ElemsOf(root)
    }

    /** The root is an AVL tree with up-to-date cached counters, and none of
        its nodes carries a stamp newer than the handle's version. */
    ghost predicate Valid()
      reads this
    {
      AvlTree.Valid(weight, root) && AllBalanced(root) && StampedAtMost(root, version)
    }

    constructor (w: V -> nat, root: AvlNode<V>, ver: nat)
      ensures weight == w && this.root == root && version == ver
    {
      weight := w;
      this.root := root;
      version := ver;
    }

    /** `empty`: the empty list at the initial version. */
    static method Empty(w: V -> nat) returns (l: AvlList<V>)
      ensures fresh(l) && l.Valid() && l.weight == w
      ensures l.Elems() == [] && l.version == InitialVersion
    {
      l := new AvlList(w, Null, InitialVersion);
    }

    /** `from`: the list of the values `vs`, every node at the initial
        version. */
    static method From(w: V -> nat, vs: seq<V>) returns (l: AvlList<V>)
      ensures fresh(l) && l.Valid() && l.weight == w
      ensures l.Elems() == vs && l.version == InitialVersion
      ensures AllStamped(l.root, InitialVersion) && RankOf(l.root) == Bits(|vs|)
    {
      var root := AvlTree.From(w, vs, 0, |vs|, InitialVersion);
      assert vs[0..|vs|] == vs;
      AllStampedAtMost(root, InitialVersion);
      l := new AvlList(w, root, InitialVersion);
    }

    /** `fromIterable`: the list of the first `len` values of a fresh
        iteration over `vs`. */
    static method FromIterable(w: V -> nat, vs: seq<V>, len: nat) returns (l: AvlList<V>)
      requires len <= |vs|
      ensures fresh(l) && l.Valid() && l.weight == w
      ensures l.Elems() == vs[..len] && l.version == InitialVersion
      ensures AllStamped(l.root, InitialVersion) && RankOf(l.root) == Bits(len)
    {
      var stream := new ValueStream(vs);
      var root := FromIterator(w, stream, 0, len, InitialVersion);
      AllStampedAtMost(root, InitialVersion);
      l := new AvlList(w, root, InitialVersion);
    }

    /** `cow`: a handle on the same tree, one version newer, so that none of
        the tree's nodes is owned by it. The receiver is left as it is. */
    method Cow() returns (l: AvlList<V>)
      requires Valid()
      ensures fresh(l) && l.Valid() && l.weight == weight
      ensures l.root == root && l.version == version + 1
      ensures StampedAtMost(l.root, version)
    {
      StampedWeaken(root, version, version + 1);
      l := new AvlList(weight, root, version + 1);
    }

    /** `fork`: the receiver moves to a new version and a second handle on
        the same tree takes that version too; the tree's nodes are all
        older, so each handle clones a node before its first write to it. */
    method Fork() returns (l: AvlList<V>)
      requires Valid()
      modifies this
      ensures fresh(l) && Valid() && l.Valid() && l.weight == weight
      ensures root == old(root) && version == old(version) + 1
      ensures l.root == root && l.version == version
      ensures StampedAtMost(root, old(version))
    {
      StampedWeaken(root, version, version + 1);
      version := version + 1;
      l := new AvlList(weight, root, version);
    }

    /** `length`: the cached count of the root is the number of values. */
    function Length(): (n: nat)
      reads this
      requires Valid()
      ensures n == |Elems()|
      ensures n == 0 <==> root.Null?
    {
      CachedCounters(weight, root);
      if root.Node? then root.count else 0
    }

    /** `summary`: the cached summary of the root is the total weight. */
    function Summary(): (s: nat)
      reads this
      requires Valid()
      ensures s == Sum(weight, Elems())
    {
      CachedCounters(weight, root);
      SummaryOf(root)
    }

    /** `reduce`: the left fold of `f` over the values in order. */
    function Reduce<U>(f: (U, V) -> U, prefix: U): (r: U)
      reads this
      ensures r == FoldLeft(f, prefix, Elems())
    {
      AvlTree.Reduce(root, f, prefix)
    }

    /** `toArray`: the values in order. */
    function ToArray(): (a: seq<V>)
      reads this
      ensures a == Elems()
    {
      FoldPushIsIdentity(Elems());
      Reduce(Push, [])
    }

    /** `atFirst`: a cursor on the first value. */
    method AtFirst() returns (it: BinTreeIterator<V>)
      requires Valid()
      ensures fresh(it) && it.Valid() && it.weight == weight && it.root == root
      ensures it.index == 0 && it.summary == 0 && (it.done <==> Elems() == [])
    {
      it := BinTreeIterator.AtFirst(weight, root);
    }

    /** `atEqual`: a cursor at the value the pathfinder `f` designates. */
    method AtEqual(f: (V, nat) -> Ordering, leftSeekBias: bool) returns (it: BinTreeIterator<V>)
      requires Valid()
      ensures fresh(it) && it.Valid() && it.weight == weight && it.root == root
      ensures SeekResult(weight, f, Elems(), leftSeekBias, it.index, it.done)
    {
      it := BinTreeIterator.AtEqual(weight, root, f, leftSeekBias);
    }

    /** `delete`: the value at `index` (clamped to the last one) removed,
        nothing when the list is empty; the handle's version is the
        mutation's, so only nodes it owns are changed. */
    method Delete(index: nat)
      requires Valid()
      modifies this
      ensures Valid() && version == old(version)
      ensures Elems() == SeqDelete(old(Elems()), index)
      ensures Shared(root, old(root), version)
    {
      if root.Node? {
        var r := AvlTree.Delete(weight, root, index, version);
        SharedStamped(r, root, version);
        root := r;
      }
    }

    /** `insert`: `v` inserted at `index` (clamped to the end); into an
        empty list, a leaf at the handle's version. */
    method Insert(index: nat, v: V)
      requires Valid()
      modifies this
      ensures Valid() && version == old(version)
      ensures Elems() == SeqInsert(old(Elems()), index, v)
      ensures Shared(root, old(root), version)
    {
      var r;
      if root.Node? {
        r := AvlTree.Insert(weight, root, index, v, version);
        SharedStamped(r, root, version);
      } else {
        r := Leaf(weight, v, version);
        AllStampedAtMost(r, version);
      }
      root := r;
    }

    /** `replace`: the value at `index` (clamped to the last one)
        substituted by `v`, nothing when the list is empty. */
    method Replace(index: nat, v: V)
      requires Valid()
      modifies this
      ensures Valid() && version == old(version)
      ensures Elems() == SeqReplace(old(Elems()), index, v)
      ensures Shared(root, old(root), version)
    {
      if root.Node? {
        var r := AvlTree.Replace(weight, root, index, v, version);
        ReplaceBalanced(weight, root, index, v, version);
        SharedStamped(r, root, version);
        root := r;
      }
    }

    /** `apply`: the batch `ops`, one operation after the other, dispatched
        on the operation's type. */
    method Apply(ops: seq<Op<V>>)
      requires Valid()
      requires forall i :: 0 <= i < |ops| ==> IsListOp(ops[i])
      modifies this
      ensures Valid() && version == old(version)
      ensures Elems() == ApplyOps(old(Elems()), ops)
      ensures Shared(root, old(root), version)
    {
      SharedReflexive(root, version);
      for k := 0 to |ops|
        invariant Valid() && version == old(version)
        invariant Elems() == ApplyOps(old(Elems()), ops[..k])
        invariant Shared(root, old(root), version)
      {
        var op := ops[k];
        ghost var before := root;
        if op.tag == ListDelType {
          Delete(op.index);
        } else if op.tag == ListInsType {
          Insert(op.index, op.value.value);
        } else if op.tag == ListSubType {
          Replace(op.index, op.value.value);
        }
        SharedTrans(root, before, old(root), version);
        assert ops[..k + 1][..k] == ops[..k];
      }
      assert ops[..|ops|] == ops;
    }

    /** `deleted`: a new version with the value at `index` removed; the
        receiver keeps its values. */
    method Deleted(index: nat) returns (l: AvlList<V>)
      requires Valid()
      ensures fresh(l) && l.Valid() && l.weight == weight && l.version == version + 1
      ensures l.Elems() == SeqDelete(Elems(), index)
      ensures Shared(l.root, root, l.version)
    {
      l := Cow();
      l.Delete(index);
    }

    /** `inserted`: a new version with `v` inserted at `index`. */
    method Inserted(index: nat, v: V) returns (l: AvlList<V>)
      requires Valid()
      ensures fresh(l) && l.Valid() && l.weight == weight && l.version == version + 1
      ensures l.Elems() == SeqInsert(Elems(), index, v)
      ensures Shared(l.root, root, l.version)
    {
      l := Cow();
      l.Insert(index, v);
    }

    /** `replaced`: a new version with the value at `index` substituted. */
    method Replaced(index: nat, v: V) returns (l: AvlList<V>)
      requires Valid()
      ensures fresh(l) && l.Valid() && l.weight == weight && l.version == version + 1
      ensures l.Elems() == SeqReplace(Elems(), index, v)
      ensures Shared(l.root, root, l.version)
    {
      l := Cow();
      l.Replace(index, v);
    }

    /** `applied`: a new version with the batch `ops` applied. */
    method Applied(ops: seq<Op<V>>) returns (l: AvlList<V>)
      requires Valid()
      requires forall i :: 0 <= i < |ops| ==> IsListOp(ops[i])
      ensures fresh(l) && l.Valid() && l.weight == weight && l.version == version + 1
      ensures l.Elems() == ApplyOps(Elems(), ops)
      ensures Shared(l.root, root, l.version)
    {
      l := Cow();
      l.Apply(ops);
    }
  }

  /** A version derived from a handle shares every node it did not create
      with that handle's tree, and those nodes are all older than it: it
      can never have changed them in place. */
  lemma DerivedNeverOwnsOlder<V>(w: V -> nat, derived: AvlNode<V>, base: AvlNode<V>, ver: nat, m: AvlNode<V>)
    requires Shared(derived, base, ver + 1) && StampedAtMost(base, ver)
    requires IsSubtree(m, derived) && m.Node? && m.version != ver + 1
    ensures IsSubtree(m, base) && Owned(w, m, ver + 1) != m
  {
    SubtreeOfShared(m, derived, base, ver + 1);
    OlderNotOwned(w, m, base, ver, ver + 1);
  }
}
