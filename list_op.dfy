/** Batch-operation descriptors (src/core/list-op.ts).

    At run time every operation is one record `{type, index, value}`; the
    `type` tag says whether it deletes, inserts or substitutes, and a
    deletion carries no value. */
module ListOps {
  import opened Common

  const ListDelType: nat := 0
  const ListInsType: nat := 1
  const ListSubType: nat := 2

  /** The internal record `Op<T, V>`; an absent value is `None`. */
  datatype Op<V> = Op(tag: nat, index: nat, value: Option<V>)

  /** The `ListOp` union: a deletion without value, or an insertion or a
      substitution with one. */
  predicate IsListOp<V>(op: Op<V>)
  {
    (op.tag == ListDelType && op.value.None?) ||
    (op.tag == ListInsType && op.value.Some?) ||
    (op.tag == ListSubType && op.value.Some?)
  }

  /** `del(index)`: deletion of the value at `index`. */
  function Del<V>(index: nat): (op: Op<V>)
    ensures IsListOp(op) && op.tag == ListDelType && op.index == index
  {
    Op(ListDelType, index, None)
  }

  /** `ins(index, value)`: insertion of `value` at `index`. */
  function Ins<V>(index: nat, value: V): (op: Op<V>)
    ensures IsListOp(op) && op.tag == ListInsType && op.index == index && op.value == Some(value)
  {
    Op(ListInsType, index, Some(value))
  }

  /** `sub(index, value)`: substitution of the value at `index` by `value`. */
  function Sub<V>(index: nat, value: V): (op: Op<V>)
    ensures IsListOp(op) && op.tag == ListSubType && op.index == index && op.value == Some(value)
  {
    Op(ListSubType, index, Some(value))
  }

  /** The tags are distinct, so every `ListOp` is built by exactly one of
      the three constructors, from its own index and value. */
  lemma ExactlyOneKind<V>(op: Op<V>)
    requires IsListOp(op)
    ensures op == Del(op.index) <==> op.tag == ListDelType
    ensures op.value.Some? ==> (op == Ins(op.index, op.value.value) <==> op.tag == ListInsType)
    ensures op.value.Some? ==> (op == Sub(op.index, op.value.value) <==> op.tag == ListSubType)
    ensures op.tag == ListDelType || op.tag == ListInsType || op.tag == ListSubType
    ensures !(op.tag == ListDelType && op.tag == ListInsType) && !(op.tag == ListDelType && op.tag == ListSubType)
    ensures op.tag != ListInsType || op.tag != ListSubType
  {
  }

  /** Two operations built by the constructors are the same operation only
      when they have the same kind, index and value. */
  lemma ConstructorsInjective<V>(i: nat, j: nat, u: V, v: V)
    ensures Del<V>(i) == Del<V>(j) <==> i == j
    ensures Ins(i, u) == Ins(j, v) <==> i == j && u == v
    ensures Sub(i, u) == Sub(j, v) <==> i == j && u == v
    ensures Del<V>(i) != Ins(j, v) && Del<V>(i) != Sub(j, v) && Ins(i, u) != Sub(j, v)
  {
  }

  /** Reference meaning of one operation on a plain sequence, as `apply`
      dispatches it on the tag (an unknown tag does nothing). */
  function ApplyOp<V>(s: seq<V>, op: Op<V>): seq<V>
  {
    if op.tag == ListDelType then SeqDelete(s, op.index)
    else if op.tag == ListInsType && op.value.Some? then SeqInsert(s, op.index, op.value.value)
    else if op.tag == ListSubType && op.value.Some? then SeqReplace(s, op.index, op.value.value)
    else s
  }

  /** Reference meaning of a batch: the operations in order. */
  function ApplyOps<V>(s: seq<V>, ops: seq<Op<V>>): seq<V>
    decreases |ops|
  {
    if ops == [] then s else ApplyOp(ApplyOps(s, ops[..|ops| - 1]), ops[|ops| - 1])
  }

  /** An empty batch changes nothing; a batch split in two is the first
      part, then the second. */
  lemma {:induction false} ApplyOpsConcat<V>(s: seq<V>, a: seq<Op<V>>, b: seq<Op<V>>)
    ensures ApplyOps(s, []) == s
    ensures ApplyOps(s, a + b) == ApplyOps(ApplyOps(s, a), b)
    decreases |b|
  {
    if b == [] {
      assert a + b == a;
    } else {
      var b' := b[..|b| - 1];
      assert (a + b)[..|a + b| - 1] == a + b';
      ApplyOpsConcat(s, a, b');
    }
  }

  /** Each constructor's operation means the plain-sequence splice. */
  lemma ApplyConstructors<V>(s: seq<V>, i: nat, v: V)
    ensures ApplyOp(s, Del(i)) == SeqDelete(s, i)
    ensures ApplyOp(s, Ins(i, v)) == SeqInsert(s, i, v)
    ensures ApplyOp(s, Sub(i, v)) == SeqReplace(s, i, v)
    ensures |ApplyOp(s, Ins(i, v))| == |s| + 1
    ensures s != [] ==> |ApplyOp(s, Del(i))| == |s| - 1
    ensures |ApplyOp(s, Sub(i, v))| == |s|
  {
  }

  /** A batch of one or three operations, unfolded. */
  lemma ApplyFew<V>(s: seq<V>, a: Op<V>, b: Op<V>, c: Op<V>)
    ensures ApplyOps(s, [a]) == ApplyOp(s, a)
    ensures ApplyOps(s, [a, b, c]) == ApplyOp(ApplyOp(ApplyOp(s, a), b), c)
  {
    assert [a][..0] == [];
    assert [a, b, c][..2] == [a, b] && [a, b][..1] == [a];
  }
}
