/** The partially persistent multiway order-statistics B-tree
    (src/btree/btree-node.ts).

    A node holds its `values` in order, interleaved with its `children` when
    it is internal: child 0, value 0, child 1, ..., value k-1, child k. As
    for the AVL tree, a node is a value here: every mutation yields the
    rebuilt node and `Shared` states the copy-on-write discipline, the
    nodes of the result that do not carry the mutation's stamp being
    subtrees of the input, untouched. */
module BtreeNodes {
  import opened Common

  /** A node; an empty `children` stands for the source's `null` (a leaf).
      `count` and `summary` cache the number and total weight of the values
      of the subtree. */
  datatype BtreeNode<V> = BtreeNode(values: seq<V>, children: seq<BtreeNode<V>>,
                                    version: nat, count: nat, summary: nat)

  /** `isInternal`. */
  predicate IsInternal<V>(n: BtreeNode<V>)
  {
    n.children != []
  }

  /** The constructor's assertion: an internal node has one child more than
      it has values. */
  predicate Shaped<V>(n: BtreeNode<V>)
  {
    n.children == [] || |n.children| == |n.values| + 1
  }

  /** The in-order sequence of the subtree. */
  ghost function Elems<V>(n: BtreeNode<V>): seq<V>
    decreases n, 1
  {
    if n.children == [] then n.values
    else if |n.children| != |n.values| + 1 then []
    else Prefix(n, |n.values|) + Elems(n.children[|n.values|])
  }

  /** The values of an internal node that come before its child `i`. */
  ghost function Prefix<V>(n: BtreeNode<V>, i: nat): seq<V>
    requires IsInternal(n) && Shaped(n) && i <= |n.values|
    decreases n, 0, i
  {
    if i == 0 then [] else Prefix(n, i - 1) + Elems(n.children[i - 1]) + [n.values[i - 1]]
  }

  /** The values of an internal node that come after its child `i`. */
  ghost function Rest<V>(n: BtreeNode<V>, i: nat): seq<V>
    requires IsInternal(n) && Shaped(n) && i <= |n.values|
    decreases n, 0, |n.values| - i
  {
    if i == |n.values| then [] else [n.values[i]] + Elems(n.children[i + 1]) + Rest(n, i + 1)
  }

  /** Every child is valid, and the cached counters are the number and the
      total weight of the subtree's values. */
  ghost predicate Valid<V>(w: V -> nat, n: BtreeNode<V>)
    decreases n
  {
    Shaped(n) &&
    (forall j :: 0 <= j < |n.children| ==> Valid(w, n.children[j])) &&
    n.count == |Elems(n)| && n.summary == Sum(w, Elems(n))
  }

  /** Every leaf is at depth `h`. */
  ghost predicate Uniform<V>(n: BtreeNode<V>, h: nat)
    decreases n
  {
    if h == 0 then n.children == []
    else n.children != [] && forall j :: 0 <= j < |n.children| ==> Uniform(n.children[j], h - 1)
  }

  /** Every internal node holds at least one value. */
  ghost predicate Occupied<V>(n: BtreeNode<V>)
    decreases n
  {
    (n.children != [] ==> n.values != []) &&
    forall j :: 0 <= j < |n.children| ==> Occupied(n.children[j])
  }

  /** Every leaf holds at least one value. */
  ghost predicate Filled<V>(n: BtreeNode<V>)
    decreases n
  {
    (n.children == [] ==> n.values != []) &&
    forall j :: 0 <= j < |n.children| ==> Filled(n.children[j])
  }

  // The in-order sequence around a child

  /** An internal node's values are those before child `i`, those of child
      `i`, and those after it. */
  lemma {:induction false} Decompose<V>(n: BtreeNode<V>, i: nat)
    requires IsInternal(n) && Shaped(n) && i <= |n.values|
    ensures Elems(n) == Prefix(n, i) + Elems(n.children[i]) + Rest(n, i)
    decreases |n.values| - i
  {
    if i < |n.values| {
      Decompose(n, i + 1);
      var p, c, v, d, r := Prefix(n, i), Elems(n.children[i]), n.values[i], Elems(n.children[i + 1]), Rest(n, i + 1);
      assert Prefix(n, i + 1) == p + c + [v];
      assert Rest(n, i) == [v] + d + r;
      assert (p + c + [v]) + d + r == p + c + ([v] + d + r);
    }
  }

  /** Two children with the separator between them. */
  lemma AroundPair<V>(n: BtreeNode<V>, i: nat)
    requires IsInternal(n) && Shaped(n) && i < |n.values|
    ensures Elems(n) == Prefix(n, i) + Elems(n.children[i]) + [n.values[i]] + Elems(n.children[i + 1]) + Rest(n, i + 1)
  {
    Decompose(n, i);
    var p, c, v, d, r := Prefix(n, i), Elems(n.children[i]), n.values[i], Elems(n.children[i + 1]), Rest(n, i + 1);
    assert Rest(n, i) == [v] + d + r;
    assert p + c + ([v] + d + r) == p + c + [v] + d + r;
  }

  /** What comes before child `i` depends only on the children and values
      before it. */
  lemma {:induction false} PrefixFrame<V>(n: BtreeNode<V>, m: BtreeNode<V>, i: nat)
    requires IsInternal(n) && Shaped(n) && IsInternal(m) && Shaped(m)
    requires i <= |n.values| && i <= |m.values|
    requires n.values[..i] == m.values[..i] && n.children[..i] == m.children[..i]
    ensures Prefix(n, i) == Prefix(m, i)
    decreases i
  {
    if i > 0 {
      assert n.values[i - 1] == n.values[..i][i - 1] == m.values[i - 1];
      assert n.children[i - 1] == n.children[..i][i - 1] == m.children[i - 1];
      assert n.values[..i - 1] == n.values[..i][..i - 1];
      assert m.values[..i - 1] == m.values[..i][..i - 1];
      assert n.children[..i - 1] == n.children[..i][..i - 1];
      assert m.children[..i - 1] == m.children[..i][..i - 1];
      PrefixFrame(n, m, i - 1);
    }
  }

  /** What comes after child `i` of `n` and after child `k` of `m` agree
      when the children and values after them do. */
  lemma {:induction false} RestFrame<V>(n: BtreeNode<V>, i: nat, m: BtreeNode<V>, k: nat)
    requires IsInternal(n) && Shaped(n) && IsInternal(m) && Shaped(m)
    requires i <= |n.values| && k <= |m.values|
    requires n.values[i..] == m.values[k..] && n.children[i + 1..] == m.children[k + 1..]
    ensures Rest(n, i) == Rest(m, k)
    decreases |n.values| - i
  {
    if i < |n.values| {
      assert n.values[i] == n.values[i..][0] == m.values[k];
      assert n.children[i + 1] == n.children[i + 1..][0] == m.children[k + 1];
      assert n.values[i + 1..] == n.values[i..][1..];
      assert m.values[k + 1..] == m.values[k..][1..];
      assert n.children[i + 2..] == n.children[i + 1..][1..];
      assert m.children[k + 2..] == m.children[k + 1..][1..];
      RestFrame(n, i + 1, m, k + 1);
    }
  }

  /** The in-order sequence depends only on the values and the children. */
  lemma ElemsOfParts<V>(n: BtreeNode<V>, m: BtreeNode<V>)
    requires n.values == m.values && n.children == m.children
    ensures Elems(n) == Elems(m)
  {
    if IsInternal(n) && Shaped(n) {
      PrefixFrame(n, m, |n.values|);
    }
  }

  // Cached counters

  /** Every node of the run is valid. */
  ghost predicate AllValid<V>(w: V -> nat, cs: seq<BtreeNode<V>>)
  {
    forall j :: 0 <= j < |cs| ==> Valid(w, cs[j])
  }

  /** Total `count` of a run of children. */
  function CountsOf<V>(cs: seq<BtreeNode<V>>): nat
  {
    if cs == [] then 0 else CountsOf(cs[..|cs| - 1]) + cs[|cs| - 1].count
  }

  /** Total `summary` of a run of children. */
  function SummariesOf<V>(cs: seq<BtreeNode<V>>): nat
  {
    if cs == [] then 0 else SummariesOf(cs[..|cs| - 1]) + cs[|cs| - 1].summary
  }

  lemma {:induction false} PrefixSize<V>(w: V -> nat, n: BtreeNode<V>, i: nat)
    requires IsInternal(n) && Shaped(n) && i <= |n.values| && AllValid(w, n.children)
    ensures |Prefix(n, i)| == i + CountsOf(n.children[..i])
    ensures Sum(w, Prefix(n, i)) == Sum(w, n.values[..i]) + SummariesOf(n.children[..i])
    decreases i
  {
    if i > 0 {
      PrefixSize(w, n, i - 1);
      var c := n.children[i - 1];
      assert Valid(w, c);
      assert n.children[..i][..i - 1] == n.children[..i - 1];
      SumConcat(w, Prefix(n, i - 1) + Elems(c), [n.values[i - 1]]);
      SumConcat(w, Prefix(n, i - 1), Elems(c));
      SumPrefix(w, n.values, i - 1);
      assert [n.values[i - 1]][..0] == [];
    }
  }

  /** `update`'s arithmetic: with valid children, the number and weight of
      a node's values are those of its own values plus its children's
      counters. */
  lemma ElemsSize<V>(w: V -> nat, n: BtreeNode<V>)
    requires Shaped(n) && AllValid(w, n.children)
    ensures |Elems(n)| == |n.values| + CountsOf(n.children)
    ensures Sum(w, Elems(n)) == Sum(w, n.values) + SummariesOf(n.children)
  {
    if IsInternal(n) {
      var k := |n.values|;
      PrefixSize(w, n, k);
      assert n.children[..k] == n.children[..|n.children| - 1];
      assert n.values[..k] == n.values;
      assert Valid(w, n.children[k]);
      SumConcat(w, Prefix(n, k), Elems(n.children[k]));
    }
  }

  /** `update`: the counters recomputed from the node's values and its
      children's counters. */
  method Update<V>(w: V -> nat, n: BtreeNode<V>) returns (r: BtreeNode<V>)
    requires Shaped(n) && AllValid(w, n.children)
    ensures r.values == n.values && r.children == n.children && r.version == n.version
    ensures Valid(w, r) && Elems(r) == Elems(n)
  {
    var summary := 0;
    for i := 0 to |n.values|
      invariant summary == Sum(w, n.values[..i])
    {
      SumPrefix(w, n.values, i);
      summary := summary + w(n.values[i]);
    }
    assert n.values[..|n.values|] == n.values;
    var count := |n.values|;
    for i := 0 to |n.children|
      invariant count == |n.values| + CountsOf(n.children[..i])
      invariant summary == Sum(w, n.values) + SummariesOf(n.children[..i])
    {
      assert n.children[..i + 1][..i] == n.children[..i];
      count := count + n.children[i].count;
      summary := summary + n.children[i].summary;
    }
    assert n.children[..|n.children|] == n.children;
    ElemsSize(w, n);
    r := n.(count := count, summary := summary);
    ElemsOfParts(r, n);
  }

  /** `new BtreeNode(vs, children, ver)`. */
  method New<V>(w: V -> nat, vs: seq<V>, children: seq<BtreeNode<V>>, ver: nat) returns (r: BtreeNode<V>)
    requires children == [] || |children| == |vs| + 1
    requires AllValid(w, children)
    ensures r.values == vs && r.children == children && r.version == ver && Valid(w, r)
  {
    r := Update(w, BtreeNode(vs, children, ver, 0, 0));
  }

  /** `owned(ver)`: the node itself exactly when it carries `ver`, otherwise
      a copy stamped `ver`. */
  method Owned<V>(w: V -> nat, n: BtreeNode<V>, ver: nat) returns (r: BtreeNode<V>)
    requires Valid(w, n)
    ensures r == n <==> n.version == ver
    ensures r.values == n.values && r.children == n.children && r.version == ver
    ensures Valid(w, r) && Elems(r) == Elems(n) && r.count == n.count && r.summary == n.summary
  {
    if n.version == ver {
      r := n;
    } else {
      r := New(w, n.values, n.children, ver);
      ElemsOfParts(r, n);
    }
  }

  /** `rightmost`: the last value of the rightmost leaf, `None` when that
      leaf is empty (the source reads `undefined` there). */
  function Rightmost<V>(ghost w: V -> nat, n: BtreeNode<V>): (r: Option<V>)
    requires Valid(w, n)
    ensures r.Some? ==> Elems(n) != [] && r.value == Elems(n)[|Elems(n)| - 1]
    ensures Filled(n) ==> r.Some?
    decreases n
  {
    if IsInternal(n) then
      var last := n.children[|n.values|];
      assert Valid(w, last);
      Decompose(n, |n.values|);
      assert Rest(n, |n.values|) == [];
      Rightmost(w, last)
    else if n.values == [] then None
    else Some(n.values[|n.values| - 1])
  }

  // Splicing into one part of the in-order sequence

  lemma InsertInPart<V>(p: seq<V>, e: seq<V>, r: seq<V>, k: nat, v: V)
    requires k <= |e|
    ensures SeqInsert(p + e + r, |p| + k, v) == p + SeqInsert(e, k, v) + r
  {
    var s := p + e + r;
    assert s[..|p| + k] == p + e[..k];
    assert s[|p| + k..] == e[k..] + r;
  }

  /** A whole whose middle part received an insertion. */
  lemma InsertedPart<V>(s: seq<V>, t: seq<V>, p: seq<V>, e: seq<V>, e': seq<V>, r: seq<V>, k: nat, v: V)
    requires k <= |e| && s == p + e + r && t == p + e' + r && e' == SeqInsert(e, k, v)
    ensures t == SeqInsert(s, |p| + k, v)
  {
    InsertInPart(p, e, r, k, v);
  }

  /** A whole whose middle part had a value substituted. */
  lemma ReplacedPart<V>(s: seq<V>, t: seq<V>, p: seq<V>, e: seq<V>, e': seq<V>, r: seq<V>, k: nat, v: V)
    requires k < |e| && s == p + e + r && t == p + e' + r && e' == SeqReplace(e, k, v)
    ensures t == SeqReplace(s, |p| + k, v) && s[|p| + k] == e[k]
  {
    ReplaceInPart(p, e, r, k, v);
  }

  lemma ReplaceInPart<V>(p: seq<V>, e: seq<V>, r: seq<V>, k: nat, v: V)
    requires k < |e|
    ensures SeqReplace(p + e + r, |p| + k, v) == p + SeqReplace(e, k, v) + r
  {
    var s := p + e + r;
    assert s != [] && e != [];
    assert Min(|p| + k, |s| - 1) == |p| + k && Min(k, |e| - 1) == k;
    assert s[..|p| + k] == p + e[..k];
    assert s[|p| + k + 1..] == e[k + 1..] + r;
    Regroup3(p, e[..k] + [v], e[k + 1..], r);
  }

  lemma DeleteInPart<V>(p: seq<V>, e: seq<V>, r: seq<V>, k: nat)
    requires k < |e|
    ensures SeqDelete(p + e + r, |p| + k) == p + SeqDelete(e, k) + r
  {
    var s := p + e + r;
    assert s != [] && e != [];
    assert Min(|p| + k, |s| - 1) == |p| + k && Min(k, |e| - 1) == k;
    assert s[..|p| + k] == p + e[..k];
    assert s[|p| + k + 1..] == e[k + 1..] + r;
    Regroup3(p, e[..k], e[k + 1..], r);
  }

  lemma Regroup3<V>(a: seq<V>, b: seq<V>, c: seq<V>, d: seq<V>)
    ensures (a + b) + (c + d) == a + (b + c) + d
  {
  }

  lemma SumParts<V>(w: V -> nat, p: seq<V>, e: seq<V>, r: seq<V>)
    ensures Sum(w, p + e + r) == Sum(w, p) + Sum(w, e) + Sum(w, r)
  {
    SumConcat(w, p + e, r);
    SumConcat(w, p, e);
  }

  /** Replacing child `i` changes only that child's part of the in-order
      sequence. */
  lemma ReplaceChild<V>(n: BtreeNode<V>, i: nat, m: BtreeNode<V>)
    requires IsInternal(n) && Shaped(n) && i <= |n.values|
    requires m.values == n.values && |m.children| == |n.children| && m.children == n.children[i := m.children[i]]
    ensures Elems(n) == Prefix(n, i) + Elems(n.children[i]) + Rest(n, i)
    ensures Elems(m) == Prefix(n, i) + Elems(m.children[i]) + Rest(n, i)
  {
    Decompose(n, i);
    Decompose(m, i);
    assert m.children[..i] == n.children[..i];
    PrefixFrame(m, n, i);
    assert m.children[i + 1..] == n.children[i + 1..];
    RestFrame(m, i, n, i);
  }

  // Partial persistence

  /** `m` is `n` or one of its descendants. */
  ghost predicate IsSubtree<V>(m: BtreeNode<V>, n: BtreeNode<V>)
    decreases n
  {
    m == n || exists j :: 0 <= j < |n.children| && IsSubtree(m, n.children[j])
  }

  /** Copy-on-write: every node of `n` that does not carry the stamp `ver`
      is a subtree of `o`, kept whole. */
  ghost predicate Shared<V>(n: BtreeNode<V>, o: BtreeNode<V>, ver: nat)
    decreases n
  {
    if n.version == ver then forall j :: 0 <= j < |n.children| ==> Shared(n.children[j], o, ver)
    else IsSubtree(n, o)
  }

  ghost predicate AllShared<V>(cs: seq<BtreeNode<V>>, o: BtreeNode<V>, ver: nat)
  {
    forall j :: 0 <= j < |cs| ==> Shared(cs[j], o, ver)
  }

  lemma ChildIsSubtree<V>(n: BtreeNode<V>, j: nat)
    requires j < |n.children|
    ensures IsSubtree(n.children[j], n)
  {
    assert IsSubtree(n.children[j], n.children[j]);
  }

  lemma {:induction false} SubtreeTrans<V>(a: BtreeNode<V>, b: BtreeNode<V>, c: BtreeNode<V>)
    requires IsSubtree(a, b) && IsSubtree(b, c)
    ensures IsSubtree(a, c)
    decreases c
  {
    if b != c {
      var j :| 0 <= j < |c.children| && IsSubtree(b, c.children[j]);
      SubtreeTrans(a, b, c.children[j]);
    }
  }

  /** A subtree of `o` is shared with `o` whatever its stamps. */
  lemma {:induction false} SubtreeShared<V>(x: BtreeNode<V>, o: BtreeNode<V>, ver: nat)
    requires IsSubtree(x, o)
    ensures Shared(x, o, ver)
    decreases x
  {
    if x.version == ver {
      forall j | 0 <= j < |x.children|
        ensures Shared(x.children[j], o, ver)
      {
        ChildIsSubtree(x, j);
        SubtreeTrans(x.children[j], x, o);
        SubtreeShared(x.children[j], o, ver);
      }
    }
  }

  /** The children of a node shared with `o` are shared with `o`. */
  lemma ChildrenShared<V>(x: BtreeNode<V>, o: BtreeNode<V>, ver: nat)
    requires Shared(x, o, ver)
    ensures AllShared(x.children, o, ver)
  {
    if x.version != ver {
      forall j | 0 <= j < |x.children|
        ensures Shared(x.children[j], o, ver)
      {
        ChildIsSubtree(x, j);
        SubtreeTrans(x.children[j], x, o);
        SubtreeShared(x.children[j], o, ver);
      }
    }
  }

  /** Sharing with a subtree of `o` is sharing with `o`. */
  lemma {:induction false} SharedMono<V>(x: BtreeNode<V>, o: BtreeNode<V>, p: BtreeNode<V>, ver: nat)
    requires Shared(x, o, ver) && IsSubtree(o, p)
    ensures Shared(x, p, ver)
    decreases x
  {
    if x.version == ver {
      forall j | 0 <= j < |x.children|
        ensures Shared(x.children[j], p, ver)
      {
        SharedMono(x.children[j], o, p, ver);
      }
    } else {
      SubtreeTrans(x, o, p);
    }
  }

  /** The children of `o` are shared with `o`. */
  lemma OwnChildrenShared<V>(o: BtreeNode<V>, ver: nat)
    ensures AllShared(o.children, o, ver)
  {
    forall j | 0 <= j < |o.children|
      ensures Shared(o.children[j], o, ver)
    {
      ChildIsSubtree(o, j);
      SubtreeShared(o.children[j], o, ver);
    }
  }

  /** A node of `b` not stamped `ver` is, when `b` shares with `c`, a node of `c`. */
  lemma {:induction false} SubtreeOfShared<V>(a: BtreeNode<V>, b: BtreeNode<V>, c: BtreeNode<V>, ver: nat)
    requires Shared(b, c, ver) && IsSubtree(a, b) && a.version != ver
    ensures IsSubtree(a, c)
    decreases b
  {
    if a != b {
      var j :| 0 <= j < |b.children| && IsSubtree(a, b.children[j]);
      if b.version == ver {
        SubtreeOfShared(a, b.children[j], c, ver);
      } else {
        SubtreeTrans(a, b, c);
      }
    }
  }

  lemma {:induction false} SharedTrans<V>(a: BtreeNode<V>, b: BtreeNode<V>, c: BtreeNode<V>, ver: nat)
    requires Shared(a, b, ver) && Shared(b, c, ver)
    ensures Shared(a, c, ver)
    decreases a
  {
    if a.version == ver {
      forall j | 0 <= j < |a.children|
        ensures Shared(a.children[j], c, ver)
      {
        SharedTrans(a.children[j], b, c, ver);
      }
    } else {
      SubtreeOfShared(a, b, c, ver);
    }
  }

  // Height

  /** The depth of the leftmost leaf. */
  function Height<V>(n: BtreeNode<V>): nat
    decreases n
  {
    if n.children == [] then 0 else 1 + Height(n.children[0])
  }

  /** Every leaf is at the same depth. */
  ghost predicate Balanced<V>(n: BtreeNode<V>)
  {
    Uniform(n, Height(n))
  }

  lemma UniformHeight<V>(n: BtreeNode<V>, h: nat)
    requires Uniform(n, h)
    ensures Height(n) == h && Balanced(n)
    decreases n
  {
    if h > 0 {
      UniformHeight(n.children[0], h - 1);
    }
  }

  ghost predicate AllUniform<V>(cs: seq<BtreeNode<V>>, h: nat)
  {
    forall j :: 0 <= j < |cs| ==> Uniform(cs[j], h)
  }

  /** The children of a node all of whose leaves are at depth `h`. */
  lemma ChildrenUniform<V>(n: BtreeNode<V>, h: nat)
    requires Uniform(n, h) && n.children != []
    ensures h > 0 && AllUniform(n.children, h - 1)
  {
  }

  /** An internal node whose children have all their leaves at depth `h - 1`. */
  lemma UniformOfChildren<V>(n: BtreeNode<V>, h: nat)
    requires h > 0 && n.children != [] && AllUniform(n.children, h - 1)
    ensures Uniform(n, h)
  {
  }

  lemma ReplacedUniform<V>(cs: seq<BtreeNode<V>>, i: nat, c: BtreeNode<V>, h: nat)
    requires i < |cs| && AllUniform(cs, h) && Uniform(c, h)
    ensures AllUniform(cs[i := c], h)
  {
  }

  // Insertion

  /** The part of an internal node left of its value `m`, as a node. */
  lemma LeftPart<V>(c: BtreeNode<V>, m: nat, left: BtreeNode<V>)
    requires IsInternal(c) && Shaped(c) && m < |c.values|
    requires left.values == c.values[..m] && left.children == c.children[..m + 1]
    ensures Elems(left) == Prefix(c, m) + Elems(c.children[m])
  {
    assert left.values[..m] == c.values[..m] && left.children[..m] == c.children[..m];
    PrefixFrame(left, c, m);
    assert left.children[m] == c.children[m];
  }

  /** The part of an internal node right of its value `m`, as a node. */
  lemma RightPart<V>(c: BtreeNode<V>, m: nat, right: BtreeNode<V>)
    requires IsInternal(c) && Shaped(c) && m < |c.values|
    requires right.values == c.values[m + 1..] && right.children == c.children[m + 1..]
    ensures Elems(right) == Elems(c.children[m + 1]) + Rest(c, m + 1)
  {
    Decompose(right, 0);
    assert right.children[0] == c.children[m + 1];
    assert right.values[0..] == c.values[m + 1..];
    assert right.children[1..] == c.children[m + 2..];
    RestFrame(right, 0, c, m + 1);
  }

  /** How the values of a child split at `m` regroup: the child's values
      are the left part's, the middle value, then the right part's. */
  lemma SplitParts<V>(c: BtreeNode<V>, m: nat, left: BtreeNode<V>, right: BtreeNode<V>)
    requires Shaped(c) && m < |c.values|
    requires left.values == c.values[..m] && right.values == c.values[m + 1..]
    requires left.children == (if IsInternal(c) then c.children[..m + 1] else [])
    requires right.children == (if IsInternal(c) then c.children[m + 1..] else [])
    ensures Elems(c) == Elems(left) + [c.values[m]] + Elems(right)
  {
    if IsInternal(c) {
      LeftPart(c, m, left);
      RightPart(c, m, right);
      AroundPair(c, m);
    } else {
      assert c.values == c.values[..m] + [c.values[m]] + c.values[m + 1..];
    }
  }

  /** Child `i` of `p` replaced by two children with a value between them. */
  lemma SplitChild<V>(p: BtreeNode<V>, i: nat, r: BtreeNode<V>)
    requires IsInternal(p) && Shaped(p) && i < |p.children|
    requires |r.values| == |p.values| + 1 && |r.children| == |p.children| + 1
    requires r.values[..i] == p.values[..i] && r.values[i + 1..] == p.values[i..]
    requires r.children[..i] == p.children[..i] && r.children[i + 2..] == p.children[i + 1..]
    ensures Elems(p) == Prefix(p, i) + Elems(p.children[i]) + Rest(p, i)
    ensures Elems(r) == Prefix(p, i) + Elems(r.children[i]) + [r.values[i]] + Elems(r.children[i + 1]) + Rest(p, i)
  {
    Decompose(p, i);
    AroundPair(r, i);
    PrefixFrame(r, p, i);
    RestFrame(r, i + 1, p, i);
  }

  /** Indexing into a run of children where one child became two. */
  lemma SpliceTwoAt<V>(cs: seq<BtreeNode<V>>, i: nat, a: BtreeNode<V>, b: BtreeNode<V>, j: nat)
    requires i < |cs| && j < |cs| + 1
    ensures var ds := cs[..i] + [a, b] + cs[i + 1..];
      |ds| == |cs| + 1 &&
      ds[j] == (if j < i then cs[j] else if j == i then a else if j == i + 1 then b else cs[j - 1])
  {
  }

  /** The parts of a child split at `m` have valid children. */
  lemma SplitPartsValid<V>(w: V -> nat, c: BtreeNode<V>, m: nat)
    requires Valid(w, c) && IsInternal(c) && m < |c.values|
    ensures AllValid(w, c.children[..m + 1]) && AllValid(w, c.children[m + 1..])
  {
  }

  /** The slices of a parent into which a value and a child were spliced. */
  lemma SpliceShape<V>(p: BtreeNode<V>, i: nat, x: V, left: BtreeNode<V>, right: BtreeNode<V>, r: BtreeNode<V>)
    requires Shaped(p) && i < |p.children|
    requires r.values == p.values[..i] + [x] + p.values[i..]
    requires r.children == p.children[..i] + [left, right] + p.children[i + 1..]
    ensures |r.values| == |p.values| + 1 && |r.children| == |p.children| + 1
    ensures r.values[..i] == p.values[..i] && r.values[i + 1..] == p.values[i..] && r.values[i] == x
    ensures r.children[..i] == p.children[..i] && r.children[i + 2..] == p.children[i + 1..]
    ensures r.children[i] == left && r.children[i + 1] == right
  {
  }

  /** What the split promises of the parent, given its two new children. */
  lemma SplitElems<V>(p: BtreeNode<V>, i: nat, m: nat, left: BtreeNode<V>, right: BtreeNode<V>, r: BtreeNode<V>)
    requires IsInternal(p) && Shaped(p) && i < |p.children| && Shaped(p.children[i]) && m < |p.children[i].values|
    requires var c := p.children[i];
      left.values == c.values[..m] && right.values == c.values[m + 1..] &&
      left.children == (if IsInternal(c) then c.children[..m + 1] else []) &&
      right.children == (if IsInternal(c) then c.children[m + 1..] else [])
    requires |r.values| == |p.values| + 1 && |r.children| == |p.children| + 1
    requires r.values[..i] == p.values[..i] && r.values[i + 1..] == p.values[i..] && r.values[i] == p.children[i].values[m]
    requires r.children[..i] == p.children[..i] && r.children[i + 2..] == p.children[i + 1..]
    requires r.children[i] == left && r.children[i + 1] == right
    ensures Elems(r) == Elems(p)
  {
    var c := p.children[i];
    SplitParts(c, m, left, right);
    SplitChild(p, i, r);
    Regroup(Prefix(p, i), Elems(left), c.values[m], Elems(right), Rest(p, i));
  }

  lemma Regroup<V>(pre: seq<V>, l: seq<V>, x: V, rt: seq<V>, post: seq<V>)
    ensures pre + (l + [x] + rt) + post == pre + l + [x] + rt + post
  {
  }

  lemma SplitValid<V>(w: V -> nat, p: BtreeNode<V>, i: nat, left: BtreeNode<V>, right: BtreeNode<V>, r: BtreeNode<V>)
    requires i < |p.children| && AllValid(w, p.children) && Valid(w, left) && Valid(w, right)
    requires r.children == p.children[..i] + [left, right] + p.children[i + 1..]
    ensures AllValid(w, r.children)
  {
    forall j | 0 <= j < |r.children|
      ensures Valid(w, r.children[j])
    {
      SpliceTwoAt(p.children, i, left, right, j);
    }
  }

  lemma SplitUniform<V>(p: BtreeNode<V>, i: nat, m: nat, left: BtreeNode<V>, right: BtreeNode<V>, r: BtreeNode<V>, h: nat)
    requires i < |p.children| && AllUniform(p.children, h) && Shaped(p.children[i]) && m < |p.children[i].values|
    requires var c := p.children[i];
      left.children == (if IsInternal(c) then c.children[..m + 1] else []) &&
      right.children == (if IsInternal(c) then c.children[m + 1..] else [])
    requires r.children == p.children[..i] + [left, right] + p.children[i + 1..]
    ensures AllUniform(r.children, h)
  {
    assert Uniform(p.children[i], h);
    assert Uniform(left, h) && Uniform(right, h);
    forall j | 0 <= j < |r.children|
      ensures Uniform(r.children[j], h)
    {
      SpliceTwoAt(p.children, i, left, right, j);
    }
  }

  lemma SplitShared<V>(p: BtreeNode<V>, i: nat, m: nat, left: BtreeNode<V>, right: BtreeNode<V>, r: BtreeNode<V>,
                       o: BtreeNode<V>, ver: nat)
    requires i < |p.children| && AllShared(p.children, o, ver) && p.children[i].version == ver
    requires Shaped(p.children[i]) && m < |p.children[i].values|
    requires var c := p.children[i];
      left.children == (if IsInternal(c) then c.children[..m + 1] else []) &&
      right.children == (if IsInternal(c) then c.children[m + 1..] else []) &&
      left.version == ver && right.version == ver
    requires r.children == p.children[..i] + [left, right] + p.children[i + 1..]
    ensures AllShared(r.children, o, ver)
  {
    var c := p.children[i];
    assert Shared(c, o, ver);
    forall j | 0 <= j < |left.children|
      ensures Shared(left.children[j], o, ver)
    {
      assert left.children[j] == c.children[j];
    }
    forall j | 0 <= j < |right.children|
      ensures Shared(right.children[j], o, ver)
    {
      assert right.children[j] == c.children[m + 1 + j];
    }
    forall j | 0 <= j < |r.children|
      ensures Shared(r.children[j], o, ver)
    {
      SpliceTwoAt(p.children, i, left, right, j);
    }
  }

  /** `split(i)`: child `i`, owned by the parent, is cut at
      `ceil(k / 2) - 1` of its `k` values: the middle value moves up into
      the parent at `i`, the values and children before it stay in the
      child, and those after it go to a new right sibling at `i + 1`. */
  method Split<V>(w: V -> nat, p: BtreeNode<V>, i: nat) returns (r: BtreeNode<V>)
    requires IsInternal(p) && Shaped(p) && i < |p.children| && AllValid(w, p.children)
    requires |p.children[i].values| > 0 && p.children[i].version == p.version
    ensures IsInternal(r) && Shaped(r) && AllValid(w, r.children) && Elems(r) == Elems(p)
    ensures r.version == p.version && r.count == p.count && r.summary == p.summary
    ensures var c, m := p.children[i], (|p.children[i].values| + 1) / 2 - 1;
      r.values == p.values[..i] + [c.values[m]] + p.values[i..] &&
      r.children == p.children[..i] + [r.children[i], r.children[i + 1]] + p.children[i + 1..] &&
      r.children[i].values == c.values[..m] && r.children[i + 1].values == c.values[m + 1..] &&
      r.children[i].children == (if IsInternal(c) then c.children[..m + 1] else []) &&
      r.children[i + 1].children == (if IsInternal(c) then c.children[m + 1..] else []) &&
      r.children[i].version == p.version && r.children[i + 1].version == p.version
    ensures forall h :: AllUniform(p.children, h) ==> AllUniform(r.children, h)
    ensures forall o :: AllShared(p.children, o, p.version) ==> AllShared(r.children, o, p.version)
  {
    var c := p.children[i];
    assert Valid(w, c);
    var ownedLeft := Owned(w, c, p.version);
    var k := |ownedLeft.values|;
    var midIndex := (k + 1) / 2 - 1;
    var mid := ownedLeft.values[midIndex];
    var lc, rc := [], [];
    if IsInternal(ownedLeft) {
      SplitPartsValid(w, c, midIndex);
      lc, rc := ownedLeft.children[..midIndex + 1], ownedLeft.children[midIndex + 1..];
    }
    var right := New(w, ownedLeft.values[midIndex + 1..], rc, p.version);
    var left := Update(w, ownedLeft.(values := ownedLeft.values[..midIndex], children := lc));
    r := p.(values := p.values[..i] + [mid] + p.values[i..],
            children := p.children[..i] + [left, right] + p.children[i + 1..]);
    SpliceShape(p, i, mid, left, right, r);
    SplitElems(p, i, midIndex, left, right, r);
    SplitValid(w, p, i, left, right, r);
    forall h | AllUniform(p.children, h)
      ensures AllUniform(r.children, h)
    {
      SplitUniform(p, i, midIndex, left, right, r, h);
    }
    forall o | AllShared(p.children, o, p.version)
      ensures AllShared(r.children, o, p.version)
    {
      SplitShared(p, i, midIndex, left, right, r, o, p.version);
    }
  }

  /** Where the values of child `i` start and end in a valid node. */
  lemma Locating<V>(w: V -> nat, n: BtreeNode<V>, i: nat)
    requires Valid(w, n) && IsInternal(n) && i <= |n.values|
    ensures Valid(w, n.children[i])
    ensures |Prefix(n, i)| + n.children[i].count + |Rest(n, i)| == n.count
    ensures i < |n.values| ==> |Prefix(n, i + 1)| == |Prefix(n, i)| + n.children[i].count + 1
    ensures i == |n.values| ==> Rest(n, i) == []
  {
    Decompose(n, i);
  }

  lemma SumInsert<V>(w: V -> nat, s: seq<V>, k: nat, v: V)
    ensures Sum(w, SeqInsert(s, k, v)) == Sum(w, s) + w(v)
  {
    var j := Min(k, |s|);
    SumConcat3(w, s[..j], v, s[j..]);
    assert s[..j] + s[j..] == s;
    SumConcat(w, s[..j], s[j..]);
  }

  lemma ReplacedValid<V>(w: V -> nat, cs: seq<BtreeNode<V>>, i: nat, ds: seq<BtreeNode<V>>)
    requires i < |cs| && AllValid(w, cs) && |ds| == |cs| && ds == cs[i := ds[i]] && Valid(w, ds[i])
    ensures AllValid(w, ds)
  {
    forall j | 0 <= j < |ds|
      ensures Valid(w, ds[j])
    {
      if j != i {
        assert ds[j] == cs[j];
      }
    }
  }

  /** A node whose child `i` received an insertion at `relIndex`. */
  lemma ChildInserted<V>(n: BtreeNode<V>, i: nat, relIndex: nat, v: V, s1: BtreeNode<V>)
    requires IsInternal(n) && Shaped(n) && i <= |n.values| && relIndex <= |Elems(n.children[i])|
    requires s1.values == n.values && |s1.children| == |n.children| && s1.children == n.children[i := s1.children[i]]
    requires Elems(s1.children[i]) == SeqInsert(Elems(n.children[i]), relIndex, v)
    ensures Elems(s1) == SeqInsert(Elems(n), |Prefix(n, i)| + relIndex, v)
  {
    ReplaceChild(n, i, s1);
    InsertedPart(Elems(n), Elems(s1), Prefix(n, i), Elems(n.children[i]), Elems(s1.children[i]), Rest(n, i), relIndex, v);
  }

  /** A node owned by `ver` whose child `i` was replaced by one shared
      with the old child has all its children shared with `n`. */
  lemma ChildReplacedShared<V>(n: BtreeNode<V>, i: nat, s1: BtreeNode<V>, ver: nat)
    requires i < |n.children| && |s1.children| == |n.children| && s1.children == n.children[i := s1.children[i]]
    requires Shared(s1.children[i], n.children[i], ver)
    ensures AllShared(s1.children, n, ver)
  {
    OwnChildrenShared(n, ver);
    ChildIsSubtree(n, i);
    SharedMono(s1.children[i], n.children[i], n, ver);
    forall j | 0 <= j < |s1.children|
      ensures Shared(s1.children[j], n, ver)
    {
      if j != i {
        assert s1.children[j] == n.children[j];
      }
    }
  }

  /** Replacing a child by one with its leaves at the same depths keeps
      every leaf at depth `h`. */
  lemma ChildReplacedUniform<V>(n: BtreeNode<V>, i: nat, s1: BtreeNode<V>)
    requires i < |n.children| && |s1.children| == |n.children| && s1.children == n.children[i := s1.children[i]]
    requires forall h :: Uniform(n.children[i], h) ==> Uniform(s1.children[i], h)
    ensures forall h: nat :: Uniform(n, h) ==> h > 0 && AllUniform(s1.children, h - 1)
  {
    forall h: nat | Uniform(n, h)
      ensures h > 0 && AllUniform(s1.children, h - 1)
    {
      ChildrenUniform(n, h);
      assert Uniform(s1.children[i], h - 1);
      ReplacedUniform(n.children, i, s1.children[i], h - 1);
    }
  }

  /** The scan shared by `insert`, `replace` and `delete`: skipping the
      children (and the value after each) that come wholly before `index`,
      the first child `i` with `index - |Prefix(n, i)| <= count` of child
      `i`, and that relative index. */
  method Locate<V>(w: V -> nat, n: BtreeNode<V>, index: nat) returns (i: nat, relIndex: nat)
    requires Valid(w, n) && IsInternal(n) && index <= n.count
    ensures i <= |n.values| && Valid(w, n.children[i])
    ensures index == |Prefix(n, i)| + relIndex && relIndex <= n.children[i].count
    ensures |Prefix(n, i)| + n.children[i].count + |Rest(n, i)| == n.count
    ensures relIndex == n.children[i].count && index < n.count ==> i < |n.values|
  {
    i, relIndex := 0, index;
    while relIndex > n.children[i].count
      invariant i <= |n.values| && relIndex + |Prefix(n, i)| == index
      decreases |n.values| - i
    {
      Locating(w, n, i);
      relIndex := relIndex - (n.children[i].count + 1);
      i := i + 1;
    }
    Locating(w, n, i);
  }

  /** The insertion into child `i` stored back into the owned parent, and
      the child split when it holds more than `maxVals` values. */
  method InsertInChild<V>(w: V -> nat, n: BtreeNode<V>, self: BtreeNode<V>, i: nat, relIndex: nat, v: V,
                          ownedChild: BtreeNode<V>, ver: nat, maxVals: nat) returns (s: BtreeNode<V>)
    requires Valid(w, n) && IsInternal(n) && i <= |n.values| && relIndex <= n.children[i].count
    requires self.values == n.values && self.children == n.children && self.version == ver
    requires Valid(w, ownedChild) && ownedChild.version == ver
    requires Elems(ownedChild) == SeqInsert(Elems(n.children[i]), relIndex, v)
    requires Shared(ownedChild, n.children[i], ver)
    requires forall h :: Uniform(n.children[i], h) ==> Uniform(ownedChild, h)
    ensures IsInternal(s) && Shaped(s) && AllValid(w, s.children) && s.version == ver
    ensures Elems(s) == SeqInsert(Elems(n), |Prefix(n, i)| + relIndex, v)
    ensures s.count == self.count && s.summary == self.summary
    ensures AllShared(s.children, n, ver)
    ensures forall h: nat :: Uniform(n, h) ==> h > 0 && AllUniform(s.children, h - 1)
    ensures |ownedChild.values| <= maxVals ==> s.values == n.values && s.children == n.children[i := ownedChild]
    ensures |ownedChild.values| > maxVals ==>
      s.values == n.values[..i] + [ownedChild.values[(|ownedChild.values| + 1) / 2 - 1]] + n.values[i..] &&
      |s.children| == |n.children| + 1 &&
      s.children[..i] == n.children[..i] && s.children[i + 2..] == n.children[i + 1..] &&
      s.children[i].values == ownedChild.values[..(|ownedChild.values| + 1) / 2 - 1] &&
      s.children[i + 1].values == ownedChild.values[(|ownedChild.values| + 1) / 2..]
  {
    var s1 := self.(children := self.children[i := ownedChild]);
    ChildInserted(n, i, relIndex, v, s1);
    ReplacedValid(w, n.children, i, s1.children);
    ChildReplacedShared(n, i, s1, ver);
    ChildReplacedUniform(n, i, s1);
    s := s1;
    if |ownedChild.values| > maxVals {
      s := Split(w, s1, i);
      SplitSiblings(n.children, s1.children, s.children, i, ownedChild);
    }
  }

  /** The children around a child replaced and then split in two. */
  lemma SplitSiblings<T>(cs: seq<T>, ds: seq<T>, es: seq<T>, i: nat, c: T)
    requires i < |cs| && ds == cs[i := c] && |es| >= i + 2
    requires es == ds[..i] + [es[i], es[i + 1]] + ds[i + 1..]
    ensures |es| == |cs| + 1 && es[..i] == cs[..i] && es[i + 2..] == cs[i + 1..]
  {
    assert es[..i] == ds[..i];
    assert es[i + 2..] == ds[i + 1..];
  }

  /** The counters of a node raised by the value `v` inserted below it. */
  lemma CountersRaised<V>(w: V -> nat, n: BtreeNode<V>, index: nat, v: V, self: BtreeNode<V>, r: BtreeNode<V>)
    requires Valid(w, n) && Shaped(self) && AllValid(w, self.children)
    requires Elems(self) == SeqInsert(Elems(n), index, v) && self.count == n.count && self.summary == n.summary
    requires r == self.(count := self.count + 1, summary := self.summary + w(v))
    ensures Valid(w, r) && Elems(r) == Elems(self)
  {
    assert n.count == |Elems(n)| && n.summary == Sum(w, Elems(n));
    RaisedBy(w, Elems(n), index, v, self, r);
  }

  lemma RaisedBy<V>(w: V -> nat, t: seq<V>, index: nat, v: V, self: BtreeNode<V>, r: BtreeNode<V>)
    requires Shaped(self) && AllValid(w, self.children) && Elems(self) == SeqInsert(t, index, v)
    requires r.values == self.values && r.children == self.children
    requires r.count == |t| + 1 && r.summary == Sum(w, t) + w(v)
    ensures Valid(w, r) && Elems(r) == Elems(self)
  {
    SumInsert(w, t, index, v);
    ElemsOfParts(r, self);
    ValidOfParts(w, r);
  }

  /** `insert(index, v, ver, maxVals)` on a node: `v` spliced into the
      in-order sequence at `index`, the counters raised by one value and
      its weight; a child grown past `maxVals` values is split. */
  method Insert<V>(w: V -> nat, n: BtreeNode<V>, index: nat, v: V, ver: nat, maxVals: nat) returns (r: BtreeNode<V>)
    requires Valid(w, n) && index <= n.count
    ensures Valid(w, r) && r.version == ver
    ensures Elems(r) == SeqInsert(Elems(n), index, v)
    ensures r.count == n.count + 1 && r.summary == n.summary + w(v)
    ensures Shared(r, n, ver)
    ensures forall h :: Uniform(n, h) ==> Uniform(r, h)
    decreases n, 1
  {
    var self := Owned(w, n, ver);
    assert self == n.(version := ver);
    if IsInternal(self) {
      self := InsertBelow(w, n, self, index, v, ver, maxVals);
      r := self.(count := self.count + 1, summary := self.summary + w(v));
      CountersRaised(w, n, index, v, self, r);
      forall h | Uniform(n, h)
        ensures Uniform(r, h)
      {
        UniformOfChildren(r, h);
      }
    } else {
      r := InsertInLeaf(w, n, self, index, v, ver);
    }
  }

  /** The internal case of `insert`: the child that `index` falls in takes
      the value and is stored back, split if it grew past `maxVals`; the
      counters are not yet raised. */
  method InsertBelow<V>(w: V -> nat, n: BtreeNode<V>, self: BtreeNode<V>, index: nat, v: V, ver: nat, maxVals: nat)
    returns (s: BtreeNode<V>)
    requires Valid(w, n) && IsInternal(n) && index <= n.count
    requires self == n.(version := ver)
    ensures IsInternal(s) && Shaped(s) && AllValid(w, s.children) && s.version == ver
    ensures Elems(s) == SeqInsert(Elems(n), index, v)
    ensures s.count == n.count && s.summary == n.summary
    ensures AllShared(s.children, n, ver)
    ensures forall h: nat :: Uniform(n, h) ==> h > 0 && AllUniform(s.children, h - 1)
    decreases n, 0
  {
    var i, relIndex := Locate(w, n, index);
    var ownedChild := Insert(w, n.children[i], relIndex, v, ver, maxVals);
    s := InsertInChild(w, n, self, i, relIndex, v, ownedChild, ver, maxVals);
  }

  /** `v` spliced into the values of the owned leaf at `index`. */
  method InsertInLeaf<V>(w: V -> nat, n: BtreeNode<V>, self: BtreeNode<V>, index: nat, v: V, ver: nat)
    returns (r: BtreeNode<V>)
    requires Valid(w, n) && !IsInternal(n) && index <= n.count
    requires self == n.(version := ver)
    ensures Valid(w, r) && r.version == ver
    ensures Elems(r) == SeqInsert(Elems(n), index, v)
    ensures r.count == n.count + 1 && r.summary == n.summary + w(v)
    ensures Shared(r, n, ver)
    ensures forall h :: Uniform(n, h) ==> Uniform(r, h)
  {
    assert SeqInsert(n.values, index, v) == n.values[..index] + [v] + n.values[index..];
    SumInsert(w, Elems(n), index, v);
    r := self.(values := self.values[..index] + [v] + self.values[index..],
               count := self.count + 1, summary := self.summary + w(v));
  }

  // Substitution

  lemma SumReplace<V>(w: V -> nat, s: seq<V>, k: nat, v: V)
    requires k < |s|
    ensures Sum(w, SeqReplace(s, k, v)) + w(s[k]) == Sum(w, s) + w(v)
  {
    ReplaceAround(s, k, v);
    SumConcat3(w, s[..k], s[k], s[k + 1..]);
    SumConcat3(w, s[..k], v, s[k + 1..]);
  }

  lemma ReplaceAround<V>(s: seq<V>, k: nat, v: V)
    requires k < |s|
    ensures s == s[..k] + [s[k]] + s[k + 1..]
    ensures SeqReplace(s, k, v) == s[..k] + [v] + s[k + 1..]
  {
    assert Min(k, |s| - 1) == k;
  }

  /** A node whose child `i` had the value at `relIndex` substituted. */
  lemma ChildReplaced<V>(n: BtreeNode<V>, i: nat, relIndex: nat, v: V, s1: BtreeNode<V>)
    requires IsInternal(n) && Shaped(n) && i <= |n.values| && relIndex < |Elems(n.children[i])|
    requires s1.values == n.values && |s1.children| == |n.children| && s1.children == n.children[i := s1.children[i]]
    requires Elems(s1.children[i]) == SeqReplace(Elems(n.children[i]), relIndex, v)
    ensures Elems(s1) == SeqReplace(Elems(n), |Prefix(n, i)| + relIndex, v)
  {
    ReplaceChild(n, i, s1);
    ReplacedPart(Elems(n), Elems(s1), Prefix(n, i), Elems(n.children[i]), Elems(s1.children[i]), Rest(n, i), relIndex, v);
  }

  /** The size and weight of a node whose child `i` had the value at
      `relIndex` substituted. */
  lemma ChildReplacedSum<V>(w: V -> nat, n: BtreeNode<V>, i: nat, relIndex: nat, v: V, s1: BtreeNode<V>, k: nat)
    requires IsInternal(n) && Shaped(n) && i <= |n.values| && relIndex < |Elems(n.children[i])|
    requires s1.values == n.values && |s1.children| == |n.children| && s1.children == n.children[i := s1.children[i]]
    requires Elems(s1.children[i]) == SeqReplace(Elems(n.children[i]), relIndex, v)
    requires k == |Prefix(n, i)| + relIndex
    ensures k < |Elems(n)| && Elems(n)[k] == Elems(n.children[i])[relIndex]
    ensures Elems(s1) == SeqReplace(Elems(n), k, v) && |Elems(s1)| == |Elems(n)|
    ensures Sum(w, Elems(s1)) + w(Elems(n)[k]) == Sum(w, Elems(n)) + w(v)
  {
    ChildReplaced(n, i, relIndex, v, s1);
    assert Elems(s1) == SeqReplace(Elems(n), |Prefix(n, i)| + relIndex, v);
    assert Elems(s1) == SeqReplace(Elems(n), k, v);
    ValueInChild(n, i, relIndex);
    SumReplace(w, Elems(n), k, v);
    ReplaceAround(Elems(n), k, v);
    assert |SeqReplace(Elems(n), k, v)| == |Elems(n)|;
  }

  /** The value at `relIndex` in child `i` is the value at `|Prefix(n, i)| + relIndex` of the node. */
  lemma ValueInChild<V>(n: BtreeNode<V>, i: nat, relIndex: nat)
    requires IsInternal(n) && Shaped(n) && i <= |n.values| && relIndex < |Elems(n.children[i])|
    ensures |Prefix(n, i)| + relIndex < |Elems(n)|
    ensures Elems(n)[|Prefix(n, i)| + relIndex] == Elems(n.children[i])[relIndex]
  {
    Decompose(n, i);
  }

  /** Substituting the value after child `i` of an internal node. */
  lemma SeparatorReplaced<V>(n: BtreeNode<V>, i: nat, v: V, r: BtreeNode<V>, k: nat)
    requires IsInternal(n) && Shaped(n) && i < |n.values|
    requires r.values == n.values[i := v] && r.children == n.children
    requires k == |Prefix(n, i)| + |Elems(n.children[i])|
    ensures k < |Elems(n)| && Elems(n)[k] == n.values[i] && Elems(r) == SeqReplace(Elems(n), k, v)
  {
    var l := Prefix(n, i) + Elems(n.children[i]);
    var rs := Elems(n.children[i + 1]) + Rest(n, i + 1);
    SeparatorAround(n, i, r, v);
    ReplaceAtJoint(l, n.values[i], rs, v, k);
  }

  /** The elements of an internal node and of its copy with separator `i`
      substituted, grouped around that separator. */
  lemma SeparatorAround<V>(n: BtreeNode<V>, i: nat, r: BtreeNode<V>, v: V)
    requires IsInternal(n) && Shaped(n) && i < |n.values|
    requires r.values == n.values[i := v] && r.children == n.children
    ensures Elems(n) == (Prefix(n, i) + Elems(n.children[i])) + [n.values[i]] + (Elems(n.children[i + 1]) + Rest(n, i + 1))
    ensures Elems(r) == (Prefix(n, i) + Elems(n.children[i])) + [v] + (Elems(n.children[i + 1]) + Rest(n, i + 1))
  {
    var p, e, f, rest := Prefix(n, i), Elems(n.children[i]), Elems(n.children[i + 1]), Rest(n, i + 1);
    assert Elems(n) == (p + e) + [n.values[i]] + (f + rest) by {
      AroundPair(n, i);
      RegroupAround(p, e, n.values[i], f, rest);
    }
    assert r.values[..i] == n.values[..i] && r.children[..i] == n.children[..i];
    PrefixFrame(r, n, i);
    assert r.values[i + 1..] == n.values[i + 1..] && r.children[i + 2..] == n.children[i + 2..];
    RestFrame(r, i + 1, n, i + 1);
    AroundPair(r, i);
    RegroupAround(p, e, v, f, rest);
  }

  /** Substituting the value between two sequences. */
  lemma ReplaceAtJoint<V>(l: seq<V>, x: V, r: seq<V>, v: V, k: nat)
    requires k == |l|
    ensures k < |l + [x] + r| && (l + [x] + r)[k] == x
    ensures SeqReplace(l + [x] + r, k, v) == l + [v] + r
  {
    ReplaceAtNode(l, x, r, k, v);
  }

  lemma RegroupAround<V>(p: seq<V>, e: seq<V>, x: V, f: seq<V>, r: seq<V>)
    ensures p + e + [x] + f + r == (p + e) + [x] + (f + r)
  {
  }

  /** A node whose counters were set to the size and weight of its parts. */
  lemma Reassembled<V>(w: V -> nat, s1: BtreeNode<V>, s: BtreeNode<V>)
    requires Shaped(s1) && AllValid(w, s1.children)
    requires s.values == s1.values && s.children == s1.children
    requires s.count == |Elems(s1)| && s.summary == Sum(w, Elems(s1))
    ensures Valid(w, s) && Elems(s) == Elems(s1)
  {
    ElemsOfParts(s, s1);
  }

  /** The substitution in child `i` stored back into the owned parent,
      whose summary moves by the change of the child's summary. */
  method ReplaceInChild<V>(w: V -> nat, n: BtreeNode<V>, self: BtreeNode<V>, ghost index: nat, i: nat, relIndex: nat,
                           v: V, ownedChild: BtreeNode<V>, ver: nat) returns (s: BtreeNode<V>)
    requires Valid(w, n) && IsInternal(n) && i <= |n.values| && relIndex < n.children[i].count
    requires index == |Prefix(n, i)| + relIndex
    requires self == n.(version := ver)
    requires Valid(w, n.children[i]) && Valid(w, ownedChild) && ownedChild.version == ver
    requires Elems(ownedChild) == SeqReplace(Elems(n.children[i]), relIndex, v)
    requires ownedChild.summary + w(Elems(n.children[i])[relIndex]) == n.children[i].summary + w(v)
    requires Shared(ownedChild, n.children[i], ver)
    requires forall h :: Uniform(n.children[i], h) ==> Uniform(ownedChild, h)
    ensures Valid(w, s) && s.version == ver && s.count == n.count
    ensures index < |Elems(n)| && Elems(s) == SeqReplace(Elems(n), index, v)
    ensures s.summary + w(Elems(n)[index]) == n.summary + w(v)
    ensures Shared(s, n, ver)
    ensures forall h :: Uniform(n, h) ==> Uniform(s, h)
  {
    var child := n.children[i];
    var s1 := self.(children := self.children[i := ownedChild]);
    ChildReplacedSum(w, n, i, relIndex, v, s1, index);
    var summary := self.summary + ownedChild.summary - child.summary;
    s := s1.(summary := summary);
    assert Valid(w, s) && Elems(s) == Elems(s1) by {
      ReplacedValid(w, n.children, i, s1.children);
      Reassembled(w, s1, s);
    }
    assert Shared(s, n, ver) by {
      ChildReplacedShared(n, i, s1, ver);
    }
    forall h | Uniform(n, h)
      ensures Uniform(s, h)
    {
      ChildReplacedUniform(n, i, s1);
      UniformOfChildren(s, h);
    }
  }

  /** The separator after child `i` substituted in the owned parent. */
  method ReplaceSeparator<V>(w: V -> nat, n: BtreeNode<V>, self: BtreeNode<V>, ghost index: nat, i: nat, v: V, ver: nat)
    returns (s: BtreeNode<V>)
    requires Valid(w, n) && IsInternal(n) && i < |n.values|
    requires index == |Prefix(n, i)| + |Elems(n.children[i])|
    requires self == n.(version := ver)
    ensures Valid(w, s) && s.version == ver && s.count == n.count
    ensures index < |Elems(n)| && Elems(s) == SeqReplace(Elems(n), index, v)
    ensures s.summary + w(Elems(n)[index]) == n.summary + w(v)
    ensures Shared(s, n, ver)
    ensures forall h :: Uniform(n, h) ==> Uniform(s, h)
  {
    var s1 := self.(values := self.values[i := v]);
    SeparatorReplaced(n, i, v, s1, index);
    SumReplace(w, Elems(n), index, v);
    var summary := self.summary + w(v) - w(self.values[i]);
    s := s1.(summary := summary);
    Reassembled(w, s1, s);
    OwnChildrenShared(n, ver);
  }

  /** `replace(index, v, ver)` on a node: the value at `index` substituted
      by `v`, the summary moved by the difference of their weights. */
  method Replace<V>(w: V -> nat, n: BtreeNode<V>, index: nat, v: V, ver: nat) returns (r: BtreeNode<V>)
    requires Valid(w, n) && index < n.count
    ensures Valid(w, r) && r.version == ver
    ensures Elems(r) == SeqReplace(Elems(n), index, v)
    ensures r.count == n.count && r.summary + w(Elems(n)[index]) == n.summary + w(v)
    ensures Shared(r, n, ver)
    ensures forall h :: Uniform(n, h) ==> Uniform(r, h)
    decreases n
  {
    var self := Owned(w, n, ver);
    if IsInternal(self) {
      var i, relIndex := Locate(w, n, index);
      if relIndex < n.children[i].count {
        var ownedChild := Replace(w, n.children[i], relIndex, v, ver);
        r := ReplaceInChild(w, n, self, index, i, relIndex, v, ownedChild, ver);
      } else {
        r := ReplaceSeparator(w, n, self, index, i, v, ver);
      }
    } else {
      r := ReplaceInLeaf(w, n, self, index, v, ver);
    }
  }

  /** The value at `index` substituted in the owned leaf. */
  method ReplaceInLeaf<V>(w: V -> nat, n: BtreeNode<V>, self: BtreeNode<V>, index: nat, v: V, ver: nat)
    returns (r: BtreeNode<V>)
    requires Valid(w, n) && !IsInternal(n) && index < n.count
    requires self == n.(version := ver)
    ensures Valid(w, r) && r.version == ver
    ensures Elems(r) == SeqReplace(Elems(n), index, v)
    ensures r.count == n.count && r.summary + w(Elems(n)[index]) == n.summary + w(v)
    ensures Shared(r, n, ver)
    ensures forall h :: Uniform(n, h) ==> Uniform(r, h)
  {
    assert SeqReplace(n.values, index, v) == n.values[index := v];
    SumReplace(w, Elems(n), index, v);
    var summary := self.summary + w(v) - w(self.values[index]);
    r := self.(values := self.values[index := v], summary := summary);
  }
  // Deletion: merging and rotating siblings

  /** A node with one value more at its end (and, when internal, one child
      more), in terms of the node without them. */
  lemma AppendedParts<V>(m: BtreeNode<V>, l: BtreeNode<V>, x: V, sub: BtreeNode<V>)
    requires m.values == l.values + [x]
    requires (m.children == [] && l.children == []) ||
             (|l.children| == |l.values| + 1 && m.children == l.children + [sub])
    ensures Elems(m) == Elems(l) + [x] + (if m.children == [] then [] else Elems(sub))
  {
    var k := |l.values|;
    assert m.values[..k] == l.values && m.values[k + 1..] == [];
    if m.children == [] {
      SplitParts(m, k, l, BtreeNode([], [], 0, 0, 0));
    } else {
      var single := BtreeNode([], [sub], 0, 0, 0);
      assert m.children[..k + 1] == l.children && m.children[k + 1..] == [sub];
      SplitParts(m, k, l, single);
      assert Elems(single) == Prefix(single, 0) + Elems(sub);
    }
  }

  /** A node with one value more at its front (and, when internal, one
      child more). */
  lemma PrependedParts<V>(m: BtreeNode<V>, x: V, sub: BtreeNode<V>, r: BtreeNode<V>)
    requires m.values == [x] + r.values
    requires (m.children == [] && r.children == []) ||
             (|r.children| == |r.values| + 1 && m.children == [sub] + r.children)
    ensures Elems(m) == (if m.children == [] then [] else Elems(sub)) + [x] + Elems(r)
  {
    assert m.values[..0] == [] && m.values[1..] == r.values;
    if m.children == [] {
      SplitParts(m, 0, BtreeNode([], [], 0, 0, 0), r);
    } else {
      var single := BtreeNode([], [sub], 0, 0, 0);
      assert m.children[..1] == [sub] && m.children[1..] == r.children;
      SplitParts(m, 0, single, r);
      assert Elems(single) == Prefix(single, 0) + Elems(sub);
    }
  }

  /** Two siblings and their separator as one node. */
  lemma MergedParts<V>(m: BtreeNode<V>, l: BtreeNode<V>, x: V, r: BtreeNode<V>)
    requires m.values == l.values + [x] + r.values
    requires (m.children == [] && l.children == [] && r.children == []) ||
             (|l.children| == |l.values| + 1 && |r.children| == |r.values| + 1 && m.children == l.children + r.children)
    ensures Elems(m) == Elems(l) + [x] + Elems(r)
  {
    var k := |l.values|;
    assert m.values[..k] == l.values && m.values[k + 1..] == r.values;
    if m.children != [] {
      assert m.children[..k + 1] == l.children && m.children[k + 1..] == r.children;
    }
    SplitParts(m, k, l, r);
  }

  /** Child `i`, its separator and child `i + 1` replaced in place. */
  lemma PairReplaced<V>(p: BtreeNode<V>, i: nat, r: BtreeNode<V>)
    requires IsInternal(p) && Shaped(p) && i < |p.values|
    requires |r.values| == |p.values| && r.values == p.values[i := r.values[i]]
    requires |r.children| == |p.children| && r.children == p.children[i := r.children[i]][i + 1 := r.children[i + 1]]
    ensures Elems(p) == Prefix(p, i) + Elems(p.children[i]) + [p.values[i]] + Elems(p.children[i + 1]) + Rest(p, i + 1)
    ensures Elems(r) == Prefix(p, i) + Elems(r.children[i]) + [r.values[i]] + Elems(r.children[i + 1]) + Rest(p, i + 1)
  {
    AroundPair(p, i);
    AroundPair(r, i);
    assert r.values[..i] == p.values[..i] && r.children[..i] == p.children[..i];
    PrefixFrame(r, p, i);
    assert r.values[i + 1..] == p.values[i + 1..] && r.children[i + 2..] == p.children[i + 2..];
    RestFrame(r, i + 1, p, i + 1);
  }

  /** Child `i`, its separator and child `i + 1` replaced by one child. */
  lemma PairMerged<V>(p: BtreeNode<V>, i: nat, r: BtreeNode<V>)
    requires IsInternal(p) && Shaped(p) && i < |p.values|
    requires r.values == p.values[..i] + p.values[i + 1..]
    requires |r.children| == |p.children| - 1 && r.children == p.children[..i] + [r.children[i]] + p.children[i + 2..]
    ensures Elems(p) == Prefix(p, i) + Elems(p.children[i]) + [p.values[i]] + Elems(p.children[i + 1]) + Rest(p, i + 1)
    ensures Elems(r) == Prefix(p, i) + Elems(r.children[i]) + Rest(p, i + 1)
  {
    AroundPair(p, i);
    Decompose(r, i);
    assert r.values[..i] == p.values[..i] && r.children[..i] == p.children[..i];
    PrefixFrame(r, p, i);
    assert r.values[i..] == p.values[i + 1..] && r.children[i + 1..] == p.children[i + 2..];
    RestFrame(r, i, p, i + 1);
  }

  /** `merge(i)`: child `i`, the separator `i` and child `i + 1` become
      one child, stamped with the parent's version; the parent loses the
      separator and child `i + 1`. */
  function Merge<V>(w: V -> nat, p: BtreeNode<V>, i: nat): (r: BtreeNode<V>)
    requires IsInternal(p) && Shaped(p) && i < |p.values|
    ensures |r.values| == |p.values| - 1 && |r.children| == |p.children| - 1 && r.version == p.version
    ensures r.children[i].values == p.children[i].values + [p.values[i]] + p.children[i + 1].values
  {
    var left, right, sep := p.children[i], p.children[i + 1], p.values[i];
    var merged := BtreeNode(left.values + [sep] + right.values,
                            if left.children != [] && right.children != [] then left.children + right.children
                            else left.children,
                            p.version,
                            left.count + 1 + right.count,
                            left.summary + w(sep) + right.summary);
    p.(values := p.values[..i] + p.values[i + 1..],
       children := p.children[..i] + [merged] + p.children[i + 2..])
  }

  /** Siblings are both leaves or both internal when every leaf is at the
      same depth. */
  lemma SiblingsAlike<V>(cs: seq<BtreeNode<V>>, h: nat, a: nat, b: nat)
    requires AllUniform(cs, h) && a < |cs| && b < |cs|
    ensures IsInternal(cs[a]) <==> IsInternal(cs[b])
  {
    assert Uniform(cs[a], h) && Uniform(cs[b], h);
  }

  /** The merged child is valid when its parts are. */
  lemma MergedValid<V>(w: V -> nat, l: BtreeNode<V>, x: V, r: BtreeNode<V>, m: BtreeNode<V>)
    requires Valid(w, l) && Valid(w, r) && (IsInternal(l) <==> IsInternal(r))
    requires m.values == l.values + [x] + r.values && m.children == l.children + r.children
    requires m.count == l.count + 1 + r.count && m.summary == l.summary + w(x) + r.summary
    ensures Valid(w, m) && Elems(m) == Elems(l) + [x] + Elems(r)
  {
    MergedParts(m, l, x, r);
    SumConcat3(w, Elems(l), x, Elems(r));
    ConcatValid(w, l.children, r.children);
  }

  lemma ConcatValid<V>(w: V -> nat, a: seq<BtreeNode<V>>, b: seq<BtreeNode<V>>)
    requires AllValid(w, a) && AllValid(w, b)
    ensures AllValid(w, a + b)
  {
    forall j | 0 <= j < |a + b|
      ensures Valid(w, (a + b)[j])
    {
      if j < |a| {
        assert (a + b)[j] == a[j];
      } else {
        assert (a + b)[j] == b[j - |a|];
      }
    }
  }

  lemma MergeValid<V>(w: V -> nat, p: BtreeNode<V>, i: nat, h: nat)
    requires Valid(w, p) && IsInternal(p) && i < |p.values| && AllUniform(p.children, h)
    ensures var r := Merge(w, p, i);
      Valid(w, r) && Elems(r) == Elems(p) && r.count == p.count && r.summary == p.summary
  {
    var r := Merge(w, p, i);
    var left, right, m := p.children[i], p.children[i + 1], r.children[i];
    assert Valid(w, left) && Valid(w, right);
    SiblingsAlike(p.children, h, i, i + 1);
    MergedValid(w, left, p.values[i], right, m);
    PairMerged(p, i, r);
    Regroup(Prefix(p, i), Elems(left), p.values[i], Elems(right), Rest(p, i + 1));
    forall j | 0 <= j < |r.children|
      ensures Valid(w, r.children[j])
    {
      if j < i {
        assert r.children[j] == p.children[j];
      } else if j > i {
        assert r.children[j] == p.children[j + 1];
      }
    }
  }
  /** The node without its last value and, when internal, its last child. */
  function WithoutLast<V>(n: BtreeNode<V>): BtreeNode<V>
    requires Shaped(n) && |n.values| > 0
  {
    var k := |n.values|;
    n.(values := n.values[..k - 1], children := if IsInternal(n) then n.children[..k] else [])
  }

  /** The node without its first value and, when internal, its first child. */
  function WithoutFirst<V>(n: BtreeNode<V>): BtreeNode<V>
    requires Shaped(n) && |n.values| > 0
  {
    n.(values := n.values[1..], children := if IsInternal(n) then n.children[1..] else [])
  }

  lemma PrefixValid<V>(w: V -> nat, cs: seq<BtreeNode<V>>, k: nat)
    requires AllValid(w, cs) && k <= |cs|
    ensures AllValid(w, cs[..k]) && AllValid(w, cs[k..])
  {
  }

  /** A valid node is the node without its last value, the last value, and
      the last child. */
  lemma LastSplit<V>(w: V -> nat, n: BtreeNode<V>)
    requires Valid(w, n) && |n.values| > 0
    ensures var k, l := |n.values|, WithoutLast(n);
      var tail := if IsInternal(n) then Elems(n.children[k]) else [];
      Shaped(l) && AllValid(w, l.children) &&
      Elems(n) == Elems(l) + [n.values[k - 1]] + tail &&
      n.count == |Elems(l)| + 1 + (if IsInternal(n) then n.children[k].count else 0) &&
      n.summary == Sum(w, Elems(l)) + w(n.values[k - 1]) + (if IsInternal(n) then n.children[k].summary else 0)
  {
    var k, l := |n.values|, WithoutLast(n);
    LastSplitElems(n);
    if IsInternal(n) {
      assert Valid(w, n.children[k]);
      PrefixValid(w, n.children, k);
    }
    var tail := if IsInternal(n) then Elems(n.children[k]) else [];
    SumConcat3(w, Elems(l), n.values[k - 1], tail);
  }

  lemma LastSplitElems<V>(n: BtreeNode<V>)
    requires Shaped(n) && |n.values| > 0
    ensures var k, l := |n.values|, WithoutLast(n);
      Shaped(l) && Elems(n) == Elems(l) + [n.values[k - 1]] + (if IsInternal(n) then Elems(n.children[k]) else [])
  {
    var k, l := |n.values|, WithoutLast(n);
    assert n.values == l.values + [n.values[k - 1]];
    if IsInternal(n) {
      assert n.children == l.children + [n.children[k]];
    }
    AppendedParts(n, l, n.values[k - 1], if IsInternal(n) then n.children[k] else n);
  }

  /** A valid node is its first child, its first value, and the node
      without them. */
  lemma FirstSplit<V>(w: V -> nat, n: BtreeNode<V>)
    requires Valid(w, n) && |n.values| > 0
    ensures Shaped(WithoutFirst(n)) && AllValid(w, WithoutFirst(n).children)
    ensures IsInternal(n) ==>
      Elems(n) == Elems(n.children[0]) + [n.values[0]] + Elems(WithoutFirst(n)) &&
      n.count == n.children[0].count + 1 + |Elems(WithoutFirst(n))| &&
      n.summary == n.children[0].summary + w(n.values[0]) + Sum(w, Elems(WithoutFirst(n)))
    ensures !IsInternal(n) ==>
      Elems(n) == [n.values[0]] + Elems(WithoutFirst(n)) &&
      n.count == 1 + |Elems(WithoutFirst(n))| &&
      n.summary == w(n.values[0]) + Sum(w, Elems(WithoutFirst(n)))
  {
    if IsInternal(n) {
      FirstSplitNode(w, n);
    } else {
      FirstSplitLeaf(w, n);
    }
  }

  lemma FirstSplitNode<V>(w: V -> nat, n: BtreeNode<V>)
    requires Valid(w, n) && IsInternal(n) && |n.values| > 0
    ensures Shaped(WithoutFirst(n)) && AllValid(w, WithoutFirst(n).children)
    ensures Elems(n) == Elems(n.children[0]) + [n.values[0]] + Elems(WithoutFirst(n))
    ensures n.count == n.children[0].count + 1 + |Elems(WithoutFirst(n))|
    ensures n.summary == n.children[0].summary + w(n.values[0]) + Sum(w, Elems(WithoutFirst(n)))
  {
    var r := WithoutFirst(n);
    var x, c := n.values[0], n.children[0];
    assert Elems(n) == Elems(c) + [x] + Elems(r) by {
      assert n.values == [x] + r.values;
      assert n.children == [c] + r.children;
      PrependedParts(n, x, c, r);
    }
    assert AllValid(w, r.children) && Valid(w, c) by {
      PrefixValid(w, n.children, 1);
    }
    SumConcat3(w, Elems(c), x, Elems(r));
  }

  lemma FirstSplitLeaf<V>(w: V -> nat, n: BtreeNode<V>)
    requires Valid(w, n) && !IsInternal(n) && |n.values| > 0
    ensures Shaped(WithoutFirst(n)) && WithoutFirst(n).children == []
    ensures Elems(n) == [n.values[0]] + Elems(WithoutFirst(n))
    ensures n.count == 1 + |Elems(WithoutFirst(n))|
    ensures n.summary == w(n.values[0]) + Sum(w, Elems(WithoutFirst(n)))
  {
    var r := WithoutFirst(n);
    assert n.values == [n.values[0]] + r.values;
    PrependedParts(n, n.values[0], n, r);
    SumConcat3(w, [], n.values[0], Elems(r));
    assert [] + [n.values[0]] + Elems(r) == [n.values[0]] + Elems(r);
  }

  /** `rotateRight(i)`: the last value of child `i` moves up as separator
      `i`, and the old separator moves down to the front of child `i + 1`;
      when both children are internal, the last child of child `i` moves
      with it. Both children are stamped with the parent's version. */
  function RotateRight<V>(w: V -> nat, p: BtreeNode<V>, i: nat): (r: BtreeNode<V>)
    requires IsInternal(p) && Shaped(p) && i < |p.values| && AllValid(w, p.children)
    requires |p.children[i].values| > 0
    ensures |r.values| == |p.values| && |r.children| == |p.children| && r.version == p.version
  {
    var left, right, mid := p.children[i], p.children[i + 1], p.values[i];
    var k := |left.values|;
    var both := IsInternal(left) && IsInternal(right);
    var moved := if both then left.children[k] else left;
    p.(values := p.values[i := left.values[k - 1]],
       children := p.children[i := DropLast(w, left, p.version, both)][i + 1 := PushFront(w, mid, moved, right, p.version, both)])
  }

  /** `rotateLeft(i)`: the first value of child `i` moves up as separator
      `i - 1`, and the old separator moves down to the end of child
      `i - 1`; when both children are internal, the first child of child
      `i` moves with it. */
  function RotateLeft<V>(w: V -> nat, p: BtreeNode<V>, i: nat): (r: BtreeNode<V>)
    requires IsInternal(p) && Shaped(p) && 0 < i <= |p.values| && AllValid(w, p.children)
    requires |p.children[i].values| > 0
    ensures |r.values| == |p.values| && |r.children| == |p.children| && r.version == p.version
  {
    var left, right, mid := p.children[i - 1], p.children[i], p.values[i - 1];
    var both := IsInternal(left) && IsInternal(right);
    var moved := if both then right.children[0] else right;
    p.(values := p.values[i - 1 := right.values[0]],
       children := p.children[i - 1 := PushBack(w, left, mid, moved, p.version, both)][i := DropFirst(w, right, p.version, both)])
  }

  /** Child `i` of `rotateRight(i)`: without its last value and, when
      `move`, its last child, stamped `ver`. */
  function DropLast<V>(w: V -> nat, n: BtreeNode<V>, ver: nat, move: bool): BtreeNode<V>
    requires Valid(w, n) && |n.values| > 0 && (move ==> IsInternal(n))
  {
    var k := |n.values|;
    LastSplit(w, n);
    if move then
      BtreeNode(n.values[..k - 1], n.children[..k], ver,
                n.count - 1 - n.children[k].count, n.summary - w(n.values[k - 1]) - n.children[k].summary)
    else
      BtreeNode(n.values[..k - 1], n.children, ver, n.count - 1, n.summary - w(n.values[k - 1]))
  }

  /** Child `i` of `rotateLeft(i)`: without its first value and, when
      `move`, its first child, stamped `ver`. */
  function DropFirst<V>(w: V -> nat, n: BtreeNode<V>, ver: nat, move: bool): BtreeNode<V>
    requires Valid(w, n) && |n.values| > 0 && (move ==> IsInternal(n))
  {
    FirstSplit(w, n);
    if move then
      BtreeNode(n.values[1..], n.children[1..], ver,
                n.count - 1 - n.children[0].count, n.summary - w(n.values[0]) - n.children[0].summary)
    else
      BtreeNode(n.values[1..], n.children, ver, n.count - 1, n.summary - w(n.values[0]))
  }

  /** Child `i + 1` of `rotateRight(i)`: `x` in front of its values and,
      when `move`, `c` in front of its children, stamped `ver`. */
  function PushFront<V>(w: V -> nat, x: V, c: BtreeNode<V>, n: BtreeNode<V>, ver: nat, move: bool): BtreeNode<V>
  {
    if move then
      BtreeNode([x] + n.values, [c] + n.children, ver, n.count + 1 + c.count, n.summary + w(x) + c.summary)
    else
      BtreeNode([x] + n.values, n.children, ver, n.count + 1, n.summary + w(x))
  }

  /** Child `i - 1` of `rotateLeft(i)`: `x` after its values and, when
      `move`, `c` after its children, stamped `ver`. */
  function PushBack<V>(w: V -> nat, n: BtreeNode<V>, x: V, c: BtreeNode<V>, ver: nat, move: bool): BtreeNode<V>
  {
    if move then
      BtreeNode(n.values + [x], n.children + [c], ver, n.count + 1 + c.count, n.summary + w(x) + c.summary)
    else
      BtreeNode(n.values + [x], n.children, ver, n.count + 1, n.summary + w(x))
  }


  /** The internal child that received a value and a child at its front. */
  lemma GrownNodeAtFront<V>(w: V -> nat, m: BtreeNode<V>, x: V, sub: BtreeNode<V>, r: BtreeNode<V>)
    requires Valid(w, r) && IsInternal(r) && Valid(w, sub)
    requires m.values == [x] + r.values && m.children == [sub] + r.children
    requires m.count == r.count + 1 + sub.count && m.summary == r.summary + w(x) + sub.summary
    ensures Valid(w, m) && Elems(m) == Elems(sub) + [x] + Elems(r)
  {
    PrependedParts(m, x, sub, r);
    assert AllValid(w, [sub]);
    ConcatValid(w, [sub], r.children);
    GrownNode(w, m, Elems(sub), x, Elems(r));
  }

  /** The leaf that received a value at its front. */
  lemma GrownLeafAtFront<V>(w: V -> nat, m: BtreeNode<V>, x: V, r: BtreeNode<V>)
    requires Valid(w, r) && !IsInternal(r)
    requires m.values == [x] + r.values && m.children == []
    requires m.count == r.count + 1 && m.summary == r.summary + w(x)
    ensures Valid(w, m) && Elems(m) == [x] + Elems(r)
  {
    PrependedParts(m, x, r, r);
    assert [] + [x] + Elems(r) == [x] + Elems(r);
    GrownNode(w, m, [], x, Elems(r));
  }

  /** The internal child that received a value and a child at its end. */
  lemma GrownNodeAtEnd<V>(w: V -> nat, m: BtreeNode<V>, l: BtreeNode<V>, x: V, sub: BtreeNode<V>)
    requires Valid(w, l) && IsInternal(l) && Valid(w, sub)
    requires m.values == l.values + [x] && m.children == l.children + [sub]
    requires m.count == l.count + 1 + sub.count && m.summary == l.summary + w(x) + sub.summary
    ensures Valid(w, m) && Elems(m) == Elems(l) + [x] + Elems(sub)
  {
    AppendedParts(m, l, x, sub);
    assert AllValid(w, [sub]);
    ConcatValid(w, l.children, [sub]);
    GrownNode(w, m, Elems(l), x, Elems(sub));
  }

  /** The leaf that received a value at its end. */
  lemma GrownLeafAtEnd<V>(w: V -> nat, m: BtreeNode<V>, l: BtreeNode<V>, x: V)
    requires Valid(w, l) && !IsInternal(l)
    requires m.values == l.values + [x] && m.children == []
    requires m.count == l.count + 1 && m.summary == l.summary + w(x)
    ensures Valid(w, m) && Elems(m) == Elems(l) + [x]
  {
    AppendedParts(m, l, x, l);
    assert Elems(l) + [x] + [] == Elems(l) + [x];
    GrownNode(w, m, Elems(l), x, []);
  }

  /** A node whose parts are valid and whose counters are those of the
      values on both sides of `x`. */
  lemma GrownNode<V>(w: V -> nat, m: BtreeNode<V>, a: seq<V>, x: V, c: seq<V>)
    requires Shaped(m) && AllValid(w, m.children)
    requires Elems(m) == a + [x] + c
    requires m.count == |a| + 1 + |c| && m.summary == Sum(w, a) + w(x) + Sum(w, c)
    ensures Valid(w, m)
  {
    SumConcat3(w, a, x, c);
  }

  /** The children of a node rotated at `i` other than `i` and `i + 1` are
      the node's own. */
  lemma PairReplacedValid<V>(w: V -> nat, p: BtreeNode<V>, i: nat, r: BtreeNode<V>)
    requires i + 1 < |p.children| && AllValid(w, p.children)
    requires |r.children| == |p.children| && r.children == p.children[i := r.children[i]][i + 1 := r.children[i + 1]]
    requires Valid(w, r.children[i]) && Valid(w, r.children[i + 1])
    ensures AllValid(w, r.children)
  {
    forall j | 0 <= j < |r.children|
      ensures Valid(w, r.children[j])
    {
      if j != i && j != i + 1 {
        assert r.children[j] == p.children[j];
      }
    }
  }

  lemma RotateRightValid<V>(w: V -> nat, p: BtreeNode<V>, i: nat, h: nat)
    requires Valid(w, p) && IsInternal(p) && i < |p.values| && AllUniform(p.children, h)
    requires |p.children[i].values| > 0
    ensures Valid(w, RotateRight(w, p, i)) && Elems(RotateRight(w, p, i)) == Elems(p)
    ensures RotateRight(w, p, i).count == p.count && RotateRight(w, p, i).summary == p.summary
  {
    SiblingsAlike(p.children, h, i, i + 1);
    if IsInternal(p.children[i]) {
      RotateRightNodes(w, p, i);
    } else {
      RotateRightLeaves(w, p, i);
    }
  }

  /** `rotateRight(i)` between two internal children. */
  lemma RotateRightNodes<V>(w: V -> nat, p: BtreeNode<V>, i: nat)
    requires Valid(w, p) && IsInternal(p) && i < |p.values| && |p.children[i].values| > 0
    requires IsInternal(p.children[i]) && IsInternal(p.children[i + 1])
    ensures Valid(w, RotateRight(w, p, i)) && Elems(RotateRight(w, p, i)) == Elems(p)
  {
    var left, right, mid := p.children[i], p.children[i + 1], p.values[i];
    var k := |left.values|;
    assert Valid(w, left) && Valid(w, right);
    var sub := left.children[k];
    var x := left.values[k - 1];
    var l', r' := DropLast(w, left, p.version, true), PushFront(w, mid, sub, right, p.version, true);
    assert Valid(w, l') && Elems(left) == Elems(l') + [x] + Elems(sub) by {
      LastSplit(w, left);
      Reassembled(w, WithoutLast(left), l');
    }
    assert Valid(w, r') && Elems(r') == Elems(sub) + [mid] + Elems(right) by {
      assert Valid(w, sub);
      GrownNodeAtFront(w, r', mid, sub, right);
    }
    RegroupValues(Elems(l'), x, Elems(sub), mid, Elems(right));
    RotatedPair(w, p, i, RotateRight(w, p, i), l', x, r');
  }

  /** `rotateRight(i)` between two leaves. */
  lemma RotateRightLeaves<V>(w: V -> nat, p: BtreeNode<V>, i: nat)
    requires Valid(w, p) && IsInternal(p) && i < |p.values| && |p.children[i].values| > 0
    requires !IsInternal(p.children[i]) && !IsInternal(p.children[i + 1])
    ensures Valid(w, RotateRight(w, p, i)) && Elems(RotateRight(w, p, i)) == Elems(p)
  {
    var left, right, mid := p.children[i], p.children[i + 1], p.values[i];
    var k := |left.values|;
    assert Valid(w, left) && Valid(w, right);
    var x := left.values[k - 1];
    var l', r' := DropLast(w, left, p.version, false), PushFront(w, mid, left, right, p.version, false);
    assert Valid(w, l') && Elems(left) == Elems(l') + [x] by {
      LastSplit(w, left);
      Reassembled(w, WithoutLast(left), l');
    }
    assert Valid(w, r') && Elems(r') == [mid] + Elems(right) by {
      GrownLeafAtFront(w, r', mid, right);
    }
    RegroupLeaf(Elems(l'), x, mid, Elems(right));
    RotatedPair(w, p, i, RotateRight(w, p, i), l', x, r');
  }

  lemma RotateLeftValid<V>(w: V -> nat, p: BtreeNode<V>, i: nat, h: nat)
    requires Valid(w, p) && IsInternal(p) && 0 < i <= |p.values| && AllUniform(p.children, h)
    requires |p.children[i].values| > 0
    ensures Valid(w, RotateLeft(w, p, i)) && Elems(RotateLeft(w, p, i)) == Elems(p)
    ensures RotateLeft(w, p, i).count == p.count && RotateLeft(w, p, i).summary == p.summary
  {
    SiblingsAlike(p.children, h, i - 1, i);
    if IsInternal(p.children[i]) {
      RotateLeftNodes(w, p, i - 1);
    } else {
      RotateLeftLeaves(w, p, i - 1);
    }
  }

  /** `rotateLeft(j + 1)` between two internal children. */
  lemma RotateLeftNodes<V>(w: V -> nat, p: BtreeNode<V>, j: nat)
    requires Valid(w, p) && IsInternal(p) && j < |p.values| && |p.children[j + 1].values| > 0
    requires IsInternal(p.children[j]) && IsInternal(p.children[j + 1])
    ensures Valid(w, RotateLeft(w, p, j + 1)) && Elems(RotateLeft(w, p, j + 1)) == Elems(p)
  {
    var left, right, mid := p.children[j], p.children[j + 1], p.values[j];
    assert Valid(w, left) && Valid(w, right);
    var sub, x := right.children[0], right.values[0];
    var l', r' := PushBack(w, left, mid, sub, p.version, true), DropFirst(w, right, p.version, true);
    assert Valid(w, r') && Elems(right) == Elems(sub) + [x] + Elems(r') by {
      FirstSplitNode(w, right);
      Reassembled(w, WithoutFirst(right), r');
    }
    assert Valid(w, l') && Elems(l') == Elems(left) + [mid] + Elems(sub) by {
      assert Valid(w, sub);
      GrownNodeAtEnd(w, l', left, mid, sub);
    }
    RegroupValues(Elems(left), mid, Elems(sub), x, Elems(r'));
    RotatedPair(w, p, j, RotateLeft(w, p, j + 1), l', x, r');
  }

  /** `rotateLeft(j + 1)` between two leaves. */
  lemma RotateLeftLeaves<V>(w: V -> nat, p: BtreeNode<V>, j: nat)
    requires Valid(w, p) && IsInternal(p) && j < |p.values| && |p.children[j + 1].values| > 0
    requires !IsInternal(p.children[j]) && !IsInternal(p.children[j + 1])
    ensures Valid(w, RotateLeft(w, p, j + 1)) && Elems(RotateLeft(w, p, j + 1)) == Elems(p)
  {
    var left, right, mid := p.children[j], p.children[j + 1], p.values[j];
    assert Valid(w, left) && Valid(w, right);
    var x := right.values[0];
    var l', r' := PushBack(w, left, mid, right, p.version, false), DropFirst(w, right, p.version, false);
    assert Valid(w, r') && Elems(right) == [x] + Elems(r') by {
      FirstSplitLeaf(w, right);
      Reassembled(w, WithoutFirst(right), r');
    }
    assert Valid(w, l') && Elems(l') == Elems(left) + [mid] by {
      GrownLeafAtEnd(w, l', left, mid);
    }
    RegroupLeaf(Elems(left), mid, x, Elems(r'));
    RotatedPair(w, p, j, RotateLeft(w, p, j + 1), l', x, r');
  }

  /** Two values and the runs around them, grouped either way. */
  lemma RegroupValues<V>(a: seq<V>, x: V, t: seq<V>, y: V, b: seq<V>)
    ensures (a + [x] + t) + [y] + b == a + [x] + (t + [y] + b)
  {
  }

  lemma RegroupLeaf<V>(a: seq<V>, x: V, y: V, b: seq<V>)
    ensures (a + [x]) + [y] + b == a + [x] + ([y] + b)
  {
  }

  /** A node whose children `i` and `i + 1` and separator `i` were replaced
      by valid nodes and a value holding the same values in the same order
      is valid, with the same values. */
  lemma RotatedPair<V>(w: V -> nat, p: BtreeNode<V>, i: nat, r: BtreeNode<V>, l': BtreeNode<V>, x: V, r': BtreeNode<V>)
    requires Valid(w, p) && IsInternal(p) && i < |p.values|
    requires r.values == p.values[i := x] && r.children == p.children[i := l'][i + 1 := r']
    requires r.count == p.count && r.summary == p.summary
    requires Valid(w, l') && Valid(w, r')
    requires Elems(p.children[i]) + [p.values[i]] + Elems(p.children[i + 1]) == Elems(l') + [x] + Elems(r')
    ensures Valid(w, r) && Elems(r) == Elems(p)
  {
    PairReplaced(p, i, r);
    PairReplacedValid(w, p, i, r);
    RegroupPair(Prefix(p, i), Elems(p.children[i]), p.values[i], Elems(p.children[i + 1]), Rest(p, i + 1), Elems(l'), x, Elems(r'));
    ValidOfParts(w, r);
  }

  lemma RegroupPair<V>(pre: seq<V>, a: seq<V>, m: V, b: seq<V>, post: seq<V>, c: seq<V>, x: V, d: seq<V>)
    requires a + [m] + b == c + [x] + d
    ensures pre + a + [m] + b + post == pre + c + [x] + d + post
  {
    assert pre + a + [m] + b + post == pre + (a + [m] + b) + post;
    assert pre + c + [x] + d + post == pre + (c + [x] + d) + post;
  }


  lemma ValidOfParts<V>(w: V -> nat, r: BtreeNode<V>)
    requires Shaped(r) && AllValid(w, r.children) && r.count == |Elems(r)| && r.summary == Sum(w, Elems(r))
    ensures Valid(w, r)
  {
  }
  // What rotating and merging keep: leaf depths and sharing

  /** Leaf depths and sharing of a run of children, stated by membership. */
  lemma MembersUniform<V>(cs: seq<BtreeNode<V>>, h: nat)
    ensures AllUniform(cs, h) <==> forall c :: c in cs ==> Uniform(c, h)
  {
    if AllUniform(cs, h) {
      forall c | c in cs
        ensures Uniform(c, h)
      {
        var j :| 0 <= j < |cs| && cs[j] == c;
      }
    }
    if forall c :: c in cs ==> Uniform(c, h) {
      forall j | 0 <= j < |cs|
        ensures Uniform(cs[j], h)
      {
        assert cs[j] in cs;
      }
    }
  }

  lemma MembersShared<V>(cs: seq<BtreeNode<V>>, o: BtreeNode<V>, ver: nat)
    ensures AllShared(cs, o, ver) <==> forall c :: c in cs ==> Shared(c, o, ver)
  {
    if AllShared(cs, o, ver) {
      forall c | c in cs
        ensures Shared(c, o, ver)
      {
        var j :| 0 <= j < |cs| && cs[j] == c;
      }
    }
    if forall c :: c in cs ==> Shared(c, o, ver) {
      forall j | 0 <= j < |cs|
        ensures Shared(cs[j], o, ver)
      {
        assert cs[j] in cs;
      }
    }
  }

  /** A node whose children all come from nodes at depth `h` is at depth
      `h` when it is a leaf exactly when they are. */
  lemma UniformFrom<V>(m: BtreeNode<V>, h: nat, src: seq<BtreeNode<V>>)
    requires forall c :: c in src ==> Uniform(c, h)
    requires forall c :: c in m.children ==> exists d :: d in src && c in d.children
    requires h == 0 <==> m.children == []
    ensures Uniform(m, h)
  {
    if h > 0 {
      forall j | 0 <= j < |m.children|
        ensures Uniform(m.children[j], h - 1)
      {
        assert m.children[j] in m.children;
        var d :| d in src && m.children[j] in d.children;
        assert Uniform(d, h);
        MembersUniform(d.children, h - 1);
      }
    }
  }

  /** A node stamped `ver` whose children all come from nodes shared with `o`. */
  lemma SharedFrom<V>(m: BtreeNode<V>, o: BtreeNode<V>, ver: nat, src: seq<BtreeNode<V>>)
    requires m.version == ver
    requires forall c :: c in src ==> Shared(c, o, ver)
    requires forall c :: c in m.children ==> exists d :: d in src && c in d.children
    ensures Shared(m, o, ver)
  {
    forall j | 0 <= j < |m.children|
      ensures Shared(m.children[j], o, ver)
    {
      assert m.children[j] in m.children;
      var d :| d in src && m.children[j] in d.children;
      ChildrenShared(d, o, ver);
      MembersShared(d.children, o, ver);
    }
  }
  /** The children of a node whose children `i` and `i + 1` were replaced,
      with the replacements' own leaf depths and sharing. */
  lemma PairReplacedKeeps<V>(p: BtreeNode<V>, i: nat, r: BtreeNode<V>, h: nat, o: BtreeNode<V>)
    requires i + 1 < |p.children|
    requires |r.children| == |p.children| && r.children == p.children[i := r.children[i]][i + 1 := r.children[i + 1]]
    ensures AllUniform(p.children, h) && Uniform(r.children[i], h) && Uniform(r.children[i + 1], h) ==>
            AllUniform(r.children, h)
    ensures AllShared(p.children, o, r.version) && Shared(r.children[i], o, r.version) && Shared(r.children[i + 1], o, r.version) ==>
            AllShared(r.children, o, r.version)
  {
    forall j | 0 <= j < |r.children| && j != i && j != i + 1
      ensures r.children[j] == p.children[j]
    {
    }
  }

  lemma RotateRightKeeps<V>(w: V -> nat, p: BtreeNode<V>, i: nat, h: nat, o: BtreeNode<V>)
    requires IsInternal(p) && Shaped(p) && i < |p.values| && AllValid(w, p.children)
    requires |p.children[i].values| > 0 && AllUniform(p.children, h)
    ensures var r := RotateRight(w, p, i);
      AllUniform(r.children, h) && (AllShared(p.children, o, p.version) ==> AllShared(r.children, o, p.version))
  {
    var r := RotateRight(w, p, i);
    var left, right := p.children[i], p.children[i + 1];
    assert Valid(w, left);
    SiblingsAlike(p.children, h, i, i + 1);
    assert Uniform(left, h) && Uniform(right, h);
    MembersUniform([left], h);
    MembersUniform([left, right], h);
    UniformFrom(r.children[i], h, [left]);
    UniformFrom(r.children[i + 1], h, [left, right]);
    PairReplacedKeeps(p, i, r, h, o);
    if AllShared(p.children, o, p.version) {
      assert Shared(left, o, p.version) && Shared(right, o, p.version);
      MembersShared([left], o, p.version);
      MembersShared([left, right], o, p.version);
      SharedFrom(r.children[i], o, p.version, [left]);
      SharedFrom(r.children[i + 1], o, p.version, [left, right]);
    }
  }

  lemma RotateLeftKeeps<V>(w: V -> nat, p: BtreeNode<V>, i: nat, h: nat, o: BtreeNode<V>)
    requires IsInternal(p) && Shaped(p) && 0 < i <= |p.values| && AllValid(w, p.children)
    requires |p.children[i].values| > 0 && AllUniform(p.children, h)
    ensures var r := RotateLeft(w, p, i);
      AllUniform(r.children, h) && (AllShared(p.children, o, p.version) ==> AllShared(r.children, o, p.version))
  {
    var r := RotateLeft(w, p, i);
    var j := i - 1;
    var left, right := p.children[j], p.children[j + 1];
    assert Valid(w, right);
    SiblingsAlike(p.children, h, j, j + 1);
    assert Uniform(left, h) && Uniform(right, h);
    MembersUniform([right], h);
    MembersUniform([left, right], h);
    UniformFrom(r.children[j], h, [left, right]);
    UniformFrom(r.children[j + 1], h, [right]);
    PairReplacedKeeps(p, j, r, h, o);
    if AllShared(p.children, o, p.version) {
      assert Shared(left, o, p.version) && Shared(right, o, p.version);
      MembersShared([right], o, p.version);
      MembersShared([left, right], o, p.version);
      SharedFrom(r.children[j], o, p.version, [left, right]);
      SharedFrom(r.children[j + 1], o, p.version, [right]);
    }
  }

  lemma MergeKeeps<V>(w: V -> nat, p: BtreeNode<V>, i: nat, h: nat, o: BtreeNode<V>)
    requires IsInternal(p) && Shaped(p) && i < |p.values| && AllUniform(p.children, h)
    ensures var r := Merge(w, p, i);
      AllUniform(r.children, h) && (AllShared(p.children, o, p.version) ==> AllShared(r.children, o, p.version))
  {
    var r := Merge(w, p, i);
    var left, right := p.children[i], p.children[i + 1];
    SiblingsAlike(p.children, h, i, i + 1);
    assert Uniform(left, h) && Uniform(right, h);
    MembersUniform([left, right], h);
    UniformFrom(r.children[i], h, [left, right]);
    if AllShared(p.children, o, p.version) {
      assert Shared(left, o, p.version) && Shared(right, o, p.version);
      MembersShared([left, right], o, p.version);
      SharedFrom(r.children[i], o, p.version, [left, right]);
    }
    forall j | 0 <= j < |r.children| && j != i
      ensures r.children[j] == p.children[if j < i then j else j + 1]
    {
    }
  }
  // Deletion: repairing an underfull child

  /** Every node of the run holds at least `m` values. */
  ghost predicate AtLeast<V>(cs: seq<BtreeNode<V>>, m: nat)
  {
    forall j :: 0 <= j < |cs| ==> |cs[j].values| >= m
  }

  /** `balance(i, minVals)`: a child `i` holding fewer than `minVals`
      values takes one from its left sibling when that one can spare it,
      else from its right sibling, else is merged with a sibling. `None`
      when the parent has no separator to merge with: the source's
      `merge(-1)` reads a missing child there. */
  function Balance<V>(w: V -> nat, p: BtreeNode<V>, i: nat, minVals: nat): (r: Option<BtreeNode<V>>)
    requires IsInternal(p) && Shaped(p) && i <= |p.values| && AllValid(w, p.children)
    ensures r.None? <==> |p.children[i].values| < minVals && p.values == []
    ensures r.Some? ==> r.value.version == p.version
  {
    if |p.children[i].values| >= minVals then Some(p)
    else if i > 0 && |p.children[i - 1].values| > minVals then Some(RotateRight(w, p, i - 1))
    else if i < |p.values| && |p.children[i + 1].values| > minVals then Some(RotateLeft(w, p, i + 1))
    else if p.values == [] then None
    else Some(Merge(w, p, Min(i, |p.values| - 1)))
  }
  /** `q` is `p` restructured: valid, with the same in-order sequence and
      counters, every leaf at the same depth, and the children shared with
      `o` when those of `p` were. */
  ghost predicate Kept<V>(w: V -> nat, p: BtreeNode<V>, q: BtreeNode<V>, h: nat, o: BtreeNode<V>)
  {
    Valid(w, q) && IsInternal(q) && Elems(q) == Elems(p) &&
    q.count == p.count && q.summary == p.summary && q.version == p.version &&
    AllUniform(q.children, h) &&
    (AllShared(p.children, o, p.version) ==> AllShared(q.children, o, p.version))
  }

  lemma RotateRightKept<V>(w: V -> nat, p: BtreeNode<V>, i: nat, h: nat, o: BtreeNode<V>)
    requires Valid(w, p) && IsInternal(p) && i < |p.values| && AllUniform(p.children, h)
    requires |p.children[i].values| > 0
    ensures Kept(w, p, RotateRight(w, p, i), h, o)
  {
    RotateRightValid(w, p, i, h);
    RotateRightKeeps(w, p, i, h, o);
  }

  lemma RotateLeftKept<V>(w: V -> nat, p: BtreeNode<V>, i: nat, h: nat, o: BtreeNode<V>)
    requires Valid(w, p) && IsInternal(p) && 0 < i <= |p.values| && AllUniform(p.children, h)
    requires |p.children[i].values| > 0
    ensures Kept(w, p, RotateLeft(w, p, i), h, o)
  {
    RotateLeftValid(w, p, i, h);
    RotateLeftKeeps(w, p, i, h, o);
  }

  lemma MergeKept<V>(w: V -> nat, p: BtreeNode<V>, i: nat, h: nat, o: BtreeNode<V>)
    requires Valid(w, p) && IsInternal(p) && i < |p.values| && AllUniform(p.children, h)
    ensures Kept(w, p, Merge(w, p, i), h, o)
  {
    MergeValid(w, p, i, h);
    MergeKeeps(w, p, i, h, o);
  }

  /** Rebalancing keeps the in-order sequence, the counters, the depth of
      every leaf and the sharing of the children with `o`. */
  lemma BalanceKeeps<V>(w: V -> nat, p: BtreeNode<V>, i: nat, minVals: nat, h: nat, o: BtreeNode<V>)
    requires Valid(w, p) && IsInternal(p) && i <= |p.values| && AllUniform(p.children, h)
    ensures var r := Balance(w, p, i, minVals); r.Some? ==> Kept(w, p, r.value, h, o)
  {
    if |p.children[i].values| >= minVals {
    } else if i > 0 && |p.children[i - 1].values| > minVals {
      RotateRightKept(w, p, i - 1, h, o);
    } else if i < |p.values| && |p.children[i + 1].values| > minVals {
      RotateLeftKept(w, p, i + 1, h, o);
    } else if p.values != [] {
      MergeKept(w, p, Min(i, |p.values| - 1), h, o);
    }
  }

  /** The sizes of the children after `rotateRight(i)`. */
  lemma RotateRightSizes<V>(w: V -> nat, p: BtreeNode<V>, i: nat)
    requires IsInternal(p) && Shaped(p) && i < |p.values| && AllValid(w, p.children)
    requires |p.children[i].values| > 0
    ensures var r := RotateRight(w, p, i);
      |r.children[i].values| == |p.children[i].values| - 1 &&
      |r.children[i + 1].values| == |p.children[i + 1].values| + 1 &&
      forall j :: 0 <= j < |r.children| && j != i && j != i + 1 ==> r.children[j] == p.children[j]
  {
  }

  /** The sizes of the children after `rotateLeft(i)`. */
  lemma RotateLeftSizes<V>(w: V -> nat, p: BtreeNode<V>, i: nat)
    requires IsInternal(p) && Shaped(p) && 0 < i <= |p.values| && AllValid(w, p.children)
    requires |p.children[i].values| > 0
    ensures var r := RotateLeft(w, p, i);
      |r.children[i - 1].values| == |p.children[i - 1].values| + 1 &&
      |r.children[i].values| == |p.children[i].values| - 1 &&
      forall j :: 0 <= j < |r.children| && j != i - 1 && j != i ==> r.children[j] == p.children[j]
  {
  }

  /** The sizes of the children after `merge(i)`. */
  lemma MergeSizes<V>(w: V -> nat, p: BtreeNode<V>, i: nat)
    requires IsInternal(p) && Shaped(p) && i < |p.values|
    ensures var r := Merge(w, p, i);
      (forall j :: 0 <= j < i ==> r.children[j] == p.children[j]) &&
      (forall j :: i < j < |r.children| ==> r.children[j] == p.children[j + 1])
  {
  }

  /** Rebalancing restores the lower bound: when every child but `i` holds
      at least `minVals` values and child `i` at most one fewer, every
      child ends with at least `minVals`. */
  lemma BalanceRestores<V>(w: V -> nat, p: BtreeNode<V>, i: nat, minVals: nat)
    requires IsInternal(p) && Shaped(p) && i <= |p.values| && AllValid(w, p.children)
    requires forall j :: 0 <= j < |p.children| && j != i ==> |p.children[j].values| >= minVals
    requires |p.children[i].values| + 1 >= minVals
    ensures var r := Balance(w, p, i, minVals); r.Some? ==> AtLeast(r.value.children, minVals)
  {
    if |p.children[i].values| >= minVals {
    } else if i > 0 && |p.children[i - 1].values| > minVals {
      RotateRightSizes(w, p, i - 1);
    } else if i < |p.values| && |p.children[i + 1].values| > minVals {
      RotateLeftSizes(w, p, i + 1);
    } else if p.values != [] {
      var k := Min(i, |p.values| - 1);
      MergeSizes(w, p, k);
      assert |Merge(w, p, k).children[k].values| >= minVals;
    }
  }
  // Deletion

  lemma SumDelete<V>(w: V -> nat, s: seq<V>, k: nat)
    requires k < |s|
    ensures |SeqDelete(s, k)| + 1 == |s| && Sum(w, SeqDelete(s, k)) + w(s[k]) == Sum(w, s)
  {
    assert Min(k, |s| - 1) == k;
    assert s == s[..k] + [s[k]] + s[k + 1..];
    SumConcat3(w, s[..k], s[k], s[k + 1..]);
    SumConcat(w, s[..k], s[k + 1..]);
  }

  /** A node whose child `i` lost the value at `relIndex`. */
  lemma ChildDeleted<V>(n: BtreeNode<V>, i: nat, relIndex: nat, s1: BtreeNode<V>)
    requires IsInternal(n) && Shaped(n) && i <= |n.values| && relIndex < |Elems(n.children[i])|
    requires s1.values == n.values && |s1.children| == |n.children| && s1.children == n.children[i := s1.children[i]]
    requires Elems(s1.children[i]) == SeqDelete(Elems(n.children[i]), relIndex)
    ensures Elems(s1) == SeqDelete(Elems(n), |Prefix(n, i)| + relIndex)
  {
    ReplaceChild(n, i, s1);
    DeleteInPart(Prefix(n, i), Elems(n.children[i]), Rest(n, i), relIndex);
  }

  /** Overwriting the value at `k` by its predecessor `x`, then deleting
      that predecessor, deletes the value at `k`. */
  lemma DeleteAfterReplace<V>(s: seq<V>, k: nat, x: V)
    requires 0 < k < |s| && s[k - 1] == x
    ensures SeqDelete(SeqReplace(s, k, x), k - 1) == SeqDelete(s, k)
  {
    var t := SeqReplace(s, k, x);
    assert Min(k, |s| - 1) == k && Min(k - 1, |t| - 1) == k - 1;
    assert t == s[..k] + [x] + s[k + 1..];
    assert t[..k - 1] == s[..k - 1] && t[k..] == [x] + s[k + 1..];
    assert s[..k] == s[..k - 1] + [x];
  }

  /** Replacing child `i` by a node with every leaf at depth `h - 1`
      keeps every child's leaves at that depth. */
  lemma ChildSwappedUniform<V>(n: BtreeNode<V>, i: nat, s1: BtreeNode<V>, h: nat)
    requires Uniform(n, h) && h > 0 && i < |n.children|
    requires |s1.children| == |n.children| && s1.children == n.children[i := s1.children[i]]
    requires Uniform(s1.children[i], h - 1)
    ensures AllUniform(s1.children, h - 1)
  {
    ChildrenUniform(n, h);
    ReplacedUniform(n.children, i, s1.children[i], h - 1);
  }

  /** Lowering a total by the change of one of its parts. */
  lemma Lowered(total: int, part: int, part': int, total': int, wx: int)
    requires part' + wx == part && total' + wx == total
    ensures total + part' - part == total'
  {
  }

  /** `r` is `n` with the value at `index` deleted: valid, stamped `ver`,
      the value gone from the in-order sequence and from the counters,
      copy-on-write with respect to `n`, and every leaf at depth `h`. */
  ghost predicate Deleted<V>(w: V -> nat, n: BtreeNode<V>, index: nat, ver: nat, h: nat, r: BtreeNode<V>)
  {
    index < |Elems(n)| && Valid(w, r) && r.version == ver &&
    Elems(r) == SeqDelete(Elems(n), index) &&
    r.count + 1 == n.count && r.summary + w(Elems(n)[index]) == n.summary &&
    Shared(r, n, ver) && Uniform(r, h)
  }

  /** `s` is the internal node `n` with the value at `index` deleted below
      it, before the child it was deleted from is repaired: the same as
      `Deleted`, except that only the children are known to be shared with
      `n` and to have their leaves at depth `h - 1`. */
  ghost predicate Unbalanced<V>(w: V -> nat, n: BtreeNode<V>, index: nat, ver: nat, h: nat, s: BtreeNode<V>)
  {
    index < |Elems(n)| && Valid(w, s) && IsInternal(s) && |s.values| == |n.values| && s.version == ver &&
    Elems(s) == SeqDelete(Elems(n), index) &&
    s.count + 1 == n.count && s.summary + w(Elems(n)[index]) == n.summary &&
    h > 0 && AllShared(s.children, n, ver) && AllUniform(s.children, h - 1)
  }

  /** The in-order sequence and counters of a node whose child `i` lost
      the value at `relIndex`. */
  lemma ChildDeletedCounters<V>(w: V -> nat, n: BtreeNode<V>, i: nat, relIndex: nat, s1: BtreeNode<V>)
    requires IsInternal(n) && Shaped(n) && i <= |n.values| && relIndex < |Elems(n.children[i])|
    requires n.count == |Elems(n)| && n.summary == Sum(w, Elems(n))
    requires s1.values == n.values && |s1.children| == |n.children| && s1.children == n.children[i := s1.children[i]]
    requires Elems(s1.children[i]) == SeqDelete(Elems(n.children[i]), relIndex)
    requires s1.children[i].summary + w(Elems(n.children[i])[relIndex]) == n.children[i].summary
    ensures var k := |Prefix(n, i)| + relIndex;
      k < |Elems(n)| && Elems(s1) == SeqDelete(Elems(n), k) &&
      |Elems(s1)| + 1 == n.count && Sum(w, Elems(s1)) + w(Elems(n)[k]) == n.summary &&
      Sum(w, Elems(s1)) == n.summary + s1.children[i].summary - n.children[i].summary
  {
    ChildDeleted(n, i, relIndex, s1);
    ValueInChild(n, i, relIndex);
    SumDelete(w, Elems(n), |Prefix(n, i)| + relIndex);
  }

  /** The deletion in child `i` stored back into the owned parent, whose
      summary moves by the change of the child's summary and whose count
      drops by one. */
  method DeleteInChild<V>(w: V -> nat, n: BtreeNode<V>, self: BtreeNode<V>, i: nat, relIndex: nat,
                          ownedChild: BtreeNode<V>, ver: nat, ghost h: nat) returns (s: BtreeNode<V>)
    requires Valid(w, n) && IsInternal(n) && i <= |n.values| && Uniform(n, h) && h > 0
    requires self == n.(version := ver)
    requires Valid(w, n.children[i]) && Deleted(w, n.children[i], relIndex, ver, h - 1, ownedChild)
    ensures Unbalanced(w, n, |Prefix(n, i)| + relIndex, ver, h, s)
  {
    var child := n.children[i];
    var s1 := self.(children := self.children[i := ownedChild]);
    ChildDeletedCounters(w, n, i, relIndex, s1);
    ReplacedValid(w, n.children, i, s1.children);
    ChildReplacedShared(n, i, s1, ver);
    ChildSwappedUniform(n, i, s1, h);
    var summary := self.summary + ownedChild.summary - child.summary;
    s := s1.(count := self.count - 1, summary := summary);
    Reassembled(w, s1, s);
  }

  /** The in-order sequence of a node whose separator `i` was overwritten
      by the last value `x` of child `i`, which that child then lost. */
  lemma SeparatorDeletedElems<V>(n: BtreeNode<V>, i: nat, x: V, s1: BtreeNode<V>, k: nat)
    requires IsInternal(n) && Shaped(n) && i < |n.values|
    requires Elems(n.children[i]) != [] && x == Elems(n.children[i])[|Elems(n.children[i])| - 1]
    requires s1.values == n.values[i := x] && |s1.children| == |n.children| && s1.children == n.children[i := s1.children[i]]
    requires Elems(s1.children[i]) == SeqDelete(Elems(n.children[i]), |Elems(n.children[i])| - 1)
    requires k == |Prefix(n, i)| + |Elems(n.children[i])|
    ensures k < |Elems(n)| && Elems(n)[k] == n.values[i] && Elems(s1) == SeqDelete(Elems(n), k)
  {
    PairAndSeparator(n, i, s1);
    SeparatorSplice(Prefix(n, i), Elems(n.children[i]), n.values[i], Elems(n.children[i + 1]), Rest(n, i + 1), x, Elems(n), k);
  }

  /** A node whose separator `i` and child `i` were replaced. */
  lemma PairAndSeparator<V>(n: BtreeNode<V>, i: nat, s1: BtreeNode<V>)
    requires IsInternal(n) && Shaped(n) && i < |n.values|
    requires |s1.values| == |n.values| && s1.values == n.values[i := s1.values[i]]
    requires |s1.children| == |n.children| && s1.children == n.children[i := s1.children[i]]
    ensures Elems(n) == Prefix(n, i) + Elems(n.children[i]) + [n.values[i]] + Elems(n.children[i + 1]) + Rest(n, i + 1)
    ensures Elems(s1) == Prefix(n, i) + Elems(s1.children[i]) + [s1.values[i]] + Elems(n.children[i + 1]) + Rest(n, i + 1)
  {
    AroundPair(n, i);
    AroundPair(s1, i);
    assert s1.values[..i] == n.values[..i] && s1.children[..i] == n.children[..i];
    PrefixFrame(s1, n, i);
    assert s1.values[i + 1..] == n.values[i + 1..] && s1.children[i + 2..] == n.children[i + 2..];
    RestFrame(s1, i + 1, n, i + 1);
    assert s1.children[i + 1] == n.children[i + 1];
  }

  /** Deleting the separator `sep` that follows the part `e`, once the last
      value `x` of `e` has moved into its place. */
  lemma SeparatorSplice<V>(p: seq<V>, e: seq<V>, sep: V, f: seq<V>, r: seq<V>, x: V, s: seq<V>, k: nat)
    requires e != [] && x == e[|e| - 1]
    requires s == p + e + [sep] + f + r && k == |p| + |e|
    ensures k < |s| && s[k] == sep && SeqDelete(s, k) == p + SeqDelete(e, |e| - 1) + [x] + f + r
  {
    assert Min(k, |s| - 1) == k && Min(|e| - 1, |e| - 1) == |e| - 1;
    assert s[..k] == p + e;
    assert s[k + 1..] == f + r;
    assert e == e[..|e| - 1] + [x];
  }

  /** The counters of a node whose separator `i` was deleted that way. */
  lemma SeparatorDeletedCounters<V>(w: V -> nat, n: BtreeNode<V>, i: nat, x: V, s1: BtreeNode<V>, k: nat)
    requires IsInternal(n) && Shaped(n) && i < |n.values|
    requires n.count == |Elems(n)| && n.summary == Sum(w, Elems(n))
    requires Elems(n.children[i]) != [] && x == Elems(n.children[i])[|Elems(n.children[i])| - 1]
    requires s1.values == n.values[i := x] && |s1.children| == |n.children| && s1.children == n.children[i := s1.children[i]]
    requires Elems(s1.children[i]) == SeqDelete(Elems(n.children[i]), |Elems(n.children[i])| - 1)
    requires s1.children[i].summary + w(x) == n.children[i].summary
    requires k == |Prefix(n, i)| + |Elems(n.children[i])|
    ensures k < |Elems(n)| && Elems(n)[k] == n.values[i] && Elems(s1) == SeqDelete(Elems(n), k)
    ensures |Elems(s1)| + 1 == n.count && Sum(w, Elems(s1)) + w(n.values[i]) == n.summary
    ensures Sum(w, Elems(s1)) == n.summary + w(x) - w(n.values[i]) + s1.children[i].summary - n.children[i].summary
  {
    SeparatorDeletedElems(n, i, x, s1, k);
    SumDeleted(w, Elems(n), k, Elems(s1));
  }

  lemma SumDeleted<V>(w: V -> nat, t: seq<V>, k: nat, t1: seq<V>)
    requires k < |t| && t1 == SeqDelete(t, k)
    ensures |t1| + 1 == |t| && Sum(w, t1) + w(t[k]) == Sum(w, t)
  {
    SumDelete(w, t, k);
  }

  /** The separator after child `i` deleted in the owned parent: the last
      value `x` of child `i` takes its place and is deleted from that child;
      the summary moves by the weights of both values and by the child's
      change. */
  method DeleteSeparator<V>(w: V -> nat, n: BtreeNode<V>, self: BtreeNode<V>, i: nat, x: V,
                            ownedChild: BtreeNode<V>, ver: nat, ghost h: nat, ghost k: nat) returns (s: BtreeNode<V>)
    requires Valid(w, n) && IsInternal(n) && i < |n.values| && Uniform(n, h) && h > 0
    requires self == n.(version := ver)
    requires Valid(w, n.children[i]) && Elems(n.children[i]) != []
    requires x == Elems(n.children[i])[|Elems(n.children[i])| - 1]
    requires Deleted(w, n.children[i], |Elems(n.children[i])| - 1, ver, h - 1, ownedChild)
    requires k == |Prefix(n, i)| + |Elems(n.children[i])|
    ensures k < |Elems(n)| && Elems(n)[k] == n.values[i] && Unbalanced(w, n, k, ver, h, s)
  {
    var child := n.children[i];
    var s1 := self.(values := self.values[i := x], children := self.children[i := ownedChild]);
    SeparatorDeletedCounters(w, n, i, x, s1, k);
    ReplacedValid(w, n.children, i, s1.children);
    ChildReplacedShared(n, i, s1, ver);
    ChildSwappedUniform(n, i, s1, h);
    var summary := self.summary + w(x) - w(self.values[i]) + ownedChild.summary - child.summary;
    s := s1.(count := self.count - 1, summary := summary);
    Reassembled(w, s1, s);
  }

  /** `delete(index, ver, minVals)` on a node: the value at `index` removed
      from the in-order sequence, the counters lowered by one value and its
      weight, and every child left with fewer than `minVals` values
      repaired on the way up. A separator is replaced by the last value of
      the subtree before it. `None` where the source reads a missing value
      or child: an empty rightmost leaf, or a valueless parent whose only
      child became underfull; neither happens in a tree whose nodes all
      hold values. */
  method Delete<V>(w: V -> nat, n: BtreeNode<V>, index: nat, ver: nat, minVals: nat, ghost h: nat)
    returns (r: Option<BtreeNode<V>>)
    requires Valid(w, n) && index < n.count && Uniform(n, h)
    ensures r.Some? ==> Deleted(w, n, index, ver, h, r.value)
    ensures Occupied(n) && Filled(n) ==> r.Some?
    decreases n, 1
  {
    var self := Owned(w, n, ver);
    assert self == n.(version := ver);
    if IsInternal(self) {
      var i, relIndex := Locate(w, n, index);
      if relIndex < n.children[i].count {
        r := DeleteBelow(w, n, self, index, i, relIndex, ver, minVals, h);
      } else {
        r := DeleteAtSeparator(w, n, self, index, i, ver, minVals, h);
      }
    } else {
      var x := self.values[index];
      SumDelete(w, n.values, index);
      assert SeqDelete(n.values, index) == n.values[..index] + n.values[index + 1..];
      r := Some(self.(values := self.values[..index] + self.values[index + 1..],
                      count := self.count - 1, summary := self.summary - w(x)));
    }
  }

  /** The children of a node whose nodes all hold values hold values too. */
  lemma OccupiedChild<V>(n: BtreeNode<V>, i: nat)
    requires i < |n.children| && Occupied(n) && Filled(n)
    ensures Occupied(n.children[i]) && Filled(n.children[i]) && n.values != []
  {
  }

  /** The branch of `delete` that recurses into child `i` for the value at
      `relIndex` there, then repairs that child. */
  method DeleteBelow<V>(w: V -> nat, n: BtreeNode<V>, self: BtreeNode<V>, index: nat, i: nat, relIndex: nat,
                        ver: nat, minVals: nat, ghost h: nat) returns (r: Option<BtreeNode<V>>)
    requires Valid(w, n) && IsInternal(n) && i <= |n.values| && Uniform(n, h)
    requires self == n.(version := ver)
    requires Valid(w, n.children[i]) && relIndex < n.children[i].count && index == |Prefix(n, i)| + relIndex
    ensures r.Some? ==> Deleted(w, n, index, ver, h, r.value)
    ensures Occupied(n) && Filled(n) ==> r.Some?
    decreases n, 0
  {
    ChildrenUniform(n, h);
    assert Uniform(n.children[i], h - 1);
    var oc := Delete(w, n.children[i], relIndex, ver, minVals, h - 1);
    if oc.None? {
      if Occupied(n) && Filled(n) {
        OccupiedChild(n, i);
      }
      return None;
    }
    var s := DeleteInChild(w, n, self, i, relIndex, oc.value, ver, h);
    r := Balance(w, s, i, minVals);
    Rebalanced(w, n, index, ver, minVals, h, s, i);
  }

  /** The branch of `delete` that removes separator `i`: the last value of
      child `i` takes its place and is deleted from that child, which is
      then repaired. */
  method DeleteAtSeparator<V>(w: V -> nat, n: BtreeNode<V>, self: BtreeNode<V>, index: nat, i: nat,
                              ver: nat, minVals: nat, ghost h: nat) returns (r: Option<BtreeNode<V>>)
    requires Valid(w, n) && IsInternal(n) && i < |n.values| && Uniform(n, h)
    requires self == n.(version := ver)
    requires Valid(w, n.children[i]) && index == |Prefix(n, i)| + n.children[i].count
    ensures r.Some? ==> Deleted(w, n, index, ver, h, r.value)
    ensures Occupied(n) && Filled(n) ==> r.Some?
    decreases n, 0
  {
    var child := n.children[i];
    assert index == |Prefix(n, i)| + |Elems(child)|;
    ChildrenUniform(n, h);
    assert Uniform(child, h - 1);
    var rm := Rightmost(w, child);
    if rm.None? {
      if Occupied(n) && Filled(n) {
        OccupiedChild(n, i);
      }
      return None;
    }
    var oc := Delete(w, child, child.count - 1, ver, minVals, h - 1);
    if oc.None? {
      if Occupied(n) && Filled(n) {
        OccupiedChild(n, i);
      }
      return None;
    }
    var s := DeleteSeparator(w, n, self, i, rm.value, oc.value, ver, h, index);
    r := Balance(w, s, i, minVals);
    Rebalanced(w, n, index, ver, minVals, h, s, i);
  }

  /** Repairing child `i` completes the deletion below an internal node. */
  lemma Rebalanced<V>(w: V -> nat, n: BtreeNode<V>, index: nat, ver: nat, minVals: nat, h: nat, s: BtreeNode<V>, i: nat)
    requires Unbalanced(w, n, index, ver, h, s) && i <= |s.values|
    ensures Balance(w, s, i, minVals).Some? ==> Deleted(w, n, index, ver, h, Balance(w, s, i, minVals).value)
    ensures n.values != [] ==> Balance(w, s, i, minVals).Some?
  {
    var r := Balance(w, s, i, minVals);
    BalanceKeeps(w, s, i, minVals, h - 1, n);
    if r.Some? {
      UniformOfChildren(r.value, h);
    }
  }

  /** A valueless node whose only child is `root` holds the values of
      `root`, and has its leaves one level deeper. */
  lemma Wrapped<V>(w: V -> nat, root: BtreeNode<V>, node: BtreeNode<V>)
    requires Valid(w, node) && node.values == [] && node.children == [root]
    ensures Elems(node) == Elems(root) && node.count == |Elems(root)| && node.summary == Sum(w, Elems(root))
    ensures forall h: nat :: Uniform(root, h) ==> Uniform(node, h + 1)
  {
    assert Prefix(node, 0) == [];
  }

  /** The root that the top-level `insert` inserts into: `root` itself,
      or, when it holds `maxVals` values or more, a new valueless root at
      `ver` whose only child it is. */
  method Lift<V>(w: V -> nat, root: BtreeNode<V>, ver: nat, maxVals: nat) returns (node: BtreeNode<V>)
    requires Valid(w, root)
    ensures Valid(w, node) && Elems(node) == Elems(root)
    ensures node.count == root.count && node.summary == root.summary
    ensures Shared(node, root, ver)
    ensures |root.values| >= maxVals ==> node.values == [] && node.children == [root]
    ensures Balanced(root) ==> Balanced(node)
  {
    node := root;
    SubtreeShared(root, root, ver);
    if |root.values| >= maxVals {
      node := New(w, [], [root], ver);
      Wrapped(w, root, node);
      if Balanced(root) {
        UniformHeight(node, Height(root) + 1);
      }
    }
  }

  /** The top-level `insert`: `v` inserted at `index` into the tree below
      `root`, which grows by one level at the top when the root is full. */
  method InsertAt<V>(w: V -> nat, root: BtreeNode<V>, index: nat, v: V, ver: nat, maxVals: nat)
    returns (r: BtreeNode<V>)
    requires Valid(w, root) && index <= root.count
    ensures Valid(w, r) && r.version == ver
    ensures Elems(r) == SeqInsert(Elems(root), index, v)
    ensures r.count == root.count + 1 && r.summary == root.summary + w(v)
    ensures Shared(r, root, ver)
    ensures Balanced(root) ==> Balanced(r)
  {
    var node := Lift(w, root, ver, maxVals);
    r := Insert(w, node, index, v, ver, maxVals);
    SharedTrans(r, node, root, ver);
    if Balanced(node) {
      UniformHeight(r, Height(node));
    }
  }
  // The sibling updates as the source writes them

  /** Child `k` of `q` where the source keeps it: the clone that `owned`
      made of child `k` of `p` is discarded unless that child already
      carried the parent's version. */
  function KeptChild<V>(p: BtreeNode<V>, q: BtreeNode<V>, k: nat): BtreeNode<V>
    requires k < |p.children| && k < |q.children|
  {
    if p.children[k].version == p.version then q.children[k] else p.children[k]
  }

  /** `merge(i)` as written: the merged left child is a clone that is never
      stored back when the left child is not owned by the parent's version,
      while the separator and the right child are still removed. */
  function MergeAsWritten<V>(w: V -> nat, p: BtreeNode<V>, i: nat): (r: BtreeNode<V>)
    requires IsInternal(p) && Shaped(p) && i < |p.values|
    ensures p.children[i].version == p.version ==> r == Merge(w, p, i)
  {
    var q := Merge(w, p, i);
    q.(children := q.children[i := KeptChild(p, q, i)])
  }

  /** `rotateRight(i)` as written: each of the two siblings keeps its old
      contents unless it was owned by the parent's version. */
  function RotateRightAsWritten<V>(w: V -> nat, p: BtreeNode<V>, i: nat): (r: BtreeNode<V>)
    requires IsInternal(p) && Shaped(p) && i < |p.values| && AllValid(w, p.children)
    requires |p.children[i].values| > 0
    ensures p.children[i].version == p.version && p.children[i + 1].version == p.version ==>
            r == RotateRight(w, p, i)
  {
    var q := RotateRight(w, p, i);
    q.(children := q.children[i := KeptChild(p, q, i)][i + 1 := KeptChild(p, q, i + 1)])
  }

  /** `rotateLeft(i)` as written. */
  function RotateLeftAsWritten<V>(w: V -> nat, p: BtreeNode<V>, i: nat): (r: BtreeNode<V>)
    requires IsInternal(p) && Shaped(p) && 0 < i <= |p.values| && AllValid(w, p.children)
    requires |p.children[i].values| > 0
    ensures p.children[i - 1].version == p.version && p.children[i].version == p.version ==>
            r == RotateLeft(w, p, i)
  {
    var q := RotateLeft(w, p, i);
    q.(children := q.children[i - 1 := KeptChild(p, q, i - 1)][i := KeptChild(p, q, i)])
  }

  /** A leaf at version `u` holding `vs`, with its counters. */
  function LeafAt<V>(w: V -> nat, vs: seq<V>, u: nat): (r: BtreeNode<V>)
    ensures Valid(w, r) && Elems(r) == vs && Uniform(r, 0)
  {
    BtreeNode(vs, [], u, |vs|, Sum(w, vs))
  }

  /** The in-order sequence of an internal node with two leaf children. */
  lemma TwoLeaves<V>(n: BtreeNode<V>)
    requires |n.values| == 1 && |n.children| == 2
    requires n.children[0].children == [] && n.children[1].children == []
    ensures Elems(n) == n.children[0].values + [n.values[0]] + n.children[1].values
  {
    assert Prefix(n, 1) == Prefix(n, 0) + Elems(n.children[0]) + [n.values[0]];
  }

  /** A parent at version `u` over the leaves `l` (at version `lu`) and `r`
      (at version `ru`), separated by `s`. */
  function Parent<V>(w: V -> nat, l: seq<V>, lu: nat, s: V, r: seq<V>, ru: nat, u: nat): (p: BtreeNode<V>)
    ensures IsInternal(p) && Shaped(p) && |p.values| == 1
    ensures Valid(w, p) && AllUniform(p.children, 0) && Elems(p) == l + [s] + r
    ensures p.version == u && p.children[0].version == lu && p.children[1].version == ru
  {
    var p := BtreeNode([s], [LeafAt(w, l, lu), LeafAt(w, r, ru)], u, |l + [s] + r|, Sum(w, l + [s] + r));
    TwoLeaves(p);
    p
  }

  /** Two sibling leaves `l` and `r` around the separator `s`, the right
      one owned by the parent's version `u` and the left one not: the merge
      as written keeps only `l`, where the corrected merge keeps every
      value. */
  lemma MergeAsWrittenLosesValues<V>(w: V -> nat, l: seq<V>, s: V, r: seq<V>, u: nat, u': nat)
    requires u' != u
    ensures var p := Parent(w, l, u', s, r, u, u);
      Elems(MergeAsWritten(w, p, 0)) == l && |l| < |Elems(p)| &&
      Elems(Merge(w, p, 0)) == Elems(p)
  {
    var p := Parent(w, l, u', s, r, u, u);
    var m := MergeAsWritten(w, p, 0);
    assert m.values == [] && m.children == [p.children[0]];
    assert Elems(m) == Prefix(m, 0) + Elems(m.children[0]);
    MergeValid(w, p, 0, 0);
  }

  /** The left sibling `l` not owned by the parent's version `u`, the right
      one `r` owned: the right rotation as written moves the last value of
      `l` up as the separator but leaves it in the left sibling too, so the
      sequence gains a value; the corrected rotation keeps it. */
  lemma RotateRightAsWrittenDuplicates<V>(w: V -> nat, l: seq<V>, s: V, r: seq<V>, u: nat, u': nat)
    requires u' != u && |l| > 0
    ensures var p := Parent(w, l, u', s, r, u, u);
      Elems(RotateRightAsWritten(w, p, 0)) == l + [l[|l| - 1], s] + r &&
      Elems(RotateRight(w, p, 0)) == Elems(p)
  {
    var p := Parent(w, l, u', s, r, u, u);
    var q := RotateRightAsWritten(w, p, 0);
    assert q.values == [l[|l| - 1]] && q.children[0] == p.children[0];
    assert q.children[1].values == [s] + r && q.children[1].children == [];
    TwoLeaves(q);
    RotateRightValid(w, p, 0, 0);
  }

  /** The left sibling `l` owned by the parent's version `u`, the right one
      `r` not: the left rotation as written moves `s` down and the first
      value of `r` up but leaves that value in the right sibling too. */
  lemma RotateLeftAsWrittenDuplicates<V>(w: V -> nat, l: seq<V>, s: V, r: seq<V>, u: nat, u': nat)
    requires u' != u && |r| > 0
    ensures var p := Parent(w, l, u, s, r, u', u);
      Elems(RotateLeftAsWritten(w, p, 1)) == l + [s, r[0]] + r &&
      Elems(RotateLeft(w, p, 1)) == Elems(p)
  {
    var p := Parent(w, l, u, s, r, u', u);
    var q := RotateLeftAsWritten(w, p, 1);
    assert q.values == [r[0]] && q.children[1] == p.children[1];
    assert q.children[0].values == l + [s] && q.children[0].children == [];
    TwoLeaves(q);
    RotateLeftValid(w, p, 1, 0);
  }

  // The separator branch of `delete` as the source writes it

  /** Child `i` of an internal node, with the separator after it, holds
      fewer values and no more weight than the node. */
  lemma ChildBounds<V>(w: V -> nat, n: BtreeNode<V>, i: nat)
    requires Valid(w, n) && IsInternal(n) && i < |n.values|
    ensures n.children[i].count + 1 <= n.count && n.children[i].summary <= n.summary
  {
    AroundPair(n, i);
    var p, c, v, rest := Prefix(n, i), Elems(n.children[i]), n.values[i], Elems(n.children[i + 1]) + Rest(n, i + 1);
    assert Elems(n) == p + c + [v] + rest;
    assert Valid(w, n.children[i]);
    SumConcat(w, p + c + [v], rest);
    SumConcat(w, p + c, [v]);
    SumConcat(w, p, c);
  }

  /** The deletion of separator `i` as written: the rightmost value of
      child `i` is written into the receiver itself, even when the
      receiver is shared with older versions and `self` is its clone taken
      before the write; the child's rightmost value is removed at the
      receiver's version, so `ownedChild` (the result of that call) is the
      child changed in place when the receiver's version owns it; and the
      summary is only adjusted by the child's change of weight. The result
      is the new node, then the receiver as older versions now see it. */
  function DeleteSeparatorAsWritten<V>(w: V -> nat, n: BtreeNode<V>, i: nat, ver: nat, minVals: nat,
                                       ownedChild: BtreeNode<V>): (r: (Option<BtreeNode<V>>, BtreeNode<V>))
    requires Valid(w, n) && IsInternal(n) && i < |n.values|
    requires Rightmost(w, n.children[i]).Some?
    requires Valid(w, ownedChild) && ownedChild.summary <= n.children[i].summary
    ensures |r.1.values| == |n.values| && |r.1.children| == |n.children|
    ensures n.version != ver && n.children[i].version == n.version ==> r.1.children[i] == ownedChild
    ensures r.1.values[i] == Rightmost(w, n.children[i]).value
  {
    var child := n.children[i];
    var written := n.(values := n.values[i := Rightmost(w, child).value]);
    var self := if n.version == ver then written else n.(version := ver);
    var seen := if n.version != ver && child.version == n.version
                then written.(children := written.children[i := ownedChild]) else written;
    ChildBounds(w, n, i);
    var s := self.(children := self.children[i := ownedChild],
                   summary := self.summary + ownedChild.summary - child.summary);
    ReplacedValid(w, n.children, i, s.children);
    var b := Balance(w, s, i, minVals);
    (if b.Some? then Some(b.value.(count := n.count - 1)) else None, seen)
  }

  /** A receiver owned by the mutation's version `u`, over the leaves `l`
      and `r` around `s`: the values come out right, but the summary is
      the total weight only when `s` and the last value of `l` weigh the
      same. The corrected deletion adds the difference. */
  lemma DeleteSeparatorAsWrittenMiscounts<V>(w: V -> nat, l: seq<V>, s: V, r: seq<V>, u: nat)
    requires |l| > 0
    ensures var n := Parent(w, l, u, s, r, u, u);
      var res := DeleteSeparatorAsWritten(w, n, 0, u, 0, LeafAt(w, l[..|l| - 1], u)).0;
      res.Some? && Elems(res.value) == SeqDelete(Elems(n), |l|) &&
      (res.value.summary == Sum(w, Elems(res.value)) <==> w(s) == w(l[|l| - 1]))
  {
    var n := Parent(w, l, u, s, r, u, u);
    var l', x := l[..|l| - 1], l[|l| - 1];
    assert l == l' + [x];
    var res := DeleteSeparatorAsWritten(w, n, 0, u, 0, LeafAt(w, l', u)).0;
    var m := res.value;
    assert m.values == [x] && m.children == [LeafAt(w, l', u), n.children[1]];
    TwoLeaves(m);
    assert SeqDelete(Elems(n), |l|) == l' + [x] + r;
    SumConcat(w, l', [x]);
    SumConcat3(w, l, s, r);
    SumConcat3(w, l', x, r);
  }

  /** A receiver at version `u` that the mutation's version `ver` does
      not own, over a left leaf `l` that `u` does own: the older version
      loses a value (its separator is overwritten and its child shrinks),
      the new version keeps the separator `s` where it should have removed
      it, and its new child carries the older version's stamp. */
  lemma DeleteSeparatorAsWrittenChangesOldVersion<V>(w: V -> nat, l: seq<V>, s: V, r: seq<V>, u: nat, ver: nat)
    requires |l| > 0 && u != ver
    ensures var n := Parent(w, l, u, s, r, u, u);
      var res := DeleteSeparatorAsWritten(w, n, 0, ver, 0, LeafAt(w, l[..|l| - 1], u));
      |Elems(res.1)| + 1 == |Elems(n)| &&
      res.0.Some? && Elems(res.0.value) == l[..|l| - 1] + [s] + r &&
      (Elems(res.0.value) == SeqDelete(Elems(n), |l|) ==> s == l[|l| - 1]) &&
      res.0.value.children[0].version == u
  {
    var n := Parent(w, l, u, s, r, u, u);
    var l', x := l[..|l| - 1], l[|l| - 1];
    assert l == l' + [x];
    var res := DeleteSeparatorAsWritten(w, n, 0, ver, 0, LeafAt(w, l', u));
    var old', m := res.1, res.0.value;
    assert old'.values == [x] && old'.children == [LeafAt(w, l', u), n.children[1]];
    TwoLeaves(old');
    assert m.values == [s] && m.children == [LeafAt(w, l', u), n.children[1]];
    TwoLeaves(m);
    assert SeqDelete(Elems(n), |l|) == l' + [x] + r;
    if Elems(m) == SeqDelete(Elems(n), |l|) {
      assert Elems(m)[|l'|] == s;
    }
  }
}
