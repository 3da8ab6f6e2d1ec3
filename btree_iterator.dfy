/** In-order cursor over a B-tree (src/btree/btree-iterator.ts).

    The cursor keeps two stacks of the same height: `nodes`, from the root
    to the current node, and `path`, where each entry below the head is the
    child of that entry's node that the next node is, and the head entry is
    the index of the current value in the current node. */
module BtreeIter {
  import opened Common
  import opened BtreeNodes

  function LastOf<T>(s: seq<T>): T
    requires |s| > 0
  {
    s[|s| - 1]
  }

  /** `c` is child `j` of the internal node `p`. */
  ghost predicate Descends<V>(p: BtreeNode<V>, j: nat, c: BtreeNode<V>)
  {
    IsInternal(p) && Shaped(p) && j < |p.children| && c == p.children[j]
  }

  /** `nodes` and `path` lead from `root` down: each node is the child of
      the node below it that the entry below it selects. */
  ghost predicate IsPath<V>(root: BtreeNode<V>, nodes: seq<BtreeNode<V>>, path: seq<nat>)
    decreases |nodes|
  {
    |nodes| == |path| &&
    (|nodes| == 1 ==> nodes[0] == root) &&
    (|nodes| > 1 ==>
       var k := |nodes| - 1;
       IsPath(root, nodes[..k], path[..k]) && Descends(nodes[k - 1], path[k - 1], nodes[k]))
  }

  /** Number of values of an internal node before its child `j`. */
  ghost function Before<V>(n: BtreeNode<V>, j: nat): nat
  {
    if IsInternal(n) && Shaped(n) && j <= |n.values| then |Prefix(n, j)| else 0
  }

  /** Index of value `j` of `n` in the in-order sequence of `n`. */
  ghost function At<V>(n: BtreeNode<V>, j: nat): nat
  {
    if IsInternal(n) && Shaped(n) && j <= |n.values| then |Prefix(n, j)| + |Elems(n.children[j])| else j
  }

  /** Number of values of the whole tree before the subtree at the head. */
  ghost function Start<V>(nodes: seq<BtreeNode<V>>, path: seq<nat>): nat
    requires 0 < |nodes| == |path|
    decreases |nodes|
  {
    var k := |nodes| - 1;
    if k == 0 then 0 else Start(nodes[..k], path[..k]) + Before(nodes[k - 1], path[k - 1])
  }

  /** In-order index of the value the head entry designates. */
  ghost function Position<V>(nodes: seq<BtreeNode<V>>, path: seq<nat>): nat
    requires 0 < |nodes| == |path|
  {
    Start(nodes, path) + At(LastOf(nodes), LastOf(path))
  }

  /** One past the index of the last value of the subtree at the head. */
  ghost function End<V>(nodes: seq<BtreeNode<V>>, path: seq<nat>): nat
    requires 0 < |nodes| == |path|
  {
    Start(nodes, path) + |Elems(LastOf(nodes))|
  }

  /** The stacks lead to a value of the tree: the one at `index`. */
  ghost predicate Designates<V>(root: BtreeNode<V>, nodes: seq<BtreeNode<V>>, path: seq<nat>, index: nat)
  {
    IsPath(root, nodes, path) && |path| > 0 && LastOf(path) < |LastOf(nodes).values| &&
    index == Position(nodes, path)
  }

  // Path arithmetic

  /** Pushing a node extends a path exactly when it is the child of the head
      that the head entry selects; it moves `Start` by the values before that
      child. */
  lemma PathPush<V>(root: BtreeNode<V>, nodes: seq<BtreeNode<V>>, path: seq<nat>, c: BtreeNode<V>, j: nat)
    requires 0 < |nodes| == |path|
    ensures IsPath(root, nodes + [c], path + [j]) <==>
      IsPath(root, nodes, path) && Descends(LastOf(nodes), LastOf(path), c)
    ensures Start(nodes + [c], path + [j]) == Start(nodes, path) + Before(LastOf(nodes), LastOf(path))
  {
    assert (nodes + [c])[..|nodes|] == nodes;
    assert (path + [j])[..|path|] == path;
  }

  /** The head entry takes part neither in being a path nor in `Start`. */
  lemma HeadEntry<V>(root: BtreeNode<V>, nodes: seq<BtreeNode<V>>, path: seq<nat>, x: nat)
    requires 0 < |nodes| == |path|
    ensures IsPath(root, nodes, path[|path| - 1 := x]) <==> IsPath(root, nodes, path)
    ensures Start(nodes, path[|path| - 1 := x]) == Start(nodes, path)
  {
    var k := |path| - 1;
    assert path[k := x][..k] == path[..k];
  }

  /** The nodes of a path are subtrees of a valid, filled root, so they are
      valid and filled, and the values of the head's subtree sit in the
      root's in-order sequence from index `Start` on. */
  lemma {:induction false} PathSlice<V>(w: V -> nat, root: BtreeNode<V>, nodes: seq<BtreeNode<V>>, path: seq<nat>)
    requires Valid(w, root) && Filled(root) && IsPath(root, nodes, path) && |nodes| > 0
    ensures Valid(w, LastOf(nodes)) && Filled(LastOf(nodes))
    ensures End(nodes, path) <= |Elems(root)|
    ensures Elems(root)[Start(nodes, path)..End(nodes, path)] == Elems(LastOf(nodes))
    decreases |nodes|
  {
    var k := |nodes| - 1;
    if k > 0 {
      var q, pp := nodes[..k], path[..k];
      PathSlice(w, root, q, pp);
      var parent, j, c := nodes[k - 1], path[k - 1], nodes[k];
      assert LastOf(q) == parent && LastOf(pp) == j;
      assert Valid(w, c) && Filled(c);
      Decompose(parent, j);
      assert Start(nodes, path) == Start(q, pp) + |Prefix(parent, j)|;
      SliceStep(Elems(root), Start(q, pp), End(q, pp), Prefix(parent, j), Elems(c), Rest(parent, j),
                Start(nodes, path), End(nodes, path));
    } else {
      assert Elems(root)[0..|Elems(root)|] == Elems(root);
    }
  }

  /** Where `p + c + r` sits in `s` between `b` and `e`, `c` sits
      between `b'` and `e'`. */
  lemma SliceStep<V>(s: seq<V>, b: nat, e: nat, p: seq<V>, c: seq<V>, r: seq<V>, b': nat, e': nat)
    requires b <= e <= |s| && s[b..e] == p + c + r && b' == b + |p| && e' == b' + |c|
    ensures e' <= |s| && s[b'..e'] == c
  {
    SliceInside(s, b, p, c, r);
  }

  /** Where `p + c + r` sits in `s` from `b` on, `c` sits from `b + |p|` on. */
  lemma SliceInside<V>(s: seq<V>, b: nat, p: seq<V>, c: seq<V>, r: seq<V>)
    requires b + |p + c + r| <= |s| && s[b..b + |p + c + r|] == p + c + r
    ensures s[b + |p|..b + |p| + |c|] == c
  {
    forall i | 0 <= i < |c|
      ensures s[b + |p| + i] == c[i]
    {
      assert s[b..b + |p + c + r|][|p| + i] == (p + c + r)[|p| + i];
    }
  }

  /** A sequence is its front followed by its last element. */
  lemma SplitLast<T>(s: seq<T>)
    requires |s| > 0
    ensures s == s[..|s| - 1] + [s[|s| - 1]]
  {
  }

  /** An element of a slice is an element of the sequence. */
  lemma SliceAt<V>(s: seq<V>, b: nat, e: nat, t: seq<V>, i: nat)
    requires b <= e <= |s| && s[b..e] == t && i < |t|
    ensures b + i < |s| && s[b + i] == t[i]
  {
    assert s[b..e][i] == s[b + i];
  }

  /** Value `j` of a node sits at `At(n, j)` in its in-order sequence. */
  lemma ValueAt<V>(n: BtreeNode<V>, j: nat)
    requires Shaped(n) && j < |n.values|
    ensures At(n, j) < |Elems(n)| && Elems(n)[At(n, j)] == n.values[j]
  {
    if IsInternal(n) {
      Decompose(n, j);
      assert Rest(n, j) == [n.values[j]] + Elems(n.children[j + 1]) + Rest(n, j + 1);
    }
  }

  /** The value the head entry designates sits at `Position` in the root's
      in-order sequence. */
  lemma PathValue<V>(w: V -> nat, root: BtreeNode<V>, nodes: seq<BtreeNode<V>>, path: seq<nat>)
    requires Valid(w, root) && Filled(root) && IsPath(root, nodes, path) && |nodes| > 0
    requires LastOf(path) < |LastOf(nodes).values|
    ensures Position(nodes, path) < |Elems(root)|
    ensures Elems(root)[Position(nodes, path)] == LastOf(nodes).values[LastOf(path)]
  {
    PathSlice(w, root, nodes, path);
    var n, j, b, e := LastOf(nodes), LastOf(path), Start(nodes, path), End(nodes, path);
    var t := Elems(root);
    assert t[b..e] == Elems(n);
    ValueAt(n, j);
    SliceAt(t, b, e, Elems(n), At(n, j));
    assert Position(nodes, path) == b + At(n, j);
  }

  /** Popping the head reaches its parent: when the parent has a value after
      the popped child, that value follows the popped subtree; otherwise the
      popped subtree ends where the parent's does. */
  lemma PathPop<V>(root: BtreeNode<V>, nodes: seq<BtreeNode<V>>, path: seq<nat>, c: BtreeNode<V>, j: nat)
    requires |nodes| > 0 && IsPath(root, nodes + [c], path + [j])
    ensures IsPath(root, nodes, path)
    ensures LastOf(path) < |LastOf(nodes).values| ==> End(nodes + [c], path + [j]) == Position(nodes, path)
    ensures LastOf(path) >= |LastOf(nodes).values| ==> End(nodes + [c], path + [j]) == End(nodes, path)
  {
    PathPush(root, nodes, path, c, j);
    var p := LastOf(nodes);
    if LastOf(path) >= |p.values| {
      assert Elems(p) == Prefix(p, |p.values|) + Elems(p.children[|p.values|]);
    }
  }

  // Path walks

  /** `descendFirst`: extend the path along the first children down to a
      leaf; the first value of the head's subtree is then the head's. */
  method DescendFirst<V>(ghost w: V -> nat, ghost root: BtreeNode<V>, nodes0: seq<BtreeNode<V>>, path0: seq<nat>)
      returns (nodes: seq<BtreeNode<V>>, path: seq<nat>)
    requires IsPath(root, nodes0, path0) && |nodes0| > 0 && LastOf(path0) == 0 && Valid(w, LastOf(nodes0))
    ensures IsPath(root, nodes, path) && |nodes| > 0 && nodes0 <= nodes && path0 <= path
    ensures !IsInternal(LastOf(nodes)) && LastOf(path) == 0
    ensures Start(nodes, path) == Start(nodes0, path0)
    ensures forall k :: |path0| <= k < |path| ==> path[k] == 0
  {
    nodes, path := nodes0, path0;
    var curr := LastOf(nodes);
    while IsInternal(curr)
      invariant IsPath(root, nodes, path) && |nodes| > 0 && nodes0 <= nodes && path0 <= path
      invariant curr == LastOf(nodes) && LastOf(path) == 0 && Valid(w, curr)
      invariant Start(nodes, path) == Start(nodes0, path0)
      invariant forall k :: |path0| <= k < |path| ==> path[k] == 0
      decreases curr
    {
      var child := curr.children[0];
      assert Valid(w, child);
      PathPush(root, nodes, path, child, 0);
      nodes, path := nodes + [child], path + [0];
      curr := child;
    }
  }

  /** `ascendNext`: pop the head, then every entry past its node's last
      value; the new head designates the value after the popped subtree,
      or the path is empty when that subtree ended the tree. */
  method AscendNext<V>(ghost root: BtreeNode<V>, nodes0: seq<BtreeNode<V>>, path0: seq<nat>)
      returns (nodes: seq<BtreeNode<V>>, path: seq<nat>)
    requires IsPath(root, nodes0, path0) && |nodes0| > 0
    ensures |nodes| == |path| && |nodes| < |nodes0| && nodes <= nodes0 && path <= path0
    ensures |nodes| == 0 ==> End(nodes0, path0) == |Elems(root)|
    ensures |nodes| > 0 ==> IsPath(root, nodes, path) && LastOf(path) < |LastOf(nodes).values| &&
                            Position(nodes, path) == End(nodes0, path0)
  {
    var k := |nodes0| - 1;
    var c, j := nodes0[k], path0[k];
    nodes, path := nodes0[..k], path0[..k];
    SplitLast(nodes0);
    SplitLast(path0);
    while |path| != 0 && LastOf(path) >= |LastOf(nodes).values|
      invariant |nodes| == |path| && IsPath(root, nodes + [c], path + [j])
      invariant nodes + [c] <= nodes0 && path + [j] <= path0
      invariant End(nodes + [c], path + [j]) == End(nodes0, path0)
      decreases |path|
    {
      PathPop(root, nodes, path, c, j);
      var m := |nodes| - 1;
      c, j := nodes[m], path[m];
      SplitLast(nodes);
      SplitLast(path);
      nodes, path := nodes[..m], path[..m];
    }
    if |nodes| == 0 {
      assert nodes + [c] == [c] && c == root;
    } else {
      PathPop(root, nodes, path, c, j);
    }
  }

  /** The move of `forth` past the current value: the cursor steps along
      a leaf, descends to the first leaf after a value of an internal
      node, or ascends past a leaf's last value. */
  method Advance<V>(ghost w: V -> nat, ghost root: BtreeNode<V>, nodes0: seq<BtreeNode<V>>, path0: seq<nat>,
                    ghost index: nat) returns (nodes: seq<BtreeNode<V>>, path: seq<nat>)
    requires Valid(w, root) && Filled(root) && Designates(root, nodes0, path0, index)
    ensures |nodes| == |path|
    ensures |nodes| == 0 ==> index + 1 == |Elems(root)|
    ensures |nodes| > 0 ==> Designates(root, nodes, path, index + 1) && index + 1 < |Elems(root)|
  {
    var curr := LastOf(nodes0);
    var cursor := LastOf(path0) + 1;
    ghost var pos := Position(nodes0, path0);
    PathSlice(w, root, nodes0, path0);
    nodes, path := nodes0, path0[|path0| - 1 := cursor];
    HeadEntry(root, nodes0, path0, cursor);
    if IsInternal(curr) && cursor < |curr.children| {
      StepIn(curr, cursor - 1);
      var child := curr.children[cursor];
      PathPush(root, nodes, path, child, 0);
      assert Start(nodes + [child], path + [0]) == pos + 1;
      assert Valid(w, child);
      nodes, path := DescendFirst(w, root, nodes + [child], path + [0]);
      PathSlice(w, root, nodes, path);
      assert LastOf(nodes).values != [];
      assert Position(nodes, path) == pos + 1;
    } else if cursor >= |curr.values| {
      assert End(nodes0, path0) == pos + 1;
      nodes, path := AscendNext(root, nodes, path);
    } else {
      assert !IsInternal(curr) && Position(nodes, path) == pos + 1;
    }
    if |nodes| > 0 {
      PathValue(w, root, nodes, path);
    }
  }

  /** `ascendPrev`: pop the head, then every entry that selected a first
      child, and step the head entry back; when the path is not empty, the
      value it designates comes just before the first popped subtree. */
  method AscendPrev<V>(ghost root: BtreeNode<V>, nodes0: seq<BtreeNode<V>>, path0: seq<nat>)
      returns (nodes: seq<BtreeNode<V>>, path: seq<nat>)
    requires IsPath(root, nodes0, path0) && |nodes0| > 0
    ensures |nodes| == |path| && |nodes| < |nodes0| && nodes <= nodes0
    ensures |nodes| == 0 ==> Start(nodes0, path0) == 0
    ensures |nodes| > 0 ==> IsPath(root, nodes, path) && LastOf(path) < |LastOf(nodes).values| &&
                            Position(nodes, path) + 1 == Start(nodes0, path0)
  {
    var k := |nodes0| - 1;
    var c, j := nodes0[k], path0[k];
    nodes, path := nodes0[..k], path0[..k];
    SplitLast(nodes0);
    SplitLast(path0);
    var prev := if |path| != 0 then LastOf(path) else 0;
    while |path| != 0 && prev == 0
      invariant |nodes| == |path| && IsPath(root, nodes + [c], path + [j])
      invariant nodes + [c] <= nodes0
      invariant |path| != 0 ==> prev == LastOf(path)
      invariant Start(nodes + [c], path + [j]) == Start(nodes0, path0)
      decreases |path|
    {
      PathPush(root, nodes, path, c, j);
      var m := |nodes| - 1;
      c, j := nodes[m], path[m];
      SplitLast(nodes);
      SplitLast(path);
      nodes, path := nodes[..m], path[..m];
      prev := if |path| != 0 then LastOf(path) else 0;
    }
    if |nodes| == 0 {
      assert nodes + [c] == [c] && path + [j] == [j];
    } else {
      PathPush(root, nodes, path, c, j);
      ghost var t := path;
      path := path[|path| - 1 := prev - 1];
      HeadEntry(root, nodes, t, prev - 1);
      StepBack(LastOf(nodes), prev);
    }
  }

  /** `ascendPrev` as written: the loop tests the entry it has just popped
      rather than the one left on top, so it pops every entry down to the
      first non-zero one, that one included, and then decrements the entry
      below it, which may be 0 (entries are integers here to show it). */
  method AscendPrevAsWritten<V>(nodes0: seq<BtreeNode<V>>, path0: seq<int>)
      returns (nodes: seq<BtreeNode<V>>, path: seq<int>)
    requires |nodes0| == |path0| > 0
    ensures |nodes| == |path| < |nodes0| && nodes == nodes0[..|nodes|]
    ensures forall j :: |nodes| < j < |path0| ==> path0[j] == 0
    ensures |nodes| > 0 ==> path0[|nodes|] != 0 && path == path0[..|nodes|][|nodes| - 1 := path0[|nodes| - 1] - 1]
    ensures |nodes| == 0 ==> path == []
  {
    var k := |nodes0| - 1;
    var prev := path0[k];
    nodes, path := nodes0[..k], path0[..k];
    while |path| != 0 && prev == 0
      invariant |nodes| == |path| <= k && nodes == nodes0[..|nodes|] && path == path0[..|path|]
      invariant prev == path0[|path|]
      invariant forall j :: |path| < j < |path0| ==> path0[j] == 0
      decreases |path|
    {
      var m := |path| - 1;
      prev := path[m];
      nodes, path := nodes[..m], path[..m];
    }
    if |path| != 0 {
      path := path[|path| - 1 := path[|path| - 1] - 1];
    }
  }

  /** Over a root `r` with at least one value, take the cursor on the first
      value of child 1. Its predecessor is `r.values[0]`, the value just
      before that child's subtree, and the corrected walk lands there.
      `ascendPrev` as written pops both entries and loses the cursor. From
      the cursor on the second value of child 0, it decrements the root's
      entry 0 to -1, which designates no value. */
  method AscendPrevAsWrittenLosesCursor<V>(r: BtreeNode<V>)
      returns (nodes: seq<BtreeNode<V>>, path: seq<int>, nodes': seq<BtreeNode<V>>, path': seq<nat>,
               nodes'': seq<BtreeNode<V>>, path'': seq<int>)
    requires IsInternal(r) && Shaped(r) && |r.values| > 0
    ensures nodes == [] && path == []
    ensures nodes' == [r] && |path'| == 1 && path'[0] < |r.values| &&
            Position(nodes', path') + 1 == Start([r, r.children[1]], [1, 0])
    ensures nodes'' == [r] && path'' == [-1]
  {
    var c := r.children[1];
    nodes, path := AscendPrevAsWritten([r, c], [1, 0]);
    assert IsPath(r, [r, c], [1, 0]) by {
      assert [r, c][..1] == [r] && [1, 0][..1] == [1];
    }
    assert Start([r, c], [1, 0]) > 0 by {
      assert [r, c][..1] == [r] && [1, 0][..1] == [1];
    }
    nodes', path' := AscendPrev(r, [r, c], [1, 0]);
    var p: seq<int> := [0, 1];
    nodes'', path'' := AscendPrevAsWritten([r, r.children[0]], p);
    assert p[1] == 1 && p[..1] == [0];
  }

  /** The value before child `j > 0` of an internal node is the last of the
      values before that child. */
  lemma StepBack<V>(n: BtreeNode<V>, j: nat)
    requires IsInternal(n) && Shaped(n) && 0 < j <= |n.values|
    ensures At(n, j - 1) + 1 == Before(n, j) && j - 1 < |n.values|
  {
  }

  /** Cursor of an in-order traversal of a B-tree. */
  class BtreeIterator<V> {
    const weight: V -> nat
    /** The traversed tree; `None` stands for the source's `null` root. */
    ghost const root: Option<BtreeNode<V>>
    var nodes: seq<BtreeNode<V>>
    var path: seq<nat>
    var done: bool
    var index: nat
    var summary: nat

    /** The traversed values. */
    ghost function Elems(): seq<V>
    {
      if root.Some? then BtreeNodes.Elems(root.value) else []
    }

    /** Until the cursor is done, the stacks lead to the value at `index`;
        once done, `index` is the number of values (`complete` keeps the
        stacks, so empty stacks only imply done). `summary` is always the
        weight of the values before `index`. */
    ghost predicate Valid()
      reads this
    {
      (root.Some? ==> BtreeNodes.Valid(weight, root.value) && (root.value.count == 0 || Filled(root.value))) &&
      |nodes| == |path| && (|path| == 0 ==> done) &&
      index <= |Elems()| &&
      (done ==> index == |Elems()|) &&
      (!done ==> root.Some? && Designates(root.value, nodes, path, index) && index < |Elems()|) &&
      summary == Sum(weight, Elems()[..index])
    }

    constructor Of(w: V -> nat, ghost root: Option<BtreeNode<V>>, nodes: seq<BtreeNode<V>>, path: seq<nat>,
                   index: nat, summary: nat)
      ensures this.weight == w && this.root == root && this.nodes == nodes && this.path == path
      ensures this.index == index && this.summary == summary && done == (|nodes| == 0)
    {
      this.weight := w;
      this.root := root;
      this.nodes := nodes;
      this.path := path;
      this.done := |nodes| == 0;
      this.index := index;
      this.summary := summary;
    }

    /** `atFirst`: a cursor on the first value, done on an absent root and
        on a root without values (the empty tree is a leaf without values). */
    static method AtFirst(w: V -> nat, root: Option<BtreeNode<V>>) returns (it: BtreeIterator<V>)
      requires root.Some? ==> BtreeNodes.Valid(w, root.value) && (root.value.count == 0 || Filled(root.value))
      ensures fresh(it) && it.Valid() && it.weight == w && it.root == root
      ensures it.index == 0 && it.summary == 0 && (it.done <==> it.Elems() == [])
      ensures !it.done ==> it.nodes[0] == root.value && forall k :: 0 <= k < |it.path| ==> it.path[k] == 0
    {
      if root.Some? && root.value.count > 0 {
        var nodes, path := DescendFirst(w, root.value, [root.value], [0]);
        ghost var leaf := LastOf(nodes);
        PathSlice(w, root.value, nodes, path);
        assert Position(nodes, path) == 0;
        PathValue(w, root.value, nodes, path);
        RootFirst(root.value, nodes, path);
        it := new BtreeIterator.Of(w, root, nodes, path, 0, 0);
      } else {
        it := new BtreeIterator.Of(w, root, [], [], 0, 0);
      }
    }

    /** `atFirst` as written: any present root is pushed and descended, so
        on a root without values the cursor is not done. */
    static method AtFirstAsWritten(w: V -> nat, root: Option<BtreeNode<V>>) returns (it: BtreeIterator<V>)
      requires root.Some? ==> BtreeNodes.Valid(w, root.value)
      ensures fresh(it) && it.weight == w && it.root == root && it.index == 0 && it.summary == 0
      ensures it.done <==> root.None?
      ensures |it.nodes| == |it.path|
      ensures root.Some? ==> IsPath(root.value, it.nodes, it.path) && |it.nodes| > 0 &&
                             !IsInternal(LastOf(it.nodes)) && LastOf(it.path) == 0
    {
      if root.Some? {
        var nodes, path := DescendFirst(w, root.value, [root.value], [0]);
        it := new BtreeIterator.Of(w, root, nodes, path, 0, 0);
      } else {
        it := new BtreeIterator.Of(w, root, [], [], 0, 0);
      }
    }

    /** `value`: the current value, absent when done. */
    function Value(): (v: Option<V>)
      reads this
      requires Valid()
      ensures v.None? <==> done
      ensures !done ==> index < |Elems()| && v.value == Elems()[index]
    {
      if done then None
      else
        PathValue(weight, root.value, nodes, path);
        Some(LastOf(nodes).values[LastOf(path)])
    }

    /** `forth`: step to the next value, accounting the current one in
        `index` and `summary`; nothing happens once done. */
    method Forth()
      requires Valid()
      modifies this
      ensures Valid()
      ensures old(done) ==> done && index == old(index) && summary == old(summary) && nodes == old(nodes)
      ensures !old(done) ==>
        index == old(index) + 1 && old(index) < |Elems()| &&
        summary == old(summary) + weight(Elems()[old(index)])
    {
      if !done {
        var curr := LastOf(nodes);
        var cursor := LastOf(path);
        ghost var t, k := Elems(), index;
        assert curr.values[cursor] == t[k] by {
          PathValue(weight, root.value, nodes, path);
        }
        assert Sum(weight, t[..k + 1]) == summary + weight(t[k]) by {
          SumPrefix(weight, t, k);
        }
        index := index + 1;
        summary := summary + weight(curr.values[cursor]);
        nodes, path := Advance(weight, root.value, nodes, path, k);
        done := |path| == 0;
      }
    }

    /** `complete`: finish the traversal, as exhausting it with `forth`
        would. */
    method Complete()
      requires Valid()
      modifies this
      ensures Valid() && done && nodes == old(nodes) && path == old(path)
      ensures index == |Elems()| && summary == Sum(weight, Elems())
      ensures old(done) ==> index == old(index) && summary == old(summary)
    {
      if !done {
        var r := nodes[0];
        RootFirst(root.value, nodes, path);
        index := r.count;
        summary := r.summary;
        done := true;
      }
      assert Elems()[..index] == Elems();
    }

    /** `next`: the iterator-protocol step, reading `done` and the value
        before moving on. */
    method Next() returns (wasDone: bool, v: Option<V>)
      requires Valid()
      modifies this
      ensures Valid()
      ensures wasDone == old(done) && (v.None? <==> wasDone)
      ensures !wasDone ==> index == old(index) + 1 && v.value == Elems()[old(index)]
    {
      wasDone := done;
      v := Value();
      Forth();
    }
  }

  /** Past value `j` of a node, the values before child `j + 1` end. */
  lemma StepIn<V>(n: BtreeNode<V>, j: nat)
    requires IsInternal(n) && Shaped(n) && j < |n.values|
    ensures Before(n, j + 1) == At(n, j) + 1
  {
  }

  /** The bottom of a path is the root. */
  lemma {:induction false} RootFirst<V>(root: BtreeNode<V>, nodes: seq<BtreeNode<V>>, path: seq<nat>)
    requires IsPath(root, nodes, path) && |nodes| > 0
    ensures nodes[0] == root
    decreases |nodes|
  {
    if |nodes| > 1 {
      var k := |nodes| - 1;
      RootFirst(root, nodes[..k], path[..k]);
    }
  }

  /** The empty tree is a leaf without values. On it, `atFirst` as written
      gives a cursor that is not done, over a tree without values, whose
      head entry designates no value of its node. */
  method AtFirstAsWrittenOnEmptyLeaf<V>(w: V -> nat, ver: nat) returns (it: BtreeIterator<V>)
    ensures !it.done && it.Elems() == []
    ensures |it.nodes| == |it.path| > 0 && LastOf(it.path) >= |LastOf(it.nodes).values|
  {
    var empty := BtreeNode([], [], ver, 0, 0);
    assert BtreeNodes.Valid(w, empty);
    it := BtreeIterator.AtFirstAsWritten(w, Some(empty));
    LeafPath(empty, it.nodes, it.path);
    RootFirst(empty, it.nodes, it.path);
  }

  /** A path of more than one node starts from an internal node. */
  lemma {:induction false} LeafPath<V>(root: BtreeNode<V>, nodes: seq<BtreeNode<V>>, path: seq<nat>)
    requires IsPath(root, nodes, path) && |nodes| > 0
    ensures |nodes| == 1 || IsInternal(root)
    decreases |nodes|
  {
    if |nodes| > 1 {
      var k := |nodes| - 1;
      if k > 1 {
        LeafPath(root, nodes[..k], path[..k]);
      } else {
        assert nodes[..k] == [nodes[0]];
      }
    }
  }
}
