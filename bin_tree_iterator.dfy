/** In-order cursor over a valued binary tree (src/avl/bin-tree-iterator.ts).
    The cursor keeps the stack of nodes from the root to the current node.
    Each entry also records whether the node is the right child of the entry
    below it: the source decides this by comparing the child with the
    parent's `right` field by reference, which a structural comparison of
    node values would not reproduce when both children are equal trees. */
module BinTreeIter {
  import opened Common
  import opened BinNode

  /** One entry of the path: a node, and whether it was reached through its
      parent's right child (meaningless for the root entry). */
  datatype Step<V> = Step(node: AvlNode<V>, fromRight: bool)

  function Last<V>(p: seq<Step<V>>): Step<V>
    requires |p| > 0
  {
    p[|p| - 1]
  }

  function Child<V>(n: AvlNode<V>, right: bool): AvlNode<V>
    requires n.Node?
  {
    if right then n.right else n.left
  }

  /** `p` is a path of present nodes from `root` down, each entry a child of
      the previous one on the recorded side. */
  ghost predicate IsPath<V>(root: AvlNode<V>, p: seq<Step<V>>)
    decreases |p|
  {
    if |p| == 0 then true
    else if |p| == 1 then p[0].node == root && root.Node?
    else
      IsPath(root, p[..|p| - 1]) && p[|p| - 2].node.Node? &&
      p[|p| - 1].node == Child(p[|p| - 2].node, p[|p| - 1].fromRight) &&
      p[|p| - 1].node.Node?
  }

  /** Number of values that a step to the right child skips. */
  function Skipped<V>(parent: AvlNode<V>, s: Step<V>): nat
  {
    if s.fromRight && parent.Node? then CountOf(parent.left) + 1 else 0
  }

  /** Number of values of the whole tree before the subtree at the head of
      the path. */
  ghost function Start<V>(p: seq<Step<V>>): nat
    requires |p| > 0
    decreases |p|
  {
    if |p| == 1 then 0 else Start(p[..|p| - 1]) + Skipped(p[|p| - 2].node, Last(p))
  }

  /** In-order index of the node at the head of the path. */
  ghost function Position<V>(p: seq<Step<V>>): nat
    requires |p| > 0
  {
    Start(p) + (if Last(p).node.Node? then CountOf(Last(p).node.left) else 0)
  }

  /** One past the index of the last value of the subtree at the head. */
  ghost function End<V>(p: seq<Step<V>>): nat
    requires |p| > 0
  {
    Start(p) + CountOf(Last(p).node)
  }

  // Path arithmetic

  /** Pushing a step extends a path exactly when it goes to a present child
      of the head, and moves `Start` by the values the step skips. */
  lemma PathPush<V>(root: AvlNode<V>, p: seq<Step<V>>, s: Step<V>)
    requires |p| > 0
    ensures IsPath(root, p + [s]) <==>
      IsPath(root, p) && Last(p).node.Node? && s.node == Child(Last(p).node, s.fromRight) && s.node.Node?
    ensures Start(p + [s]) == Start(p) + Skipped(Last(p).node, s)
    ensures Last(p + [s]) == s
  {
    assert (p + [s])[..|p|] == p;
  }

  /** The nodes of a path are subtrees of a counted root, so they are
      counted, and the values of the head's subtree sit in the root's
      in-order sequence from index `Start(p)` on. */
  lemma {:induction false} PathSlice<V>(w: V -> nat, root: AvlNode<V>, p: seq<Step<V>>)
    requires Counted(w, root) && IsPath(root, p) && |p| > 0
    ensures Counted(w, Last(p).node)
    ensures Start(p) + |ElemsOf(Last(p).node)| <= |ElemsOf(root)|
    ensures ElemsOf(root)[Start(p)..Start(p) + |ElemsOf(Last(p).node)|] == ElemsOf(Last(p).node)
    decreases |p|
  {
    if |p| > 1 {
      var q, st := p[..|p| - 1], Last(p);
      assert p == q + [st];
      PathPush(root, q, st);
      PathSlice(w, root, q);
      var parent := Last(q).node;
      var s, b := ElemsOf(root), Start(q);
      var l, r := ElemsOf(parent.left), ElemsOf(parent.right);
      CachedCounters(w, parent.left);
      assert ElemsOf(parent) == l + [parent.value] + r;
      PathSliceStep(s, b, l, parent.value, r);
      if st.fromRight {
        assert st.node == parent.right && Start(p) == b + |l| + 1;
      } else {
        assert st.node == parent.left && Start(p) == b;
      }
    } else {
      assert ElemsOf(root)[0..|ElemsOf(root)|] == ElemsOf(root);
    }
  }

  /** Where the values of a node's subtree sit in a sequence, there sit its
      left values first, then its own value, then its right values. */
  lemma PathSliceStep<V>(s: seq<V>, b: nat, l: seq<V>, v: V, r: seq<V>)
    requires b + |l| + 1 + |r| <= |s| && s[b..b + |l| + 1 + |r|] == l + [v] + r
    ensures s[b..b + |l|] == l && s[b + |l|] == v
    ensures s[b + |l| + 1..b + |l| + 1 + |r|] == r
  {
    var e := b + |l| + 1 + |r|;
    forall i | 0 <= i < |l| + 1 + |r|
      ensures s[b + i] == (l + [v] + r)[i]
    {
      assert s[b..e][i] == s[b + i];
    }
    assert s[b + |l|] == (l + [v] + r)[|l|];
    forall i | 0 <= i < |l|
      ensures s[b..b + |l|][i] == l[i]
    {
      assert s[b + i] == (l + [v] + r)[i];
    }
    forall i | 0 <= i < |r|
      ensures s[b + |l| + 1..e][i] == r[i]
    {
      assert s[b + (|l| + 1 + i)] == (l + [v] + r)[|l| + 1 + i];
    }
  }

  /** The weight of the values before a run is that of the values before
      the sequence position where the run starts, plus the run's. */
  lemma SlicePrefixSum<V>(w: V -> nat, s: seq<V>, b: nat, l: seq<V>)
    requires b + |l| <= |s| && s[b..b + |l|] == l
    ensures Sum(w, s[..b + |l|]) == Sum(w, s[..b]) + Sum(w, l)
  {
    assert s[..b + |l|] == s[..b] + s[b..b + |l|];
    SumConcat(w, s[..b], l);
  }

  /** The head of a path holds the value at `Position(p)`; its left subtree
      holds the values between `Start(p)` and there. */
  lemma PathValue<V>(w: V -> nat, root: AvlNode<V>, p: seq<Step<V>>)
    requires Counted(w, root) && IsPath(root, p) && |p| > 0
    ensures Counted(w, Last(p).node)
    ensures Position(p) == Start(p) + CountOf(Last(p).node.left)
    ensures End(p) == Position(p) + 1 + CountOf(Last(p).node.right)
    ensures End(p) <= |ElemsOf(root)|
    ensures ElemsOf(root)[Position(p)] == Last(p).node.value
    ensures Sum(w, ElemsOf(root)[..Position(p)])
         == Sum(w, ElemsOf(root)[..Start(p)]) + SummaryOf(Last(p).node.left)
  {
    PathHead(w, root, p);
    PathPrefixSum(w, root, p);
  }

  lemma PathHead<V>(w: V -> nat, root: AvlNode<V>, p: seq<Step<V>>)
    requires Counted(w, root) && IsPath(root, p) && |p| > 0
    ensures Counted(w, Last(p).node)
    ensures Position(p) == Start(p) + CountOf(Last(p).node.left)
    ensures End(p) == Position(p) + 1 + CountOf(Last(p).node.right)
    ensures End(p) <= |ElemsOf(root)|
    ensures ElemsOf(root)[Position(p)] == Last(p).node.value
  {
    PathSlice(w, root, p);
    var n := Last(p).node;
    var s, b := ElemsOf(root), Start(p);
    var l := ElemsOf(n.left);
    CachedCounters(w, n.left);
    CachedCounters(w, n.right);
    assert ElemsOf(n) == l + [n.value] + ElemsOf(n.right);
    assert Position(p) == b + |l|;
    PathSliceStep(s, b, l, n.value, ElemsOf(n.right));
  }

  lemma PathPrefixSum<V>(w: V -> nat, root: AvlNode<V>, p: seq<Step<V>>)
    requires Counted(w, root) && IsPath(root, p) && |p| > 0
    ensures Last(p).node.Node? && Position(p) <= |ElemsOf(root)|
    ensures Sum(w, ElemsOf(root)[..Position(p)])
         == Sum(w, ElemsOf(root)[..Start(p)]) + SummaryOf(Last(p).node.left)
  {
    PathSlice(w, root, p);
    var n := Last(p).node;
    var s, b := ElemsOf(root), Start(p);
    var l := ElemsOf(n.left);
    CachedCounters(w, n.left);
    assert ElemsOf(n) == l + [n.value] + ElemsOf(n.right);
    assert Position(p) == b + |l|;
    PathSliceStep(s, b, l, n.value, ElemsOf(n.right));
    SlicePrefixSum(w, s, b, l);
  }

  /** Stepping past the head of a path: its right subtree holds the next
      values, and when it has none the head's subtree ends there. */
  lemma StepForth<V>(w: V -> nat, root: AvlNode<V>, p: seq<Step<V>>)
    requires Counted(w, root) && IsPath(root, p) && |p| > 0
    ensures var n, s := Last(p).node, ElemsOf(root);
      Position(p) < |s| && s[Position(p)] == n.value && CountOf(root) == |s| &&
      Sum(w, s[..Position(p) + 1]) == Sum(w, s[..Position(p)]) + w(n.value) &&
      (n.right.Node? ==> IsPath(root, p + [Step(n.right, true)]) && Start(p + [Step(n.right, true)]) == Position(p) + 1) &&
      (n.right.Null? ==> End(p) == Position(p) + 1)
  {
    PathHead(w, root, p);
    SumPrefix(w, ElemsOf(root), Position(p));
    CachedCounters(w, root);
    PathPush(root, p, Step(Last(p).node.right, true));
  }

  /** Popping a left step reaches the parent, whose index is the end of the
      popped subtree; popping a right step keeps the end of the subtree. */
  lemma PathPop<V>(w: V -> nat, root: AvlNode<V>, q: seq<Step<V>>, s: Step<V>)
    requires Counted(w, root) && |q| > 0 && IsPath(root, q + [s])
    ensures IsPath(root, q)
    ensures s.fromRight ==> End(q + [s]) == End(q) && Start(q + [s]) == Position(q) + 1
    ensures !s.fromRight ==> End(q + [s]) == Position(q) && Start(q + [s]) == Start(q)
  {
    PathPush(root, q, s);
    PathValue(w, root, q);
  }

  // Path walks

  /** `descendFirst`: extend the path down the left children to the first
      value of the head's subtree. */
  method DescendFirst<V>(ghost root: AvlNode<V>, path: seq<Step<V>>) returns (p: seq<Step<V>>)
    requires IsPath(root, path) && |path| > 0
    ensures IsPath(root, p) && |p| > 0 && path <= p
    ensures Last(p).node.left.Null? && Position(p) == Start(path)
    ensures Last(p).node.value == Leftmost(Last(path).node)
  {
    p := path;
    var curr := Last(p).node.left;
    while curr.Node?
      invariant IsPath(root, p) && |p| > 0 && path <= p
      invariant curr == Last(p).node.left
      invariant Start(p) == Start(path)
      invariant Leftmost(Last(p).node) == Leftmost(Last(path).node)
      decreases curr
    {
      PathPush(root, p, Step(curr, false));
      p := p + [Step(curr, false)];
      curr := curr.left;
    }
  }

  /** `ascendNext`: pop the head and every entry that is a right child; the
      new head is the value after the last one of the popped subtree, or the
      path is empty when that subtree ended the tree. */
  method AscendNext<V>(ghost w: V -> nat, ghost root: AvlNode<V>, path: seq<Step<V>>) returns (p: seq<Step<V>>)
    requires Counted(w, root) && IsPath(root, path) && |path| > 0
    ensures IsPath(root, p) && p <= path
    ensures |p| == 0 ==> End(path) == CountOf(root)
    ensures |p| > 0 ==> Position(p) == End(path)
  {
    var prev := Last(path);
    p := path[..|path| - 1];
    assert path == p + [prev];
    while |p| != 0 && prev.fromRight
      invariant IsPath(root, p + [prev]) && p + [prev] <= path
      invariant End(p + [prev]) == End(path)
      decreases |p|
    {
      PathPop(w, root, p, prev);
      var q := p[..|p| - 1];
      assert p == q + [Last(p)];
      prev := Last(p);
      p := q;
    }
    if |p| == 0 {
      assert IsPath(root, [prev]);
    } else {
      PathPop(w, root, p, prev);
    }
  }

  /** `ascendPrev`: pop the head and every entry that is a left child; the
      new head is the value before the first one of the popped subtree, or
      the path is empty when that subtree started the tree. */
  method AscendPrev<V>(ghost w: V -> nat, ghost root: AvlNode<V>, path: seq<Step<V>>) returns (p: seq<Step<V>>)
    requires Counted(w, root) && IsPath(root, path) && |path| > 0
    ensures IsPath(root, p) && p <= path
    ensures |p| == 0 ==> Start(path) == 0
    ensures |p| > 0 ==> Position(p) + 1 == Start(path)
  {
    var prev := Last(path);
    p := path[..|path| - 1];
    assert path == p + [prev];
    while |p| != 0 && !prev.fromRight
      invariant IsPath(root, p + [prev]) && p + [prev] <= path
      invariant Start(p + [prev]) == Start(path)
      decreases |p|
    {
      PathPop(w, root, p, prev);
      var q := p[..|p| - 1];
      assert p == q + [Last(p)];
      prev := Last(p);
      p := q;
    }
    if |p| != 0 {
      PathPop(w, root, p, prev);
    }
  }

  // Seeking

  /** What the pathfinder `f` answers for the value at index `k`, given the
      summary of the values before it. */
  ghost function Dir<V>(w: V -> nat, f: (V, nat) -> Ordering, s: seq<V>, k: nat): Ordering
    requires k < |s|
  {
    f(s[k], Sum(w, s[..k]))
  }

  function Order(d: Ordering): nat
  {
    match d
      case After => 0
      case Equal => 1
      case Before => 2
  }

  /** Along the sequence, the pathfinder answers AFTER, then EQUAL, then
      BEFORE (each run possibly empty). */
  ghost predicate Monotone<V>(w: V -> nat, f: (V, nat) -> Ordering, s: seq<V>)
  {
    forall i, j :: 0 <= i < j < |s| ==> Order(Dir(w, f, s, i)) <= Order(Dir(w, f, s, j))
  }

  ghost predicate HasEqual<V>(w: V -> nat, f: (V, nat) -> Ordering, s: seq<V>)
  {
    exists k :: 0 <= k < |s| && Dir(w, f, s, k) == Equal
  }

  ghost predicate HasAfter<V>(w: V -> nat, f: (V, nat) -> Ordering, s: seq<V>)
  {
    exists k :: 0 <= k < |s| && Dir(w, f, s, k) == After
  }

  /** Cursor of an in-order traversal. */
  class BinTreeIterator<V> {
    const weight: V -> nat
    ghost const root: AvlNode<V>
    var path: seq<Step<V>>
    var done: bool
    var index: nat
    var summary: nat

    /** The traversed values. */
    ghost function Elems(): seq<V>
    {
      ElemsOf(root)
    }

    /** Until the cursor is done, the path leads to the value at `index`;
        once done, `index` is the number of values (`complete` leaves the
        path as it was, so an empty path only implies done). `summary` is
        always the weight of the values before `index`. */
    ghost predicate Valid()
      reads this
    {
      Counted(weight, root) &&
      (|path| == 0 ==> done) &&
      index <= |ElemsOf(root)| &&
      (done ==> index == |ElemsOf(root)|) &&
      (!done ==> IsPath(root, path) && |path| > 0 && index == Position(path) && index < |ElemsOf(root)|) &&
      summary == Sum(weight, ElemsOf(root)[..index])
    }

    constructor Of(w: V -> nat, ghost root: AvlNode<V>, path: seq<Step<V>>, index: nat, summary: nat)
      ensures this.weight == w && this.root == root && this.path == path
      ensures this.index == index && this.summary == summary && done == (|path| == 0)
    {
      this.weight := w;
      this.root := root;
      this.done := |path| == 0;
      this.summary := summary;
      this.index := index;
      this.path := path;
    }

    /** `atFirst`: a cursor on the first value, done on an empty tree. */
    static method AtFirst(w: V -> nat, root: AvlNode<V>) returns (it: BinTreeIterator<V>)
      requires Counted(w, root)
      ensures fresh(it) && it.Valid() && it.weight == w && it.root == root
      ensures it.index == 0 && it.summary == 0 && (it.done <==> root.Null?)
    {
      if root.Node? {
        assert IsPath(root, [Step(root, false)]);
        var path := DescendFirst(root, [Step(root, false)]);
        it := new BinTreeIterator.Of(w, root, path, 0, 0);
      } else {
        it := new BinTreeIterator.Of(w, root, [], 0, 0);
      }
    }

    /** `value`: the current value, absent when done. */
    function Value(): (v: Option<V>)
      reads this
      requires Valid()
      ensures v.None? <==> done
      ensures !done ==> index < |Elems()| && v.value == Elems()[index]
    {
      if done then None
      else
        PathValue(weight, root, path);
        Some(Last(path).node.value)
    }

    /** `forth`: step to the next value, accounting the current one in
        `index` and `summary`; nothing happens once done. */
    method Forth()
      requires Valid()
      modifies this
      ensures Valid()
      ensures old(done) ==> done && index == old(index) && summary == old(summary) && path == old(path)
      ensures !old(done) ==>
        index == old(index) + 1 && old(index) < |Elems()| &&
        summary == old(summary) + weight(Elems()[old(index)])
    {
      if !done {
        var curr := Last(path).node;
        StepForth(weight, root, path);
        index := index + 1;
        summary := summary + weight(curr.value);
        if curr.right.Node? {
          path := DescendFirst(root, path + [Step(curr.right, true)]);
        } else {
          path := AscendNext(weight, root, path);
          done := |path| == 0;
        }
        if !done {
          PathHead(weight, root, path);
        }
      }
    }

    /** `complete`: finish the traversal, as exhausting it with `forth`
        would. */
    method Complete()
      requires Valid()
      modifies this
      ensures Valid() && done && path == old(path)
      ensures index == |Elems()| && summary == Sum(weight, Elems())
      ensures old(done) ==> index == old(index) && summary == old(summary)
    {
      if !done {
        var r := path[0].node;
        assert r == root && root.Node? by {
          assert IsPath(root, path[..1]) by { PrefixPath(root, path, 1); }
        }
        CachedCounters(weight, root);
        index := r.count;
        summary := r.summary;
        done := true;
      }
      assert ElemsOf(root)[..index] == ElemsOf(root);
    }

    /** `next`: the iterator-protocol step, reading `done` and the value
        before moving on. */
    method Next() returns (wasDone: bool, v: Option<V>)
      requires Valid()
      modifies this
      ensures Valid()
      ensures wasDone == old(done) && (v.None? <==> wasDone)
      ensures !wasDone ==> index == old(index) + 1 && v.value == Elems()[old(index)]
    {
      wasDone := done;
      v := Value();
      Forth();
    }

    /** `atEqual`: descend from the root as the pathfinder directs, then
        settle on the value the seek bias selects. */
    static method AtEqual(w: V -> nat, root: AvlNode<V>, f: (V, nat) -> Ordering, leftSeekBias: bool)
        returns (it: BinTreeIterator<V>)
      requires Counted(w, root)
      ensures fresh(it) && it.Valid() && it.weight == w && it.root == root
      ensures SeekResult(w, f, ElemsOf(root), leftSeekBias, it.index, it.done)
    {
      var dir, path, index, summary, fromRight, lo, hi := SeekDescent(w, root, f);
      if dir == After && |path| != 0 {
        if leftSeekBias {
          SettleAfterLeft(w, f, root, fromRight, path, dir, index, summary, lo, hi);
          index := index - 1;
          summary := summary - w(Last(path).node.value);
        } else {
          ghost var found := path;
          path := AscendNext(w, root, path);
          SettleAfterRight(w, f, root, fromRight, found, path, dir, index, summary, lo, hi);
        }
      } else if dir == Before && leftSeekBias && index != 0 {
        ghost var found := path;
        path := AscendPrev(w, root, path);
        SettleBeforeLeft(w, f, root, fromRight, found, path, dir, index, summary, lo, hi);
        index := index - 1;
        summary := summary - w(Last(path).node.value);
      } else {
        SettleHere(w, f, root, fromRight, path, dir, index, summary, lo, hi, leftSeekBias);
      }
      it := new BinTreeIterator.Of(w, root, path, index, summary);
    }
  }

  /** One turn of the descent loop: probe `curr0` and move on. */
  method SeekProbe<V>(w: V -> nat, f: (V, nat) -> Ordering, root: AvlNode<V>, path0: seq<Step<V>>,
                      curr0: AvlNode<V>, fromRight0: bool, dir0: Ordering,
                      index0: nat, summary0: nat, ghost lo0: nat, ghost hi0: nat)
      returns (dir: Ordering, path: seq<Step<V>>, curr: AvlNode<V>, fromRight: bool,
               index: nat, summary: nat, ghost lo: nat, ghost hi: nat)
    requires curr0.Node? && Seeking(w, f, root, path0, curr0, fromRight0, dir0, index0, summary0, lo0, hi0)
    ensures Seeking(w, f, root, path, curr, fromRight, dir, index, summary, lo, hi)
    ensures |ElemsOf(curr)| < |ElemsOf(curr0)|
  {
    var prefixSummary := summary0 + SummaryOf(curr0.left);
    dir := f(curr0.value, prefixSummary);
    path := path0 + [Step(curr0, fromRight0)];
    lo, hi := lo0, hi0;
    if dir == Before {
      SeekLeft(w, f, root, path0, curr0, fromRight0, dir0, index0, summary0, lo0, hi0);
      index, summary := index0, summary0;
      hi := index0 + CountOf(curr0.left);
      curr, fromRight := curr0.left, false;
    } else if dir == Equal {
      SeekStop(w, f, root, path0, curr0, fromRight0, dir0, index0, summary0, lo0, hi0);
      index := index0 + CountOf(curr0.left);
      summary := prefixSummary;
      curr, fromRight := Null, fromRight0;
    } else {
      SeekRight(w, f, root, path0, curr0, fromRight0, dir0, index0, summary0, lo0, hi0);
      index := index0 + CountOf(curr0.left) + 1;
      summary := prefixSummary + w(curr0.value);
      lo := index;
      curr, fromRight := curr0.right, true;
    }
  }

  /** The descent of `atEqual`: from the root, probe each node with the
      summary of the values before it and go left on BEFORE, right on AFTER,
      and stop on EQUAL or at an absent child. */
  method SeekDescent<V>(w: V -> nat, root: AvlNode<V>, f: (V, nat) -> Ordering)
      returns (dir: Ordering, path: seq<Step<V>>, index: nat, summary: nat,
               fromRight: bool, ghost lo: nat, ghost hi: nat)
    requires Counted(w, root)
    ensures Seeking(w, f, root, path, Null, fromRight, dir, index, summary, lo, hi)
  {
    dir := After;
    path := [];
    index := 0;
    summary := 0;
    var curr := root;
    fromRight := false;
    lo := 0;
    hi := |ElemsOf(root)|;
    CachedCounters(w, root);
    while curr.Node?
      invariant Seeking(w, f, root, path, curr, fromRight, dir, index, summary, lo, hi)
      decreases |ElemsOf(curr)|
    {
      dir, path, curr, fromRight, index, summary, lo, hi :=
        SeekProbe(w, f, root, path, curr, fromRight, dir, index, summary, lo, hi);
    }
    assert curr == Null;
  }

  /** The contract of `atEqual` for a pathfinder answering AFTER, then
      EQUAL, then BEFORE along the values: the cursor lands on a value
      answering EQUAL when there is one; otherwise, without seek bias, on
      the first value answering BEFORE (done past the end when there is
      none), and with seek bias on the last value answering AFTER (the first
      value when there is none). */
  ghost predicate SeekResult<V>(w: V -> nat, f: (V, nat) -> Ordering, s: seq<V>, leftSeekBias: bool,
                                index: nat, done: bool)
  {
    Monotone(w, f, s) ==>
      (HasEqual(w, f, s) ==> !done && index < |s| && Dir(w, f, s, index) == Equal) &&
      (!HasEqual(w, f, s) && !leftSeekBias ==>
        index <= |s| &&
        (forall k :: 0 <= k < index ==> Dir(w, f, s, k) == After) &&
        (forall k :: index <= k < |s| ==> Dir(w, f, s, k) == Before)) &&
      (!HasEqual(w, f, s) && leftSeekBias && HasAfter(w, f, s) ==>
        index < |s| && Dir(w, f, s, index) == After &&
        (forall k :: index < k < |s| ==> Dir(w, f, s, k) == Before)) &&
      (!HasEqual(w, f, s) && leftSeekBias && !HasAfter(w, f, s) ==> index == 0)
  }

  /** The state of the descent of `atEqual`: unless the path is empty, `curr`
      is the next node to probe, a child of the path's head, or the descent
      is over and the head is the last node probed. `index`/`summary` count
      the values before `curr`'s subtree, which spans `[index, hi)`; the
      values before `lo` are known to answer AFTER and those from `hi` on
      to answer BEFORE. */
  ghost predicate Seeking<V>(w: V -> nat, f: (V, nat) -> Ordering, root: AvlNode<V>, path: seq<Step<V>>,
                             curr: AvlNode<V>, fromRight: bool, dir: Ordering,
                             index: nat, summary: nat, lo: nat, hi: nat)
  {
    SeekPlace(w, root, path, curr, fromRight, dir, index, summary, lo, hi) &&
    SeekFound(w, f, root, path, curr, dir, index, lo, hi)
  }

  /** Where the descent stands in the tree. */
  ghost predicate SeekPlace<V>(w: V -> nat, root: AvlNode<V>, path: seq<Step<V>>,
                               curr: AvlNode<V>, fromRight: bool, dir: Ordering,
                               index: nat, summary: nat, lo: nat, hi: nat)
  {
    var s := ElemsOf(root);
    Counted(w, root) && IsPath(root, path) &&
    lo <= index <= hi <= |s| && (dir != Equal ==> lo == index) &&
    summary == Sum(w, s[..index]) &&
    (curr.Node? ==>
      dir != Equal && IsPath(root, path + [Step(curr, fromRight)]) &&
      index == Start(path + [Step(curr, fromRight)]) && hi == End(path + [Step(curr, fromRight)])) &&
    (|path| == 0 ==> curr == root && dir == After && index == 0 && hi == |s|) &&
    (curr.Null? && |path| > 0 ==>
      (dir == Equal ==> index == Position(path) && index < |s|) &&
      (dir == After ==> index == End(path) && index == hi && Last(path).node.right.Null?) &&
      (dir == Before ==> index == Position(path) && index == hi && Last(path).node.left.Null?))
  }

  /** What the probes so far tell about the pathfinder's answers. */
  ghost predicate SeekFound<V>(w: V -> nat, f: (V, nat) -> Ordering, root: AvlNode<V>, path: seq<Step<V>>,
                               curr: AvlNode<V>, dir: Ordering, index: nat, lo: nat, hi: nat)
  {
    var s := ElemsOf(root);
    (curr.Null? && |path| > 0 && dir == Equal && index < |s| ==> Dir(w, f, s, index) == Equal) &&
    (Monotone(w, f, s) ==>
      (forall k :: 0 <= k < lo && k < |s| ==> Dir(w, f, s, k) == After) &&
      (forall k :: hi <= k < |s| ==> Dir(w, f, s, k) == Before))
  }

  // One probe of the descent: the pathfinder is asked about the value at
  // `curr`'s in-order index with the summary of the values before it, and
  // each answer moves the descent on as `atEqual` does.

  /** BEFORE: every value from `curr`'s on answers BEFORE; go left. */
  lemma SeekLeft<V>(w: V -> nat, f: (V, nat) -> Ordering, root: AvlNode<V>, path: seq<Step<V>>,
                    curr: AvlNode<V>, fromRight: bool, dir0: Ordering,
                    index: nat, summary: nat, lo: nat, hi: nat)
    requires curr.Node? && Seeking(w, f, root, path, curr, fromRight, dir0, index, summary, lo, hi)
    requires f(curr.value, summary + SummaryOf(curr.left)) == Before
    ensures Seeking(w, f, root, path + [Step(curr, fromRight)], curr.left, false, Before,
                    index, summary, lo, index + CountOf(curr.left))
  {
    var s, p := ElemsOf(root), path + [Step(curr, fromRight)];
    PathValue(w, root, p);
    var pc := Position(p);
    assert Dir(w, f, s, pc) == Before;
    SeekBefore(w, f, s, pc);
    PathPush(root, p, Step(curr.left, false));
  }

  /** EQUAL: the descent stops on `curr`. */
  lemma SeekStop<V>(w: V -> nat, f: (V, nat) -> Ordering, root: AvlNode<V>, path: seq<Step<V>>,
                    curr: AvlNode<V>, fromRight: bool, dir0: Ordering,
                    index: nat, summary: nat, lo: nat, hi: nat)
    requires curr.Node? && Seeking(w, f, root, path, curr, fromRight, dir0, index, summary, lo, hi)
    requires f(curr.value, summary + SummaryOf(curr.left)) == Equal
    ensures Seeking(w, f, root, path + [Step(curr, fromRight)], Null, fromRight, Equal,
                    index + CountOf(curr.left), summary + SummaryOf(curr.left), lo, hi)
  {
    var s, p := ElemsOf(root), path + [Step(curr, fromRight)];
    PathValue(w, root, p);
    assert Dir(w, f, s, Position(p)) == Equal;
  }

  /** AFTER: every value up to `curr`'s answers AFTER; go right. */
  lemma SeekRight<V>(w: V -> nat, f: (V, nat) -> Ordering, root: AvlNode<V>, path: seq<Step<V>>,
                     curr: AvlNode<V>, fromRight: bool, dir0: Ordering,
                     index: nat, summary: nat, lo: nat, hi: nat)
    requires curr.Node? && Seeking(w, f, root, path, curr, fromRight, dir0, index, summary, lo, hi)
    requires f(curr.value, summary + SummaryOf(curr.left)) == After
    ensures var pc := index + CountOf(curr.left);
      Seeking(w, f, root, path + [Step(curr, fromRight)], curr.right, true, After,
              pc + 1, summary + SummaryOf(curr.left) + w(curr.value), pc + 1, hi)
  {
    var s, p := ElemsOf(root), path + [Step(curr, fromRight)];
    PathValue(w, root, p);
    var pc := Position(p);
    assert Dir(w, f, s, pc) == After;
    SeekAfter(w, f, s, pc);
    SumPrefix(w, s, pc);
    PathPush(root, p, Step(curr.right, true));
  }

  /** AFTER on the last probe, with seek bias: the last node probed is the
      one before `index`, and it is the last value answering AFTER. */
  lemma SettleAfterLeft<V>(w: V -> nat, f: (V, nat) -> Ordering, root: AvlNode<V>, fromRight: bool, path: seq<Step<V>>,
                           dir: Ordering, index: nat, summary: nat, lo: nat, hi: nat)
    requires Seeking(w, f, root, path, Null, fromRight, dir, index, summary, lo, hi)
    requires dir == After && |path| > 0
    ensures index > 0 && index - 1 == Position(path) && w(Last(path).node.value) <= summary
    ensures Settled(w, f, root, path, index - 1, summary - w(Last(path).node.value), true)
  {
    var s := ElemsOf(root);
    PathValue(w, root, path);
    SumPrefix(w, s, index - 1);
    if Monotone(w, f, s) {
      assert Dir(w, f, s, index - 1) == After;
      NoEqual(w, f, s, index, dir);
    }
  }

  /** AFTER on the last probe, without seek bias: `ascendNext` reaches the
      value at `index`, the first answering BEFORE, or ends the path. */
  lemma SettleAfterRight<V>(w: V -> nat, f: (V, nat) -> Ordering, root: AvlNode<V>, fromRight: bool, found: seq<Step<V>>,
                            path: seq<Step<V>>, dir: Ordering, index: nat, summary: nat, lo: nat, hi: nat)
    requires Seeking(w, f, root, found, Null, fromRight, dir, index, summary, lo, hi)
    requires dir == After && |found| > 0 && IsPath(root, path)
    requires |path| == 0 ==> End(found) == CountOf(root)
    requires |path| > 0 ==> Position(path) == End(found)
    ensures Settled(w, f, root, path, index, summary, false)
  {
    var s := ElemsOf(root);
    CachedCounters(w, root);
    if |path| > 0 {
      PathValue(w, root, path);
    }
    if Monotone(w, f, s) {
      NoEqual(w, f, s, index, dir);
    }
  }

  /** BEFORE on the last probe, with seek bias and values before it:
      `ascendPrev` reaches the value before `index`, the last answering
      AFTER. */
  lemma SettleBeforeLeft<V>(w: V -> nat, f: (V, nat) -> Ordering, root: AvlNode<V>, fromRight: bool, found: seq<Step<V>>,
                            path: seq<Step<V>>, dir: Ordering, index: nat, summary: nat, lo: nat, hi: nat)
    requires Seeking(w, f, root, found, Null, fromRight, dir, index, summary, lo, hi)
    requires dir == Before && index != 0 && |found| > 0 && IsPath(root, path)
    requires |path| == 0 ==> Start(found) == 0
    requires |path| > 0 ==> Position(path) + 1 == Start(found)
    ensures |path| > 0 && index - 1 == Position(path) && w(Last(path).node.value) <= summary
    ensures Settled(w, f, root, path, index - 1, summary - w(Last(path).node.value), true)
  {
    var s := ElemsOf(root);
    PathValue(w, root, found);
    PathValue(w, root, path);
    SumPrefix(w, s, index - 1);
    if Monotone(w, f, s) {
      assert Dir(w, f, s, index - 1) == After;
      NoEqual(w, f, s, index, dir);
    }
  }

  /** EQUAL on the last probe, BEFORE without seek bias or at the first
      value, or an empty tree: the cursor stays where the descent ended. */
  lemma SettleHere<V>(w: V -> nat, f: (V, nat) -> Ordering, root: AvlNode<V>, fromRight: bool, path: seq<Step<V>>,
                      dir: Ordering, index: nat, summary: nat, lo: nat, hi: nat, leftSeekBias: bool)
    requires Seeking(w, f, root, path, Null, fromRight, dir, index, summary, lo, hi)
    requires !(dir == After && |path| != 0) && !(dir == Before && leftSeekBias && index != 0)
    ensures Settled(w, f, root, path, index, summary, leftSeekBias)
  {
    var s := ElemsOf(root);
    CachedCounters(w, root);
    if |path| > 0 {
      PathValue(w, root, path);
    }
    if Monotone(w, f, s) && dir != Equal {
      NoEqual(w, f, s, index, dir);
    }
  }

  /** The iterator state `atEqual` builds: valid for `root`, and meeting the
      contract of `atEqual`. */
  ghost predicate Settled<V>(w: V -> nat, f: (V, nat) -> Ordering, root: AvlNode<V>, path: seq<Step<V>>,
                             index: nat, summary: nat, leftSeekBias: bool)
  {
    var s := ElemsOf(root);
    Counted(w, root) && IsPath(root, path) && index <= |s| &&
    (|path| == 0 ==> index == |s|) &&
    (|path| != 0 ==> index == Position(path) && index < |s|) &&
    summary == Sum(w, s[..index]) &&
    SeekResult(w, f, s, leftSeekBias, index, |path| == 0)
  }

  /** When the descent ends without EQUAL, the values before `index` answer
      AFTER and the others BEFORE, so none answers EQUAL. */
  lemma NoEqual<V>(w: V -> nat, f: (V, nat) -> Ordering, s: seq<V>, index: nat, dir: Ordering)
    requires Monotone(w, f, s) && dir != Equal && index <= |s|
    requires forall k :: 0 <= k < index ==> Dir(w, f, s, k) == After
    requires forall k :: index <= k < |s| ==> Dir(w, f, s, k) == Before
    ensures !HasEqual(w, f, s)
    ensures index == 0 ==> !HasAfter(w, f, s)
  {
    forall k | 0 <= k < |s|
      ensures Dir(w, f, s, k) != Equal && (index == 0 ==> Dir(w, f, s, k) != After)
    {
      if k < index {
        assert Dir(w, f, s, k) == After;
      } else {
        assert Dir(w, f, s, k) == Before;
      }
    }
  }

  /** A prefix of a path is a path. */
  lemma {:induction false} PrefixPath<V>(root: AvlNode<V>, p: seq<Step<V>>, k: nat)
    requires IsPath(root, p) && 0 < k <= |p|
    ensures IsPath(root, p[..k])
    decreases |p|
  {
    if k < |p| {
      assert p[..|p| - 1][..k] == p[..k];
      PrefixPath(root, p[..|p| - 1], k);
    } else {
      assert p[..k] == p;
    }
  }

  /** Under a monotone pathfinder, a BEFORE at index `pc` makes every later
      value BEFORE. */
  lemma SeekBefore<V>(w: V -> nat, f: (V, nat) -> Ordering, s: seq<V>, pc: nat)
    requires pc < |s| && Dir(w, f, s, pc) == Before
    ensures Monotone(w, f, s) ==> forall k :: pc <= k < |s| ==> Dir(w, f, s, k) == Before
  {
    if Monotone(w, f, s) {
      forall k | pc < k < |s|
        ensures Dir(w, f, s, k) == Before
      {
        assert Order(Dir(w, f, s, pc)) <= Order(Dir(w, f, s, k));
      }
    }
  }

  /** Under a monotone pathfinder, an AFTER at index `pc` makes every
      earlier value AFTER. */
  lemma SeekAfter<V>(w: V -> nat, f: (V, nat) -> Ordering, s: seq<V>, pc: nat)
    requires pc < |s| && Dir(w, f, s, pc) == After
    ensures Monotone(w, f, s) ==> forall k :: 0 <= k <= pc ==> Dir(w, f, s, k) == After
  {
    if Monotone(w, f, s) {
      forall k | 0 <= k < pc
        ensures Dir(w, f, s, k) == After
      {
        assert Order(Dir(w, f, s, k)) <= Order(Dir(w, f, s, pc));
      }
    }
  }
}
