/** Shared vocabulary of the sequence engine: the three-way ordering used by
    pathfinders, optional values, cumulative weights and the plain-sequence
    reference operations that every tree mutation is specified against. */
module Common {

  /** Outcome of a pathfinder or a three-way comparison (util/ordering.ts). */
  datatype Ordering = Before | Equal | After

  datatype Option<T> = None | Some(value: T)

  function Max(a: int, b: int): int { if a < b then b else a }

  function Min(a: int, b: int): int { if a < b then a else b }

  /** Cumulative weight of a run of values (the `summary` of a subtree). */
  function Sum<V>(w: V -> nat, s: seq<V>): nat
  {
    if s == [] then 0 else Sum(w, s[..|s| - 1]) + w(s[|s| - 1])
  }

  /** Left fold, the meaning of `reduce`. */
  function FoldLeft<U, V>(f: (U, V) -> U, acc: U, s: seq<V>): U
  {
    if s == [] then acc else f(FoldLeft(f, acc, s[..|s| - 1]), s[|s| - 1])
  }

  /** Reference insertion: `v` spliced at `i`, clamped to the end. */
  function SeqInsert<V>(s: seq<V>, i: nat, v: V): seq<V>
  {
    var k := Min(i, |s|);
    s[..k] + [v] + s[k..]
  }

  /** Reference deletion: the value at `i` (clamped to the last one) removed;
      the empty sequence is left alone. */
  function SeqDelete<V>(s: seq<V>, i: nat): seq<V>
  {
    if s == [] then [] else var k := Min(i, |s| - 1); s[..k] + s[k + 1..]
  }

  /** Reference substitution, clamped like SeqDelete. */
  function SeqReplace<V>(s: seq<V>, i: nat, v: V): seq<V>
  {
    if s == [] then [] else var k := Min(i, |s| - 1); s[..k] + [v] + s[k + 1..]
  }

  lemma {:induction false} SumConcat<V>(w: V -> nat, a: seq<V>, b: seq<V>)
    ensures Sum(w, a + b) == Sum(w, a) + Sum(w, b)
    decreases |b|
  {
    if b == [] {
      assert a + b == a;
    } else {
      var b' := b[..|b| - 1];
      assert (a + b)[..|a + b| - 1] == a + b';
      SumConcat(w, a, b');
    }
  }

  lemma SumConcat3<V>(w: V -> nat, a: seq<V>, v: V, b: seq<V>)
    ensures Sum(w, a + [v] + b) == Sum(w, a) + w(v) + Sum(w, b)
  {
    SumConcat(w, a + [v], b);
    SumConcat(w, a, [v]);
    assert [v][..0] == [];
  }

  lemma SumPrefix<V>(w: V -> nat, s: seq<V>, k: nat)
    requires k < |s|
    ensures Sum(w, s[..k + 1]) == Sum(w, s[..k]) + w(s[k])
  {
    assert s[..k + 1][..k] == s[..k];
  }

  lemma {:induction false} FoldLeftConcat<U, V>(f: (U, V) -> U, acc: U, a: seq<V>, b: seq<V>)
    ensures FoldLeft(f, acc, a + b) == FoldLeft(f, FoldLeft(f, acc, a), b)
    decreases |b|
  {
    if b == [] {
      assert a + b == a;
    } else {
      var b' := b[..|b| - 1];
      assert (a + b)[..|a + b| - 1] == a + b';
      FoldLeftConcat(f, acc, a, b');
    }
  }

  /** `arrayPush` of util/array.ts, as a fold step. */
  function Push<V>(acc: seq<V>, v: V): seq<V> { acc + [v] }

  /** Folding Push over a sequence rebuilds it: `toArray` is `reduce(arrayPush, [])`. */
  lemma {:induction false} FoldPushIsIdentity<V>(s: seq<V>)
    ensures FoldLeft(Push, [], s) == s
    decreases |s|
  {
    if s != [] {
      var s' := s[..|s| - 1];
      FoldPushIsIdentity(s');
      calc {
        FoldLeft(Push, [], s);
        Push(FoldLeft(Push, [], s'), s[|s| - 1]);
        s' + [s[|s| - 1]];
      }
      assert s' + [s[|s| - 1]] == s;
    }
  }

  /** Regrouping after a rotation: the in-order sequence is unchanged. */
  lemma RegroupRight<V>(a: seq<V>, x: V, b: seq<V>, y: V, c: seq<V>)
    ensures a + [x] + (b + [y] + c) == (a + [x] + b) + [y] + c
  {
  }

  // Splicing into a node's in-order sequence `l + [x] + r` goes into the
  // left part, the node itself or the right part according to the index.

  lemma InsertInLeft<V>(l: seq<V>, x: V, r: seq<V>, i: nat, v: V)
    requires i <= |l|
    ensures SeqInsert(l + [x] + r, i, v) == SeqInsert(l, i, v) + [x] + r
  {
    var s := l + [x] + r;
    assert s[..i] == l[..i];
    assert s[i..] == l[i..] + [x] + r;
  }

  lemma InsertInRight<V>(l: seq<V>, x: V, r: seq<V>, i: nat, v: V)
    requires i > |l|
    ensures SeqInsert(l + [x] + r, i, v) == l + [x] + SeqInsert(r, i - |l| - 1, v)
  {
    var s := l + [x] + r;
    var k := Min(i - |l| - 1, |r|);
    assert Min(i, |s|) == |l| + 1 + k;
    assert s[..|l| + 1 + k] == l + [x] + r[..k];
    assert s[|l| + 1 + k..] == r[k..];
  }

  lemma ReplaceInLeft<V>(l: seq<V>, x: V, r: seq<V>, i: nat, v: V)
    requires i < |l|
    ensures SeqReplace(l + [x] + r, i, v) == SeqReplace(l, i, v) + [x] + r
  {
    var s := l + [x] + r;
    assert s[..i] == l[..i];
    assert s[i + 1..] == l[i + 1..] + [x] + r;
  }

  lemma ReplaceInRight<V>(l: seq<V>, x: V, r: seq<V>, i: nat, v: V)
    requires i > |l| && r != []
    ensures SeqReplace(l + [x] + r, i, v) == l + [x] + SeqReplace(r, i - |l| - 1, v)
  {
    var s := l + [x] + r;
    var k := Min(i - |l| - 1, |r| - 1);
    assert Min(i, |s| - 1) == |l| + 1 + k;
    assert s[..|l| + 1 + k] == l + [x] + r[..k];
    assert s[|l| + 1 + k + 1..] == r[k + 1..];
  }

  lemma ReplaceAtNode<V>(l: seq<V>, x: V, r: seq<V>, i: nat, v: V)
    requires i == |l| || (i > |l| && r == [])
    ensures SeqReplace(l + [x] + r, i, v) == l + [v] + r
  {
    var s := l + [x] + r;
    assert Min(i, |s| - 1) == |l|;
    assert s[..|l|] == l;
    assert s[|l| + 1..] == r;
  }

  lemma DeleteInLeft<V>(l: seq<V>, x: V, r: seq<V>, i: nat)
    requires i < |l|
    ensures SeqDelete(l + [x] + r, i) == SeqDelete(l, i) + [x] + r
  {
    var s := l + [x] + r;
    assert s[..i] == l[..i];
    assert s[i + 1..] == l[i + 1..] + [x] + r;
  }

  lemma DeleteInRight<V>(l: seq<V>, x: V, r: seq<V>, i: nat)
    requires i > |l| && r != []
    ensures SeqDelete(l + [x] + r, i) == l + [x] + SeqDelete(r, i - |l| - 1)
  {
    var s := l + [x] + r;
    var k := Min(i - |l| - 1, |r| - 1);
    assert Min(i, |s| - 1) == |l| + 1 + k;
    assert s[..|l| + 1 + k] == l + [x] + r[..k];
    assert s[|l| + 1 + k + 1..] == r[k + 1..];
  }

  lemma DeleteAtNode<V>(l: seq<V>, x: V, r: seq<V>, i: nat)
    requires i == |l| || (i > |l| && r == [])
    ensures SeqDelete(l + [x] + r, i) == l + r
  {
    var s := l + [x] + r;
    assert Min(i, |s| - 1) == |l|;
    assert s[..|l|] == l;
    assert s[|l| + 1..] == r;
  }
}
