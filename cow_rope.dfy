/** A string with logarithmic insertions, kept as a copy-on-write list of
    pieces whose summary is the total length (examples/cow-rope.ts). */
module CowRopes {
  import opened Common
  import opened ListOps
  import opened BinTreeIter
  import opened AvlLists

  /** The weight of a piece: its length. */
  function PieceLength(s: string): nat
  {
    |s|
  }

  /** The text of a run of pieces. */
  function Concat<T>(s: seq<seq<T>>): seq<T>
  {
    if s == [] then [] else Concat(s[..|s| - 1]) + s[|s| - 1]
  }

  /** `(acc, v) => acc + v`, the fold step of `toString`. */
  function Append(acc: string, v: string): string
  {
    acc + v
  }

  /** The text of two runs one after the other. */
  lemma {:induction false} ConcatConcat<T>(a: seq<seq<T>>, b: seq<seq<T>>)
    ensures Concat(a + b) == Concat(a) + Concat(b)
    decreases |b|
  {
    if b == [] {
      assert a + b == a;
    } else {
      var b', y := b[..|b| - 1], b[|b| - 1];
      assert a + b == (a + b') + [y] && b == b' + [y];
      ConcatSnoc(a + b', y);
      ConcatSnoc(b', y);
      ConcatConcat(a, b');
    }
  }

  /** The length of the text is the total weight of its pieces. */
  lemma {:induction false} ConcatLength(s: seq<string>)
    ensures |Concat(s)| == Sum(PieceLength, s)
    decreases |s|
  {
    if s != [] {
      ConcatLength(s[..|s| - 1]);
    }
  }

  /** Folding `Append` from `acc` appends the text of the pieces. */
  lemma {:induction false} FoldAppend(acc: string, s: seq<string>)
    ensures FoldLeft(Append, acc, s) == acc + Concat(s)
    decreases |s|
  {
    if s != [] {
      FoldAppend(acc, s[..|s| - 1]);
    }
  }

  /** Splitting the pieces at `k` splits the text at the length of the
      first `k` pieces. */
  lemma TextSplit(s: seq<string>, k: nat)
    requires k <= |s|
    ensures Concat(s) == Concat(s[..k]) + Concat(s[k..])
    ensures |Concat(s[..k])| == Sum(PieceLength, s[..k])
  {
    assert s == s[..k] + s[k..];
    ConcatConcat(s[..k], s[k..]);
    ConcatLength(s[..k]);
  }

  /** The text of one piece is that piece. */
  lemma ConcatSingle<T>(x: seq<T>)
    ensures Concat([x]) == x
  {
    assert [x][..0] == [];
  }

  /** One more piece at the end of a run adds its text at the end. */
  lemma ConcatSnoc<T>(p: seq<seq<T>>, x: seq<T>)
    ensures Concat(p + [x]) == Concat(p) + x
  {
    assert (p + [x])[..|p|] == p;
  }

  /** Cutting `p + [y] + q` at `|p|`. */
  lemma CutAt<T>(p: seq<T>, y: T, q: seq<T>)
    ensures (p + [y] + q)[..|p|] == p && (p + [y] + q)[|p|..] == [y] + q
  {
  }

  /** A run of pieces around its `k`-th one. */
  lemma Around<T>(s: seq<T>, k: nat)
    requires k < |s|
    ensures s == s[..k] + [s[k]] + s[k + 1..] && s[..k + 1] == s[..k] + [s[k]]
  {
  }

  /** Cutting `a + b` at `|a|`. */
  lemma CutText<T>(a: seq<T>, b: seq<T>)
    ensures (a + b)[..|a|] == a && (a + b)[|a|..] == b
  {
  }

  /** Where a piece is inserted between the first `k` pieces and the rest,
      its text is inserted between theirs. */
  lemma InsertPiece<T>(s: seq<seq<T>>, k: nat, x: seq<T>)
    requires k <= |s|
    ensures Concat(SeqInsert(s, k, x)) == Concat(s[..k]) + x + Concat(s[k..])
  {
    var p, q := s[..k], s[k..];
    assert SeqInsert(s, k, x) == (p + [x]) + q;
    ConcatConcat(p + [x], q);
    ConcatSnoc(p, x);
  }

  /** The text around piece `k`. */
  lemma AroundPiece<T>(s: seq<seq<T>>, k: nat)
    requires k < |s|
    ensures Concat(s) == Concat(s[..k]) + s[k] + Concat(s[k + 1..])
    ensures Concat(s[..k + 1]) == Concat(s[..k]) + s[k]
  {
    var p, x, q := s[..k], s[k], s[k + 1..];
    Around(s, k);
    ConcatConcat(p + [x], q);
    ConcatSnoc(p, x);
  }

  /** The text of three pieces. */
  lemma ConcatThree<T>(l: seq<T>, x: seq<T>, r: seq<T>)
    ensures Concat([l, x, r]) == l + x + r
  {
    assert [l, x, r] == [l, x] + [r] && [l, x] == [l] + [x];
    ConcatSnoc([l, x], r);
    ConcatSnoc([l], x);
    ConcatSingle(l);
  }

  /** Three values inserted one after the other at the same place. */
  lemma Nest3<T>(p: seq<T>, l: T, x: T, r: T, q: seq<T>)
    ensures p + [l] + ([x] + ([r] + q)) == p + [l, x, r] + q
  {
    assert [l] + ([x] + ([r] + q)) == [l, x, r] + q;
  }

  /** The pieces after the three operations of a split: the left part, the
      inserted text and the right part in place of the split piece. */
  lemma SplitOps<V>(s: seq<V>, k: nat, l: V, x: V, r: V)
    requires k < |s|
    ensures ApplyOps(s, [Sub(k, r), Ins(k, x), Ins(k, l)]) == s[..k] + [l, x, r] + s[k + 1..]
  {
    var a, b, c := Sub(k, r), Ins(k, x), Ins(k, l);
    var p, q := s[..k], s[k + 1..];
    ApplyFew(s, a, b, c);
    var s1 := ApplyOp(s, a);
    assert s1 == p + [r] + q by {
      ApplyConstructors(s, k, r);
    }
    var s2 := ApplyOp(s1, b);
    assert s2 == p + [x] + ([r] + q) by {
      ApplyConstructors(s1, k, x);
      CutAt(p, r, q);
    }
    var s3 := ApplyOp(s2, c);
    assert s3 == p + [l] + ([x] + ([r] + q)) by {
      ApplyConstructors(s2, k, l);
      CutAt(p, x, [r] + q);
    }
    Nest3(p, l, x, r, q);
  }

  /** The three operations of a split piece `v` at `off`: the right part
      replaces it, then the inserted text and the left part go before it. */
  lemma SplitPiece<T>(s: seq<seq<T>>, k: nat, v: seq<T>, off: nat, x: seq<T>)
    requires k < |s| && s[k] == v && off <= |v|
    ensures var ops := [Sub(k, v[off..]), Ins(k, x), Ins(k, v[..off])];
      Concat(ApplyOps(s, ops)) == Concat(s[..k]) + (v[..off] + x + v[off..]) + Concat(s[k + 1..])
  {
    var p, q, l, r := s[..k], s[k + 1..], v[..off], v[off..];
    SplitOps(s, k, l, x, r);
    ConcatConcat(p + [l, x, r], q);
    ConcatConcat(p, [l, x, r]);
    ConcatThree(l, x, r);
  }

  /** The summary of the first pieces only grows with their number. */
  lemma SumPrefixGrows(s: seq<string>, a: nat, b: nat)
    requires a <= b <= |s|
    ensures Sum(PieceLength, s[..a]) <= Sum(PieceLength, s[..b])
  {
    assert s[..b] == s[..a] + s[a..b];
    SumConcat(PieceLength, s[..a], s[a..b]);
  }

  /** The pathfinder of `inserted(index, _)`: a piece answers BEFORE when
      `index` precedes it, AFTER when it lies past its end, EQUAL when it
      lies within it or at one of its two ends. */
  function Finder(index: nat): (f: (string, nat) -> Ordering)
    ensures forall v: string, summary: nat :: f(v, summary) == Before <==> index < summary
    ensures forall v: string, summary: nat :: f(v, summary) == After <==> summary + |v| < index
    ensures forall v: string, summary: nat :: f(v, summary) == Equal <==> summary <= index <= summary + |v|
  {
    (v: string, summary: nat) =>
      if index < summary then Before else if index > summary + |v| then After else Equal
  }

  /** Along the pieces, the rope's pathfinder answers AFTER, then EQUAL, then
      BEFORE. */
  lemma FinderMonotone(index: nat, s: seq<string>)
    ensures Monotone(PieceLength, Finder(index), s)
  {
    forall i, j | 0 <= i < j < |s|
      ensures Order(Dir(PieceLength, Finder(index), s, i)) <= Order(Dir(PieceLength, Finder(index), s, j))
    {
      SumPrefix(PieceLength, s, i);
      SumPrefixGrows(s, i + 1, j);
    }
  }

  /** The seek of `inserted` lands on a piece exactly when one answers EQUAL;
      otherwise the offset lies past the whole text and the cursor is done. */
  lemma FinderLands(index: nat, s: seq<string>, k: nat, done: bool)
    requires SeekResult(PieceLength, Finder(index), s, false, k, done)
    requires done <==> k == |s|
    requires k <= |s|
    ensures !done ==> Dir(PieceLength, Finder(index), s, k) == Equal
    ensures done ==> index >= Sum(PieceLength, s)
  {
    FinderMonotone(index, s);
    var f := Finder(index);
    if !HasEqual(PieceLength, f, s) {
      if !done {
        assert Dir(PieceLength, f, s, k) == Before;
        if k > 0 {
          assert Dir(PieceLength, f, s, k - 1) == After;
          SumPrefix(PieceLength, s, k - 1);
        }
        assert false;
      } else if s != [] {
        assert Dir(PieceLength, f, s, |s| - 1) == After;
        SumPrefix(PieceLength, s, |s| - 1);
        assert s[..|s|] == s;
      }
    } else if done {
      assert false;
    }
  }

  /** A rope: a copy-on-write list of pieces weighted by their length. */
  class CowRope {
    const repr: AvlList<string>

    ghost predicate Valid()
      reads this, repr
    {
      repr.Valid() && repr.weight == PieceLength
    }

    /** The string the rope stands for. */
    ghost function Text(): string
      reads this, repr
    {
      Concat(repr.Elems())
    }

    constructor (repr: AvlList<string>)
      ensures this.repr == repr
    {
      this.repr := repr;
    }

    /** `empty`: the empty string. */
    static method Empty() returns (r: CowRope)
      ensures fresh(r) && fresh(r.repr) && r.Valid() && r.Text() == ""
    {
      var l := AvlList.Empty(PieceLength);
      r := new CowRope(l);
    }

    /** `length`: the list's summary, which is the length of the text. */
    function Length(): (n: nat)
      reads this, repr
      requires Valid()
      ensures n == |Text()|
    {
      ConcatLength(repr.Elems());
      repr.Summary()
    }

    /** `toString`: the pieces concatenated in order. */
    function ToString(): (t: string)
      reads this, repr
      requires Valid()
      ensures t == Text()
    {
      FoldAppend("", repr.Elems());
      repr.Reduce(Append, "")
    }

    /** `inserted(index, str)`: a new rope whose text is the receiver's
        with `str` inserted at `index`, or appended when `index` lies past
        its end. The receiver is left as it is. */
    method Inserted(index: nat, str: string) returns (r: CowRope)
      requires Valid()
      ensures fresh(r) && fresh(r.repr) && r.Valid()
      ensures var t, p := Text(), Min(index, |Text()|); r.Text() == t[..p] + str + t[p..]
    {
      ghost var s := repr.Elems();
      var it := repr.AtEqual(Finder(index), false);
      var value := it.Value();
      assert it.summary == Sum(PieceLength, s[..it.index]);
      FinderLands(index, s, it.index, it.done);
      var ops: seq<Op<string>>;
      if value.None? {
        ops := [Ins(it.index, str)];
      } else if index == it.summary + |value.value| {
        ops := [Ins(it.index + 1, str)];
      } else if index == it.summary {
        ops := [Ins(it.index, str)];
      } else {
        var splitOffset := index - it.summary;
        var lValue := value.value[..splitOffset];
        var rValue := value.value[splitOffset..];
        ops := [Sub(it.index, rValue), Ins(it.index, str), Ins(it.index, lValue)];
      }
      var l := repr.Applied(ops);
      InsertedText(index, str, s, it.index, it.summary, value, ops, l.Elems());
      r := new CowRope(l);
    }
  }

  /** Text `x` put between the two parts of `a + b`, cut at `|a|`. */
  lemma Splice<T>(t: seq<T>, a: seq<T>, b: seq<T>, x: seq<T>, p: nat)
    requires t == a + b && p == |a|
    ensures p <= |t| && t[..p] + x + t[p..] == a + x + b
  {
    CutText(a, b);
  }

  /** Inserting a piece `x` at piece index `k` inserts `x` into the text
      at the length of the first `k` pieces. */
  lemma InsertAtPiece<T>(s: seq<seq<T>>, k: nat, x: seq<T>, p: nat)
    requires k <= |s| && p == |Concat(s[..k])|
    ensures var t := Concat(s); p <= |t| && Concat(ApplyOps(s, [Ins(k, x)])) == t[..p] + x + t[p..]
  {
    var a, b := Concat(s[..k]), Concat(s[k..]);
    assert Concat(ApplyOps(s, [Ins(k, x)])) == a + x + b by {
      ApplyFew(s, Ins(k, x), Ins(k, x), Ins(k, x));
      ApplyConstructors(s, k, x);
      InsertPiece(s, k, x);
    }
    assert Concat(s) == a + b by {
      assert s == s[..k] + s[k..];
      ConcatConcat(s[..k], s[k..]);
    }
    Splice(Concat(s), a, b, x, p);
  }

  /** Splitting piece `k` at `off` and inserting `x` between its parts
      inserts `x` into the text at the length of the first `k` pieces plus
      `off`. */
  lemma SplitAtPiece<T>(s: seq<seq<T>>, k: nat, x: seq<T>, off: nat, p: nat)
    requires k < |s| && off <= |s[k]| && p == |Concat(s[..k])| + off
    ensures var t, v := Concat(s), s[k];
      p <= |t| && Concat(ApplyOps(s, [Sub(k, v[off..]), Ins(k, x), Ins(k, v[..off])])) == t[..p] + x + t[p..]
  {
    var v := s[k];
    var a, l, r, b := Concat(s[..k]), v[..off], v[off..], Concat(s[k + 1..]);
    assert Concat(ApplyOps(s, [Sub(k, r), Ins(k, x), Ins(k, l)])) == (a + l) + x + (r + b) by {
      SplitPiece(s, k, v, off, x);
      Assoc5(a, l, x, r, b);
    }
    assert Concat(s) == (a + l) + (r + b) by {
      AroundPiece(s, k);
      assert v == l + r;
      Assoc4(a, l, r, b);
    }
    Splice(Concat(s), a + l, r + b, x, p);
  }

  /** Regrouping four texts. */
  lemma Assoc4<T>(a: seq<T>, l: seq<T>, r: seq<T>, b: seq<T>)
    ensures a + (l + r) + b == (a + l) + (r + b)
  {
  }

  /** Regrouping five texts. */
  lemma Assoc5<T>(a: seq<T>, l: seq<T>, x: seq<T>, r: seq<T>, b: seq<T>)
    ensures a + (l + x + r) + b == (a + l) + x + (r + b)
  {
  }

  /** The operations `inserted` builds, applied to the pieces `s`, insert
      `str` into their text at `index`, given where the seek landed. */
  lemma InsertedText(index: nat, str: string, s: seq<string>, k: nat, summary: nat, value: Option<string>,
                     ops: seq<Op<string>>, s': seq<string>)
    requires k <= |s| && summary == Sum(PieceLength, s[..k])
    requires value.None? ==> k == |s| && index >= Sum(PieceLength, s)
    requires value.Some? ==> k < |s| && value.value == s[k] &&
                             Dir(PieceLength, Finder(index), s, k) == Equal
    requires value.None? ==> ops == [Ins(k, str)]
    requires value.Some? && index == summary + |value.value| ==> ops == [Ins(k + 1, str)]
    requires value.Some? && index != summary + |value.value| && index == summary ==> ops == [Ins(k, str)]
    requires value.Some? && index != summary + |value.value| && index != summary ==>
             index >= summary &&
             ops == [Sub(k, value.value[index - summary..]), Ins(k, str), Ins(k, value.value[..index - summary])]
    requires s' == ApplyOps(s, ops)
    ensures var t, p := Concat(s), Min(index, |Concat(s)|); Concat(s') == t[..p] + str + t[p..]
  {
    ConcatLength(s);
    TextSplit(s, k);
    if value.None? {
      assert s[..k] == s;
      InsertAtPiece(s, k, str, summary);
    } else {
      var v := value.value;
      assert summary <= index <= summary + |v|;
      SumPrefix(PieceLength, s, k);
      assert Sum(PieceLength, s[..k + 1]) <= Sum(PieceLength, s) by {
        SumPrefixGrows(s, k + 1, |s|);
        assert s[..|s|] == s;
      }
      if index == summary + |v| {
        AroundPiece(s, k);
        InsertAtPiece(s, k + 1, str, index);
      } else if index == summary {
        InsertAtPiece(s, k, str, index);
      } else {
        SplitAtPiece(s, k, str, index - summary, index);
      }
    }
  }
}
