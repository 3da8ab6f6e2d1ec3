/** A sorted list of integers with logarithmic insertions, kept as a
    copy-on-write list whose seek compares the new value with the values in
    the list (examples/sorted-cow-list.ts). */
module SortedCowLists {
  import opened Common
  import opened BinTreeIter
  import opened AvlLists

  /** `int3wayComparision(v1)(v2)`: BEFORE when `v1` is smaller, AFTER when
      it is larger, EQUAL otherwise. */
  function Int3wayComparison(v1: nat, v2: nat): (o: Ordering)
    ensures o == Before <==> v1 < v2
    ensures o == After <==> v1 > v2
    ensures o == Equal <==> v1 == v2
  {
    if v1 < v2 then Before else if v1 > v2 then After else Equal
  }

  /** The default weight of a number: one. */
  function One(v: nat): nat
  {
    1
  }

  /** The pathfinder of `inserted(value)`: the comparison of `value` with
      the value of each node, whatever the summary. */
  function Comparator(value: nat): (f: (nat, nat) -> Ordering)
    ensures forall v: nat, summary: nat :: f(v, summary) == Before <==> value < v
    ensures forall v: nat, summary: nat :: f(v, summary) == After <==> value > v
    ensures forall v: nat, summary: nat :: f(v, summary) == Equal <==> value == v
  {
    (v: nat, summary: nat) => Int3wayComparison(value, v)
  }

  ghost predicate Sorted(s: seq<nat>)
  {
    forall i, j :: 0 <= i < j < |s| ==> s[i] <= s[j]
  }

  /** Along a sorted sequence, the comparator answers AFTER on the values
      below `value`, EQUAL on those equal to it, BEFORE on those above. */
  lemma ComparatorMonotone(value: nat, s: seq<nat>)
    requires Sorted(s)
    ensures Monotone(One, Comparator(value), s)
  {
    forall i, j | 0 <= i < j < |s|
      ensures Order(Dir(One, Comparator(value), s, i)) <= Order(Dir(One, Comparator(value), s, j))
    {
      assert Dir(One, Comparator(value), s, i) == Int3wayComparison(value, s[i]);
      assert Dir(One, Comparator(value), s, j) == Int3wayComparison(value, s[j]);
    }
  }

  /** Where the seek of `inserted(value)` lands in a sorted sequence, the
      values before it are at most `value` and those from it on at least
      `value`. */
  lemma ComparatorLands(value: nat, s: seq<nat>, k: nat, done: bool)
    requires Sorted(s)
    requires SeekResult(One, Comparator(value), s, false, k, done)
    ensures k <= |s|
    ensures forall i :: 0 <= i < k ==> s[i] <= value
    ensures forall i :: k <= i < |s| ==> value <= s[i]
  {
    ComparatorMonotone(value, s);
    var f := Comparator(value);
    if HasEqual(One, f, s) {
      assert Dir(One, f, s, k) == Int3wayComparison(value, s[k]);
    } else {
      forall i | 0 <= i < k
        ensures s[i] <= value
      {
        assert Dir(One, f, s, i) == After;
      }
      forall i | k <= i < |s|
        ensures value <= s[i]
      {
        assert Dir(One, f, s, i) == Before;
      }
    }
  }

  /** A value put between the values at most it and those at least it
      keeps the sequence sorted, and adds just that value. */
  lemma InsertKeepsSorted(s: seq<nat>, k: nat, value: nat)
    requires Sorted(s) && k <= |s|
    requires forall i :: 0 <= i < k ==> s[i] <= value
    requires forall i :: k <= i < |s| ==> value <= s[i]
    ensures SeqInsert(s, k, value) == s[..k] + [value] + s[k..]
    ensures Sorted(SeqInsert(s, k, value))
    ensures multiset(SeqInsert(s, k, value)) == multiset(s) + multiset{value}
  {
    var t := SeqInsert(s, k, value);
    assert t == s[..k] + [value] + s[k..];
    forall i, j | 0 <= i < j < |t|
      ensures t[i] <= t[j]
    {
      if j < k || i > k {
      } else if i == k {
        assert t[j] == s[j - 1];
      } else if j == k {
        assert t[i] == s[i];
      } else {
        assert t[i] == s[i] && t[j] == s[j - 1];
      }
    }
    assert s == s[..k] + s[k..];
  }

  /** The minimum of a non-empty sorted sequence is its first value. */
  lemma FirstIsLeast(a: seq<nat>, v: nat)
    requires Sorted(a) && v in multiset(a)
    ensures a[0] <= v
  {
    var j :| 0 <= j < |a| && a[j] == v;
  }

  /** Without its first value, a sequence loses one occurrence of that
      value and stays sorted. */
  lemma Tail(a: seq<nat>)
    requires Sorted(a) && a != []
    ensures a == [a[0]] + a[1..] && Sorted(a[1..])
    ensures multiset(a[1..]) == multiset(a) - multiset{a[0]}
    ensures |multiset(a)| == |a| && a[0] in multiset(a)
  {
    assert a == [a[0]] + a[1..];
  }

  /** A sorted sequence is determined by its values: two sorted sequences
      with the same multiset of values are the same sequence. */
  lemma {:induction false} SortedUnique(a: seq<nat>, b: seq<nat>)
    requires Sorted(a) && Sorted(b) && multiset(a) == multiset(b)
    ensures a == b
    decreases |a|
  {
    if a == [] {
      assert |b| == |multiset(b)| == 0;
    } else {
      assert b != [] by {
        assert |b| == |multiset(b)|;
      }
      Tail(a);
      Tail(b);
      assert a[0] == b[0] by {
        FirstIsLeast(a, b[0]);
        FirstIsLeast(b, a[0]);
      }
      var a', b' := a[1..], b[1..];
      SortedUnique(a', b');
      assert a == [a[0]] + a' && b == [b[0]] + b';
    }
  }

  /** A sorted list of integers. */
  class SortedCowList {
    const repr: AvlList<nat>

    ghost predicate Valid()
      reads this, repr
    {
      repr.Valid() && repr.weight == One && Sorted(repr.Elems())
    }

    /** The values of the list, in order. */
    ghost function Elems(): seq<nat>
      reads this, repr
    {
      repr.Elems()
    }

    constructor (repr: AvlList<nat>)
      ensures this.repr == repr
    {
      this.repr := repr;
    }

    /** `empty`: the list without values. */
    static method Empty() returns (l: SortedCowList)
      ensures fresh(l) && fresh(l.repr) && l.Valid() && l.Elems() == []
    {
      var r := AvlList.Empty(One);
      l := new SortedCowList(r);
    }

    /** `length`: the number of values. */
    function Length(): (n: nat)
      reads this, repr
      requires Valid()
      ensures n == |Elems()|
    {
      repr.Length()
    }

    /** `toArray`: the values, in ascending order. */
    function ToArray(): (a: seq<nat>)
      reads this, repr
      requires Valid()
      ensures a == Elems() && Sorted(a)
    {
      repr.ToArray()
    }

    /** `inserted(value)`: a new list holding the receiver's values and
        `value`, still sorted, with `value` placed between the values at
        most it and those at least it. The receiver is left as it is. */
    method Inserted(value: nat) returns (r: SortedCowList)
      requires Valid()
      ensures fresh(r) && fresh(r.repr) && r.Valid()
      ensures multiset(r.Elems()) == multiset(Elems()) + multiset{value}
      ensures exists k :: 0 <= k <= |Elems()| && r.Elems() == Elems()[..k] + [value] + Elems()[k..]
    {
      ghost var s := repr.Elems();
      var it := repr.AtEqual(Comparator(value), false);
      ComparatorLands(value, s, it.index, it.done);
      InsertKeepsSorted(s, it.index, value);
      var l := repr.Inserted(it.index, value);
      r := new SortedCowList(l);
    }
  }

  /** Two insertions into the same sorted list give the same list whatever
      their order. */
  lemma InsertionsCommute(s: seq<nat>, t1: seq<nat>, t2: seq<nat>, u1: seq<nat>, u2: seq<nat>, x: nat, y: nat)
    requires Sorted(u1) && multiset(u1) == multiset(t1) + multiset{y} && multiset(t1) == multiset(s) + multiset{x}
    requires Sorted(u2) && multiset(u2) == multiset(t2) + multiset{x} && multiset(t2) == multiset(s) + multiset{y}
    ensures u1 == u2
  {
    SortedUnique(u1, u2);
  }
}
