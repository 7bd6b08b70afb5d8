/** Python's comparison of strings and the part of `sorted` that does not depend on
  * the sorting algorithm: the result is the sorted rearrangement of the input.
  */
module Ordering {
  import opened Seqs

  /** `a <= b` on Python strings: lexicographic by code point. */
  predicate Leq(a: string, b: string) {
    a == "" || (b != "" && (a[0] < b[0] || (a[0] == b[0] && Leq(a[1..], b[1..]))))
  }

  lemma {:induction false} LeqReflexive(a: string)
    ensures Leq(a, a)
  {
    if a != "" { LeqReflexive(a[1..]); }
  }

  lemma {:induction false} LeqTotal(a: string, b: string)
    ensures Leq(a, b) || Leq(b, a)
  {
    if a != "" && b != "" && a[0] == b[0] { LeqTotal(a[1..], b[1..]); }
  }

  lemma {:induction false} LeqAntisymmetric(a: string, b: string)
    requires Leq(a, b) && Leq(b, a)
    ensures a == b
  {
    if a != "" {
      LeqAntisymmetric(a[1..], b[1..]);
      assert a == [a[0]] + a[1..] && b == [b[0]] + b[1..];
    }
  }

  lemma {:induction false} LeqTransitive(a: string, b: string, c: string)
    requires Leq(a, b) && Leq(b, c)
    ensures Leq(a, c)
  {
    if a != "" && a[0] == b[0] == c[0] { LeqTransitive(a[1..], b[1..], c[1..]); }
  }

  /** A string never sorts after one of its extensions. */
  lemma {:induction false} PrefixLeq(a: string, b: string)
    requires a <= b
    ensures Leq(a, b)
  {
    if a != "" { PrefixLeq(a[1..], b[1..]); }
  }

  /** The first difference decides. */
  lemma {:induction false} LeqFirstDifference(common: string, a: string, b: string)
    requires a != "" && b != "" && a[0] != b[0]
    ensures Leq(common + a, common + b) <==> a[0] < b[0]
  {
    if common == "" {
      AppendNil(a);
      AppendNil(b);
    } else {
      TailOfAppend(common, a);
      TailOfAppend(common, b);
      LeqFirstDifference(common[1..], a, b);
    }
  }

  // ---------------------------------------------------------------- sorting

  ghost predicate TotalOrder<T(!new)>(le: (T, T) -> bool) {
    && (forall a, b :: le(a, b) || le(b, a))
    && (forall a, b, c :: le(a, b) && le(b, c) ==> le(a, c))
  }

  ghost predicate SortedBy<T>(s: seq<T>, le: (T, T) -> bool) {
    forall i, j :: 0 <= i < j < |s| ==> le(s[i], s[j])
  }

  function Insert<T>(x: T, s: seq<T>, le: (T, T) -> bool): seq<T> {
    if s == [] then [x]
    else if le(x, s[0]) then [x] + s
    else [s[0]] + Insert(x, s[1..], le)
  }

  /** Python's `sorted(s)`, as a stable insertion sort. */
  function Sort<T>(s: seq<T>, le: (T, T) -> bool): seq<T> {
    if s == [] then [] else Insert(s[0], Sort(s[1..], le), le)
  }

  lemma {:induction false} InsertMultiset<T>(x: T, s: seq<T>, le: (T, T) -> bool)
    ensures multiset(Insert(x, s, le)) == multiset{x} + multiset(s)
  {
    if s != [] {
      HeadTail(s);
      if !le(x, s[0]) { InsertMultiset(x, s[1..], le); }
    }
  }

  lemma {:induction false} InsertSorted<T(!new)>(x: T, s: seq<T>, le: (T, T) -> bool)
    requires TotalOrder(le) && SortedBy(s, le)
    ensures SortedBy(Insert(x, s, le), le)
  {
    if s != [] && !le(x, s[0]) {
      InsertSorted(x, s[1..], le);
      var r := Insert(x, s[1..], le);
      InsertMultiset(x, s[1..], le);
      forall i | 0 <= i < |r| ensures le(s[0], r[i]) {
        assert r[i] in multiset(r);
        assert r[i] == x || r[i] in s[1..];
      }
    }
  }

  lemma {:induction false} SortMultiset<T>(s: seq<T>, le: (T, T) -> bool)
    ensures multiset(Sort(s, le)) == multiset(s)
  {
    if s != [] {
      SortMultiset(s[1..], le);
      InsertMultiset(s[0], Sort(s[1..], le), le);
      HeadTail(s);
    }
  }

  lemma SameMultiset<T>(a: seq<T>, b: seq<T>)
    requires multiset(a) == multiset(b)
    ensures |a| == |b| && forall x :: x in a <==> x in b
  {
    assert |multiset(a)| == |a| && |multiset(b)| == |b|;
    forall x ensures x in a <==> x in b {
      assert x in multiset(a) <==> x in multiset(b);
    }
  }

  lemma {:induction false} SortSorts<T(!new)>(s: seq<T>, le: (T, T) -> bool)
    requires TotalOrder(le)
    ensures SortedBy(Sort(s, le), le)
    ensures multiset(Sort(s, le)) == multiset(s)
    ensures |Sort(s, le)| == |s|
    ensures forall x :: x in Sort(s, le) <==> x in s
  {
    if s != [] {
      SortSorts(s[1..], le);
      InsertSorted(s[0], Sort(s[1..], le), le);
    }
    SortMultiset(s, le);
    SameMultiset(Sort(s, le), s);
  }

  lemma HeadIsLeast<T>(a: seq<T>, x: T, le: (T, T) -> bool)
    requires SortedBy(a, le) && x in a
    ensures a[0] == x || le(a[0], x)
  {
    var i :| 0 <= i < |a| && a[i] == x;
  }

  /** With an antisymmetric order there is only one sorted rearrangement. */
  lemma {:induction false} SortedUnique<T>(a: seq<T>, b: seq<T>, le: (T, T) -> bool)
    requires SortedBy(a, le) && SortedBy(b, le)
    requires multiset(a) == multiset(b)
    requires forall x, y :: x in a && y in a && le(x, y) && le(y, x) ==> x == y
    ensures a == b
  {
    SameMultiset(a, b);
    if a != [] {
      HeadIsLeast(a, b[0], le);
      HeadIsLeast(b, a[0], le);
      TailMultiset(a, b);
      SortedUnique(a[1..], b[1..], le);
      HeadTail(a);
      HeadTail(b);
    }
  }

  lemma TailMultiset<T>(a: seq<T>, b: seq<T>)
    requires a != [] && b != [] && a[0] == b[0] && multiset(a) == multiset(b)
    ensures multiset(a[1..]) == multiset(b[1..])
  {
    HeadTail(a);
    HeadTail(b);
    assert multiset(a[1..]) == multiset(a) - multiset{a[0]};
    assert multiset(b[1..]) == multiset(b) - multiset{b[0]};
  }

  lemma LeqTotalOrder()
    ensures TotalOrder(Leq)
  {
    forall a, b ensures Leq(a, b) || Leq(b, a) { LeqTotal(a, b); }
    forall a, b, c | Leq(a, b) && Leq(b, c) ensures Leq(a, c) { LeqTransitive(a, b, c); }
  }

  /** Python's `sorted` on a list of strings. */
  function SortStrings(s: seq<string>): seq<string> {
    Sort(s, Leq)
  }

  lemma SortStringsSorts(s: seq<string>)
    ensures SortedBy(SortStrings(s), Leq)
    ensures multiset(SortStrings(s)) == multiset(s)
    ensures |SortStrings(s)| == |s|
    ensures forall x :: x in SortStrings(s) <==> x in s
  {
    LeqTotalOrder();
    SortSorts(s, Leq);
  }

  ghost predicate NoDup<T>(s: seq<T>) {
    forall i, j :: 0 <= i < j < |s| ==> s[i] != s[j]
  }

  /** A list after `list.remove(x)` of a value it may contain. */
  function Without<T(==)>(s: seq<T>, x: T): seq<T> {
    if s == [] then [] else if s[0] == x then s[1..] else [s[0]] + Without(s[1..], x)
  }

  lemma {:induction false} WithoutMembers<T>(s: seq<T>, x: T)
    requires NoDup(s)
    ensures forall y :: y in Without(s, x) <==> y in s && y != x
  {
    if s != [] {
      HeadTail(s);
      assert s[0] !in s[1..];
      if s[0] != x { WithoutMembers(s[1..], x); }
    }
  }

  lemma WithoutMember<T>(s: seq<T>, x: T, y: T)
    requires NoDup(s) && y in Without(s, x)
    ensures y in s && y != x
  {
    WithoutMembers(s, x);
  }

  lemma {:induction false} WithoutSpec<T>(s: seq<T>, x: T, le: (T, T) -> bool)
    requires NoDup(s)
    ensures NoDup(Without(s, x))
    ensures forall y :: y in Without(s, x) <==> y in s && y != x
    ensures SortedBy(s, le) ==> SortedBy(Without(s, x), le)
  {
    WithoutMembers(s, x);
    if s != [] && s[0] != x {
      var w := Without(s[1..], x);
      WithoutSpec(s[1..], x, le);
      forall i | 0 <= i < |w| ensures s[0] != w[i] && (SortedBy(s, le) ==> le(s[0], w[i])) {
        var y: T := w[i];
        WithoutMember(s[1..], x, y);
        var j :| 0 <= j < |s[1..]| && s[1..][j] == y;
        assert s[j + 1] == y;
      }
    }
  }

  lemma {:induction false} WithoutAt<T>(s: seq<T>, i: nat)
    requires i < |s| && forall j :: 0 <= j < i ==> s[j] != s[i]
    ensures Without(s, s[i]) == s[..i] + s[i + 1..]
  {
    if i > 0 {
      assert s[1..][i - 1] == s[i];
      WithoutAt(s[1..], i - 1);
      assert [s[0]] + (s[1..][..i - 1] + s[1..][i..]) == s[..i] + s[i + 1..];
    }
  }
}
