/** Sorting kernel arguments as (key, value) tuples, where a missing value cannot be compared with
  * a string.
  */
module ArgOrder {
  import opened Wrappers
  import opened Seqs
  import opened Ordering

  /** A single kernel argument: `key` or `key=value`. */
  type Pair = (string, Option<string>)

  // ---------------------------------------------------------------- the order

  predicate ValueLeq(a: Option<string>, b: Option<string>) {
    a.None? || (b.Some? && Leq(a.value, b.value))
  }

  /** The order of (key, value) tuples, with a missing value before all others. */
  predicate PairLeq(a: Pair, b: Pair) {
    if a.0 == b.0 then ValueLeq(a.1, b.1) else Leq(a.0, b.0)
  }

  /** A key occurs with and without a value. */
  predicate Mixed(flat: seq<Pair>) {
    exists i, j :: 0 <= i < |flat| && 0 <= j < |flat| && flat[i].0 == flat[j].0 && flat[i].1.None? && flat[j].1.Some?
  }

  lemma PairLeqTotalOrder()
    ensures TotalOrder(PairLeq)
  {
    forall a: Pair, b: Pair ensures PairLeq(a, b) || PairLeq(b, a) {
      LeqTotal(a.0, b.0);
      if a.1.Some? && b.1.Some? { LeqTotal(a.1.value, b.1.value); }
    }
    forall a: Pair, b: Pair, c: Pair | PairLeq(a, b) && PairLeq(b, c) ensures PairLeq(a, c) {
      PairLeqTransitive(a, b, c);
    }
  }

  lemma PairLeqTransitive(a: Pair, b: Pair, c: Pair)
    requires PairLeq(a, b) && PairLeq(b, c)
    ensures PairLeq(a, c)
  {
    if a.0 == b.0 == c.0 {
      if a.1.Some? { LeqTransitive(a.1.value, b.1.value, c.1.value); }
    } else if a.0 == c.0 {
      LeqAntisymmetric(a.0, b.0);
    } else if a.0 != b.0 && b.0 != c.0 {
      LeqTransitive(a.0, b.0, c.0);
    }
  }

  lemma PairLeqAntisymmetric(a: Pair, b: Pair)
    requires PairLeq(a, b) && PairLeq(b, a)
    ensures a == b
  {
    if a.0 != b.0 {
      LeqAntisymmetric(a.0, b.0);
    } else if a.1.Some? {
      LeqAntisymmetric(a.1.value, b.1.value);
    }
  }

  lemma MixedOfMembers(a: seq<Pair>, b: seq<Pair>)
    requires multiset(a) == multiset(b)
    ensures Mixed(a) ==> Mixed(b)
  {
    if Mixed(a) {
      var i, j :| 0 <= i < |a| && 0 <= j < |a| && a[i].0 == a[j].0 && a[i].1.None? && a[j].1.Some?;
      assert a[i] in multiset(b) && a[j] in multiset(b);
      var i' :| 0 <= i' < |b| && b[i'] == a[i];
      var j' :| 0 <= j' < |b| && b[j'] == a[j];
    }
  }

  // ---------------------------------------------------------------- a sort that can fail

  /** Python's `p < q` on tuples; `None` is the `TypeError` for `None < str` or `str < None`. */
  function TryLess(p: Pair, q: Pair): Option<bool> {
    if p.0 != q.0 then Some(Leq(p.0, q.0))
    else if p.1 == q.1 then Some(false)
    else if p.1.None? || q.1.None? then None
    else Some(Leq(p.1.value, q.1.value))
  }

  function TryInsert(p: Pair, s: seq<Pair>): Option<seq<Pair>> {
    if s == [] then Some([p])
    else
      var less := TryLess(s[0], p);
      if less.None? then None
      else if !less.value then Some([p] + s)
      else
        var rest := TryInsert(p, s[1..]);
        if rest.None? then None else Some([s[0]] + rest.value)
  }

  /** `sorted(s)`, as a stable insertion sort that ends with the first comparison that raises. */
  function TrySort(s: seq<Pair>): Option<seq<Pair>> {
    if s == [] then Some([])
    else
      var rest := TrySort(s[1..]);
      if rest.None? then None else TryInsert(s[0], rest.value)
  }

  ghost predicate Comparable(p: Pair, q: Pair) {
    p.0 == q.0 ==> (p.1.None? <==> q.1.None?)
  }

  lemma TryLessSpec(p: Pair, q: Pair)
    ensures TryLess(p, q).Some? <==> Comparable(p, q)
    ensures TryLess(p, q).Some? ==> TryLess(p, q).value == !PairLeq(q, p)
  {
    LeqTotal(p.0, q.0);
    if p.0 != q.0 {
      if Leq(p.0, q.0) && Leq(q.0, p.0) { LeqAntisymmetric(p.0, q.0); }
    } else if p.1.Some? && q.1.Some? {
      LeqTotal(p.1.value, q.1.value);
      if p.1 != q.1 && Leq(p.1.value, q.1.value) && Leq(q.1.value, p.1.value) {
        LeqAntisymmetric(p.1.value, q.1.value);
      }
      LeqReflexive(p.1.value);
    }
  }

  lemma MixedIff(s: seq<Pair>)
    ensures !Mixed(s) <==> forall p, q :: p in s && q in s ==> Comparable(p, q)
  {
    if i, j :| 0 <= i < |s| && 0 <= j < |s| && s[i].0 == s[j].0 && s[i].1.None? && s[j].1.Some? {
      assert s[i] in s && s[j] in s && !Comparable(s[i], s[j]);
    }
    if p, q :| p in s && q in s && !Comparable(p, q) {
      var i :| 0 <= i < |s| && s[i] == p;
      var j :| 0 <= j < |s| && s[j] == q;
      assert if p.1.None? then s[i].1.None? && s[j].1.Some? else s[j].1.None? && s[i].1.Some?;
    }
  }

  /** Inserting into a sorted list fails exactly if the new argument has no place in it. */
  lemma {:induction false} TryInsertSpec(p: Pair, s: seq<Pair>)
    requires SortedBy(s, PairLeq) && !Mixed(s)
    ensures TryInsert(p, s) == if (forall q :: q in s ==> Comparable(p, q)) then Some(Insert(p, s, PairLeq)) else None
  {
    hide PairLeq, TryLess, Mixed, Comparable;
    if s != [] {
      HeadTail(s);
      MixedIff(s);
      MixedIff(s[1..]);
      TryLessSpec(s[0], p);
      ComparableSymmetric(s[0], p);
      SortedRest(s);
      TryInsertSpec(p, s[1..]);
      forall q | q in s && !Comparable(p, q) && Comparable(s[0], p) ensures !PairLeq(p, s[0]) {
        SmallerKey(s, p, q);
      }
    }
  }

  lemma ComparableSymmetric(p: Pair, q: Pair)
    ensures Comparable(p, q) <==> Comparable(q, p)
  {
  }

  lemma SortedRest(s: seq<Pair>)
    requires s != [] && SortedBy(s, PairLeq)
    ensures SortedBy(s[1..], PairLeq)
  {
  }

  /** The scan for a place gets to the argument that cannot be compared. */
  lemma SmallerKey(s: seq<Pair>, p: Pair, q: Pair)
    requires s != [] && SortedBy(s, PairLeq) && q in s && !Comparable(p, q)
    requires Comparable(s[0], p) && Comparable(s[0], q)
    ensures !PairLeq(p, s[0])
  {
    hide SortedBy;
    HeadIsLeast(s, q, PairLeq);
    if PairLeq(p, s[0]) && PairLeq(s[0], q) { LeqAntisymmetric(p.0, s[0].0); }
  }

  /** The sort raises exactly if a key occurs with and without a value, and sorts otherwise. */
  lemma {:induction false} TrySortRaisesIffMixed(s: seq<Pair>)
    ensures TrySort(s) == if Mixed(s) then None else Some(Sort(s, PairLeq))
  {
    hide PairLeq, Mixed, TryInsert, Insert, Comparable;
    MixedIff(s);
    if s != [] {
      HeadTail(s);
      var rest := s[1..];
      MixedIff(rest);
      TrySortRaisesIffMixed(rest);
      PairLeqTotalOrder();
      SortSorts(rest, PairLeq);
      MixedIff(Sort(rest, PairLeq));
      if !Mixed(rest) {
        TryInsertSpec(s[0], Sort(rest, PairLeq));
        forall q { ComparableSymmetric(s[0], q); }
        ComparableSelf(s[0]);
      }
    }
  }

  lemma ComparableSelf(p: Pair)
    ensures Comparable(p, p)
  {
  }

  // ---------------------------------------------------------------- any other way to sort

  /** A program that sorts `n` items by asking whether one is less than another: at the end it
    * names the items in their new order.
    */
  datatype Sorter = Done(order: seq<nat>) | Ask(i: nat, j: nat, yes: Sorter, no: Sorter)

  ghost predicate Fits(sorter: Sorter, n: nat) {
    match sorter
    case Done(order) => forall k :: 0 <= k < |order| ==> order[k] < n
    case Ask(i, j, yes, no) => i < n && j < n && Fits(yes, n) && Fits(no, n)
  }

  /** The order it arrives at, or `None` if one of its comparisons raises. */
  ghost function OrderFor(sorter: Sorter, s: seq<Pair>): (r: Option<seq<nat>>)
    requires Fits(sorter, |s|)
    ensures r.Some? ==> forall k :: 0 <= k < |r.value| ==> r.value[k] < |s|
  {
    match sorter
    case Done(order) => Some(order)
    case Ask(i, j, yes, no) =>
      var less := TryLess(s[i], s[j]);
      if less.None? then None else if less.value then OrderFor(yes, s) else OrderFor(no, s)
  }

  function Pick(s: seq<Pair>, order: seq<nat>): seq<Pair>
    requires forall k :: 0 <= k < |order| ==> order[k] < |s|
  {
    seq(|order|, k requires 0 <= k < |order| => s[order[k]])
  }

  /** It sorts every list of `n` arguments that can be compared. */
  ghost predicate Sorts(sorter: Sorter, n: nat) {
    && Fits(sorter, n)
    && forall s: seq<Pair> :: |s| == n && !Mixed(s) ==>
         OrderFor(sorter, s).Some? && Pick(s, OrderFor(sorter, s).value) == Sort(s, PairLeq)
  }

  /** A copy of a list in which no value is missing: a mark stands for the missing ones. */
  function Stamped(p: Pair, mark: string): Pair {
    (p.0, Some(if p.1.None? then mark else "b" + p.1.value))
  }

  function Stamp(s: seq<Pair>, mark: string): seq<Pair> {
    seq(|s|, k requires 0 <= k < |s| => Stamped(s[k], mark))
  }

  lemma StampKeepsAnswers(p: Pair, q: Pair, mark: string)
    requires TryLess(p, q).Some?
    ensures TryLess(Stamped(p, mark), Stamped(q, mark)) == TryLess(p, q)
  {
    if p.0 == q.0 && p.1.Some? {
      var v, w := p.1.value, q.1.value;
      TailOfCons('b', v);
      TailOfCons('b', w);
      assert ("b" + v)[1..] == v && ("b" + w)[1..] == w;
    }
  }

  lemma {:induction false} StampKeepsOrder(sorter: Sorter, s: seq<Pair>, mark: string)
    requires Fits(sorter, |s|) && OrderFor(sorter, s).Some?
    ensures OrderFor(sorter, Stamp(s, mark)) == OrderFor(sorter, s)
  {
    match sorter
    case Done(_) =>
    case Ask(i, j, yes, no) =>
      StampKeepsAnswers(s[i], s[j], mark);
      StampKeepsOrder(if TryLess(s[i], s[j]).value then yes else no, s, mark);
  }

  /** Where an argument went. */
  lemma Placed(s: seq<Pair>, order: seq<nat>, mark: string, p: Pair) returns (k: nat)
    requires forall k :: 0 <= k < |order| ==> order[k] < |s|
    requires Pick(Stamp(s, mark), order) == Sort(Stamp(s, mark), PairLeq) && p in s
    requires mark == "a"
    ensures k < |order| && s[order[k]] == p
  {
    var stamped := Stamp(s, mark);
    var i :| 0 <= i < |s| && s[i] == p;
    assert stamped[i] in stamped;
    PairLeqTotalOrder();
    SortSorts(stamped, PairLeq);
    assert stamped[i] in Pick(stamped, order);
    k :| 0 <= k < |order| && Pick(stamped, order)[k] == stamped[i];
    StampInjective(s[order[k]], p);
  }

  lemma StampInjective(p: Pair, q: Pair)
    ensures Stamped(p, "a") == Stamped(q, "a") ==> p == q
  {
    assert "a"[0] == 'a';
    forall r: Pair | r.1.Some?
      ensures Stamped(r, "a").1.value[0] == 'b' && Stamped(r, "a").1.value[1..] == r.1.value
    {
      TailOfCons('b', r.1.value);
    }
  }

  lemma StampIsComparable(s: seq<Pair>, mark: string)
    ensures !Mixed(Stamp(s, mark))
  {
  }

  /** Whatever way of sorting by comparisons is used: if it sorts what can be compared, it raises
    * on exactly the lists on which the insertion sort does, because without comparing a missing
    * value with a string of the same key it cannot know which of them comes first.
    */
  lemma EverySorterRaisesIffMixed(sorter: Sorter, s: seq<Pair>)
    requires Sorts(sorter, |s|)
    ensures OrderFor(sorter, s).None? <==> Mixed(s)
    ensures OrderFor(sorter, s).Some? ==> TrySort(s) == Some(Pick(s, OrderFor(sorter, s).value))
  {
    hide PairLeq, Fits, OrderFor, Sort, TryLess;
    TrySortRaisesIffMixed(s);
    if Mixed(s) && OrderFor(sorter, s).Some? {
      var i, j :| 0 <= i < |s| && 0 <= j < |s| && s[i].0 == s[j].0 && s[i].1.None? && s[j].1.Some?;
      var order, low, high := OrderFor(sorter, s).value, Stamp(s, "a"), Stamp(s, "c");
      StampKeepsOrder(sorter, s, "a");
      StampKeepsOrder(sorter, s, "c");
      StampIsComparable(s, "a");
      StampIsComparable(s, "c");
      var x := Placed(s, order, "a", s[i]);
      var y := Placed(s, order, "a", s[j]);
      PairLeqTotalOrder();
      SortSorts(low, PairLeq);
      SortSorts(high, PairLeq);
      MarkPlace(Pick(low, order), "a", x, y, s[i], s[j]);
      MarkPlace(Pick(high, order), "c", x, y, s[i], s[j]);
    }
  }

  /** A sorted list tells whether the mark comes before the values. */
  lemma MarkPlace(r: seq<Pair>, mark: string, x: nat, y: nat, p: Pair, q: Pair)
    requires SortedBy(r, PairLeq) && x < |r| && y < |r| && p.0 == q.0 && p.1.None? && q.1.Some?
    requires mark == "a" || mark == "c"
    requires r[x] == Stamped(p, mark) && r[y] == Stamped(q, mark)
    ensures x < y <==> mark == "a"
  {
    var v := "b" + q.1.value;
    assert v[0] == 'b' && "a"[0] == 'a' && "c"[0] == 'c';
    assert PairLeq(r[x], r[y]) <==> mark == "a";
    assert PairLeq(r[y], r[x]) <==> mark == "c";
  }

  // ---------------------------------------------------------------- there is such a program

  /** Finds the place of item `|done|` among the items already in order, from place `at`. */
  ghost function InsertionSorter(done: seq<nat>, at: nat, n: nat): Sorter
    requires |done| <= n && at <= |done|
    decreases n - |done|, |done| - at
  {
    if |done| == n then Done(done)
    else if at == |done| then InsertionSorter(done + [|done|], 0, n)
    else Ask(done[at], |done|, InsertionSorter(done, at + 1, n),
             InsertionSorter(done[..at] + [|done|] + done[at..], 0, n))
  }

  ghost predicate Known(done: seq<nat>, n: nat) {
    |done| <= n && forall k :: 0 <= k < |done| ==> done[k] < |done|
  }

  lemma {:induction false} InsertionFits(done: seq<nat>, at: nat, n: nat)
    requires Known(done, n) && at <= |done|
    ensures Fits(InsertionSorter(done, at, n), n)
    decreases n - |done|, |done| - at
  {
    if |done| < n {
      if at == |done| {
        InsertionFits(done + [|done|], 0, n);
      } else {
        InsertionFits(done, at + 1, n);
        InsertionFits(done[..at] + [|done|] + done[at..], 0, n);
      }
    }
  }

  lemma PickInsert(s: seq<Pair>, done: seq<nat>, at: nat)
    requires |done| < |s| && Known(done, |s|) && at <= |done|
    ensures Known(done[..at] + [|done|] + done[at..], |s|)
    ensures Pick(s, done[..at] + [|done|] + done[at..]) == Pick(s, done)[..at] + [s[|done|]] + Pick(s, done)[at..]
  {
  }

  /** One more item in its place. */
  lemma InsertedAt(done: seq<nat>, at: nat, s: seq<Pair>)
    requires Known(done, |s|) && |done| < |s| && at <= |done|
    requires SortedBy(Pick(s, done), PairLeq) && multiset(Pick(s, done)) == multiset(s[..|done|])
    requires forall k :: 0 <= k < at ==> PairLeq(Pick(s, done)[k], s[|done|])
    requires at < |done| ==> PairLeq(s[|done|], Pick(s, done)[at])
    ensures var more := done[..at] + [|done|] + done[at..];
            && Known(more, |s|) && SortedBy(Pick(s, more), PairLeq)
            && multiset(Pick(s, more)) == multiset(s[..|more|])
  {
    hide PairLeq;
    var p, picked := s[|done|], Pick(s, done);
    PickInsert(s, done, at);
    Between(picked, at, p);
    assert s[..|done| + 1] == s[..|done|] + [p];
    assert picked == picked[..at] + picked[at..];
  }

  lemma {:induction false} InsertionSorts(done: seq<nat>, at: nat, s: seq<Pair>)
    requires Known(done, |s|) && at <= |done| && !Mixed(s)
    requires SortedBy(Pick(s, done), PairLeq) && multiset(Pick(s, done)) == multiset(s[..|done|])
    requires |done| < |s| ==> forall k :: 0 <= k < at ==> PairLeq(Pick(s, done)[k], s[|done|])
    ensures Fits(InsertionSorter(done, at, |s|), |s|)
    ensures var r := OrderFor(InsertionSorter(done, at, |s|), s);
            r.Some? && SortedBy(Pick(s, r.value), PairLeq) && multiset(Pick(s, r.value)) == multiset(s)
    decreases |s| - |done|, |done| - at
  {
    hide PairLeq, TryLess, Mixed, SortedBy, Comparable;
    InsertionFits(done, at, |s|);
    if |done| == |s| {
      assert s[..|done|] == s;
    } else if at == |done| {
      InsertedAt(done, at, s);
      assert done[..at] + [|done|] + done[at..] == done + [|done|];
      InsertionSorts(done + [|done|], 0, s);
    } else {
      MixedIff(s);
      TryLessSpec(s[done[at]], s[|done|]);
      if PairLeq(s[|done|], s[done[at]]) {
        InsertedAt(done, at, s);
        InsertionSorts(done[..at] + [|done|] + done[at..], 0, s);
      } else {
        PairLeqTotalOrder();
        InsertionSorts(done, at + 1, s);
      }
    }
  }

  lemma Between(s: seq<Pair>, at: nat, p: Pair)
    requires at <= |s| && SortedBy(s, PairLeq) && (at < |s| ==> PairLeq(p, s[at]))
    requires forall k :: 0 <= k < at ==> PairLeq(s[k], p)
    ensures SortedBy(s[..at] + [p] + s[at..], PairLeq)
  {
    hide PairLeq;
    PairLeqTotalOrder();
    forall k | at <= k < |s| ensures PairLeq(p, s[k]) {
      assert k == at || PairLeq(s[at], s[k]);
    }
  }

  /** For every number of items some program sorts them. */
  lemma SorterExists(n: nat)
    ensures Sorts(InsertionSorter([], 0, n), n)
  {
    hide PairLeq, Mixed, OrderFor, Sort;
    InsertionFits([], 0, n);
    forall s: seq<Pair> | |s| == n && !Mixed(s)
      ensures var r := OrderFor(InsertionSorter([], 0, n), s);
              r.Some? && Pick(s, r.value) == Sort(s, PairLeq)
    {
      assert Pick(s, []) == [];
      InsertionSorts([], 0, s);
      var r := Pick(s, OrderFor(InsertionSorter([], 0, n), s).value);
      PairLeqTotalOrder();
      SortSorts(s, PairLeq);
      forall x, y | PairLeq(x, y) && PairLeq(y, x) ensures x == y { PairLeqAntisymmetric(x, y); }
      SortedUnique(r, Sort(s, PairLeq), PairLeq);
    }
  }
}
