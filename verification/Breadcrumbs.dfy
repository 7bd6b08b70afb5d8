/** `_flattened` of `breadcrumbs.py`: nested dictionaries and lists as one dictionary with
  * dotted keys.
  */
module Breadcrumbs {
  import opened Wrappers
  import opened Seqs
  import opened Strings
  import opened Numbers
  import opened Ordering

  /** A value as `json` reads it; a dictionary keeps the order of its items. */
  datatype Value = Scalar(text: string) | Dict(items: seq<Item>) | List(values: seq<Value>)

  datatype Item = Item(key: string, value: Value)

  /** An entry of a flat dictionary. */
  type Flat = (string, string)

  // ---------------------------------------------------------------- the code

  /** `d[key] = value` on an insertion-ordered dictionary. */
  function Put(d: seq<Flat>, e: Flat): seq<Flat> {
    if d == [] then [e]
    else if d[0].0 == e.0 then [e] + d[1..]
    else [d[0]] + Put(d[1..], e)
  }

  /** `dict(items)` */
  function DictOf(items: seq<Flat>): seq<Flat> {
    if items == [] then [] else Put(DictOf(items[..|items| - 1]), items[|items| - 1])
  }

  function Prefixed(key: string, d: seq<Flat>): seq<Flat> {
    if d == [] then [] else [(key + "." + d[0].0, d[0].1)] + Prefixed(key, d[1..])
  }

  function Expand(key: string, value: Value): seq<Flat>
    decreases value
  {
    match value
    case Scalar(text) => [(key, text)]
    case Dict(items) => Prefixed(key, Flattened(items))
    case List(values) => ExpandList(key, values, 0)
  }

  function ExpandList(key: string, values: seq<Value>, i: nat): seq<Flat>
    decreases values
  {
    if values == [] then []
    else Expand(key + "." + Decimal(i), values[0]) + ExpandList(key, values[1..], i + 1)
  }

  function ExpandItems(items: seq<Item>): seq<Flat>
    decreases items, 0
  {
    if items == [] then [] else Expand(items[0].key, items[0].value) + ExpandItems(items[1..])
  }

  /** `_flattened` */
  function Flattened(items: seq<Item>): seq<Flat>
    decreases items, 1
  {
    DictOf(ExpandItems(items))
  }

  // ---------------------------------------------------------------- leaves and their paths

  type Leaf = (seq<string>, string)

  function Under(key: string, leaves: seq<Leaf>): seq<Leaf> {
    if leaves == [] then [] else [([key] + leaves[0].0, leaves[0].1)] + Under(key, leaves[1..])
  }

  /** The scalar leaves of a value, in order, with the keys and indices that lead to them. */
  function Leaves(value: Value): seq<Leaf>
    decreases value
  {
    match value
    case Scalar(text) => [([], text)]
    case Dict(items) => ItemLeaves(items)
    case List(values) => ListLeaves(values, 0)
  }

  function ItemLeaves(items: seq<Item>): seq<Leaf>
    decreases items
  {
    if items == [] then [] else Under(items[0].key, Leaves(items[0].value)) + ItemLeaves(items[1..])
  }

  function ListLeaves(values: seq<Value>, i: nat): seq<Leaf>
    decreases values
  {
    if values == [] then [] else Under(Decimal(i), Leaves(values[0])) + ListLeaves(values[1..], i + 1)
  }

  /** The dotted form of each leaf. */
  function Dotted(leaves: seq<Leaf>): seq<Flat> {
    if leaves == [] then [] else [(Join(leaves[0].0, "."), leaves[0].1)] + Dotted(leaves[1..])
  }

  /** Dictionaries have each key once, and no key contains a dot. */
  ghost predicate Tidy(value: Value)
    decreases value
  {
    match value
    case Scalar(_) => true
    case Dict(items) => TidyItems(items)
    case List(values) => forall i :: 0 <= i < |values| ==> Tidy(values[i])
  }

  ghost predicate TidyItems(items: seq<Item>)
    decreases items
  {
    && (forall i, j :: 0 <= i < j < |items| ==> items[i].key != items[j].key)
    && (forall i :: 0 <= i < |items| ==> '.' !in items[i].key && Tidy(items[i].value))
  }

  /** Following keys and indices into a value. */
  function Find(value: Value, path: seq<string>): Option<Value>
    decreases path
  {
    if path == [] then Some(value)
    else
      match value
      case Scalar(_) => None
      case Dict(items) =>
        var next := FindItem(items, path[0]);
        if next.None? then None else Find(next.value, path[1..])
      case List(values) =>
        var next := FindIndex(values, 0, path[0]);
        if next.None? then None else Find(next.value, path[1..])
  }

  function FindItem(items: seq<Item>, key: string): Option<Value> {
    if items == [] then None else if items[0].key == key then Some(items[0].value) else FindItem(items[1..], key)
  }

  function FindIndex(values: seq<Value>, i: nat, key: string): Option<Value>
    decreases |values|
  {
    if values == [] then None else if Decimal(i) == key then Some(values[0]) else FindIndex(values[1..], i + 1, key)
  }

  // ---------------------------------------------------------------- the flat form is the dotted leaves

  ghost predicate DotFree(path: seq<string>) { Free(path, '.') }

  ghost predicate DotFreeLeaves(leaves: seq<Leaf>) {
    forall i :: 0 <= i < |leaves| ==> DotFree(leaves[i].0)
  }

  ghost predicate DistinctPaths(leaves: seq<Leaf>) {
    forall i, j :: 0 <= i < j < |leaves| ==> leaves[i].0 != leaves[j].0
  }

  ghost predicate DistinctKeys(d: seq<Flat>) {
    forall i, j :: 0 <= i < j < |d| ==> d[i].0 != d[j].0
  }

  function Attach(key: string, leaves: seq<Leaf>): seq<Flat> {
    if leaves == [] then []
    else
      var (path, text) := leaves[0];
      [(if path == [] then key else key + "." + Join(path, "."), text)] + Attach(key, leaves[1..])
  }

  lemma {:induction false} AttachAppend(key: string, a: seq<Leaf>, b: seq<Leaf>)
    ensures Attach(key, a + b) == Attach(key, a) + Attach(key, b)
    ensures Dotted(a + b) == Dotted(a) + Dotted(b)
  {
    hide Join;
    if a == [] {
      AppendNil(b);
    } else {
      TailOfAppend(a, b);
      AttachAppend(key, a[1..], b);
    }
  }

  lemma JoinCons(key: string, path: seq<string>)
    ensures Join([key] + path, ".") == if path == [] then key else key + "." + Join(path, ".")
  {
    TailOfCons(key, path);
  }

  lemma {:induction false} AttachUnder(key: string, sub: string, leaves: seq<Leaf>)
    ensures Attach(key + "." + sub, leaves) == Attach(key, Under(sub, leaves))
  {
    if leaves != [] {
      var (path, text) := leaves[0];
      JoinCons(sub, path);
      TailOfCons(([sub] + path, text), Under(sub, leaves[1..]));
      Associative(key + ".", sub, ".");
      Associative(key + ".", sub + ".", Join(path, "."));
      AttachUnder(key, sub, leaves[1..]);
    }
  }

  lemma {:induction false} DottedUnder(key: string, leaves: seq<Leaf>)
    ensures Attach(key, leaves) == Dotted(Under(key, leaves))
  {
    if leaves != [] {
      var (path, text) := leaves[0];
      JoinCons(key, path);
      TailOfCons(([key] + path, text), Under(key, leaves[1..]));
      DottedUnder(key, leaves[1..]);
    }
  }

  lemma {:induction false} PrefixedDotted(key: string, leaves: seq<Leaf>)
    requires forall i :: 0 <= i < |leaves| ==> leaves[i].0 != []
    ensures Prefixed(key, Dotted(leaves)) == Attach(key, leaves)
  {
    if leaves != [] {
      TailOfCons((Join(leaves[0].0, "."), leaves[0].1), Dotted(leaves[1..]));
      PrefixedDotted(key, leaves[1..]);
    }
  }

  lemma {:induction false} UnderSpec(key: string, leaves: seq<Leaf>)
    ensures |Under(key, leaves)| == |leaves|
    ensures forall i :: 0 <= i < |leaves| ==> Under(key, leaves)[i] == ([key] + leaves[i].0, leaves[i].1)
  {
    if leaves != [] { UnderSpec(key, leaves[1..]); }
  }

  ghost predicate Starts(leaves: seq<Leaf>, firsts: iset<string>) {
    forall i :: 0 <= i < |leaves| ==> leaves[i].0 != [] && leaves[i].0[0] in firsts
  }

  /** Leaves under one key next to leaves under other keys. */
  lemma UnderAppend(key: string, leaves: seq<Leaf>, others: seq<Leaf>, firsts: iset<string>)
    requires '.' !in key && DotFreeLeaves(leaves) && DistinctPaths(leaves)
    requires DotFreeLeaves(others) && DistinctPaths(others) && Starts(others, firsts) && key !in firsts
    ensures var all := Under(key, leaves) + others;
            DotFreeLeaves(all) && DistinctPaths(all) && Starts(all, iset{key} + firsts)
  {
    UnderSpec(key, leaves);
    var under := Under(key, leaves);
    var all := under + others;
    forall i | 0 <= i < |all|
      ensures DotFree(all[i].0) && all[i].0 != [] && all[i].0[0] in iset{key} + firsts
    {
      if i < |under| {
        var path := leaves[i].0;
        assert DotFree(path);
        forall k | 0 <= k < |[key] + path| ensures '.' !in ([key] + path)[k] {
          if k > 0 { assert ([key] + path)[k] == path[k - 1]; }
        }
      }
    }
    forall i, j | 0 <= i < j < |all| ensures all[i].0 != all[j].0 {
      if j < |under| {
        assert leaves[i].0 == ([key] + leaves[i].0)[1..] && leaves[j].0 == ([key] + leaves[j].0)[1..];
      } else if i < |under| {
        assert all[i].0[0] == key && all[j].0[0] in firsts;
      }
    }
  }

  lemma TidyTail(items: seq<Item>)
    requires items != [] && TidyItems(items)
    ensures TidyItems(items[1..]) && '.' !in items[0].key && Tidy(items[0].value)
    ensures forall i :: 0 <= i < |items[1..]| ==> items[1..][i].key != items[0].key
  {
    forall i | 0 <= i < |items[1..]|
      ensures items[1..][i].key != items[0].key && '.' !in items[1..][i].key && Tidy(items[1..][i].value)
    {
      assert items[1..][i] == items[i + 1];
    }
    forall i, j | 0 <= i < j < |items[1..]| ensures items[1..][i].key != items[1..][j].key {
      assert items[i + 1].key != items[j + 1].key;
    }
  }

  ghost function KeysOf(items: seq<Item>): iset<string> { iset i | i in items :: i.key }

  ghost function IndicesFrom(i: nat): iset<string> { iset k: nat | i <= k :: Decimal(k) }

  lemma {:induction false} LeavesShape(value: Value)
    requires Tidy(value)
    ensures DotFreeLeaves(Leaves(value)) && DistinctPaths(Leaves(value))
    decreases value
  {
    match value
    case Scalar(_) =>
    case Dict(items) => ItemLeavesShape(items);
    case List(values) => ListLeavesShape(values, 0);
  }

  lemma {:induction false} ItemLeavesShape(items: seq<Item>)
    requires TidyItems(items)
    ensures DotFreeLeaves(ItemLeaves(items)) && DistinctPaths(ItemLeaves(items))
    ensures Starts(ItemLeaves(items), KeysOf(items))
    decreases items
  {
    if items != [] {
      TidyTail(items);
      LeavesShape(items[0].value);
      ItemLeavesShape(items[1..]);
      UnderAppend(items[0].key, Leaves(items[0].value), ItemLeaves(items[1..]), KeysOf(items[1..]));
      assert iset{items[0].key} + KeysOf(items[1..]) == KeysOf(items) by { HeadTail(items); }
    }
  }

  lemma DecimalsLater(i: nat)
    ensures Decimal(i) !in IndicesFrom(i + 1) && '.' !in Decimal(i)
    ensures iset{Decimal(i)} + IndicesFrom(i + 1) == IndicesFrom(i)
  {
    if Decimal(i) in IndicesFrom(i + 1) {
      var k: nat :| i + 1 <= k && Decimal(k) == Decimal(i);
      DecimalInjective(i, k);
    }
    forall s ensures s in iset{Decimal(i)} + IndicesFrom(i + 1) <==> s in IndicesFrom(i) {
      if s in IndicesFrom(i) {
        var k: nat :| i <= k && Decimal(k) == s;
        assert k == i || i + 1 <= k;
      }
    }
  }

  lemma {:induction false} ListLeavesShape(values: seq<Value>, i: nat)
    requires forall k :: 0 <= k < |values| ==> Tidy(values[k])
    ensures DotFreeLeaves(ListLeaves(values, i)) && DistinctPaths(ListLeaves(values, i))
    ensures Starts(ListLeaves(values, i), IndicesFrom(i))
    decreases values
  {
    if values != [] {
      LeavesShape(values[0]);
      ListLeavesShape(values[1..], i + 1);
      DecimalsLater(i);
      UnderAppend(Decimal(i), Leaves(values[0]), ListLeaves(values[1..], i + 1), IndicesFrom(i + 1));
    }
  }

  lemma {:induction false} DottedSpec(leaves: seq<Leaf>)
    ensures |Dotted(leaves)| == |leaves|
    ensures forall i :: 0 <= i < |leaves| ==> Dotted(leaves)[i] == (Join(leaves[i].0, "."), leaves[i].1)
  {
    if leaves != [] { DottedSpec(leaves[1..]); }
  }

  /** Different paths have different dotted forms. */
  lemma DottedDistinct(leaves: seq<Leaf>)
    requires DotFreeLeaves(leaves) && DistinctPaths(leaves)
    requires forall i :: 0 <= i < |leaves| ==> leaves[i].0 != []
    ensures DistinctKeys(Dotted(leaves))
  {
    DottedSpec(leaves);
    forall i, j | 0 <= i < j < |leaves| ensures Dotted(leaves)[i].0 != Dotted(leaves)[j].0 {
      assert DotFree(leaves[i].0) && DotFree(leaves[j].0);
      SplitJoin(leaves[i].0, '.');
      SplitJoin(leaves[j].0, '.');
    }
  }

  lemma {:induction false} PutNew(d: seq<Flat>, e: Flat)
    requires forall i :: 0 <= i < |d| ==> d[i].0 != e.0
    ensures Put(d, e) == d + [e]
  {
    if d != [] {
      HeadTail(d);
      PutNew(d[1..], e);
      Associative([d[0]], d[1..], [e]);
    }
  }

  lemma {:induction false} DictOfDistinct(items: seq<Flat>)
    requires DistinctKeys(items)
    ensures DictOf(items) == items
  {
    if items != [] {
      var init := items[..|items| - 1];
      DictOfDistinct(init);
      PutNew(init, items[|items| - 1]);
      assert items == init + [items[|items| - 1]];
    }
  }

  lemma {:induction false} ExpandIsAttach(key: string, value: Value)
    requires Tidy(value)
    ensures Expand(key, value) == Attach(key, Leaves(value))
    decreases value
  {
    match value
    case Scalar(_) =>
    case Dict(items) =>
      FlattenedIsDotted(items);
      ItemLeavesShape(items);
      PrefixedDotted(key, ItemLeaves(items));
    case List(values) =>
      ExpandListIsAttach(key, values, 0);
  }

  lemma {:induction false} ExpandListIsAttach(key: string, values: seq<Value>, i: nat)
    requires forall k :: 0 <= k < |values| ==> Tidy(values[k])
    ensures ExpandList(key, values, i) == Attach(key, ListLeaves(values, i))
    decreases values
  {
    if values != [] {
      ExpandIsAttach(key + "." + Decimal(i), values[0]);
      ExpandListIsAttach(key, values[1..], i + 1);
      AttachUnder(key, Decimal(i), Leaves(values[0]));
      AttachAppend(key, Under(Decimal(i), Leaves(values[0])), ListLeaves(values[1..], i + 1));
    }
  }

  lemma {:induction false} ExpandItemsIsDotted(items: seq<Item>)
    requires TidyItems(items)
    ensures ExpandItems(items) == Dotted(ItemLeaves(items))
    decreases items, 0
  {
    if items != [] {
      TidyTail(items);
      ExpandIsAttach(items[0].key, items[0].value);
      ExpandItemsIsDotted(items[1..]);
      DottedUnder(items[0].key, Leaves(items[0].value));
      AttachAppend("", Under(items[0].key, Leaves(items[0].value)), ItemLeaves(items[1..]));
    }
  }

  /** Flattening a tidy dictionary gives one entry per leaf, in the order of the leaves. */
  lemma {:induction false} FlattenedIsDotted(items: seq<Item>)
    requires TidyItems(items)
    ensures Flattened(items) == Dotted(ItemLeaves(items)) && DistinctKeys(Flattened(items))
    ensures |Flattened(items)| == |ItemLeaves(items)|
    decreases items, 1
  {
    ExpandItemsIsDotted(items);
    ItemLeavesShape(items);
    DottedDistinct(ItemLeaves(items));
    DictOfDistinct(Dotted(ItemLeaves(items)));
    DottedSpec(ItemLeaves(items));
  }

  // ---------------------------------------------------------------- looking leaves up

  lemma InUnder(key: string, leaves: seq<Leaf>, path: seq<string>, text: string)
    ensures (path, text) in Under(key, leaves) <==> path != [] && path[0] == key && (path[1..], text) in leaves
  {
    UnderSpec(key, leaves);
    var under := Under(key, leaves);
    if (path, text) in under {
      var i :| 0 <= i < |under| && under[i] == (path, text);
      TailOfCons(key, leaves[i].0);
    }
    if path != [] && path[0] == key && (path[1..], text) in leaves {
      var i :| 0 <= i < |leaves| && leaves[i] == (path[1..], text);
      HeadTail(path);
      assert under[i] == (path, text);
    }
  }

  lemma {:induction false} LeafIffFound(value: Value, path: seq<string>, text: string)
    requires Tidy(value)
    ensures (path, text) in Leaves(value) <==> Find(value, path) == Some(Scalar(text))
    decreases value, 1
  {
    match value
    case Scalar(_) =>
    case Dict(items) => ItemLeafIffFound(items, path, text);
    case List(values) => ListLeafIffFound(values, 0, path, text);
  }

  lemma {:induction false} ItemLeafIffFound(items: seq<Item>, path: seq<string>, text: string)
    requires TidyItems(items)
    ensures (path, text) in ItemLeaves(items) <==>
              path != [] && FindItem(items, path[0]).Some?
              && Find(FindItem(items, path[0]).value, path[1..]) == Some(Scalar(text))
    decreases items, 0
  {
    if items != [] {
      TidyTail(items);
      InUnder(items[0].key, Leaves(items[0].value), path, text);
      if path != [] { LeafIffFound(items[0].value, path[1..], text); }
      ItemLeafIffFound(items[1..], path, text);
      if path != [] && path[0] == items[0].key { NotFoundAmong(items[1..], path[0]); }
    }
  }

  lemma {:induction false} NotFoundAmong(items: seq<Item>, key: string)
    requires forall i :: 0 <= i < |items| ==> items[i].key != key
    ensures FindItem(items, key).None?
  {
    if items != [] { NotFoundAmong(items[1..], key); }
  }

  lemma {:induction false} ListLeafIffFound(values: seq<Value>, i: nat, path: seq<string>, text: string)
    requires forall k :: 0 <= k < |values| ==> Tidy(values[k])
    ensures (path, text) in ListLeaves(values, i) <==>
              path != [] && FindIndex(values, i, path[0]).Some?
              && Find(FindIndex(values, i, path[0]).value, path[1..]) == Some(Scalar(text))
    decreases values, 0
  {
    if values != [] {
      InUnder(Decimal(i), Leaves(values[0]), path, text);
      if path != [] { LeafIffFound(values[0], path[1..], text); }
      ListLeafIffFound(values[1..], i + 1, path, text);
      if path != [] && path[0] == Decimal(i) { NoLaterIndex(values[1..], i, i + 1); }
    }
  }

  lemma {:induction false} NoLaterIndex(values: seq<Value>, i: nat, from: nat)
    requires i < from
    ensures FindIndex(values, from, Decimal(i)).None?
    decreases |values|
  {
    if values != [] {
      if Decimal(from) == Decimal(i) { DecimalInjective(from, i); }
      NoLaterIndex(values[1..], i, from + 1);
    }
  }

  /** The flat dictionary has an entry exactly for each dotted path that leads to a scalar, with
    * that scalar as its value: no leaf is lost, merged or invented.
    */
  lemma FlatEntryIffLeaf(items: seq<Item>, dotted: string, text: string)
    requires TidyItems(items)
    ensures (dotted, text) in Flattened(items) <==> Find(Dict(items), Split(dotted, '.')) == Some(Scalar(text))
  {
    var leaves, path := ItemLeaves(items), Split(dotted, '.');
    FlattenedIsDotted(items);
    ItemLeavesShape(items);
    DottedSpec(leaves);
    LeafIffFound(Dict(items), path, text);
    JoinSplit(dotted, '.');
    if (dotted, text) in Dotted(leaves) {
      var i :| 0 <= i < |leaves| && Dotted(leaves)[i] == (dotted, text);
      assert DotFree(leaves[i].0);
      SplitJoin(leaves[i].0, '.');
      assert leaves[i] == (path, text);
    }
    if (path, text) in leaves {
      var i :| 0 <= i < |leaves| && leaves[i] == (path, text);
      assert Dotted(leaves)[i] == (dotted, text);
    }
  }

  // ---------------------------------------------------------------- every dictionary, dots or not

  /** The value that the last entry with a key has. */
  function LastFor(d: seq<Flat>, key: string): Option<string> {
    if d == [] then None
    else
      var later := LastFor(d[1..], key);
      if later.Some? then later else if d[0].0 == key then Some(d[0].1) else None
  }

  lemma {:induction false} LastForAppend(a: seq<Flat>, b: seq<Flat>, key: string)
    ensures LastFor(a + b, key) == if LastFor(b, key).Some? then LastFor(b, key) else LastFor(a, key)
  {
    if a == [] {
      AppendNil(b);
    } else {
      TailOfAppend(a, b);
      LastForAppend(a[1..], b, key);
    }
  }

  lemma {:induction false} LastForIff(d: seq<Flat>, key: string)
    ensures LastFor(d, key).Some? <==> exists i :: 0 <= i < |d| && d[i].0 == key
    ensures LastFor(d, key).Some? ==> (key, LastFor(d, key).value) in d
    ensures DistinctKeys(d) ==> forall text :: (key, text) in d <==> LastFor(d, key) == Some(text)
  {
    if d != [] {
      HeadTail(d);
      LastForIff(d[1..], key);
      if i :| 0 <= i < |d| && d[i].0 == key {
        if i > 0 { assert d[1..][i - 1].0 == key; }
      }
      if i :| 0 <= i < |d[1..]| && d[1..][i].0 == key { assert d[i + 1].0 == key; }
      forall j | 0 <= j < |d[1..]| ensures DistinctKeys(d) ==> d[1..][j].0 != d[0].0 {
        assert d[1..][j] == d[j + 1];
      }
    }
  }

  function KeySet(d: seq<Flat>): set<string> { set e | e in d :: e.0 }

  lemma DistinctStep(d: seq<Flat>)
    requires d != []
    ensures DistinctKeys(d) <==> DistinctKeys(d[1..]) && d[0].0 !in KeySet(d[1..])
    ensures KeySet(d) == {d[0].0} + KeySet(d[1..])
  {
    var rest := d[1..];
    HeadTail(d);
    if DistinctKeys(d) {
      forall e | e in rest ensures e.0 != d[0].0 {
        var i :| 0 <= i < |rest| && rest[i] == e;
        assert d[0].0 != d[i + 1].0;
      }
      forall i, j | 0 <= i < j < |rest| ensures rest[i].0 != rest[j].0 {
        assert d[i + 1].0 != d[j + 1].0;
      }
    }
    if DistinctKeys(rest) && d[0].0 !in KeySet(rest) {
      forall i, j | 0 <= i < j < |d| ensures d[i].0 != d[j].0 {
        assert d[j] == rest[j - 1] && rest[j - 1] in rest;
        if i > 0 { assert d[i] == rest[i - 1]; }
      }
    }
  }

  lemma KeySetSpec(d: seq<Flat>, key: string)
    ensures key in KeySet(d) <==> LastFor(d, key).Some?
  {
    LastForIff(d, key);
    if e :| e in d && e.0 == key {
      var i :| 0 <= i < |d| && d[i] == e;
      assert d[i].0 == key;
    }
    if i :| 0 <= i < |d| && d[i].0 == key { assert d[i] in d; }
  }

  /** `d[key] = value` adds no key but that one, and the keys stay distinct. */
  lemma {:induction false} PutKeys(d: seq<Flat>, e: Flat)
    requires DistinctKeys(d)
    ensures KeySet(Put(d, e)) == KeySet(d) + {e.0} && DistinctKeys(Put(d, e))
  {
    if d == [] {
      assert Put(d, e) == [e];
    } else {
      var rest := if d[0].0 == e.0 then d[1..] else Put(d[1..], e);
      DistinctStep(d);
      PutKeys(d[1..], e);
      assert Put(d, e)[0].0 == d[0].0 && Put(d, e)[1..] == rest;
      DistinctStep(Put(d, e));
    }
  }

  lemma {:induction false} PutSpec(d: seq<Flat>, e: Flat, key: string)
    requires DistinctKeys(d)
    ensures LastFor(Put(d, e), key) == if e.0 == key then Some(e.1) else LastFor(d, key)
    ensures DistinctKeys(Put(d, e))
  {
    hide DistinctKeys;
    PutKeys(d, e);
    if d != [] {
      DistinctStep(d);
      PutSpec(d[1..], e, key);
      KeySetSpec(d[1..], key);
      TailOfCons(if d[0].0 == e.0 then e else d[0], if d[0].0 == e.0 then d[1..] else Put(d[1..], e));
    }
  }

  /** `dict(items)` has each key once, with its last value. */
  lemma {:induction false} DictOfLast(items: seq<Flat>, key: string)
    ensures LastFor(DictOf(items), key) == LastFor(items, key) && DistinctKeys(DictOf(items))
  {
    if items != [] {
      var init, last := items[..|items| - 1], items[|items| - 1];
      DictOfLast(init, key);
      PutSpec(DictOf(init), last, key);
      assert items == init + [last] && [last][1..] == [];
      LastForAppend(init, [last], key);
    }
  }

  /** Two dictionaries with the same values stay that way under a common prefix. */
  lemma {:induction false} PrefixedLast(prefix: string, d: seq<Flat>, key: string)
    ensures LastFor(Prefixed(prefix, d), key)
            == if prefix + "." <= key then LastFor(d, key[|prefix| + 1..]) else None
  {
    if d != [] {
      PrefixedLast(prefix, d[1..], key);
      TailOfCons((prefix + "." + d[0].0, d[0].1), Prefixed(prefix, d[1..]));
      var whole := prefix + "." + d[0].0;
      assert whole[|prefix| + 1..] == d[0].0;
      assert whole == key <==> prefix + "." <= key && d[0].0 == key[|prefix| + 1..];
    }
  }

  lemma {:induction false} ItemPaths(items: seq<Item>)
    ensures forall i :: 0 <= i < |ItemLeaves(items)| ==> ItemLeaves(items)[i].0 != []
  {
    if items != [] {
      UnderSpec(items[0].key, Leaves(items[0].value));
      ItemPaths(items[1..]);
    }
  }

  lemma {:induction false} ExpandLast(prefix: string, value: Value, key: string)
    ensures LastFor(Expand(prefix, value), key) == LastFor(Attach(prefix, Leaves(value)), key)
    decreases value
  {
    match value
    case Scalar(_) =>
    case Dict(items) =>
      ItemPaths(items);
      PrefixedDotted(prefix, ItemLeaves(items));
      PrefixedLast(prefix, Flattened(items), key);
      PrefixedLast(prefix, Dotted(ItemLeaves(items)), key);
      if prefix + "." <= key { FlattenedIsLastLeaf(items, key[|prefix| + 1..]); }
    case List(values) =>
      ExpandListLast(prefix, values, 0, key);
  }

  lemma {:induction false} ExpandListLast(prefix: string, values: seq<Value>, i: nat, key: string)
    ensures LastFor(ExpandList(prefix, values, i), key) == LastFor(Attach(prefix, ListLeaves(values, i)), key)
    decreases values
  {
    if values != [] {
      var sub := prefix + "." + Decimal(i);
      ExpandLast(sub, values[0], key);
      ExpandListLast(prefix, values[1..], i + 1, key);
      AttachUnder(prefix, Decimal(i), Leaves(values[0]));
      AttachAppend(prefix, Under(Decimal(i), Leaves(values[0])), ListLeaves(values[1..], i + 1));
      LastForAppend(Expand(sub, values[0]), ExpandList(prefix, values[1..], i + 1), key);
      LastForAppend(Attach(sub, Leaves(values[0])), Attach(prefix, ListLeaves(values[1..], i + 1)), key);
    }
  }

  lemma {:induction false} ExpandItemsLast(items: seq<Item>, key: string)
    ensures LastFor(ExpandItems(items), key) == LastFor(Dotted(ItemLeaves(items)), key)
    decreases items, 0
  {
    if items != [] {
      var k, value := items[0].key, items[0].value;
      ExpandLast(k, value, key);
      ExpandItemsLast(items[1..], key);
      DottedUnder(k, Leaves(value));
      AttachAppend("", Under(k, Leaves(value)), ItemLeaves(items[1..]));
      LastForAppend(Expand(k, value), ExpandItems(items[1..]), key);
      LastForAppend(Attach(k, Leaves(value)), Dotted(ItemLeaves(items[1..])), key);
    }
  }

  /** For every dictionary, whatever its keys: the flat dictionary has each key once, and under it
    * the last leaf whose dotted path it is.
    */
  lemma {:induction false} FlattenedIsLastLeaf(items: seq<Item>, key: string)
    ensures LastFor(Flattened(items), key) == LastFor(Dotted(ItemLeaves(items)), key)
    ensures DistinctKeys(Flattened(items))
    decreases items, 1
  {
    ExpandItemsLast(items, key);
    DictOfLast(ExpandItems(items), key);
  }

  // ---------------------------------------------------------------- exactly when leaves are merged

  lemma {:induction false} KeySetSize(d: seq<Flat>)
    ensures |KeySet(d)| <= |d|
    ensures |KeySet(d)| == |d| <==> DistinctKeys(d)
  {
    if d != [] {
      DistinctStep(d);
      KeySetSize(d[1..]);
      if d[0].0 in KeySet(d[1..]) { assert KeySet(d) == KeySet(d[1..]); }
    }
  }

  /** The parts of a path when keys are split at their dots as well. */
  function Parts(path: seq<string>): seq<string> {
    if path == [] then [] else Split(path[0], '.') + Parts(path[1..])
  }

  lemma {:induction false} PartsOfDotted(path: seq<string>)
    requires path != []
    ensures Split(Join(path, "."), '.') == Parts(path)
  {
    if |path| == 1 {
      AppendNil(Split(path[0], '.'));
    } else {
      PartsOfDotted(path[1..]);
      SplitAppend(path[0], Join(path[1..], "."), '.');
    }
  }

  lemma SameDotted(p: seq<string>, q: seq<string>)
    requires p != [] && q != []
    ensures Join(p, ".") == Join(q, ".") <==> Parts(p) == Parts(q)
  {
    PartsOfDotted(p);
    PartsOfDotted(q);
    JoinSplit(Join(p, "."), '.');
    JoinSplit(Join(q, "."), '.');
  }

  lemma SameKeys(items: seq<Item>)
    ensures KeySet(Flattened(items)) == KeySet(Dotted(ItemLeaves(items)))
  {
    hide Flattened, ItemLeaves, LastFor;
    forall key ensures key in KeySet(Flattened(items)) <==> key in KeySet(Dotted(ItemLeaves(items))) {
      FlattenedIsLastLeaf(items, key);
      KeySetSpec(Flattened(items), key);
      KeySetSpec(Dotted(ItemLeaves(items)), key);
    }
  }

  /** No leaf is merged with another exactly if no two paths have the same parts once the keys on
    * them are split at their dots.
    */
  lemma NoLeafIsMergedIff(items: seq<Item>)
    ensures var leaves := ItemLeaves(items);
            |Flattened(items)| == |leaves| <==>
              forall i, j :: 0 <= i < j < |leaves| ==> Parts(leaves[i].0) != Parts(leaves[j].0)
  {
    hide Flattened, ItemLeaves, Parts, LastFor;
    var leaves, flat := ItemLeaves(items), Flattened(items);
    var dotted := Dotted(leaves);
    ItemPaths(items);
    DottedSpec(leaves);
    SameKeys(items);
    FlattenedIsLastLeaf(items, "");
    KeySetSize(flat);
    KeySetSize(dotted);
    forall i, j | 0 <= i < j < |leaves|
      ensures dotted[i].0 != dotted[j].0 <==> Parts(leaves[i].0) != Parts(leaves[j].0)
    {
      SameDotted(leaves[i].0, leaves[j].0);
    }
  }

  lemma LastOfKey(d: seq<Flat>, i: nat)
    requires i < |d|
    ensures exists j :: 0 <= j < |d| && d[j].0 == d[i].0 && LastFor(d, d[i].0) == Some(d[j].1)
  {
    hide LastFor;
    LastForIff(d, d[i].0);
    var j :| 0 <= j < |d| && d[j] == (d[i].0, LastFor(d, d[i].0).value);
    assert d[j].0 == d[i].0;
  }

  lemma LastIsEachIff(d: seq<Flat>)
    ensures (forall i :: 0 <= i < |d| ==> LastFor(d, d[i].0) == Some(d[i].1)) <==>
              forall i, j :: 0 <= i < |d| && 0 <= j < |d| && d[i].0 == d[j].0 ==> d[i].1 == d[j].1
  {
    hide LastFor;
    if forall i :: 0 <= i < |d| ==> LastFor(d, d[i].0) == Some(d[i].1) {
      forall i, j | 0 <= i < |d| && 0 <= j < |d| && d[i].0 == d[j].0 ensures d[i].1 == d[j].1 {
        assert LastFor(d, d[i].0) == Some(d[i].1) && LastFor(d, d[j].0) == Some(d[j].1);
      }
    }
    if forall i, j :: 0 <= i < |d| && 0 <= j < |d| && d[i].0 == d[j].0 ==> d[i].1 == d[j].1 {
      forall i | 0 <= i < |d| ensures LastFor(d, d[i].0) == Some(d[i].1) {
        LastOfKey(d, i);
        var j :| 0 <= j < |d| && d[j].0 == d[i].0 && LastFor(d, d[i].0) == Some(d[j].1);
        assert d[j].1 == d[i].1;
      }
    }
  }

  /** Looking up the dotted path of each leaf gives its value exactly if leaves whose paths have the
    * same parts have the same value.
    */
  lemma EveryLeafIsFoundIff(items: seq<Item>)
    ensures var leaves := ItemLeaves(items);
            (forall i :: 0 <= i < |leaves| ==> (Join(leaves[i].0, "."), leaves[i].1) in Flattened(items)) <==>
              forall i, j :: 0 <= i < |leaves| && 0 <= j < |leaves| && Parts(leaves[i].0) == Parts(leaves[j].0)
                ==> leaves[i].1 == leaves[j].1
  {
    hide Flattened, ItemLeaves, Parts, LastFor, Join, Dotted, DistinctKeys;
    var leaves, flat := ItemLeaves(items), Flattened(items);
    var dotted := Dotted(leaves);
    ItemPaths(items);
    DottedSpec(leaves);
    LastIsEachIff(dotted);
    forall i | 0 <= i < |leaves|
      ensures (Join(leaves[i].0, "."), leaves[i].1) in flat <==> LastFor(dotted, dotted[i].0) == Some(dotted[i].1)
    {
      FlattenedIsLastLeaf(items, dotted[i].0);
      LastForIff(flat, dotted[i].0);
    }
    forall i, j | 0 <= i < |leaves| && 0 <= j < |leaves|
      ensures dotted[i].0 == dotted[j].0 <==> Parts(leaves[i].0) == Parts(leaves[j].0)
    {
      SameDotted(leaves[i].0, leaves[j].0);
    }
  }

  lemma NoLeaves()
    ensures ItemLeaves([]) == []
  {
  }

  lemma OneItem(key: string, value: Value, rest: seq<Item>)
    ensures ItemLeaves([Item(key, value)] + rest) == Under(key, Leaves(value)) + ItemLeaves(rest)
  {
    TailOfCons(Item(key, value), rest);
  }

  lemma ScalarItem(key: string, text: string, rest: seq<Item>)
    ensures ItemLeaves([Item(key, Scalar(text))] + rest) == [([key], text)] + ItemLeaves(rest)
  {
    OneItem(key, Scalar(text), rest);
    UnderSpec(key, Leaves(Scalar(text)));
    AppendNil([key]);
    assert Under(key, Leaves(Scalar(text))) == [([key], text)];
  }

  /** Two leaves that a dot in a key merges into one entry. */
  lemma DottedKeyMergesLeaves()
    ensures var items := [Item("a.b", Scalar("1")), Item("a", Dict([Item("b", Scalar("2"))]))];
            && ItemLeaves(items) == [(["a.b"], "1"), (["a", "b"], "2")]
            && |Flattened(items)| < |ItemLeaves(items)| && LastFor(Flattened(items), "a.b") == Some("2")
  {
    hide Flattened, ItemLeaves;
    var inner := [Item("b", Scalar("2"))];
    var items := [Item("a.b", Scalar("1")), Item("a", Dict(inner))];
    ScalarItem("b", "2", []);
    ScalarItem("a.b", "1", [Item("a", Dict(inner))]);
    OneItem("a", Dict(inner), []);
    NoLeaves();
    assert items == [Item("a.b", Scalar("1"))] + [Item("a", Dict(inner))];
    assert [Item("b", Scalar("2"))] + [] == inner && [Item("a", Dict(inner))] + [] == [Item("a", Dict(inner))];
    UnderSpec("a", ItemLeaves(inner));
    assert ["a"] + ["b"] == ["a", "b"];
    assert Under("a", ItemLeaves(inner)) == [(["a", "b"], "2")];
    var leaves := ItemLeaves(items);
    assert leaves == [(["a.b"], "1"), (["a", "b"], "2")];
    DottedSpec(leaves);
    assert Join(["a", "b"], ".") == "a.b" by { assert ["a", "b"][1..] == ["b"] && "a" + "." + "b" == "a.b"; }
    SameDotted(["a.b"], ["a", "b"]);
    assert Parts(leaves[0].0) == Parts(leaves[1].0);
    NoLeafIsMergedIff(items);
    FlattenedIsLastLeaf(items, "a.b");
    LastForTwo(Dotted(leaves)[0], Dotted(leaves)[1]);
    assert Dotted(leaves) == [Dotted(leaves)[0], Dotted(leaves)[1]];
    DistinctSize(items);
  }

  lemma LastForTwo(a: Flat, b: Flat)
    ensures LastFor([a, b], b.0) == Some(b.1)
  {
    assert [a, b][1..] == [b] && [b][1..] == [];
    assert LastFor([b], b.0) == Some(b.1);
  }

  /** The flat dictionary never has more entries than there are leaves. */
  lemma DistinctSize(items: seq<Item>)
    ensures |Flattened(items)| <= |ItemLeaves(items)|
  {
    hide Flattened, ItemLeaves, LastFor;
    var flat, dotted := Flattened(items), Dotted(ItemLeaves(items));
    SameKeys(items);
    DottedSpec(ItemLeaves(items));
    FlattenedIsLastLeaf(items, "");
    KeySetSize(flat);
    KeySetSize(dotted);
  }
}
