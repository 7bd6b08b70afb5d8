/** `checkfstabmountorder.py`: detecting mount points that overshadow earlier ones, and the
  * order of entries that the report proposes instead.
  */
module FstabOrder {
  import opened Wrappers
  import opened Seqs
  import opened Strings
  import opened Ordering
  import opened Paths
  import OverlayLayout

  // ---------------------------------------------------------------- the common path

  function CommonParts(a: seq<string>, b: seq<string>): seq<string> {
    if a == [] || b == [] || a[0] != b[0] then [] else [a[0]] + CommonParts(a[1..], b[1..])
  }

  /** `os.path.join(acc, *parts)` */
  function JoinAll(acc: string, parts: seq<string>): string
    decreases |parts|
  {
    if parts == [] then acc else JoinAll(PathJoin(acc, parts[0]), parts[1..])
  }

  function Parts(path: string): seq<string> { Split(Strip(path, IsSlash), '/') }

  function CommonPath(path1: string, path2: string): string {
    if path1 == "" || path2 == "" then "" else JoinAll("/", CommonParts(Parts(path1), Parts(path2)))
  }

  /** `_get_common_path` */
  method GetCommonPath(path1: string, path2: string) returns (common: string)
    ensures common == CommonPath(path1, path2)
  {
    if path1 == "" || path2 == "" { return ""; }
    var parts1, parts2 := Parts(path1), Parts(path2);
    var commonPath: seq<string> := [];
    var i := 0;
    while i < |parts1| && i < |parts2|
      invariant i <= |parts1| && i <= |parts2|
      invariant CommonParts(parts1, parts2) == commonPath + CommonParts(parts1[i..], parts2[i..])
    {
      if parts1[i] != parts2[i] { break; }
      Associative(commonPath, [parts1[i]], CommonParts(parts1[i + 1..], parts2[i + 1..]));
      commonPath := commonPath + [parts1[i]];
      i := i + 1;
    }
    AppendNil(commonPath);
    common := JoinAll("/", commonPath);
  }

  lemma {:induction false} CommonPartsSpec(a: seq<string>, b: seq<string>)
    ensures var c := CommonParts(a, b);
            c <= a && c <= b && (|c| < |a| && |c| < |b| ==> a[|c|] != b[|c|])
  {
    if a != [] && b != [] && a[0] == b[0] {
      CommonPartsSpec(a[1..], b[1..]);
      HeadTail(a);
      HeadTail(b);
    }
  }

  lemma {:induction false} CommonPartsOfPrefix(a: seq<string>, b: seq<string>)
    requires b <= a
    ensures CommonParts(a, b) == b
  {
    if b != [] {
      CommonPartsOfPrefix(a[1..], b[1..]);
      HeadTail(b);
    }
  }

  /** Joining names onto a directory renders them. */
  lemma {:induction false} JoinAllNames(acc: string, parts: seq<string>)
    requires acc != "" && acc[|acc| - 1] != '/' && Names(parts)
    ensures JoinAll(acc, parts) == if parts == [] then acc else acc + "/" + Join(parts, "/")
    decreases |parts|
  {
    if parts != [] {
      var next := acc + "/" + parts[0];
      assert PathJoin(acc, parts[0]) == next;
      JoinAllNames(next, parts[1..]);
      if |parts| > 1 {
        Associative(acc + "/", parts[0], "/");
        Associative(acc + "/", parts[0] + "/", Join(parts[1..], "/"));
      }
    }
  }

  lemma JoinAllFromRoot(parts: seq<string>)
    requires Names(parts)
    ensures JoinAll("/", parts) == Render(parts)
  {
    if parts != [] {
      assert PathJoin("/", parts[0]) == "/" + parts[0];
      JoinAllNames("/" + parts[0], parts[1..]);
      if |parts| > 1 {
        Associative("/", parts[0], "/");
        Associative("/", parts[0] + "/", Join(parts[1..], "/"));
      }
    }
  }

  /** `os.path.join` never writes two slashes in a row, whatever empty parts it is given. */
  lemma {:induction false} JoinAllTidy(acc: string, parts: seq<string>)
    requires acc != "" && acc[0] == '/' && NoDoubleSlash(acc) && Free(parts, '/')
    ensures var r := JoinAll(acc, parts); acc <= r && NoDoubleSlash(r)
    decreases |parts|
  {
    if parts != [] {
      var next := PathJoin(acc, parts[0]);
      assert acc <= next && NoDoubleSlash(next);
      JoinAllTidy(next, parts[1..]);
    }
  }

  lemma PartsAreFree(path: string)
    ensures Free(Parts(path), '/') && Parts(path) != []
    ensures Components(path) == if Parts(path) == [""] then [] else Parts(path)
  {
    var inner := Strip(path, IsSlash);
    SplitIsFree(inner, '/');
    JoinSplit(inner, '/');
    if inner == "" { SplitOfFree("", '/'); }
  }

  lemma RootIsCommon(p: string)
    requires p != ""
    ensures CommonPath(p, "/") == "/"
  {
    StripPadded("/", "", "", IsSlash);
    assert Parts("/") == [""];
    var c := CommonParts(Parts(p), [""]);
    CommonPartsSpec(Parts(p), [""]);
    assert c == [] || c == [""];
  }

  /** A clean directory around `p` is the common path of the two. */
  lemma AncestorIsCommon(p: string, q: string)
    requires p != "" && Clean(q) && Components(q) <= Components(p)
    ensures CommonPath(p, q) == q
  {
    if q == "/" {
      RootIsCommon(p);
    } else {
      CleanComponents(q);
      PartsAreFree(p);
      PartsAreFree(q);
      CommonPartsOfPrefix(Parts(p), Parts(q));
      JoinAllFromRoot(Parts(q));
    }
  }

  /** A path that is its own common path with `p` is clean and around `p`. */
  lemma CommonIsAncestor(p: string, q: string)
    requires p != "" && q != "" && CommonPath(p, q) == q
    ensures Clean(q) && Components(q) <= Components(p)
  {
    var c := CommonParts(Parts(p), Parts(q));
    CommonPartsSpec(Parts(p), Parts(q));
    PartsAreFree(p);
    PartsAreFree(q);
    assert Free(c, '/') by { assert forall i :: 0 <= i < |c| ==> c[i] == Parts(q)[i]; }
    assert NoDoubleSlash("/");
    JoinAllTidy("/", c);
    if q != "/" {
      TidyParts(q);
      assert Names(c) by { assert forall i :: 0 <= i < |c| ==> c[i] == Parts(q)[i]; }
      JoinAllFromRoot(c);
      RenderClean(c);
      assert Components(q) == c;
    } else {
      CleanComponents("/");
    }
  }

  /** Without repeated slashes every part between them is a name. */
  lemma TidyParts(q: string)
    requires |q| > 1 && q[0] == '/' && NoDoubleSlash(q)
    ensures Names(Parts(q))
  {
    var pre, post := StripSpec(q, IsSlash);
    var inner := Strip(q, IsSlash);
    StripToNothing(q, IsSlash);
    assert !IsSlash(q[1]);
    assert NoDoubleSlash(inner) by {
      forall i | 0 <= i < |inner| - 1 ensures inner[i] != '/' || inner[i + 1] != '/' {
        assert inner[i] == q[|pre| + i] && inner[i + 1] == q[|pre| + i + 1];
      }
    }
    SplitNonEmpty(inner);
    SplitIsFree(inner, '/');
  }

  /** The test used by the detector holds exactly for a clean path around the other one;
    * a path spelled with repeated or trailing slashes never passes it.
    */
  lemma CommonPathIff(p: string, q: string)
    requires p != "" && q != ""
    ensures CommonPath(p, q) == q <==> Clean(q) && Components(q) <= Components(p)
  {
    if CommonPath(p, q) == q { CommonIsAncestor(p, q); }
    if Clean(q) && Components(q) <= Components(p) { AncestorIsCommon(p, q); }
  }

  // ---------------------------------------------------------------- the detector

  /** Whether `later`, mounted after `earlier`, hides it: the comparison the code makes. */
  predicate Shadows(later: string, earlier: string) {
    CommonPath(earlier, later) == later
  }

  ghost predicate NoShadow(mps: seq<string>) {
    forall i, j :: 0 <= i < j < |mps| ==> !Shadows(mps[j], mps[i])
  }

  /** `x` belongs to a pair whose later member hides the earlier one. */
  ghost predicate InShadowPair(mps: seq<string>, x: string) {
    exists i, j :: 0 <= i < j < |mps| && Shadows(mps[j], mps[i]) && (x == mps[i] || x == mps[j])
  }

  /** `_get_overshadowing_mount_points` */
  method GetOvershadowingMountPoints(mps: seq<string>) returns (overshadowing: set<string>)
    ensures forall x :: x in overshadowing <==> InShadowPair(mps, x)
    ensures overshadowing == {} <==> NoShadow(mps)
  {
    hide Shadows;
    overshadowing := {};
    for i := 0 to |mps|
      invariant forall x :: x in overshadowing <==>
                  exists k, j :: 0 <= k < i && k < j < |mps| && Shadows(mps[j], mps[k]) && (x == mps[k] || x == mps[j])
    {
      ghost var before := overshadowing;
      for j := i + 1 to |mps|
        invariant forall x :: x in overshadowing <==>
                    (x in before || exists m :: i < m < j && Shadows(mps[m], mps[i]) && (x == mps[i] || x == mps[m]))
      {
        var common := GetCommonPath(mps[i], mps[j]);
        assert common == mps[j] <==> Shadows(mps[j], mps[i]) by { ShadowsMeans(mps[j], mps[i]); }
        if common == mps[j] {
          overshadowing := overshadowing + {mps[j]} + {mps[i]};
        }
      }
    }
    if !NoShadow(mps) {
      var i, j :| 0 <= i < j < |mps| && Shadows(mps[j], mps[i]);
      assert InShadowPair(mps, mps[i]);
    }
  }

  lemma ShadowsMeans(later: string, earlier: string)
    ensures Shadows(later, earlier) <==> CommonPath(earlier, later) == later
  {
  }

  // ---------------------------------------------------------------- normalised mount points

  /** What the actor makes of the second field of an fstab entry. */
  function Normalise(fsFile: string): string {
    if fsFile != "/" then RStrip(fsFile, IsSlash) else fsFile
  }

  predicate Normalised(p: string) {
    Absolute(p) && (p == "/" || p[|p| - 1] != '/')
  }

  function NormaliseAll(files: seq<string>): seq<string> {
    if files == [] then []
    else
      var p := Normalise(files[0]);
      (if Absolute(p) then [p] else []) + NormaliseAll(files[1..])
  }

  lemma {:induction false} NormaliseAllNormalises(files: seq<string>)
    ensures forall p :: p in NormaliseAll(files) ==> Normalised(p)
  {
    if files != [] {
      var _ := RStripSpec(files[0], IsSlash);
      NormaliseAllNormalises(files[1..]);
    }
  }

  /** The entries that count: absolute paths that are "/" or name something. */
  ghost predicate Counts(entry: string) {
    entry != "" && entry[0] == '/' && (entry == "/" || exists i :: 0 <= i < |entry| && entry[i] != '/')
  }

  /** `p` is the entry without the slashes at its end, "/" being itself. */
  ghost predicate SpelledBy(p: string, entry: string) {
    if entry == "/" then p == "/"
    else p <= entry && p != "" && p[|p| - 1] != '/' && forall i :: |p| <= i < |entry| ==> entry[i] == '/'
  }

  /** The mount points `mps` are the entries at the places `at`, which are those that count. */
  ghost predicate KeptFrom(fstab: seq<string>, mps: seq<string>, at: seq<nat>) {
    && |at| == |mps| && Ascending(at)
    && (forall k: nat :: k in at <==> k < |fstab| && Counts(fstab[k]))
    && (forall i :: 0 <= i < |at| ==> at[i] < |fstab| && SpelledBy(mps[i], fstab[at[i]]))
  }

  lemma NormaliseSpec(entry: string)
    ensures Absolute(Normalise(entry)) <==> Counts(entry)
    ensures Counts(entry) ==> SpelledBy(Normalise(entry), entry)
  {
    if entry != "/" {
      var post := RStripSpec(entry, IsSlash);
      var p := RStrip(entry, IsSlash);
      if p == "" {
        assert forall i :: 0 <= i < |entry| ==> IsSlash(entry[i]);
      } else {
        assert entry[|p| - 1] != '/' && entry[0] == p[0];
        assert forall i :: |p| <= i < |entry| ==> entry[i] == post[i - |p|] && IsSlash(post[i - |p|]);
      }
    }
  }

  /** Every entry that counts is kept, in order and once, up to the slashes at its end, and no other. */
  lemma {:induction false} NormaliseAllKeeps(fstab: seq<string>) returns (at: seq<nat>)
    ensures KeptFrom(fstab, NormaliseAll(fstab), at)
  {
    hide Normalise, Counts, SpelledBy, Absolute;
    at := [];
    if fstab != [] {
      var rest := NormaliseAllKeeps(fstab[1..]);
      at := (if Counts(fstab[0]) then [0] else []) + Later(rest);
      KeptPlaces(fstab, rest);
      KeptSpelled(fstab, rest);
    }
  }

  lemma KeptPlaces(fstab: seq<string>, rest: seq<nat>)
    requires fstab != [] && Ascending(rest)
    requires forall k: nat :: k in rest <==> k < |fstab[1..]| && Counts(fstab[1..][k])
    ensures var at := (if Counts(fstab[0]) then [0] else []) + Later(rest);
            Ascending(at) && forall k: nat :: k in at <==> k < |fstab| && Counts(fstab[k])
  {
    hide Counts, Later, Ascending;
    var tail := seq(|fstab[1..]|, k requires 0 <= k < |fstab[1..]| => Counts(fstab[1..][k]));
    assert PlacesOf(rest, tail);
    PlacesShift(rest, Counts(fstab[0]), tail);
    var flags := [Counts(fstab[0])] + tail;
    assert forall k :: 0 <= k < |fstab| ==> flags[k] == Counts(fstab[k]);
  }

  lemma KeptSpelled(fstab: seq<string>, rest: seq<nat>)
    requires fstab != [] && |rest| == |NormaliseAll(fstab[1..])|
    requires forall i :: 0 <= i < |rest| ==>
               rest[i] < |fstab[1..]| && SpelledBy(NormaliseAll(fstab[1..])[i], fstab[1..][rest[i]])
    ensures var at := (if Counts(fstab[0]) then [0] else []) + Later(rest);
            && |at| == |NormaliseAll(fstab)|
            && forall i :: 0 <= i < |at| ==> at[i] < |fstab| && SpelledBy(NormaliseAll(fstab)[i], fstab[at[i]])
  {
    hide Normalise, Counts, SpelledBy, Absolute, NormaliseAll;
    var at := (if Counts(fstab[0]) then [0] else []) + Later(rest);
    NormaliseStep(fstab);
    NormaliseSpec(fstab[0]);
    forall i | 0 <= i < |at| ensures at[i] < |fstab| && SpelledBy(NormaliseAll(fstab)[i], fstab[at[i]]) {
      var d := if Counts(fstab[0]) then 1 else 0;
      if i >= d {
        var k := rest[i - d];
        assert at[i] == Later(rest)[i - d] == k + 1;
        assert SpelledBy(NormaliseAll(fstab[1..])[i - d], fstab[1..][k]);
      }
    }
  }

  lemma NormaliseStep(fstab: seq<string>)
    requires fstab != []
    ensures NormaliseAll(fstab)
            == (if Counts(fstab[0]) then [Normalise(fstab[0])] else []) + NormaliseAll(fstab[1..])
  {
    NormaliseSpec(fstab[0]);
  }

  /** No slash is repeated before something else; at the end it may be. */
  ghost predicate TidyEntry(entry: string) {
    forall k, l :: 0 <= k && k + 1 < l < |entry| && entry[k] == '/' && entry[k + 1] == '/' ==> entry[l] == '/'
  }

  /** An entry that counts, a later one that hides it: what the report is about, on the entries. */
  ghost predicate EntryHides(fstab: seq<string>, i: nat, j: nat) {
    && i < j < |fstab| && Counts(fstab[i]) && Counts(fstab[j])
    && TidyEntry(fstab[j]) && Components(fstab[j]) <= Components(fstab[i])
  }

  lemma SpelledComponents(p: string, entry: string)
    requires Counts(entry) && SpelledBy(p, entry)
    ensures Components(p) == Components(entry)
    ensures Clean(p) <==> TidyEntry(entry)
    ensures p != ""
  {
    if entry != "/" {
      var post := entry[|p|..];
      assert entry == p + post && Only(post, IsSlash);
      var pre := LStripSpec(p, IsSlash);
      var inner := LStrip(p, IsSlash);
      assert !IsSlash(p[|p| - 1]);
      assert inner == "" ==> p == pre;
      assert p == pre + inner && inner[|inner| - 1] == p[|p| - 1];
      StripPadded(pre, inner, "", IsSlash);
      AppendNil(pre + inner);
      StripPadded(pre, inner, post, IsSlash);
      CleanIffTidy(p, entry);
    } else {
      assert Clean(p);
    }
  }

  lemma CleanIffTidy(p: string, entry: string)
    requires Counts(entry) && SpelledBy(p, entry) && entry != "/"
    ensures Clean(p) <==> TidyEntry(entry)
  {
    assert p[0] == '/' by { assert entry[0] == p[0]; }
    assert |p| > 1;
    assert forall k :: 0 <= k < |p| ==> entry[k] == p[k];
    if NoDoubleSlash(p) {
      assert forall k :: 0 <= k < |p| - 1 ==> entry[k] != '/' || entry[k + 1] != '/';
    }
    if TidyEntry(entry) {
      assert entry[|p| - 1] != '/';
      forall k | 0 <= k < |p| - 1 ensures p[k] != '/' || p[k + 1] != '/' {
        assert k + 1 < |p| - 1 ==> entry[k] != '/' || entry[k + 1] != '/';
      }
    }
  }

  /** Something is hidden among the kept mount points exactly if an entry is. */
  lemma ShadowedIffEntryHides(fstab: seq<string>)
    ensures NoShadow(NormaliseAll(fstab)) <==> !exists i, j :: EntryHides(fstab, i, j)
  {
    hide Shadows, Counts, SpelledBy, Components, TidyEntry, NormaliseAll, Clean;
    var mps := NormaliseAll(fstab);
    var at := NormaliseAllKeeps(fstab);
    forall x, y | 0 <= x < y < |at| ensures Shadows(mps[y], mps[x]) <==> EntryHides(fstab, at[x], at[y]) {
      assert at[x] in at && at[y] in at;
      SpelledComponents(mps[x], fstab[at[x]]);
      SpelledComponents(mps[y], fstab[at[y]]);
      ShadowsMeans(mps[y], mps[x]);
      CommonPathIff(mps[x], mps[y]);
    }
    if i, j :| EntryHides(fstab, i, j) {
      assert i in at && j in at;
      var x :| 0 <= x < |at| && at[x] == i;
      var y :| 0 <= y < |at| && at[y] == j;
      assert y < x ==> at[y] < at[x];
    }
  }

  lemma {:induction false} NormaliseAllFixed(mps: seq<string>)
    requires forall p :: p in mps ==> Normalised(p)
    ensures NormaliseAll(mps) == mps
  {
    if mps != [] {
      assert Normalised(mps[0]);
      assert Normalise(mps[0]) == mps[0];
      HeadTail(mps);
      NormaliseAllFixed(mps[1..]);
    }
  }

  // ---------------------------------------------------------------- the proposed order

  predicate NotLonger(a: string, b: string) { |a| <= |b| }

  /** `sorted(set(mount_points), key=len)`, given some enumeration of the set. */
  function ByLength(distinct: seq<string>): seq<string> {
    Sort(distinct, NotLonger)
  }

  /** A normalised path is never shorter than what hides it, and as long only if equal. */
  lemma ShadowIsShorter(later: string, earlier: string)
    requires Normalised(earlier) && later != "" && Shadows(later, earlier)
    ensures |later| < |earlier| || later == earlier
  {
    hide Shadows, Components, Strip, Join, Split, RStrip;
    ShadowsMeans(later, earlier);
    CommonPathIff(earlier, later);
    CleanComponents(later);
    if later != "/" {
      var inner := Strip(earlier, IsSlash);
      var pre, post := StripSpec(earlier, IsSlash);
      NotRootInside(earlier, later);
      NoTrailingSlash(earlier, inner, pre, post);
      ComponentsLength(earlier, Components(later));
      assert earlier == pre + inner && later == "/" + Join(Components(later), "/");
      assert |pre| == 1 ==> pre == "/" by { assert IsSlash(pre[0]); }
    }
  }

  lemma NotRootInside(earlier: string, later: string)
    requires Components(later) <= Components(earlier) && Components(later) != []
    ensures earlier != "/"
  {
    StripPadded("/", "", "", IsSlash);
  }

  /** A path holds at least the text of a leading part of its components. */
  lemma ComponentsLength(p: string, cs: seq<string>)
    requires cs != [] && cs <= Components(p)
    ensures var inner := Strip(p, IsSlash);
            |inner| > |Join(cs, "/")| || inner == Join(cs, "/")
  {
    hide Strip, Join, Split;
    var inner := Strip(p, IsSlash);
    JoinSplit(inner, '/');
    var more := Components(p)[|cs|..];
    assert Components(p) == cs + more;
    if more == [] {
      AppendNil(cs);
    } else {
      JoinAppend(cs, more, "/");
    }
  }

  lemma NoTrailingSlash(p: string, inner: string, pre: string, post: string)
    requires Normalised(p) && p != "/" && p == pre + inner + post && Only(pre, IsSlash) && Only(post, IsSlash)
    requires Bare(inner, IsSlash)
    ensures post == "" && |pre| >= 1 && inner != "" && p == pre + inner
  {
    LastOf(pre + inner, post);
    AppendNil(pre + inner);
    LastOf("", pre);
    AppendNil(pre);
    AppendNil(inner);
  }

  lemma NotLongerTotalOrder()
    ensures TotalOrder(NotLonger)
  {
  }

  /** Distinct normalised mount points, shortest first, never hide each other. */
  lemma ShortestFirstIsClear(mps: seq<string>)
    requires SortedBy(mps, NotLonger) && NoDup(mps)
    requires forall p :: p in mps ==> Normalised(p)
    ensures NoShadow(mps)
  {
    forall i, j | 0 <= i < j < |mps| ensures !Shadows(mps[j], mps[i]) {
      assert Normalised(mps[i]) && Normalised(mps[j]) && NotLonger(mps[i], mps[j]);
      if Shadows(mps[j], mps[i]) { ShadowIsShorter(mps[j], mps[i]); }
    }
  }

  // ---------------------------------------------------------------- the actor

  datatype Report = Report(duplicates: set<string>, inOrder: seq<string>, fixed: seq<string>)

  function Keep(mps: seq<string>, some: set<string>): seq<string> {
    if mps == [] then [] else (if mps[0] in some then [mps[0]] else []) + Keep(mps[1..], some)
  }

  /** Exactly the places with an element of the set, in order. */
  lemma {:induction false} KeepSpec(mps: seq<string>, some: set<string>) returns (at: seq<nat>)
    ensures |at| == |Keep(mps, some)| && Ascending(at)
    ensures forall k: nat :: k in at <==> k < |mps| && mps[k] in some
    ensures forall i :: 0 <= i < |at| ==> at[i] < |mps| && Keep(mps, some)[i] == mps[at[i]]
  {
    at := [];
    if mps != [] {
      var rest := KeepSpec(mps[1..], some);
      at := (if mps[0] in some then [0] else []) + Later(rest);
      KeepPlaces(mps, some, rest);
      KeepStep(mps, some, rest, at);
    }
  }

  lemma KeepPlaces(mps: seq<string>, some: set<string>, rest: seq<nat>)
    requires mps != [] && Ascending(rest)
    requires forall k: nat :: k in rest <==> k < |mps[1..]| && mps[1..][k] in some
    ensures var at := (if mps[0] in some then [0] else []) + Later(rest);
            Ascending(at) && forall k: nat :: k in at <==> k < |mps| && mps[k] in some
  {
    hide Later, Ascending;
    var tail := seq(|mps[1..]|, k requires 0 <= k < |mps[1..]| => mps[1..][k] in some);
    assert PlacesOf(rest, tail);
    PlacesShift(rest, mps[0] in some, tail);
    var flags := [mps[0] in some] + tail;
    assert forall k :: 0 <= k < |mps| ==> flags[k] == (mps[k] in some);
  }

  lemma KeepStep(mps: seq<string>, some: set<string>, rest: seq<nat>, at: seq<nat>)
    requires mps != [] && |rest| == |Keep(mps[1..], some)|
    requires forall i :: 0 <= i < |rest| ==> rest[i] < |mps[1..]| && Keep(mps[1..], some)[i] == mps[1..][rest[i]]
    requires at == (if mps[0] in some then [0] else []) + Later(rest)
    ensures |at| == |Keep(mps, some)|
    ensures forall i :: 0 <= i < |at| ==> at[i] < |mps| && Keep(mps, some)[i] == mps[at[i]]
  {
    hide Keep;
    KeepUnfold(mps, some);
    forall i | 0 <= i < |at| ensures at[i] < |mps| && Keep(mps, some)[i] == mps[at[i]] {
      var d := if mps[0] in some then 1 else 0;
      if i >= d {
        var k := rest[i - d];
        assert at[i] == Later(rest)[i - d] == k + 1;
        assert Keep(mps[1..], some)[i - d] == mps[1..][k];
      }
    }
  }

  lemma KeepUnfold(mps: seq<string>, some: set<string>)
    requires mps != []
    ensures Keep(mps, some) == (if mps[0] in some then [mps[0]] else []) + Keep(mps[1..], some)
  {
  }

  /** The distinct elements, each where it first appears. */
  function Distinct(mps: seq<string>): seq<string> {
    if mps == [] then [] else
      var rest := Distinct(mps[..|mps| - 1]);
      if mps[|mps| - 1] in rest then rest else rest + [mps[|mps| - 1]]
  }

  lemma {:induction false} DistinctSpec(mps: seq<string>)
    ensures NoDup(Distinct(mps)) && forall x :: x in Distinct(mps) <==> x in mps
  {
    if mps != [] {
      DistinctSpec(mps[..|mps| - 1]);
      assert mps == mps[..|mps| - 1] + [mps[|mps| - 1]];
    }
  }

  lemma ByLengthSpec(distinct: seq<string>)
    requires NoDup(distinct)
    ensures NoDup(ByLength(distinct)) && SortedBy(ByLength(distinct), NotLonger)
    ensures forall x :: x in ByLength(distinct) <==> x in distinct
  {
    NotLongerTotalOrder();
    SortSorts(distinct, NotLonger);
    SameMultisetNoDup(distinct, ByLength(distinct));
  }

  lemma SameMultisetNoDup(a: seq<string>, b: seq<string>)
    requires NoDup(a) && multiset(a) == multiset(b)
    ensures NoDup(b)
  {
    forall i, j | 0 <= i < j < |b| ensures b[i] != b[j] {
      if b[i] == b[j] {
        TwiceInside(b, i, j);
        OnceInside(a, b[i]);
      }
    }
  }

  lemma TwiceInside(b: seq<string>, i: nat, j: nat)
    requires i < j < |b| && b[i] == b[j]
    ensures multiset(b)[b[i]] >= 2
  {
    assert b == b[..j] + [b[j]] + b[j + 1..];
    assert b[i] in b[..j];
    assert multiset(b) == multiset(b[..j]) + multiset{b[j]} + multiset(b[j + 1..]);
  }

  lemma {:induction false} OnceInside(a: seq<string>, x: string)
    requires NoDup(a)
    ensures multiset(a)[x] <= 1
  {
    if a != [] {
      HeadTail(a);
      OnceInside(a[1..], x);
      assert a[0] !in a[1..];
      assert a[0] !in multiset(a[1..]);
    }
  }

  /** `check_fstab_mount_order`: nothing to say, or the report with its proposed order. */
  method CheckFstabMountOrder(fstab: seq<string>) returns (report: Option<Report>)
    ensures report.Some? <==> exists i, j :: EntryHides(fstab, i, j)
    ensures report.None? <==> NoShadow(NormaliseAll(fstab))
    ensures report.Some? ==>
              && (forall x :: x in report.value.duplicates <==> multiset(NormaliseAll(fstab))[x] > 1)
              && report.value.inOrder == Keep(NormaliseAll(fstab), ShadowSet(NormaliseAll(fstab)))
              && report.value.fixed == ByLength(Distinct(NormaliseAll(fstab)))
  {
    hide NoShadow, InShadowPair, Normalise, EntryHides;
    ShadowedIffEntryHides(fstab);
    var mountPoints: seq<string> := [];
    for i := 0 to |fstab|
      invariant NormaliseAll(fstab) == mountPoints + NormaliseAll(fstab[i..])
    {
      var mountPoint := Normalise(fstab[i]);
      assert fstab[i..][1..] == fstab[i + 1..];
      if Absolute(mountPoint) {
        Associative(mountPoints, [mountPoint], NormaliseAll(fstab[i + 1..]));
        mountPoints := mountPoints + [mountPoint];
      }
    }
    AppendNil(mountPoints);
    var overshadowing := GetOvershadowingMountPoints(mountPoints);
    var duplicates := set mp | mp in mountPoints && multiset(mountPoints)[mp] > 1;
    assert forall x :: multiset(mountPoints)[x] > 1 ==> x in multiset(mountPoints);
    if overshadowing == {} { return None; }
    ShadowSetSpec(mountPoints, overshadowing);
    report := Some(
      Report(duplicates, Keep(mountPoints, overshadowing), ByLength(Distinct(mountPoints))));
  }

  ghost function ShadowSet(mps: seq<string>): set<string> { set x | x in mps && InShadowPair(mps, x) }

  lemma ShadowSetSpec(mps: seq<string>, overshadowing: set<string>)
    requires forall x :: x in overshadowing <==> InShadowPair(mps, x)
    ensures overshadowing == ShadowSet(mps)
  {
    forall x | InShadowPair(mps, x) ensures x in mps {
      var i, j :| 0 <= i < j < |mps| && Shadows(mps[j], mps[i]) && (x == mps[i] || x == mps[j]);
    }
  }

  /** The proposed order has the same mount points, each once, and the actor has nothing to
    * say about an fstab that lists them that way.
    */
  lemma RepairIsAccepted(fstab: seq<string>)
    ensures var fixed := ByLength(Distinct(NormaliseAll(fstab)));
            && NormaliseAll(fixed) == fixed && NoShadow(fixed)
            && NoDup(fixed) && (forall x :: x in fixed <==> x in NormaliseAll(fstab))
            && forall i, j :: 0 <= i < j < |fixed| ==> |fixed[i]| <= |fixed[j]|
  {
    var mps := NormaliseAll(fstab);
    DistinctSpec(mps);
    ByLengthSpec(Distinct(mps));
    NormaliseAllNormalises(fstab);
    NormaliseAllFixed(ByLength(Distinct(mps)));
    ShortestFirstIsClear(ByLength(Distinct(mps)));
  }

  /** Any other way of enumerating the set of mount points is repaired just as well. */
  lemma EveryEnumerationIsRepaired(fstab: seq<string>, enumeration: seq<string>)
    requires NoDup(enumeration) && forall x :: x in enumeration <==> x in NormaliseAll(fstab)
    ensures NormaliseAll(ByLength(enumeration)) == ByLength(enumeration) && NoShadow(ByLength(enumeration))
  {
    ByLengthSpec(enumeration);
    NormaliseAllNormalises(fstab);
    NormaliseAllFixed(ByLength(enumeration));
    ShortestFirstIsClear(ByLength(enumeration));
  }

  // ---------------------------------------------------------------- what the detector means

  /** On clean mount points the detector is silent exactly when nothing is mounted after
    * something inside of it: the order the overlays of the same mount points depend on.
    */
  lemma SilentIffAncestorsFirst(mps: seq<string>)
    requires forall p :: p in mps ==> Clean(p)
    ensures NoShadow(mps) <==> OverlayLayout.AncestorsFirst(mps)
  {
    forall i, j | 0 <= i < j < |mps| ensures Shadows(mps[j], mps[i]) <==> AtOrBelow(mps[i], mps[j]) {
      assert Clean(mps[i]) && Clean(mps[j]);
      CommonPathIff(mps[i], mps[j]);
      AtOrBelowIsPrefix(mps[i], mps[j]);
    }
  }

  /** A mount point spelled with a repeated slash hides others without being noticed. */
  lemma RepeatedSlashIsMissed(earlier: string, later: string)
    requires earlier != "" && later != "" && !NoDoubleSlash(later)
    ensures !Shadows(later, earlier)
    ensures !Shadows("//var", "/var/log") && Shadows("/var", "/var/log")
  {
    hide CommonPath, Components;
    CommonPathIff(earlier, later);
    DoubleSlashSpelling();
    CommonPathIff("/var/log", "//var");
    VarHidesLog();
  }

  lemma DoubleSlashSpelling()
    ensures !Clean("//var")
  {
    var p := "//var";
    assert p[0] == '/' && p[0 + 1] == '/';
  }

  lemma VarHidesLog()
    ensures Shadows("/var", "/var/log")
  {
    hide CommonPath, Components;
    AtOrBelowIsPrefix("/var/log", "/var");
    CommonPathIff("/var/log", "/var");
  }
}
