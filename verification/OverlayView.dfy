/** What a path leads to while the code under the overlays runs. */
module OverlayView {
  import opened Wrappers
  import opened Seqs
  import opened Strings
  import opened Paths
  import opened MountTable
  import opened OverlayLayout
  import opened OverlayGen

  /** Where a path ends: on one of the host's file systems, in a disk image, or in an overlay, which
    * shows `path` of the file system at `lower` until something is written, and that is `written`.
    */
  datatype Place = OnHost(path: string) | InImage(image: string, path: string)
                 | Overlaid(lower: string, path: string, written: Place)

  /** The newest mount around a path decides; a bind mount leads on to what its directory was when
    * it was made, an overlay writes to what its upper directory was.
    */
  function Lookup(table: Table, p: string): Place
    decreases |table|, 0
  {
    if table == [] then OnHost(p)
    else
      var m, older := table[|table| - 1], table[..|table| - 1];
      if !AtOrBelow(p, m.target) then Lookup(older, p) else Enter(older, m, p)
  }

  function Enter(older: Table, m: Mount, p: string): Place
    requires AtOrBelow(p, m.target)
    decreases |older|, 1
  {
    var rest := p[|m.target|..];
    match m.what
    case HostFs => OnHost(p)
    case Image(image) => InImage(image, rest)
    case Dir(dir) => Lookup(older, dir + rest)
    case Union(lower, upper, _) => Overlaid(lower, rest, Lookup(older, upper + rest))
  }

  ghost predicate NoneAround(table: Table, p: string) {
    forall i :: 0 <= i < |table| ==> !AtOrBelow(p, table[i].target)
  }

  lemma {:induction false} LookupSkips(older: Table, newer: Table, p: string)
    requires NoneAround(newer, p)
    ensures Lookup(older + newer, p) == Lookup(older, p)
    decreases |newer|
  {
    hide AtOrBelow;
    if newer == [] {
      AppendNil(older);
    } else {
      InitOfAppend(older, newer);
      LookupSkips(older, newer[..|newer| - 1], p);
    }
  }

  lemma LookupNewest(older: Table, m: Mount, p: string)
    requires AtOrBelow(p, m.target)
    ensures Lookup(older + [m], p) == Enter(older, m, p)
  {
    assert (older + [m])[..|older|] == older;
  }

  // ---------------------------------------------------------------- one mount point

  /** What is shown at `p`, with `m` as the mount point it belongs to. */
  function Shown(images: string, m: string, rest: string): Place {
    Overlaid(m, rest, InImage(ImageOf(images, m), "/upper" + rest))
  }

  ghost predicate Rest(s: string) { s == "" || s[0] == '/' }

  lemma RestIsInside(dir: string, s: string)
    requires Rest(s) && dir != "" && dir[|dir| - 1] != '/'
    ensures AtOrBelow(dir + s, dir) && (dir + s)[|dir|..] == s
  {
    if s == "" {
      AppendNil(dir);
    } else {
      assert dir + "/" <= dir + s;
    }
  }

  /** An overlay on a loop mount. */
  lemma OverlayShows(older: Table, images: string, mountsDir: string, name: string, m: string, s: string)
    requires Clean(mountsDir) && Clean(m) && Segment(name) && Rest(s)
    ensures var loop := LoopLayer(images, mountsDir, m);
            var over := OverlayLayer(name, m, loop.target);
            Lookup(older + [loop.Own()] + [over.Own()], over.target + s) == Shown(images, m, s)
  {
    hide Lookup, MountName;
    var loop := LoopLayer(images, mountsDir, m);
    var over := OverlayLayer(name, m, loop.target);
    TargetShapes(mountsDir, m);
    JoinChild(loop.target, name);
    JoinChild(loop.target, "upper");
    RestIsInside(over.target, s);
    LookupNewest(older + [loop.Own()], over.Own(), over.target + s);
    assert "/" + "upper" == "/upper" && Rest("/upper" + s);
    RestIsInside(loop.target, "/upper" + s);
    Associative(loop.target, "/upper", s);
    LookupNewest(older, loop.Own(), PathJoin(loop.target, "upper") + s);
  }

  // ---------------------------------------------------------------- the mounts below the system overlay

  /** The host's path `p` as it is called in the system overlay. */
  function InRoot(mountsDir: string, p: string): string {
    SystemOverlay(mountsDir) + if p == "/" then "" else p
  }

  /** What is left of `p` below the mount point `m`. */
  function Beyond(p: string, m: string): string
    requires AtOrBelow(p, m)
  {
    if m == "/" then (if p == "/" then "" else p) else p[|m|..]
  }

  /** The last mount point of the list that `p` is in. */
  function LastAround(mps: seq<string>, p: string): (m: Option<string>)
    ensures m.Some? ==> m.value in mps && AtOrBelow(p, m.value)
    ensures m.None? ==> forall m' :: m' in mps ==> !AtOrBelow(p, m')
  {
    if mps == [] then None
    else
      var later := LastAround(mps[1..], p);
      if later.Some? then later else if AtOrBelow(p, mps[0]) then Some(mps[0]) else None
  }

  lemma BeyondIsRest(p: string, m: string)
    requires Clean(p) && Clean(m) && AtOrBelow(p, m)
    ensures Rest(Beyond(p, m)) && p == if m == "/" then (if p == "/" then "/" else Beyond(p, m)) else m + Beyond(p, m)
  {
    if m != "/" {
      if p != m { assert p[|m|] == '/' by { assert AsDir(m)[|m|] == '/'; } }
      assert p == m + p[|m|..];
    }
  }

  /** The three mounts of `m` are not around a path of the system overlay that is not below `m`. */
  lemma OthersApart(images: string, mountsDir: string, m: string, p: string)
    requires Clean(mountsDir) && SubMount(m) && Clean(p)
    ensures var loop, over := LoopLayer(images, mountsDir, m), OverlayLayer(MountName(m), m, MountDir(mountsDir, m));
            && !AtOrBelow(InRoot(mountsDir, p), loop.target) && !AtOrBelow(InRoot(mountsDir, p), over.target)
            && (AtOrBelow(InRoot(mountsDir, p), BindTarget(SystemOverlay(mountsDir), m)) <==> AtOrBelow(p, m))
  {
    hide AtOrBelow, MountName, MountDir, BindTarget, SystemOverlay, AsDir, Clean;
    var base, n, s := AsDir(mountsDir), MountName(m), "/system_overlay" + if p == "/" then "" else p;
    InRootShape(mountsDir, p);
    TargetShapes(mountsDir, m);
    BindShape(mountsDir, m);
    OverlayShape(mountsDir, m);
    AppendNil(base + n);
    RootName(m);
    BindTail(m);
    InMountsDir(base, "root_", s, n, "");
    InMountsDir(base, "root_", s, n, "/" + n);
    InMountsDir(base, "root_", s, "root_", "/system_overlay" + m);
    CancelPrefix("/system_overlay", if p == "/" then "" else p, m);
    NothingBelow(p, m);
  }

  /** A path of the system overlay, segment by segment. */
  lemma InRootShape(mountsDir: string, p: string)
    requires Clean(mountsDir) && Clean(p)
    ensures var s := "/system_overlay" + if p == "/" then "" else p;
            InRoot(mountsDir, p) == AsDir(mountsDir) + "root_" + s && Tail(s)
  {
    RootShape(mountsDir);
    Associative(AsDir(mountsDir) + "root_", "/system_overlay", if p == "/" then "" else p);
    AppendNil("/system_overlay");
  }

  lemma RootName(m: string)
    requires SubMount(m)
    ensures Segment("root_") && MountName(m) != "root_"
  {
    NameShape("/");
    NameShape(m);
  }

  lemma NothingBelow(p: string, m: string)
    requires SubMount(m) && Clean(p)
    ensures AtOrBelow(if p == "/" then "" else p, m) <==> AtOrBelow(p, m)
  {
  }

  lemma CacheApart(mountsDir: string, p: string)
    requires Clean(mountsDir) && Clean(p)
    ensures AtOrBelow(InRoot(mountsDir, p), CacheTarget(SystemOverlay(mountsDir))) <==> AtOrBelow(p, DNF_CACHE)
  {
    hide AsDir, SystemOverlay, CacheTarget, Clean;
    var base, s := AsDir(mountsDir), "/system_overlay" + if p == "/" then "" else p;
    CacheShape(mountsDir);
    InRootShape(mountsDir, p);
    NameShape("/");
    CacheTail();
    InMountsDir(base, "root_", s, "root_", "/system_overlay" + DNF_CACHE);
    CancelPrefix("/system_overlay", if p == "/" then "" else p, DNF_CACHE);
    NotInCache(p);
  }

  lemma NotInCache(p: string)
    ensures AtOrBelow(if p == "/" then "" else p, DNF_CACHE) <==> AtOrBelow(p, DNF_CACHE)
  {
  }

  /** The bind mount of `m` leads to its overlay. */
  lemma BindShows(older: Table, images: string, mountsDir: string, m: string, p: string)
    requires Clean(mountsDir) && SubMount(m) && Clean(p) && AtOrBelow(p, m)
    ensures Lookup(WithMount(older, images, mountsDir, m), InRoot(mountsDir, p)) == Shown(images, m, Beyond(p, m))
  {
    hide Lookup, MountName, AtOrBelow;
    var loop, over := LoopLayer(images, mountsDir, m), OverlayLayer(MountName(m), m, MountDir(mountsDir, m));
    var bind, root, s := BindTarget(SystemOverlay(mountsDir), m), SystemOverlay(mountsDir), Beyond(p, m);
    BeyondIsRest(p, m);
    NameShape(m);
    BindShape(mountsDir, m);
    RootShape(mountsDir);
    Associative(AsDir(mountsDir) + "root_", "/system_overlay", m);
    assert bind == root + m;
    Associative(root, m, s);
    NotRoot(p, m);
    RestIsInside(bind, s);
    LookupNewest(older + [loop.Own()] + [over.Own()], Mount(bind, Dir(over.target)), bind + s);
    OverlayShows(older, images, mountsDir, MountName(m), m, s);
  }

  lemma NotRoot(p: string, m: string)
    requires SubMount(m) && AtOrBelow(p, m)
    ensures p != "/"
  {
  }

  lemma SkipMount(older: Table, images: string, mountsDir: string, m: string, p: string)
    requires Clean(mountsDir) && SubMount(m) && Clean(p) && !AtOrBelow(p, m)
    ensures Lookup(WithMount(older, images, mountsDir, m), InRoot(mountsDir, p)) == Lookup(older, InRoot(mountsDir, p))
  {
    hide Lookup, AtOrBelow, MountName, LoopLayer, OverlayLayer, InRoot;
    var loop := LoopLayer(images, mountsDir, m).Own();
    var over := OverlayLayer(MountName(m), m, MountDir(mountsDir, m)).Own();
    var bind := Mount(BindTarget(SystemOverlay(mountsDir), m), Dir(over.target));
    OthersApart(images, mountsDir, m, p);
    LookupSkips(older, [loop, over, bind], InRoot(mountsDir, p));
    assert older + [loop, over, bind] == older + [loop] + [over] + [bind];
  }

  lemma {:induction false} SubMountsStep(images: string, mountsDir: string, mps: seq<string>, ok: bool)
    requires mps != []
    ensures var root := SystemOverlay(mountsDir);
            forall older :: older + MountsOf(SubLayers(images, mountsDir, root, mps), Reached(ok))
              == WithMount(older, images, mountsDir, mps[0])
                 + MountsOf(SubLayers(images, mountsDir, root, mps[1..]), Reached(ok))
  {
    hide MountName, MountDir, BindTarget, SystemOverlay;
    var root, m := SystemOverlay(mountsDir), mps[0];
    var loop, over := LoopLayer(images, mountsDir, m), OverlayLayer(MountName(m), m, MountDir(mountsDir, m));
    var bind, rest := PlainLayer(Dir(over.target), BindTarget(root, m)), SubLayers(images, mountsDir, root, mps[1..]);
    MountsOfThree(loop, over, bind, rest, ok);
  }

  lemma MountsOfCons(l: Layer, rest: seq<Layer>, ok: bool)
    ensures MountsOf([l] + rest, Reached(ok)) == Own(l) + MountsOf(rest, Reached(ok))
  {
    TailOfCons(l, rest);
  }

  lemma MountsOfThree(x: Layer, y: Layer, z: Layer, rest: seq<Layer>, ok: bool)
    ensures MountsOf([x, y, z] + rest, Reached(ok)) == Own(x) + (Own(y) + (Own(z) + MountsOf(rest, Reached(ok))))
  {
    assert [x, y, z] + rest == [x] + ([y] + ([z] + rest));
    MountsOfCons(x, [y] + ([z] + rest), ok);
    MountsOfCons(y, [z] + rest, ok);
    MountsOfCons(z, rest, ok);
  }

  /** Below the system overlay the last listed mount point around a path decides; without one it is
    * as it was before the mounts. Listed after what they are in, that is the innermost one.
    */
  lemma {:induction false} SubMountsShow(older: Table, images: string, mountsDir: string, mps: seq<string>, ok: bool,
                                         p: string)
    requires Clean(mountsDir) && SubMounts(mps) && Clean(p) && !AtOrBelow(p, DNF_CACHE)
    ensures var table := older + MountsOf(SubLayers(images, mountsDir, SystemOverlay(mountsDir), mps), Reached(ok));
            Lookup(table, InRoot(mountsDir, p))
            == match LastAround(mps, p)
               case Some(m) => Shown(images, m, Beyond(p, m))
               case None => Lookup(older, InRoot(mountsDir, p))
    decreases |mps|
  {
    hide Lookup, AtOrBelow, InRoot, WithMount, Shown;
    if mps == [] {
      var cache := PlainLayer(Dir(DNF_CACHE), CacheTarget(SystemOverlay(mountsDir)));
      CacheApart(mountsDir, p);
      OneMount(cache, ok);
      LookupSkips(older, [cache.Own()], InRoot(mountsDir, p));
    } else {
      var m := mps[0];
      SubMountsStep(images, mountsDir, mps, ok);
      assert SubMounts(mps[1..]);
      SubMountsShow(WithMount(older, images, mountsDir, m), images, mountsDir, mps[1..], ok, p);
      if AtOrBelow(p, m) {
        BindShows(older, images, mountsDir, m, p);
      } else {
        SkipMount(older, images, mountsDir, m, p);
      }
    }
  }

  lemma OneMount(l: Layer, ok: bool)
    ensures MountsOf([l], Reached(ok)) == Own(l)
  {
    assert [l][1..] == [];
    AppendNil(Own(l));
  }

  /** Listed after what they are in, the last one around a path is the innermost. */
  lemma {:induction false} LastIsInnermost(mps: seq<string>, p: string, m: string)
    requires SubMounts(mps) && AncestorsFirst(mps) && m in mps && AtOrBelow(p, m)
    ensures LastAround(mps, p).Some? && AtOrBelow(LastAround(mps, p).value, m)
  {
    var rest := mps[1..];
    var later := LastAround(rest, p);
    assert SubMounts(rest);
    assert AncestorsFirst(rest) by {
      forall i, j | 0 <= i < j < |rest| ensures !AtOrBelow(rest[i], rest[j]) {
        assert !AtOrBelow(mps[i + 1], mps[j + 1]);
      }
    }
    HeadTail(mps);
    if m in rest {
      LastIsInnermost(rest, p, m);
    } else if later.Some? {
      var j :| 0 <= j < |rest| && rest[j] == later.value;
      assert !AtOrBelow(mps[0], mps[j + 1]) && SubMount(mps[0]) && SubMount(rest[j]);
      AroundCompare(p, m, later.value);
    } else {
      assert AtOrBelow(m, m);
    }
  }

  /** Of two directories around a path one is inside the other. */
  lemma AroundCompare(p: string, m: string, m': string)
    requires Clean(m) && Clean(m') && AtOrBelow(p, m) && AtOrBelow(p, m')
    ensures AtOrBelow(m, m') || AtOrBelow(m', m)
  {
    if p != m && p != m' {
      PrefixesCompare(AsDir(m), AsDir(m'), p);
      if AsDir(m) <= AsDir(m') { CleanDirPrefix(m', m); } else { CleanDirPrefix(m, m'); }
    }
  }

  // ---------------------------------------------------------------- the whole tower

  lemma RootShows(table: Table, images: string, mountsDir: string, p: string)
    requires Clean(mountsDir) && Clean(p)
    ensures AtOrBelow(p, "/")
    ensures Lookup(WithRoot(table, images, mountsDir), InRoot(mountsDir, p)) == Shown(images, "/", Beyond(p, "/"))
  {
    hide Lookup, MountDir;
    OverlayShows(table, images, mountsDir, "system_overlay", "/", Beyond(p, "/"));
  }

  /** The caller's bind target is not around the system overlay. */
  lemma TargetAside(mountsDir: string, target: string, p: string)
    requires Clean(mountsDir) && Clean(target) && Clean(p)
    requires !AtOrBelow(target, mountsDir) && !AtOrBelow(mountsDir, target)
    ensures !AtOrBelow(InRoot(mountsDir, p), target)
  {
    var s := if p == "/" then "" else p;
    RootShape(mountsDir);
    Associative(AsDir(mountsDir) + "root_", "/system_overlay", s);
    OutsideInRoot(mountsDir, target, "/system_overlay" + s);
  }

  ghost predicate TargetAway(mountsDir: string, mountTarget: Option<string>) {
    mountTarget.Some? && mountTarget.value != "" ==>
      Clean(mountTarget.value) && !AtOrBelow(mountTarget.value, mountsDir) && !AtOrBelow(mountsDir, mountTarget.value)
  }

  lemma SourceMounts(table: Table, images: string, mountsDir: string, mps: seq<string>, mountTarget: Option<string>,
                     ok: bool)
    ensures var root := SystemOverlay(mountsDir);
            table + MountsOf(SourceOverlayLayers(images, mountsDir, mps, mountTarget), Reached(ok))
            == WithRoot(table, images, mountsDir) + Own(TargetLayer(root, mountTarget))
               + MountsOf(SubLayers(images, mountsDir, root, mps), Reached(ok))
  {
    hide MountDir, SubLayers, TargetLayer, Own;
    var root := SystemOverlay(mountsDir);
    var loop, over := LoopLayer(images, mountsDir, "/"), OverlayLayer("system_overlay", "/", MountDir(mountsDir, "/"));
    MountsOfThree(loop, over, TargetLayer(root, mountTarget), SubLayers(images, mountsDir, root, mps), ok);
    OwnOfCreating(loop);
    OwnOfCreating(over);
    Regroup(table, [loop.Own()], [over.Own()], Own(TargetLayer(root, mountTarget)),
            MountsOf(SubLayers(images, mountsDir, root, mps), Reached(ok)));
  }

  lemma OwnOfCreating(l: Layer)
    requires l.Creates()
    ensures Own(l) == [l.Own()]
  {
  }

  lemma Regroup(t: Table, a: Table, b: Table, c: Table, d: Table)
    ensures t + (a + (b + (c + d))) == t + a + b + c + d
  {
  }

  /** The mount point that a path of the host belongs to. */
  function OwnerOf(mps: seq<string>, p: string): string {
    match LastAround(mps, p)
    case Some(m) => m
    case None => "/"
  }

  /** What the table of the whole tower shows below the system overlay. */
  lemma TowerShows(table: Table, images: string, mountsDir: string, mps: seq<string>, mountTarget: Option<string>,
                   ok: bool, p: string)
    requires Clean(mountsDir) && SubMounts(mps) && Clean(p) && !AtOrBelow(p, DNF_CACHE)
    requires TargetAway(mountsDir, mountTarget)
    ensures var seen := table + MountsOf(SourceOverlayLayers(images, mountsDir, mps, mountTarget), Reached(ok));
            && AtOrBelow(p, OwnerOf(mps, p))
            && Lookup(seen, InRoot(mountsDir, p)) == Shown(images, OwnerOf(mps, p), Beyond(p, OwnerOf(mps, p)))
  {
    hide Lookup, InRoot, WithRoot, Shown, SubLayers, SourceOverlayLayers, AtOrBelow;
    var target := TargetLayer(SystemOverlay(mountsDir), mountTarget);
    SourceMounts(table, images, mountsDir, mps, mountTarget, ok);
    SubMountsShow(WithRoot(table, images, mountsDir) + Own(target), images, mountsDir, mps, ok, p);
    RootShows(table, images, mountsDir, p);
    if target.Creates() { TargetAside(mountsDir, target.target, p); }
    LookupSkips(WithRoot(table, images, mountsDir), Own(target), InRoot(mountsDir, p));
  }

  // ---------------------------------------------------------------- everything else the tower mounts

  ghost predicate AllIn(table: Table, dir: string) {
    forall i :: 0 <= i < |table| ==> AtOrBelow(table[i].target, dir)
  }

  lemma AllInAppend(a: Table, b: Table, dir: string)
    ensures AllIn(a + b, dir) <==> AllIn(a, dir) && AllIn(b, dir)
  {
    hide AtOrBelow;
    if AllIn(a + b, dir) {
      forall i | 0 <= i < |a| ensures AtOrBelow(a[i].target, dir) { assert a[i] == (a + b)[i]; }
      forall i | 0 <= i < |b| ensures AtOrBelow(b[i].target, dir) { assert b[i] == (a + b)[|a| + i]; }
    }
  }

  lemma PlaceInMountsDir(mountsDir: string, s: string)
    requires Clean(mountsDir)
    ensures AtOrBelow(AsDir(mountsDir) + s, mountsDir)
  {
  }

  lemma ThreeIn(images: string, mountsDir: string, m: string)
    requires Clean(mountsDir) && SubMount(m)
    ensures AllIn(WithMount([], images, mountsDir, m), mountsDir)
  {
    hide AtOrBelow, MountName, MountDir, BindTarget, SystemOverlay, Clean;
    TargetShapes(mountsDir, m);
    OverlayShape(mountsDir, m);
    BindShape(mountsDir, m);
    PlaceInMountsDir(mountsDir, MountName(m));
    Associative(AsDir(mountsDir), MountName(m), "/" + MountName(m));
    PlaceInMountsDir(mountsDir, MountName(m) + ("/" + MountName(m)));
    Associative(AsDir(mountsDir), "root_", "/system_overlay" + m);
    PlaceInMountsDir(mountsDir, "root_" + ("/system_overlay" + m));
    var loop := LoopLayer(images, mountsDir, m).Own();
    var over := OverlayLayer(MountName(m), m, MountDir(mountsDir, m)).Own();
    assert WithMount([], images, mountsDir, m)
           == [loop, over, Mount(BindTarget(SystemOverlay(mountsDir), m), Dir(over.target))];
  }

  /** The mounts below the system overlay: all in the mounts directory, the DNF cache last. */
  lemma {:induction false} SubMountsEnd(images: string, mountsDir: string, mps: seq<string>, ok: bool)
    returns (init: Table)
    requires Clean(mountsDir) && SubMounts(mps)
    ensures var cache := CacheTarget(SystemOverlay(mountsDir));
            && MountsOf(SubLayers(images, mountsDir, SystemOverlay(mountsDir), mps), Reached(ok))
               == init + [Mount(cache, Dir("/var/cache/dnf"))]
            && AllIn(init, mountsDir) && AtOrBelow(cache, mountsDir)
    decreases |mps|
  {
    hide AtOrBelow, WithMount, MountsOf, SubLayers;
    var root := SystemOverlay(mountsDir);
    init := [];
    if mps == [] {
      CacheShape(mountsDir);
      Associative(AsDir(mountsDir), "root_", "/system_overlay" + DNF_CACHE);
      PlaceInMountsDir(mountsDir, "root_" + ("/system_overlay" + DNF_CACHE));
      NoSubMounts(images, mountsDir, ok);
    } else {
      assert SubMounts(mps[1..]);
      var rest := SubMountsEnd(images, mountsDir, mps[1..], ok);
      SubMountsStep(images, mountsDir, mps, ok);
      ThreeIn(images, mountsDir, mps[0]);
      var three := WithMount([], images, mountsDir, mps[0]);
      init := three + rest;
      AllInAppend(three, rest, mountsDir);
      var whole := MountsOf(SubLayers(images, mountsDir, root, mps), Reached(ok));
      assert [] + whole == whole;
      Associative(three, rest, [Mount(CacheTarget(root), Dir(DNF_CACHE))]);
    }
  }

  lemma NoSubMounts(images: string, mountsDir: string, ok: bool)
    ensures var root := SystemOverlay(mountsDir);
            MountsOf(SubLayers(images, mountsDir, root, []), Reached(ok)) == [Mount(CacheTarget(root), Dir(DNF_CACHE))]
  {
    OneMount(PlainLayer(Dir(DNF_CACHE), CacheTarget(SystemOverlay(mountsDir))), ok);
  }

  lemma RootMountsIn(images: string, mountsDir: string)
    requires Clean(mountsDir)
    ensures AllIn(WithRoot([], images, mountsDir), mountsDir)
  {
    RootShape(mountsDir);
    PlaceInMountsDir(mountsDir, "root_");
    Associative(AsDir(mountsDir), "root_", "/system_overlay");
    PlaceInMountsDir(mountsDir, "root_" + "/system_overlay");
  }

  /** What is in the mounts directory is not around a path that is not. */
  lemma NotInMountsDir(table: Table, mountsDir: string, p: string)
    requires AllIn(table, mountsDir) && !AtOrBelow(p, mountsDir)
    ensures NoneAround(table, p)
  {
    forall i | 0 <= i < |table| ensures !AtOrBelow(p, table[i].target) {
      if AtOrBelow(p, table[i].target) { AtOrBelowTransitive(p, table[i].target, mountsDir); }
    }
  }

  /** At the caller's bind target the root overlay is shown, as it was before the mounts in it. */
  lemma TargetShows(table: Table, images: string, mountsDir: string, mps: seq<string>, target: string, ok: bool,
                    s: string)
    requires Clean(mountsDir) && SubMounts(mps) && TargetAway(mountsDir, Some(target)) && target != "" && Rest(s)
    ensures var seen := table + MountsOf(SourceOverlayLayers(images, mountsDir, mps, Some(target)), Reached(ok));
            Lookup(seen, target + s) == Shown(images, "/", s)
  {
    hide Lookup, WithRoot, Shown, SubLayers, SourceOverlayLayers, AtOrBelow, MountsOf, MountDir;
    var root := SystemOverlay(mountsDir);
    var bind := TargetLayer(root, Some(target));
    assert bind == PlainLayer(Dir(root), target);
    OwnOfCreating(bind);
    SourceMounts(table, images, mountsDir, mps, Some(target), ok);
    var init := SubMountsEnd(images, mountsDir, mps, ok);
    var subs := MountsOf(SubLayers(images, mountsDir, root, mps), Reached(ok));
    AllInAppend(init, [Mount(CacheTarget(root), Dir("/var/cache/dnf"))], mountsDir);
    TargetOutside(mountsDir, target, s);
    NotInMountsDir(subs, mountsDir, target + s);
    var before := WithRoot(table, images, mountsDir);
    LookupSkips(before + [bind.Own()], subs, target + s);
    RestIsInside(target, s);
    LookupNewest(before, bind.Own(), target + s);
    RootOverlay(table, images, mountsDir, s);
  }

  lemma RootOverlay(table: Table, images: string, mountsDir: string, s: string)
    requires Clean(mountsDir) && Rest(s)
    ensures Lookup(WithRoot(table, images, mountsDir), SystemOverlay(mountsDir) + s) == Shown(images, "/", s)
  {
    hide Lookup, MountDir;
    OverlayShows(table, images, mountsDir, "system_overlay", "/", s);
  }

  lemma TargetOutside(mountsDir: string, target: string, s: string)
    requires Clean(mountsDir) && TargetAway(mountsDir, Some(target)) && target != "" && Rest(s)
    ensures target != "/" && !AtOrBelow(target + s, mountsDir)
  {
    assert target == "/" ==> AtOrBelow(mountsDir, target);
    RestIsInside(target, s);
    if AtOrBelow(target + s, mountsDir) { AroundCompare(target + s, target, mountsDir); }
  }

  lemma {:induction false} HostAlone(table: Table, p: string)
    requires forall i :: 0 <= i < |table| ==> table[i].what == HostFs
    ensures Lookup(table, p) == OnHost(p)
  {
    hide AtOrBelow;
    if table != [] { HostAlone(table[..|table| - 1], p); }
  }

  /** The DNF cache in the system overlay is the one of the host. */
  lemma CacheShows(table: Table, images: string, mountsDir: string, mps: seq<string>, mountTarget: Option<string>,
                   ok: bool, p: string)
    requires Clean(mountsDir) && SubMounts(mps) && Clean(p) && AtOrBelow(p, DNF_CACHE)
    requires TargetAway(mountsDir, mountTarget) && !AtOrBelow(p, mountsDir)
    requires mountTarget.Some? && mountTarget.value != "" ==> !AtOrBelow(p, mountTarget.value)
    requires forall i :: 0 <= i < |table| ==> table[i].what == HostFs
    ensures var seen := table + MountsOf(SourceOverlayLayers(images, mountsDir, mps, mountTarget), Reached(ok));
            Lookup(seen, InRoot(mountsDir, p)) == OnHost(p)
  {
    hide Lookup, Shown, SubLayers, SourceOverlayLayers, AtOrBelow, MountsOf, MountDir, WithRoot;
    var root, target := SystemOverlay(mountsDir), TargetLayer(SystemOverlay(mountsDir), mountTarget);
    var cache := Mount(CacheTarget(root), Dir("/var/cache/dnf"));
    SourceMounts(table, images, mountsDir, mps, mountTarget, ok);
    var init := SubMountsEnd(images, mountsDir, mps, ok);
    var ours := WithRoot([], images, mountsDir) + Own(target) + init;
    var older := table + ours;
    WithRootAppend(table, images, mountsDir);
    Regroup4(table, WithRoot([], images, mountsDir), Own(target), init, [cache]);
    CacheApart(mountsDir, p);
    LookupNewest(older, cache, InRoot(mountsDir, p));
    CachePath(mountsDir, p);
    RootMountsIn(images, mountsDir);
    NotInMountsDir(WithRoot([], images, mountsDir), mountsDir, p);
    NotInMountsDir(init, mountsDir, p);
    LookupSkips(table, ours, p);
    HostAlone(table, p);
  }

  lemma WithRootAppend(table: Table, images: string, mountsDir: string)
    ensures WithRoot(table, images, mountsDir) == table + WithRoot([], images, mountsDir)
  {
  }

  lemma Regroup4(t: Table, a: Table, b: Table, c: Table, d: Table)
    ensures t + a + b + (c + d) == t + (a + b + c) + d
  {
  }

  lemma CachePath(mountsDir: string, p: string)
    requires Clean(mountsDir) && Clean(p) && AtOrBelow(p, DNF_CACHE)
    ensures var path, cache := InRoot(mountsDir, p), CacheTarget(SystemOverlay(mountsDir));
            |cache| <= |path| && "/var/cache/dnf" + path[|cache|..] == p
  {
    hide SystemOverlay, CacheTarget;
    var root := SystemOverlay(mountsDir);
    RootShape(mountsDir);
    CacheIn(root);
    InDirectory(p);
    var rest := p[|DNF_CACHE|..];
    Associative(root, DNF_CACHE, rest);
    assert (root + DNF_CACHE + rest)[|root + DNF_CACHE|..] == rest;
  }

  lemma InDirectory(p: string)
    requires AtOrBelow(p, DNF_CACHE)
    ensures p != "/" && |DNF_CACHE| <= |p| && p == DNF_CACHE + p[|DNF_CACHE|..]
  {
    assert DNF_CACHE <= p;
  }

  // ---------------------------------------------------------------- create_source_overlay

  /** The mount points of `/etc/fstab` that get an overlay. */
  ghost predicate IsMountPoint(fstab: seq<FstabEntry>, m: string) {
    exists e :: e in fstab && Selected(e) && e.fsFile == m
  }

  lemma ExpectedTargetAway(table: Table, a: OverlayArgs, fstab: seq<FstabEntry>)
    requires HostFits(table, a, fstab)
    ensures TargetAway(a.mountsDir, a.mountTarget)
  {
  }

  /** The table that the caller's code finds. */
  lemma SeenTable(table: Table, a: OverlayArgs, fstab: seq<FstabEntry>, stage: Stage)
    requires HostFits(table, a, fstab) && Reachable(a, stage)
    requires stage.Towered? && stage.o.Reached? && FromFstab(fstab, stage.subMounts)
    ensures var layers := SourceOverlayLayers(ImagesDir(a.scratchDir), a.mountsDir, stage.subMounts, a.mountTarget);
            Run(table, SourceOverlayTrace(table, a, stage)).seen == [table + MountsOf(layers, stage.o)]
    ensures SubMounts(stage.subMounts) && AncestorsFirst(stage.subMounts)
  {
    hide HostFits, FromFstab, Run, SourceOverlayLayers, MountsOf, SourceOverlayTrace, Reachable;
    SourceOverlayIsClean(table, a, fstab, stage);
    HostFitsOverlay(table, a, fstab, stage.subMounts);
  }

  /** Whatever is written below the system overlay, outside of the DNF cache, goes to the disk image
    * of the innermost mount point around it, and what is read comes from that mount point at the
    * same path: no path there leads to the host's own file systems.
    */
  lemma OverlayShieldsHost(table: Table, a: OverlayArgs, fstab: seq<FstabEntry>, stage: Stage, p: string)
    returns (m: string, rest: string)
    requires HostFits(table, a, fstab) && Reachable(a, stage)
    requires stage.Towered? && stage.o.Reached? && FromFstab(fstab, stage.subMounts)
    requires Clean(p) && !AtOrBelow(p, "/var/cache/dnf")
    ensures IsMountPoint(fstab, m) && AtOrBelow(p, m)
    ensures forall m' :: IsMountPoint(fstab, m') && AtOrBelow(p, m') ==> AtOrBelow(m, m')
    ensures p == if m != "/" then m + rest else if p == "/" then "/" + rest else rest
    ensures var seen := Run(table, SourceOverlayTrace(table, a, stage)).seen;
            |seen| == 1 &&
            Lookup(seen[0], AsDir(a.mountsDir) + "root_" + "/system_overlay" + if p == "/" then "" else p)
            == Overlaid(m, rest, InImage(PathJoin(PathJoin(a.scratchDir, "diskimages"), MountName(m)), "/upper" + rest))
  {
    hide HostFits, Run, MountsOf, SourceOverlayTrace, Reachable, Lookup, SourceOverlayLayers, AtOrBelow, InRoot;
    var mps := stage.subMounts;
    SeenTable(table, a, fstab, stage);
    ExpectedTargetAway(table, a, fstab);
    MountsDirIsClean(table, a, fstab);
    TowerShows(table, ImagesDir(a.scratchDir), a.mountsDir, mps, a.mountTarget, stage.o.bodyOk, p);
    m := OwnerOf(mps, p);
    rest := Beyond(p, m);
    assert Clean(m);
    BeyondIsRest(p, m);
    InRootPath(a.mountsDir, p);
    RootShows([], "", a.mountsDir, p);
    OwnerIsInnermost(fstab, mps, p);
    ImagePathSpelled(a.scratchDir, m);
  }

  lemma ImagePathSpelled(scratchDir: string, m: string)
    ensures ImageOf(ImagesDir(scratchDir), m) == PathJoin(PathJoin(scratchDir, "diskimages"), MountName(m))
  {
  }

  lemma MountsDirIsClean(table: Table, a: OverlayArgs, fstab: seq<FstabEntry>)
    requires HostFits(table, a, fstab)
    ensures Clean(a.mountsDir) && a.scratchDir != "" && AtOrBelow(a.mountsDir, a.scratchDir)
  {
  }

  lemma InRootPath(mountsDir: string, p: string)
    requires Clean(mountsDir)
    ensures InRoot(mountsDir, p) == AsDir(mountsDir) + "root_" + "/system_overlay" + if p == "/" then "" else p
  {
    RootShape(mountsDir);
  }

  lemma OwnerIsInnermost(fstab: seq<FstabEntry>, mps: seq<string>, p: string)
    requires FromFstab(fstab, mps) && SubMounts(mps) && AncestorsFirst(mps) && Clean(p)
    ensures IsMountPoint(fstab, OwnerOf(mps, p))
    ensures forall m :: IsMountPoint(fstab, m) && AtOrBelow(p, m) ==> AtOrBelow(OwnerOf(mps, p), m)
  {
    hide AtOrBelow, Selected;
    forall m | IsMountPoint(fstab, m) && AtOrBelow(p, m) ensures AtOrBelow(OwnerOf(mps, p), m) {
      if m == "/" {
        BelowRoot(OwnerOf(mps, p));
      } else {
        LastIsInnermost(mps, p, m);
      }
    }
  }

  lemma BelowRoot(m: string)
    requires Clean(m)
    ensures AtOrBelow(m, "/")
  {
  }

  /** The images of different mount points are different files in the scratch directory. */
  lemma ImagesApart(table: Table, a: OverlayArgs, fstab: seq<FstabEntry>, m: string, m': string)
    requires HostFits(table, a, fstab) && IsMountPoint(fstab, m) && IsMountPoint(fstab, m')
    ensures ImagePath(a.scratchDir, m) == ImagePath(a.scratchDir, m') <==> m == m'
    ensures AtOrBelow(ImagePath(a.scratchDir, m), a.scratchDir)
  {
    ImagePathIff(a.scratchDir, m, m');
    ChildInside(a.scratchDir, "diskimages");
    ChildInside(ImagesDir(a.scratchDir), MountName(m));
    AtOrBelowTransitive(ImagePath(a.scratchDir, m), ImagesDir(a.scratchDir), a.scratchDir);
  }

  lemma ImagePathIff(scratchDir: string, m: string, m': string)
    ensures ImagePath(scratchDir, m) == ImagePath(scratchDir, m') <==> MountName(m) == MountName(m')
  {
    ImagePathInjective(scratchDir, m, m');
  }

  /** At the caller's bind target the same holds, everything being written to the image of '/'. */
  lemma TargetShieldsHost(table: Table, a: OverlayArgs, fstab: seq<FstabEntry>, stage: Stage, rest: string)
    requires HostFits(table, a, fstab) && Reachable(a, stage)
    requires stage.Towered? && stage.o.Reached? && FromFstab(fstab, stage.subMounts)
    requires a.mountTarget.Some? && a.mountTarget.value != "" && (rest == "" || rest[0] == '/')
    ensures var seen := Run(table, SourceOverlayTrace(table, a, stage)).seen;
            |seen| == 1 && Lookup(seen[0], a.mountTarget.value + rest)
                           == Overlaid("/", rest, InImage(PathJoin(PathJoin(a.scratchDir, "diskimages"), "root_"),
                                                          "/upper" + rest))
  {
    hide HostFits, Run, MountsOf, SourceOverlayTrace, Reachable, Lookup, SourceOverlayLayers;
    SeenTable(table, a, fstab, stage);
    ExpectedTargetAway(table, a, fstab);
    MountsDirIsClean(table, a, fstab);
    assert a.mountTarget == Some(a.mountTarget.value);
    TargetShows(table, ImagesDir(a.scratchDir), a.mountsDir, stage.subMounts, a.mountTarget.value, stage.o.bodyOk,
                rest);
    ImagePathSpelled(a.scratchDir, "/");
    NameShape("/");
  }

  /** The one exception: the DNF cache of the overlay is the host's own. */
  lemma CacheIsShared(table: Table, a: OverlayArgs, fstab: seq<FstabEntry>, stage: Stage, p: string)
    requires HostFits(table, a, fstab) && Reachable(a, stage)
    requires stage.Towered? && stage.o.Reached? && FromFstab(fstab, stage.subMounts)
    requires Clean(p) && AtOrBelow(p, "/var/cache/dnf") && !AtOrBelow(p, a.mountsDir)
    requires a.mountTarget.Some? && a.mountTarget.value != "" ==> !AtOrBelow(p, a.mountTarget.value)
    requires forall i :: 0 <= i < |table| ==> table[i].what == HostFs
    ensures var seen := Run(table, SourceOverlayTrace(table, a, stage)).seen;
            |seen| == 1
            && Lookup(seen[0], AsDir(a.mountsDir) + "root_" + "/system_overlay" + if p == "/" then "" else p)
               == OnHost(p)
  {
    hide HostFits, Run, MountsOf, SourceOverlayTrace, Reachable, Lookup, SourceOverlayLayers, AtOrBelow, InRoot;
    SeenTable(table, a, fstab, stage);
    ExpectedTargetAway(table, a, fstab);
    MountsDirIsClean(table, a, fstab);
    InRootPath(a.mountsDir, p);
    CacheShows(table, ImagesDir(a.scratchDir), a.mountsDir, stage.subMounts, a.mountTarget, stage.o.bodyOk, p);
  }
}
