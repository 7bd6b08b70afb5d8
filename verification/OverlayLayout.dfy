/** Where `create_source_overlay` puts its mounts, and exactly when that placement lets
  * the whole tower of mounts be taken down again without touching anything else.
  */
module OverlayLayout {
  import opened Wrappers
  import opened Seqs
  import opened Strings
  import opened Ordering
  import opened Paths
  import opened MountTable

  const DNF_CACHE := "/var/cache/dnf"

  // ---------------------------------------------------------------- names and targets

  /** `_mount_name` */
  function MountName(mountPoint: string): string {
    "root" + ReplaceChar(mountPoint, '/', '_')
  }

  /** `_mount_dir` */
  function MountDir(mountsDir: string, mountPoint: string): string {
    PathJoin(mountsDir, MountName(mountPoint))
  }

  /** The mount point of the overlay of the root file system. */
  function SystemOverlay(mountsDir: string): string {
    PathJoin(MountDir(mountsDir, "/"), "system_overlay")
  }

  /** A loop or bind mount: nothing but its target. */
  function PlainLayer(what: What, target: string): Layer { Layer(target, [], MOUNT, what) }

  /** The disk image of a mount point in the directory `images`. */
  function ImageOf(images: string, mountPoint: string): string {
    PathJoin(images, MountName(mountPoint))
  }

  /** The loop mount of the image of a mount point. */
  function LoopLayer(images: string, mountsDir: string, mountPoint: string): Layer {
    PlainLayer(Image(ImageOf(images, mountPoint)), MountDir(mountsDir, mountPoint))
  }

  function OverlayLayer(name: string, lower: string, workdir: string): Layer {
    Layer(PathJoin(workdir, name), [PathJoin(workdir, "upper"), PathJoin(workdir, "work")], MOUNT,
          Union(lower, PathJoin(workdir, "upper"), PathJoin(workdir, "work")))
  }

  /** The bind mount of an overlay inside the system overlay. */
  function BindTarget(root: string, mountPoint: string): string {
    PathJoin(root, LStrip(mountPoint, IsSlash))
  }

  function CacheTarget(root: string): string {
    PathJoin(PathJoin(PathJoin(root, "var"), "cache"), "dnf")
  }

  /** The layers of `_build_overlay_mount`, with the DNF cache mount inside of them. */
  function SubLayers(images: string, mountsDir: string, root: string, mountPoints: seq<string>): seq<Layer> {
    if mountPoints == [] then [PlainLayer(Dir(DNF_CACHE), CacheTarget(root))]
    else
      var m := mountPoints[0];
      var loop := MountDir(mountsDir, m);
      var overlay := OverlayLayer(MountName(m), m, loop);
      [LoopLayer(images, mountsDir, m), overlay, PlainLayer(Dir(overlay.target), BindTarget(root, m))]
      + SubLayers(images, mountsDir, root, mountPoints[1..])
  }

  /** The bind mount requested by the caller, or the mount object that does nothing. */
  function TargetLayer(root: string, mountTarget: Option<string>): Layer {
    if mountTarget.Some? && mountTarget.value != "" then PlainLayer(Dir(root), mountTarget.value)
    else Layer(root, [], ATTACH_ONLY, HostFs)
  }

  /** The whole tower of `create_source_overlay`. */
  function SourceOverlayLayers(images: string, mountsDir: string, mountPoints: seq<string>,
                               mountTarget: Option<string>): seq<Layer> {
    [LoopLayer(images, mountsDir, "/"), OverlayLayer("system_overlay", "/", MountDir(mountsDir, "/")),
     TargetLayer(SystemOverlay(mountsDir), mountTarget)]
    + SubLayers(images, mountsDir, SystemOverlay(mountsDir), mountPoints)
  }

  // ---------------------------------------------------------------- containment between the targets

  ghost predicate Segment(n: string) { n != "" && '/' !in n }

  ghost predicate Tail(s: string) { s == "" || (|s| > 1 && s[0] == '/' && s[|s| - 1] != '/') }

  lemma SlashInside(x: string, i: nat, p: string)
    requires p <= x && i < |p| && x[i] == '/'
    ensures '/' in p
  {
    assert p[i] == x[i];
  }

  lemma FirstSegmentAgrees(n: string, s: string, n': string, s': string)
    requires Segment(n) && Tail(s) && Segment(n') && Tail(s')
    requires AtOrBelow(n + s, n' + s')
    ensures n == n'
  {
    var x, y := n + s, n' + s';
    assert n' <= y <= x;
    assert |n'| < |x| ==> x[|n'|] == '/' by {
      if x != y { assert x[|y|] == '/' by { assert AsDir(y)[|y|] == '/'; } }
    }
    if |n| < |n'| {
      SlashInside(x, |n|, n');
    } else {
      assert n == x[..|n|] && n' == x[..|n'|];
    }
  }

  /** Containment of two places in the mounts directory is decided segment by segment. */
  lemma InMountsDir(base: string, n: string, s: string, n': string, s': string)
    requires Segment(n) && Tail(s) && Segment(n') && Tail(s')
    ensures AtOrBelow(base + n + s, base + n' + s') <==> n == n' && (s' == "" || AtOrBelow(s, s'))
  {
    CancelPrefix(base, n + s, n' + s');
    Associative(base, n, s);
    Associative(base, n', s');
    if AtOrBelow(n + s, n' + s') {
      FirstSegmentAgrees(n, s, n', s');
    }
    if n == n' {
      if s' == "" {
        AppendNil(n);
        assert s != "" ==> n + "/" <= n + s;
      } else {
        CancelPrefix(n, s, s');
      }
    }
  }

  lemma CancelPrefix(base: string, x: string, y: string)
    requires y != ""
    ensures AtOrBelow(base + x, base + y) <==> AtOrBelow(x, y)
  {
    assert AsDir(base + y) == base + AsDir(y);
    if base + AsDir(y) <= base + x {
      assert x == (base + x)[|base|..];
      assert AsDir(y) == (base + x)[|base|..|base| + |AsDir(y)|];
    }
    assert base + x == base + y ==> x == y by {
      assert x == (base + x)[|base|..] && y == (base + y)[|base|..];
    }
  }

  /** What is inside a directory is inside everything around it. */
  lemma AtOrBelowUp(t: string, dir: string, s: string)
    requires dir != "" && dir[|dir| - 1] != '/' && Tail(s)
    requires AtOrBelow(t, dir + s)
    ensures AtOrBelow(t, dir)
  {
    if s == "" {
      AppendNil(dir);
    } else {
      assert dir + "/" <= dir + s <= t;
    }
  }

  lemma UntouchedUp(table: Table, dir: string, s: string)
    requires dir != "" && dir[|dir| - 1] != '/' && Tail(s) && Untouched(table, dir)
    ensures Untouched(table, dir + s)
  {
    forall i | 0 <= i < |table| ensures !AtOrBelow(table[i].target, dir + s) {
      if AtOrBelow(table[i].target, dir + s) { AtOrBelowUp(table[i].target, dir, s); }
    }
  }

  lemma UntouchedMore(table: Table, m: Mount, dir: string)
    ensures Untouched(table + [m], dir) <==> Untouched(table, dir) && !AtOrBelow(m.target, dir)
  {
    assert (table + [m])[|table|] == m;
    assert forall i :: 0 <= i < |table| ==> (table + [m])[i] == table[i];
  }

  // ---------------------------------------------------------------- the shapes of the targets

  /** A mount point below the root file system, as `/etc/fstab` spells it. */
  ghost predicate SubMount(m: string) { Clean(m) && m != "/" }

  lemma NameShape(m: string)
    ensures Segment(MountName(m))
    ensures m == "/" ==> MountName(m) == "root_"
    ensures |m| > 1 ==> MountName(m) != "root_"
  {
    assert |MountName(m)| == 4 + |m|;
    assert m == "/" ==> ReplaceChar(m, '/', '_') == "_";
  }

  lemma RootShape(mountsDir: string)
    requires Clean(mountsDir)
    ensures MountDir(mountsDir, "/") == AsDir(mountsDir) + "root_"
    ensures SystemOverlay(mountsDir) == AsDir(mountsDir) + "root_" + "/system_overlay"
  {
    NameShape("/");
    JoinChild(MountDir(mountsDir, "/"), "system_overlay");
  }

  lemma TargetShapes(mountsDir: string, m: string)
    requires Clean(mountsDir) && Clean(m)
    ensures Segment(MountName(m)) && MountDir(mountsDir, m) == AsDir(mountsDir) + MountName(m)
    ensures SystemOverlay(mountsDir) == AsDir(mountsDir) + "root_" + "/system_overlay"
    ensures MountName(m) == "root_" <==> m == "/"
  {
    NameShape(m);
    RootShape(mountsDir);
  }

  lemma BindShape(mountsDir: string, m: string)
    requires Clean(mountsDir) && SubMount(m)
    ensures BindTarget(SystemOverlay(mountsDir), m) == AsDir(mountsDir) + "root_" + ("/system_overlay" + m)
  {
    var root := SystemOverlay(mountsDir);
    TargetShapes(mountsDir, m);
    assert LStrip(m, IsSlash) == m[1..] by { assert m[0] == '/' && m[1] != '/'; }
    assert BindTarget(root, m) == root + "/" + m[1..];
    Associative(root, "/", m[1..]);
    assert "/" + m[1..] == m;
    Associative(AsDir(mountsDir) + "root_", "/system_overlay", m);
  }

  lemma CacheShape(mountsDir: string)
    requires Clean(mountsDir)
    ensures CacheTarget(SystemOverlay(mountsDir)) == AsDir(mountsDir) + "root_" + ("/system_overlay" + DNF_CACHE)
  {
    RootShape(mountsDir);
    CacheIn(SystemOverlay(mountsDir));
    Associative(AsDir(mountsDir) + "root_", "/system_overlay", DNF_CACHE);
  }

  lemma CacheIn(root: string)
    requires root != "" && root[|root| - 1] != '/'
    ensures CacheTarget(root) == root + DNF_CACHE
  {
    hide PathJoin;
    CacheParts();
    JoinChild(root, "var");
    JoinChild(root + "/var", "cache");
    JoinChild(root + "/var" + "/cache", "dnf");
    Associative(root, "/var", "/cache");
    Associative(root, "/var" + "/cache", "/dnf");
  }

  lemma CacheParts()
    ensures "/" + "var" == "/var" && "/" + "cache" == "/cache" && "/" + "dnf" == "/dnf"
    ensures "/var" + "/cache" + "/dnf" == DNF_CACHE
  {
  }

  lemma JoinChild(dir: string, name: string)
    requires dir != "" && dir[|dir| - 1] != '/' && name != "" && name[0] != '/'
    ensures PathJoin(dir, name) == dir + ("/" + name)
  {
    Associative(dir, "/", name);
  }

  // ---------------------------------------------------------------- the exact condition, sub mounts

  lemma BindTail(m: string)
    requires SubMount(m)
    ensures Tail("/system_overlay" + m) && m != ""
  {
  }

  lemma NoTail()
    ensures Tail("")
  {
  }

  lemma CacheTail()
    ensures Tail("/system_overlay" + DNF_CACHE)
  {
  }

  /** What the three targets of mount point `m` mean for those of a later mount point `m'`. */
  lemma TargetsApart(mountsDir: string, m: string, m': string)
    requires Clean(mountsDir) && SubMount(m) && SubMount(m')
    ensures var root, loop, loop' := SystemOverlay(mountsDir), MountDir(mountsDir, m), MountDir(mountsDir, m');
            var over, bind, bind' := PathJoin(loop, MountName(m)), BindTarget(root, m), BindTarget(root, m');
            && (AtOrBelow(loop, loop') <==> MountName(m) == MountName(m'))
            && (AtOrBelow(over, loop') <==> MountName(m) == MountName(m'))
            && !AtOrBelow(bind, loop')
            && !AtOrBelow(loop, bind') && !AtOrBelow(over, bind')
            && (AtOrBelow(bind, bind') <==> AtOrBelow(m, m'))
            && !AtOrBelow(loop, CacheTarget(root)) && !AtOrBelow(over, CacheTarget(root))
            && (AtOrBelow(bind, CacheTarget(root)) <==> AtOrBelow(m, DNF_CACHE))
  {
    hide AtOrBelow, AsDir, MountDir, BindTarget, SystemOverlay, CacheTarget, PathJoin, MountName, Clean, Tail, Segment;
    var base := AsDir(mountsDir);
    var n, n', inBind, inBind' := MountName(m), MountName(m'), "/system_overlay" + m, "/system_overlay" + m';
    BindTail(m);
    BindTail(m');
    CacheTail();
    NameShape("/");
    NoTail();
    TargetShapes(mountsDir, m);
    TargetShapes(mountsDir, m');
    BindShape(mountsDir, m);
    BindShape(mountsDir, m');
    CacheShape(mountsDir);
    OverlayShape(mountsDir, m);
    AppendNil(base + n);
    AppendNil(base + n');
    InMountsDir(base, n, "", n', "");
    InMountsDir(base, n, "/" + n, n', "");
    InMountsDir(base, "root_", inBind, n', "");
    InMountsDir(base, n, "", "root_", inBind');
    InMountsDir(base, n, "/" + n, "root_", inBind');
    InMountsDir(base, "root_", inBind, "root_", inBind');
    CancelPrefix("/system_overlay", m, m');
    InMountsDir(base, n, "", "root_", "/system_overlay" + DNF_CACHE);
    InMountsDir(base, n, "/" + n, "root_", "/system_overlay" + DNF_CACHE);
    InMountsDir(base, "root_", inBind, "root_", "/system_overlay" + DNF_CACHE);
    CancelPrefix("/system_overlay", m, DNF_CACHE);
  }

  lemma OverlayShape(mountsDir: string, m: string)
    requires Clean(mountsDir) && Clean(m)
    ensures PathJoin(MountDir(mountsDir, m), MountName(m)) == AsDir(mountsDir) + MountName(m) + ("/" + MountName(m))
    ensures Tail("/" + MountName(m))
  {
    TargetShapes(mountsDir, m);
    Associative(MountDir(mountsDir, m), "/", MountName(m));
  }

  /** The host has nothing mounted where the mounts of `m` will go. */
  ghost predicate Vacant(table: Table, mountsDir: string, m: string) {
    && Untouched(table, MountDir(mountsDir, m))
    && Untouched(table, BindTarget(SystemOverlay(mountsDir), m))
  }

  ghost predicate SubMounts(mps: seq<string>) {
    forall i :: 0 <= i < |mps| ==> SubMount(mps[i])
  }

  ghost predicate DistinctNames(mps: seq<string>) {
    forall i, j :: 0 <= i < j < |mps| ==> MountName(mps[i]) != MountName(mps[j])
  }

  /** No mount point comes later than something inside of it. */
  ghost predicate AncestorsFirst(mps: seq<string>) {
    forall i, j :: 0 <= i < j < |mps| ==> !AtOrBelow(mps[i], mps[j])
  }

  ghost predicate NoneInCache(mps: seq<string>) {
    forall i :: 0 <= i < |mps| ==> !AtOrBelow(mps[i], DNF_CACHE)
  }

  ghost predicate SubFits(table: Table, mountsDir: string, mps: seq<string>) {
    && Untouched(table, CacheTarget(SystemOverlay(mountsDir)))
    && (forall i :: 0 <= i < |mps| ==> Vacant(table, mountsDir, mps[i]))
    && DistinctNames(mps) && AncestorsFirst(mps) && NoneInCache(mps)
  }

  /** The table once the three mounts of `m` are in place. */
  function WithMount(table: Table, images: string, mountsDir: string, m: string): Table {
    var overlay := OverlayLayer(MountName(m), m, MountDir(mountsDir, m));
    table + [LoopLayer(images, mountsDir, m).Own()] + [overlay.Own()]
    + [Mount(BindTarget(SystemOverlay(mountsDir), m), Dir(overlay.target))]
  }

  lemma WithMountUntouched(table: Table, images: string, mountsDir: string, m: string, dir: string)
    ensures var loop := MountDir(mountsDir, m);
            Untouched(WithMount(table, images, mountsDir, m), dir) <==>
              && Untouched(table, dir) && !AtOrBelow(loop, dir) && !AtOrBelow(PathJoin(loop, MountName(m)), dir)
              && !AtOrBelow(BindTarget(SystemOverlay(mountsDir), m), dir)
  {
    var loop := LoopLayer(images, mountsDir, m).Own();
    var over := OverlayLayer(MountName(m), m, MountDir(mountsDir, m)).Own();
    UntouchedMore(table, loop, dir);
    UntouchedMore(table + [loop], over, dir);
    UntouchedMore(table + [loop] + [over], Mount(BindTarget(SystemOverlay(mountsDir), m), Dir(over.target)), dir);
  }

  lemma VacantAfter(table: Table, images: string, mountsDir: string, m: string, m': string)
    requires Clean(mountsDir) && SubMount(m) && SubMount(m')
    ensures Vacant(WithMount(table, images, mountsDir, m), mountsDir, m') <==>
              Vacant(table, mountsDir, m') && MountName(m) != MountName(m') && !AtOrBelow(m, m')
  {
    TargetsApart(mountsDir, m, m');
    WithMountUntouched(table, images, mountsDir, m, MountDir(mountsDir, m'));
    WithMountUntouched(table, images, mountsDir, m, BindTarget(SystemOverlay(mountsDir), m'));
  }

  lemma CacheAfter(table: Table, images: string, mountsDir: string, m: string)
    requires Clean(mountsDir) && SubMount(m)
    ensures var cache := CacheTarget(SystemOverlay(mountsDir));
            Untouched(WithMount(table, images, mountsDir, m), cache) <==>
              Untouched(table, cache) && !AtOrBelow(m, DNF_CACHE)
  {
    TargetsApart(mountsDir, m, m);
    WithMountUntouched(table, images, mountsDir, m, CacheTarget(SystemOverlay(mountsDir)));
  }

  lemma PairsStep(mps: seq<string>)
    requires mps != []
    ensures var m, rest := mps[0], mps[1..];
            && (DistinctNames(mps) <==>
                DistinctNames(rest) && forall i :: 0 <= i < |rest| ==> MountName(m) != MountName(rest[i]))
            && (AncestorsFirst(mps) <==>
                AncestorsFirst(rest) && forall i :: 0 <= i < |rest| ==> !AtOrBelow(m, rest[i]))
            && (NoneInCache(mps) <==> NoneInCache(rest) && !AtOrBelow(m, DNF_CACHE))
  {
    hide MountName, AtOrBelow;
    var rest := mps[1..];
    assert forall i :: 0 <= i < |rest| ==> rest[i] == mps[i + 1];
    assert forall i :: 1 <= i < |mps| ==> mps[i] == rest[i - 1];
  }

  lemma VacantStep(table: Table, images: string, mountsDir: string, mps: seq<string>)
    requires Clean(mountsDir) && SubMounts(mps) && mps != []
    ensures var m, rest := mps[0], mps[1..];
            (forall i :: 0 <= i < |rest| ==> Vacant(WithMount(table, images, mountsDir, m), mountsDir, rest[i])) <==>
              && (forall i :: 1 <= i < |mps| ==> Vacant(table, mountsDir, mps[i]))
              && (forall i :: 0 <= i < |rest| ==> MountName(m) != MountName(rest[i]))
              && (forall i :: 0 <= i < |rest| ==> !AtOrBelow(m, rest[i]))
  {
    var m, rest := mps[0], mps[1..];
    forall i | 0 <= i < |rest|
      ensures rest[i] == mps[i + 1]
      ensures Vacant(WithMount(table, images, mountsDir, m), mountsDir, rest[i]) <==>
                Vacant(table, mountsDir, mps[i + 1]) && MountName(m) != MountName(rest[i]) && !AtOrBelow(m, rest[i])
    {
      VacantAfter(table, images, mountsDir, m, mps[i + 1]);
    }
    hide Vacant, WithMount, AtOrBelow, MountName;
    assert forall i :: 1 <= i < |mps| ==> mps[i] == rest[i - 1];
  }

  /** Peeling the first mount point off the condition. */
  lemma SubFitsStep(table: Table, images: string, mountsDir: string, mps: seq<string>)
    requires Clean(mountsDir) && SubMounts(mps) && mps != []
    ensures SubFits(table, mountsDir, mps) <==>
              && Vacant(table, mountsDir, mps[0])
              && SubFits(WithMount(table, images, mountsDir, mps[0]), mountsDir, mps[1..])
  {
    hide Vacant, Untouched, WithMount, AtOrBelow, MountName, CacheTarget, DistinctNames, AncestorsFirst, NoneInCache;
    CacheAfter(table, images, mountsDir, mps[0]);
    VacantStep(table, images, mountsDir, mps);
    PairsStep(mps);
  }

  /** Entering the three layers of `m` needs exactly its places to be vacant. */
  lemma ClearThree(table: Table, images: string, mountsDir: string, m: string)
    requires Clean(mountsDir) && SubMount(m)
    ensures var loop, over := LoopLayer(images, mountsDir, m), OverlayLayer(MountName(m), m, MountDir(mountsDir, m));
            var bind := PlainLayer(Dir(over.target), BindTarget(SystemOverlay(mountsDir), m));
            (Clear(table, loop) && Clear(table + [loop.Own()], over)
             && Clear(table + [loop.Own()] + [over.Own()], bind))
            <==> Vacant(table, mountsDir, m)
  {
    var loop, over := LoopLayer(images, mountsDir, m), OverlayLayer(MountName(m), m, MountDir(mountsDir, m));
    var bind := PlainLayer(Dir(over.target), BindTarget(SystemOverlay(mountsDir), m));
    ClearPlain(table, loop.what, loop.target);
    ClearPlain(table + [loop.Own()] + [over.Own()], bind.what, bind.target);
    TargetsApart(mountsDir, m, m);
    UntouchedMore(table, loop.Own(), bind.target);
    UntouchedMore(table + [loop.Own()], over.Own(), bind.target);
    if Untouched(table, loop.target) {
      TargetShapes(mountsDir, m);
      ClearOverlay(table, loop.Own(), MountName(m), m);
    }
  }

  lemma ClearPlain(table: Table, what: What, target: string)
    ensures Clear(table, PlainLayer(what, target)) <==> Untouched(table, target)
  {
    assert PlainLayer(what, target).Dirs()[0] == target;
  }

  /** An overlay on a fresh loop mount is always clear. */
  lemma ClearOverlay(table: Table, loop: Mount, name: string, lower: string)
    requires loop.target != "" && loop.target[|loop.target| - 1] != '/' && Segment(name)
    requires Untouched(table, loop.target)
    ensures Clear(table + [loop], OverlayLayer(name, lower, loop.target))
  {
    var dir := loop.target;
    var l := OverlayLayer(name, lower, dir);
    assert l.Dirs() == [PathJoin(dir, "upper"), PathJoin(dir, "work"), PathJoin(dir, name)];
    ClearChild(table, loop, "upper");
    ClearChild(table, loop, "work");
    ClearChild(table, loop, name);
  }

  lemma ClearChild(table: Table, loop: Mount, name: string)
    requires loop.target != "" && loop.target[|loop.target| - 1] != '/' && Segment(name)
    requires Untouched(table, loop.target)
    ensures Untouched(table + [loop], PathJoin(loop.target, name))
  {
    JoinChild(loop.target, name);
    UntouchedUp(table, loop.target, "/" + name);
    UntouchedMore(table, loop, PathJoin(loop.target, name));
  }

  lemma {:induction false} SubReadyIff(table: Table, images: string, mountsDir: string, mps: seq<string>)
    requires Clean(mountsDir) && SubMounts(mps)
    ensures Ready(table, SubLayers(images, mountsDir, SystemOverlay(mountsDir), mps)) <==>
              SubFits(table, mountsDir, mps)
    decreases |mps|
  {
    var root := SystemOverlay(mountsDir);
    if mps == [] {
      ClearPlain(table, Dir(DNF_CACHE), CacheTarget(root));
      ReadyOne(table, PlainLayer(Dir(DNF_CACHE), CacheTarget(root)), []);
    } else {
      var m := mps[0];
      var over := OverlayLayer(MountName(m), m, MountDir(mountsDir, m));
      SubReadyIff(WithMount(table, images, mountsDir, m), images, mountsDir, mps[1..]);
      SubFitsStep(table, images, mountsDir, mps);
      ClearThree(table, images, mountsDir, m);
      ReadyThree(table, LoopLayer(images, mountsDir, m), over, PlainLayer(Dir(over.target), BindTarget(root, m)),
                 SubLayers(images, mountsDir, root, mps[1..]));
    }
  }

  lemma ReadyOne(table: Table, l: Layer, rest: seq<Layer>)
    ensures Ready(table, [l] + rest) <==> Clear(table, l) && Ready(table + Own(l), rest)
  {
    TailOfCons(l, rest);
  }

  lemma ReadyThree(table: Table, a: Layer, b: Layer, c: Layer, rest: seq<Layer>)
    ensures var t1 := table + Own(a);
            var t2 := t1 + Own(b);
            Ready(table, [a, b, c] + rest) <==>
              Clear(table, a) && Clear(t1, b) && Clear(t2, c) && Ready(t2 + Own(c), rest)
  {
    hide Clear, Own;
    assert [a, b, c] + rest == [a] + ([b] + ([c] + rest));
    ReadyOne(table, a, [b] + ([c] + rest));
    ReadyOne(table + Own(a), b, [c] + rest);
    ReadyOne(table + Own(a) + Own(b), c, rest);
  }

  // ---------------------------------------------------------------- the exact condition, whole tower

  /** A target that is in none of the places where the mounts of `m` will go. */
  ghost predicate Apart(target: string, mountsDir: string, m: string) {
    && !AtOrBelow(target, MountDir(mountsDir, m))
    && !AtOrBelow(target, BindTarget(SystemOverlay(mountsDir), m))
  }

  /** The caller's own bind target keeps clear of everything else. */
  ghost predicate TargetFits(table: Table, mountsDir: string, mps: seq<string>, target: string) {
    && Untouched(table, target)
    && !AtOrBelow(MountDir(mountsDir, "/"), target) && !AtOrBelow(SystemOverlay(mountsDir), target)
    && (forall i :: 0 <= i < |mps| ==> Apart(target, mountsDir, mps[i]))
    && !AtOrBelow(target, CacheTarget(SystemOverlay(mountsDir)))
  }

  /** On entry nothing is mounted at or below the mount directories, their names differ,
    * ancestors come first, the DNF cache holds no mount point, and the target fits.
    */
  ghost predicate OverlayFits(table: Table, mountsDir: string, mps: seq<string>, mountTarget: Option<string>) {
    && Untouched(table, MountDir(mountsDir, "/"))
    && (forall i :: 0 <= i < |mps| ==> Untouched(table, MountDir(mountsDir, mps[i])))
    && DistinctNames(mps) && AncestorsFirst(mps) && NoneInCache(mps)
    && (mountTarget.Some? && mountTarget.value != "" ==> TargetFits(table, mountsDir, mps, mountTarget.value))
  }

  /** The table once the root file system has its overlay. */
  function WithRoot(table: Table, images: string, mountsDir: string): Table {
    table + [LoopLayer(images, mountsDir, "/").Own()]
    + [OverlayLayer("system_overlay", "/", MountDir(mountsDir, "/")).Own()]
  }

  lemma WithRootUntouched(table: Table, images: string, mountsDir: string, dir: string)
    ensures Untouched(WithRoot(table, images, mountsDir), dir) <==>
              && Untouched(table, dir)
              && !AtOrBelow(MountDir(mountsDir, "/"), dir) && !AtOrBelow(SystemOverlay(mountsDir), dir)
  {
    var loop := LoopLayer(images, mountsDir, "/").Own();
    UntouchedMore(table, loop, dir);
    UntouchedMore(table + [loop], OverlayLayer("system_overlay", "/", MountDir(mountsDir, "/")).Own(), dir);
  }

  lemma ShorterIsOutside(p: string, dir: string)
    requires |p| < |dir|
    ensures !AtOrBelow(p, dir)
  {
  }

  /** A place deep inside the system overlay is as free as the root mount directory. */
  lemma DeepInRoot(table: Table, images: string, mountsDir: string, s: string)
    requires Clean(mountsDir) && Tail(s) && s != "" && Untouched(table, MountDir(mountsDir, "/"))
    ensures Untouched(WithRoot(table, images, mountsDir), AsDir(mountsDir) + "root_" + ("/system_overlay" + s))
  {
    hide AtOrBelow, SystemOverlay, MountDir, WithRoot, Clean;
    var base := AsDir(mountsDir);
    var inside := "/system_overlay" + s;
    RootShape(mountsDir);
    NameShape("/");
    UntouchedUp(table, base + "root_", inside);
    AppendNil(base + "root_");
    InMountsDir(base, "root_", "", "root_", inside);
    InMountsDir(base, "root_", "/system_overlay", "root_", inside);
    ShorterIsOutside("", inside);
    ShorterIsOutside("/system_overlay", inside);
    WithRootUntouched(table, images, mountsDir, base + "root_" + inside);
  }

  lemma VacantInRoot(table: Table, images: string, mountsDir: string, m: string)
    requires Clean(mountsDir) && SubMount(m) && Untouched(table, MountDir(mountsDir, "/"))
    ensures Vacant(WithRoot(table, images, mountsDir), mountsDir, m) <==> Untouched(table, MountDir(mountsDir, m))
  {
    var base := AsDir(mountsDir);
    TargetShapes(mountsDir, m);
    RootShape(mountsDir);
    NameShape("/");
    AppendNil(base + "root_");
    AppendNil(base + MountName(m));
    InMountsDir(base, "root_", "", MountName(m), "");
    InMountsDir(base, "root_", "/system_overlay", MountName(m), "");
    WithRootUntouched(table, images, mountsDir, MountDir(mountsDir, m));
    BindShape(mountsDir, m);
    DeepInRoot(table, images, mountsDir, m);
  }

  lemma VacantMore(table: Table, t: Mount, mountsDir: string, m: string)
    ensures Vacant(table + [t], mountsDir, m) <==> Vacant(table, mountsDir, m) && Apart(t.target, mountsDir, m)
  {
    UntouchedMore(table, t, MountDir(mountsDir, m));
    UntouchedMore(table, t, BindTarget(SystemOverlay(mountsDir), m));
  }

  lemma SubFitsInRoot(table: Table, images: string, mountsDir: string, mps: seq<string>)
    requires Clean(mountsDir) && SubMounts(mps) && Untouched(table, MountDir(mountsDir, "/"))
    ensures SubFits(WithRoot(table, images, mountsDir), mountsDir, mps) <==> OverlayFits(table, mountsDir, mps, None)
  {
    CacheShape(mountsDir);
    DeepInRoot(table, images, mountsDir, DNF_CACHE);
    forall i | 0 <= i < |mps|
      ensures Vacant(WithRoot(table, images, mountsDir), mountsDir, mps[i]) <==>
                Untouched(table, MountDir(mountsDir, mps[i]))
    {
      VacantInRoot(table, images, mountsDir, mps[i]);
    }
  }

  lemma SubFitsMore(table: Table, t: Mount, mountsDir: string, mps: seq<string>)
    ensures SubFits(table + [t], mountsDir, mps) <==>
              && SubFits(table, mountsDir, mps)
              && (forall i :: 0 <= i < |mps| ==> Apart(t.target, mountsDir, mps[i]))
              && !AtOrBelow(t.target, CacheTarget(SystemOverlay(mountsDir)))
  {
    UntouchedMore(table, t, CacheTarget(SystemOverlay(mountsDir)));
    forall i | 0 <= i < |mps|
      ensures Vacant(table + [t], mountsDir, mps[i]) <==>
                Vacant(table, mountsDir, mps[i]) && Apart(t.target, mountsDir, mps[i])
    {
      VacantMore(table, t, mountsDir, mps[i]);
    }
  }

  lemma RootReady(table: Table, images: string, mountsDir: string, target: Layer, rest: seq<Layer>)
    requires Clean(mountsDir)
    ensures var root := MountDir(mountsDir, "/");
            Ready(table, [LoopLayer(images, mountsDir, "/"), OverlayLayer("system_overlay", "/", root), target] + rest)
            <==>
              && Untouched(table, root) && Clear(WithRoot(table, images, mountsDir), target)
              && Ready(WithRoot(table, images, mountsDir) + Own(target), rest)
  {
    hide Clear, Ready, Untouched, MountDir, PathJoin;
    var root := MountDir(mountsDir, "/");
    var loop := LoopLayer(images, mountsDir, "/");
    ReadyThree(table, loop, OverlayLayer("system_overlay", "/", root), target, rest);
    ClearPlain(table, loop.what, root);
    if Untouched(table, root) {
      RootShape(mountsDir);
      ClearOverlay(table, loop.Own(), "system_overlay", "/");
    }
  }

  /** The tower of `create_source_overlay` is ready in exactly these situations. */
  lemma OverlayReadyIff(table: Table, images: string, mountsDir: string, mps: seq<string>, mountTarget: Option<string>)
    requires Clean(mountsDir) && SubMounts(mps)
    ensures Ready(table, SourceOverlayLayers(images, mountsDir, mps, mountTarget)) <==>
              OverlayFits(table, mountsDir, mps, mountTarget)
  {
    var root := SystemOverlay(mountsDir);
    var target := TargetLayer(root, mountTarget);
    var inside := WithRoot(table, images, mountsDir);
    RootReady(table, images, mountsDir, target, SubLayers(images, mountsDir, root, mps));
    SubReadyIff(inside + Own(target), images, mountsDir, mps);
    if Untouched(table, MountDir(mountsDir, "/")) {
      SubFitsInRoot(table, images, mountsDir, mps);
      if target.Creates() {
        ClearPlain(inside, target.what, target.target);
        WithRootUntouched(table, images, mountsDir, target.target);
        SubFitsMore(inside, target.Own(), mountsDir, mps);
      } else {
        AppendNil(inside);
      }
    }
  }

  lemma {:induction false} SubPaired(images: string, mountsDir: string, root: string, mps: seq<string>)
    ensures Paired(SubLayers(images, mountsDir, root, mps))
    decreases |mps|
  {
    hide MountName, MountDir, BindTarget, CacheTarget, PathJoin;
    if mps != [] { SubPaired(images, mountsDir, root, mps[1..]); }
  }

  lemma SourcePaired(images: string, mountsDir: string, mps: seq<string>, mountTarget: Option<string>)
    ensures Paired(SourceOverlayLayers(images, mountsDir, mps, mountTarget))
  {
    hide MountDir, SystemOverlay, SubLayers, PathJoin;
    SubPaired(images, mountsDir, SystemOverlay(mountsDir), mps);
  }

  /** Every run of the overlay tower, whichever mount, directory or body fails, removes only
    * directories without mounts and undoes its own mounts in reverse: if and only if the
    * mount points, the mount names, the caller's target and the host fit together.
    */
  lemma OverlayUnwindsIff(table: Table, images: string, mountsDir: string, mps: seq<string>,
                          mountTarget: Option<string>)
    requires Clean(mountsDir) && SubMounts(mps)
    ensures var layers := SourceOverlayLayers(images, mountsDir, mps, mountTarget);
            (forall o | Possible(layers, o) :: Unwinds(table, layers, o)) <==>
              OverlayFits(table, mountsDir, mps, mountTarget)
  {
    var layers := SourceOverlayLayers(images, mountsDir, mps, mountTarget);
    SourcePaired(images, mountsDir, mps, mountTarget);
    UnwindsIffReady(table, layers);
    OverlayReadyIff(table, images, mountsDir, mps, mountTarget);
  }

  /** Two mount points whose names differ only by '/' and '_' share a mount directory, and some
    * run of the tower then breaks the promise.
    */
  lemma NameClashBreaks(table: Table, images: string, mountsDir: string, mps: seq<string>, mountTarget: Option<string>,
                        i: nat, j: nat)
    requires Clean(mountsDir) && SubMounts(mps) && i < j < |mps| && MountName(mps[i]) == MountName(mps[j])
    ensures var layers := SourceOverlayLayers(images, mountsDir, mps, mountTarget);
            exists o :: Possible(layers, o) && !Unwinds(table, layers, o)
  {
    hide SourceOverlayLayers, Possible, Unwinds, MountName, MountDir;
    OverlayUnwindsIff(table, images, mountsDir, mps, mountTarget);
  }

  /** The name of a mount point, character by character. */
  lemma NameSpelling(m: string)
    ensures |MountName(m)| == 4 + |m| && MountName(m)[..4] == "root"
    ensures forall i :: 0 <= i < |m| ==> MountName(m)[4 + i] == if m[i] == '/' then '_' else m[i]
  {
  }

  /** Two mount points have one name exactly if they differ only in '/' against '_'. */
  lemma SameNameIff(m: string, m': string)
    ensures MountName(m) == MountName(m') <==>
              |m| == |m'| && forall i :: 0 <= i < |m| ==>
                m[i] == m'[i] || (m[i] in {'/', '_'} && m'[i] in {'/', '_'})
  {
    var n, n' := ReplaceChar(m, '/', '_'), ReplaceChar(m', '/', '_');
    assert n == MountName(m)[4..] && n' == MountName(m')[4..];
    if MountName(m) == MountName(m') {
      forall i | 0 <= i < |m| ensures m[i] == m'[i] || (m[i] in {'/', '_'} && m'[i] in {'/', '_'}) {
        assert n[i] == n'[i];
      }
    }
  }

  lemma NameClashExample()
    ensures MountName("/var/lib") == MountName("/var_lib")
  {
    assert ReplaceChar("/var/lib", '/', '_') == "_var_lib" == ReplaceChar("/var_lib", '/', '_');
  }

  /** Sorting as strings puts every directory before what is inside of it. */
  lemma SortedAncestorsFirst(mps: seq<string>)
    requires SortedBy(mps, Leq) && NoDup(mps)
    ensures AncestorsFirst(mps)
  {
    forall i, j | 0 <= i < j < |mps| ensures !AtOrBelow(mps[i], mps[j]) {
      if Below(mps[i], mps[j]) {
        PrefixLeq(mps[j], mps[i]);
        LeqAntisymmetric(mps[i], mps[j]);
      }
    }
  }

  /** A bind target that neither contains the mounts directory nor lies in it always fits. */
  lemma OutsideTargetFits(table: Table, mountsDir: string, mps: seq<string>, target: string)
    requires Clean(mountsDir) && SubMounts(mps) && Clean(target) && Untouched(table, target)
    requires !AtOrBelow(target, mountsDir) && !AtOrBelow(mountsDir, target)
    ensures TargetFits(table, mountsDir, mps, target)
  {
    var base := AsDir(mountsDir);
    hide AtOrBelow;
    RootShape(mountsDir);
    OutsideApart(mountsDir, target, "root_");
    OutsideInRoot(mountsDir, target, "/system_overlay");
    CacheShape(mountsDir);
    OutsideInRoot(mountsDir, target, "/system_overlay" + DNF_CACHE);
    forall i | 0 <= i < |mps| ensures Apart(target, mountsDir, mps[i]) {
      TargetShapes(mountsDir, mps[i]);
      BindShape(mountsDir, mps[i]);
      OutsideApart(mountsDir, target, MountName(mps[i]));
      OutsideInRoot(mountsDir, target, "/system_overlay" + mps[i]);
    }
  }

  lemma OutsideInRoot(mountsDir: string, target: string, s: string)
    requires Clean(mountsDir) && Clean(target)
    requires !AtOrBelow(target, mountsDir) && !AtOrBelow(mountsDir, target)
    ensures !AtOrBelow(target, AsDir(mountsDir) + "root_" + s)
    ensures !AtOrBelow(AsDir(mountsDir) + "root_" + s, target)
  {
    OutsideApart(mountsDir, target, "root_" + s);
    Associative(AsDir(mountsDir), "root_", s);
  }

  lemma InsideUp(mountsDir: string, target: string, inside: string)
    requires Clean(mountsDir) && AtOrBelow(target, AsDir(mountsDir) + inside)
    ensures AsDir(mountsDir) <= target
  {
    assert AsDir(mountsDir) <= AsDir(mountsDir) + inside <= target;
  }

  lemma PrefixesCompare(a: string, b: string, whole: string)
    requires a <= whole && b <= whole
    ensures a <= b || b <= a
  {
    assert a == whole[..|a|] && b == whole[..|b|];
  }

  lemma AboveInside(mountsDir: string, target: string, inside: string)
    requires Clean(mountsDir) && Clean(target) && AtOrBelow(AsDir(mountsDir) + inside, target)
    ensures AtOrBelow(target, mountsDir) || AtOrBelow(mountsDir, target)
  {
    var place := AsDir(mountsDir) + inside;
    assert AsDir(mountsDir) <= place;
    if place != target {
      PrefixesCompare(AsDir(target), AsDir(mountsDir), place);
      if AsDir(target) <= AsDir(mountsDir) {
        CleanDirPrefix(mountsDir, target);
      } else {
        CleanDirPrefix(target, mountsDir);
      }
    }
  }

  lemma CleanDirPrefix(p: string, q: string)
    requires Clean(p) && Clean(q) && AsDir(q) <= AsDir(p)
    ensures AtOrBelow(p, q)
  {
    if |AsDir(q)| == |AsDir(p)| {
      assert AsDir(p) == AsDir(q);
      assert p == if p == "/" then "/" else AsDir(p)[..|AsDir(p)| - 1];
    } else if p != "/" {
      assert p == AsDir(p)[..|p|];
    }
  }

  /** Nothing outside the mounts directory is related to anything in it. */
  lemma OutsideApart(mountsDir: string, target: string, inside: string)
    requires Clean(mountsDir) && Clean(target)
    requires !AtOrBelow(target, mountsDir) && !AtOrBelow(mountsDir, target)
    ensures !AtOrBelow(target, AsDir(mountsDir) + inside)
    ensures !AtOrBelow(AsDir(mountsDir) + inside, target)
  {
    if AtOrBelow(target, AsDir(mountsDir) + inside) {
      InsideUp(mountsDir, target, inside);
    }
    if AtOrBelow(AsDir(mountsDir) + inside, target) {
      AboveInside(mountsDir, target, inside);
    }
  }
}
