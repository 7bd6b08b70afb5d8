/** What `create_source_overlay` leaves on disk. */
module OverlayLeftovers {
  import opened Wrappers
  import opened Seqs
  import opened Paths
  import opened MountTable
  import opened OverlayLayout
  import opened OverlayGen
  import opened Leftovers

  /** The target of the caller's bind mount, if there is one. */
  function TargetDirs(a: OverlayArgs): seq<string> {
    if a.mountTarget.Some? && a.mountTarget.value != "" then [a.mountTarget.value] else []
  }

  /** The directories of the caller that a run cleans up: the object for them is the third one. */
  function Tried(a: OverlayArgs, stage: Stage): seq<string> {
    if stage.Towered? && (stage.o.Reached? || stage.o.depth >= 2) then TargetDirs(a) else []
  }

  /** A target that was made and then not mounted. */
  function Stranded(a: OverlayArgs, stage: Stage): set<string> {
    if stage.Towered? && stage.o.Raised? && stage.o.depth == 2 && stage.o.made > 0 then Elements(TargetDirs(a)) else {}
  }

  ghost predicate AllInside(dirs: seq<string>, dir: string) {
    forall i :: 0 <= i < |dirs| ==> AtOrBelow(dirs[i], dir)
  }

  // ---------------------------------------------------------------- everything else is in the scratch directory

  lemma JoinInside(dir: string, name: string, top: string)
    requires dir != "" && AtOrBelow(dir, top) && (name == "" || name[0] != '/')
    ensures PathJoin(dir, name) != "" && AtOrBelow(PathJoin(dir, name), top)
  {
    var p := PathJoin(dir, name);
    assert p == AsDir(dir) + name;
    assert AsDir(dir) <= p;
    AtOrBelowTransitive(p, dir, top);
  }

  lemma OverlayDirsInside(name: string, lower: string, workdir: string, top: string)
    requires workdir != "" && AtOrBelow(workdir, top) && name != "" && name[0] != '/'
    ensures AllInside(OverlayLayer(name, lower, workdir).Dirs(), top)
  {
    JoinInside(workdir, "upper", top);
    JoinInside(workdir, "work", top);
    JoinInside(workdir, name, top);
  }

  lemma AllInsideAppend(x: seq<string>, y: seq<string>, dir: string)
    ensures AllInside(x + y, dir) <==> AllInside(x, dir) && AllInside(y, dir)
  {
    hide AtOrBelow;
    var xy := x + y;
    if AllInside(xy, dir) {
      forall i | 0 <= i < |x| ensures AtOrBelow(x[i], dir) { assert x[i] == xy[i]; }
      forall i | 0 <= i < |y| ensures AtOrBelow(y[i], dir) { assert y[i] == xy[|x| + i]; }
    }
  }

  lemma {:induction false} DirsOfAppend(x: seq<Layer>, y: seq<Layer>)
    ensures DirsOf(x + y) == DirsOf(x) + DirsOf(y)
  {
    if x == [] {
      AppendNil(y);
    } else {
      TailOfAppend(x, y);
      DirsOfAppend(x[1..], y);
    }
  }

  lemma DirsOfThree(x: Layer, y: Layer, z: Layer)
    requires x.Creates() && y.Creates()
    ensures DirsOf([x]) == x.Dirs() && DirsOf([x, y]) == x.Dirs() + y.Dirs()
    ensures DirsOf([x, y, z]) == x.Dirs() + y.Dirs() + if z.Creates() then z.Dirs() else []
  {
    var dz := if z.Creates() then z.Dirs() else [];
    assert [x, y, z][1..] == [y, z] && [y, z][1..] == [z] && [x, y][1..] == [y] && [x][1..] == [];
    assert [y][1..] == [] && [z][1..] == [];
    AppendNil(x.Dirs());
    AppendNil(y.Dirs());
    AppendNil(dz);
    assert DirsOf([z]) == dz;
    assert DirsOf([y, z]) == y.Dirs() + DirsOf([z]);
    Associative(x.Dirs(), y.Dirs(), dz);
  }

  lemma ThreeMore(x: Layer, y: Layer, z: Layer, rest: seq<Layer>, top: string)
    requires x.Creates() && y.Creates() && z.Creates()
    requires AllInside(x.Dirs(), top) && AllInside(y.Dirs(), top) && AllInside(z.Dirs(), top)
    requires AllInside(DirsOf(rest), top)
    ensures AllInside(DirsOf([x, y, z] + rest), top)
  {
    hide AllInside;
    DirsOfThree(x, y, z);
    DirsOfAppend([x, y, z], rest);
    AllInsideAppend(x.Dirs(), y.Dirs(), top);
    AllInsideAppend(x.Dirs() + y.Dirs(), z.Dirs(), top);
    AllInsideAppend(x.Dirs() + y.Dirs() + z.Dirs(), DirsOf(rest), top);
  }

  lemma {:induction false} SubDirsInside(images: string, mountsDir: string, root: string, mps: seq<string>, top: string)
    requires mountsDir != "" && root != "" && AtOrBelow(mountsDir, top) && AtOrBelow(root, top)
    ensures AllInside(DirsOf(SubLayers(images, mountsDir, root, mps)), top)
    decreases |mps|
  {
    hide MountName, PathJoin, AtOrBelow, AllInside;
    if mps == [] {
      CacheInside(root, top);
    } else {
      var m, loop, rest := mps[0], MountDir(mountsDir, mps[0]), SubLayers(images, mountsDir, root, mps[1..]);
      var over := OverlayLayer(MountName(m), m, loop);
      NameStart(m);
      JoinInside(mountsDir, MountName(m), top);
      OverlayDirsInside(MountName(m), m, loop, top);
      JoinInside(root, LStripped(m), top);
      PlainInside(Image(ImageOf(images, m)), loop, top);
      PlainInside(Dir(over.target), BindTarget(root, m), top);
      SubDirsInside(images, mountsDir, root, mps[1..], top);
      ThreeMore(LoopLayer(images, mountsDir, m), over, PlainLayer(Dir(over.target), BindTarget(root, m)), rest, top);
    }
  }

  function LStripped(m: string): (r: string)
    ensures r == "" || r[0] != '/'
    ensures forall root :: BindTarget(root, m) == PathJoin(root, r)
  {
    Strings.LStrip(m, Strings.IsSlash)
  }

  lemma NameStart(m: string)
    ensures MountName(m) != "" && MountName(m)[0] != '/'
  {
  }

  lemma PlainInside(what: What, d: string, top: string)
    requires AtOrBelow(d, top)
    ensures AllInside(PlainLayer(what, d).Dirs(), top)
  {
  }

  lemma CacheInside(root: string, top: string)
    requires root != "" && AtOrBelow(root, top)
    ensures AllInside(DirsOf([PlainLayer(Dir(DNF_CACHE), CacheTarget(root))]), top)
  {
    JoinInside(root, "var", top);
    JoinInside(PathJoin(root, "var"), "cache", top);
    JoinInside(PathJoin(PathJoin(root, "var"), "cache"), "dnf", top);
    var l := PlainLayer(Dir(DNF_CACHE), CacheTarget(root));
    assert [l][1..] == [];
    assert DirsOf([l]) == [CacheTarget(root)] + [];
  }

  // ---------------------------------------------------------------- the whole tower

  /** The objects that were entered, and the one that raised: the first two and those after the
    * third have their directories in `top`.
    */
  lemma FirstDirs(l1: Layer, l2: Layer, l3: Layer, sub: seq<Layer>, k: nat, top: string)
    returns (pre: seq<string>, post: seq<string>)
    requires l1.Creates() && l2.Creates() && k <= 3 + |sub|
    requires AllInside(l1.Dirs(), top) && AllInside(l2.Dirs(), top) && AllInside(DirsOf(sub), top)
    ensures AllInside(pre, top) && AllInside(post, top)
    ensures DirsOf(([l1, l2, l3] + sub)[..k])
            == pre + (if k > 2 && l3.Creates() then l3.Dirs() else []) + post
  {
    hide AllInside;
    var layers := [l1, l2, l3] + sub;
    DirsOfThree(l1, l2, l3);
    AllInsideAppend(l1.Dirs(), l2.Dirs(), top);
    NoneInside(top);
    pre, post := [], [];
    if k == 0 {
      assert layers[..0] == [];
    } else if k == 1 {
      assert layers[..1] == [l1];
      pre := l1.Dirs();
    } else if k == 2 {
      assert layers[..2] == [l1, l2];
      pre := l1.Dirs() + l2.Dirs();
    } else {
      assert layers[..k] == [l1, l2, l3] + sub[..k - 3];
      DirsOfAppend([l1, l2, l3], sub[..k - 3]);
      SubSplit(sub, k - 3);
      pre, post := l1.Dirs() + l2.Dirs(), DirsOf(sub[..k - 3]);
      AllInsideAppend(post, DirsOf(sub[k - 3..]), top);
    }
    AppendNil(pre);
  }

  lemma NoneInside(top: string)
    ensures AllInside([], top)
  {
  }

  lemma SubSplit(sub: seq<Layer>, j: nat)
    requires j <= |sub|
    ensures DirsOf(sub) == DirsOf(sub[..j]) + DirsOf(sub[j..])
    ensures j < |sub| && sub[j].Creates() ==> DirsOf(sub[j..]) == sub[j].Dirs() + DirsOf(sub[j..][1..])
  {
    assert sub == sub[..j] + sub[j..];
    DirsOfAppend(sub[..j], sub[j..]);
  }

  /** The directories of the objects that were entered: those of the caller, if its object was
    * among them, and otherwise ones in the scratch directory.
    */
  lemma EnteredDirs(a: OverlayArgs, stage: Stage) returns (pre: seq<string>, post: seq<string>)
    requires stage.Towered? && Reachable(a, stage) && a.scratchDir != "" && AtOrBelow(a.mountsDir, a.scratchDir)
    ensures AllInside(pre, a.scratchDir) && AllInside(post, a.scratchDir)
    ensures DirsOf(Entered(Layers(a, stage), stage.o)) == pre + Bound(a, stage) + post
  {
    hide AllInside, SubLayers, DirsOf, OverlayLayer, MountDir, SystemOverlay;
    var root, layers := SystemOverlay(a.mountsDir), Layers(a, stage);
    var l1 := LoopLayer(ImagesDir(a.scratchDir), a.mountsDir, "/");
    var l2 := OverlayLayer("system_overlay", "/", MountDir(a.mountsDir, "/"));
    var l3 := TargetLayer(root, a.mountTarget);
    var sub := SubLayers(ImagesDir(a.scratchDir), a.mountsDir, root, stage.subMounts);
    RootDirsInside(a);
    SubDirsInside(ImagesDir(a.scratchDir), a.mountsDir, root, stage.subMounts, a.scratchDir);
    OverlayCreates("system_overlay", "/", MountDir(a.mountsDir, "/"));
    pre, post := FirstDirs(l1, l2, l3, sub, if stage.o.Raised? then stage.o.depth else |layers|, a.scratchDir);
    assert layers == [l1, l2, l3] + sub;
    assert layers[..|layers|] == layers;
  }

  lemma OverlayCreates(name: string, lower: string, workdir: string)
    ensures OverlayLayer(name, lower, workdir).Creates()
  {
  }

  /** The caller's directories, if the object for them was entered. */
  function Bound(a: OverlayArgs, stage: Stage): seq<string> {
    if stage.Towered? && (stage.o.Reached? || stage.o.depth > 2) then TargetDirs(a) else []
  }

  /** The object that raised is the third one, or has its directories in the scratch directory. */
  lemma RaisedDirs(a: OverlayArgs, stage: Stage)
    requires stage.Towered? && Reachable(a, stage) && a.scratchDir != "" && AtOrBelow(a.mountsDir, a.scratchDir)
    requires stage.o.Raised?
    ensures stage.o.depth == 2 ==> FailedDirs(Layers(a, stage), stage.o) == TargetDirs(a) != []
    ensures stage.o.depth != 2 ==> AllInside(FailedDirs(Layers(a, stage), stage.o), a.scratchDir)
  {
    hide AllInside, SubLayers, DirsOf, OverlayLayer, MountDir, SystemOverlay;
    var root, layers, k := SystemOverlay(a.mountsDir), Layers(a, stage), stage.o.depth;
    RootDirsInside(a);
    SubDirsInside(ImagesDir(a.scratchDir), a.mountsDir, root, stage.subMounts, a.scratchDir);
    if k > 2 {
      var sub := SubLayers(ImagesDir(a.scratchDir), a.mountsDir, root, stage.subMounts);
      assert layers[k] == sub[k - 3];
      SubSplit(sub, k - 3);
      AllInsideAppend(DirsOf(sub[..k - 3]), DirsOf(sub[k - 3..]), a.scratchDir);
      AllInsideAppend(sub[k - 3].Dirs(), DirsOf(sub[k - 3..][1..]), a.scratchDir);
    } else if k == 2 {
      assert TargetLayer(root, a.mountTarget).Creates();
    }
  }

  lemma RootDirsInside(a: OverlayArgs)
    requires a.scratchDir != "" && AtOrBelow(a.mountsDir, a.scratchDir)
    ensures a.mountsDir != "" && SystemOverlay(a.mountsDir) != "" && AtOrBelow(SystemOverlay(a.mountsDir), a.scratchDir)
    ensures AllInside(LoopLayer(ImagesDir(a.scratchDir), a.mountsDir, "/").Dirs(), a.scratchDir)
    ensures AllInside(OverlayLayer("system_overlay", "/", MountDir(a.mountsDir, "/")).Dirs(), a.scratchDir)
  {
    hide MountName, PathJoin;
    NameStart("/");
    JoinInside(a.mountsDir, MountName("/"), a.scratchDir);
    PlainInside(Image(ImageOf(ImagesDir(a.scratchDir), "/")), MountDir(a.mountsDir, "/"), a.scratchDir);
    OverlayDirsInside("system_overlay", "/", MountDir(a.mountsDir, "/"), a.scratchDir);
    JoinInside(MountDir(a.mountsDir, "/"), "system_overlay", a.scratchDir);
  }

  // ---------------------------------------------------------------- seen from outside the scratch directory

  lemma {:induction false} AboveInside(dirs: seq<string>, dir: string, x: string)
    requires AllInside(dirs, dir) && x in Above(dirs)
    ensures AtOrBelow(x, dir) || x in Parents(dir)
  {
    ParentsSplit(dirs[0], dir, x);
    if x !in Parents(dirs[0]) { AboveInside(dirs[1..], dir, x); }
  }

  lemma InsideInside(dirs: seq<string>, dir: string, x: string)
    requires AllInside(dirs, dir) && Inside(x, dirs)
    ensures AtOrBelow(x, dir)
  {
    var i :| 0 <= i < |dirs| && AtOrBelow(x, dirs[i]);
    AtOrBelowTransitive(x, dirs[i], dir);
  }

  /** Outside of the scratch directory, its own parents are all that the preparation makes. */
  lemma SetupOutside(there: set<string>, a: OverlayArgs, stage: Stage, x: string)
    requires a.scratchDir != "" && AtOrBelow(a.mountsDir, a.scratchDir) && !AtOrBelow(x, a.scratchDir)
    ensures x in DirsAfter(there, SetupTrace(a, stage)) <==> x in there || x in Parents(a.scratchDir)
  {
    var images := ImagesDir(a.scratchDir);
    JoinInside(a.scratchDir, "diskimages", a.scratchDir);
    ParentsSplit(a.mountsDir, a.scratchDir, x);
    ParentsSplit(images, a.scratchDir, x);
    if AtOrBelow(x, images) { AtOrBelowTransitive(x, images, a.scratchDir); }
    var there' := there + Parents(a.mountsDir) + {a.mountsDir};
    if !stage.NoMountsDir? {
      var ok := !stage.Unprepared? || stage.dirMade;
      TailOfCons(MadeDir(a.mountsDir), PrepareTrace(a.scratchDir, ok));
      PreparedDirs(there', a.scratchDir, ok);
    }
  }

  lemma PreparedDirs(there: set<string>, scratchDir: string, ok: bool)
    ensures DirsAfter(there, PrepareTrace(scratchDir, ok))
            == AfterStep(AfterStep(there, Removed(ImagesDir(scratchDir))),
                         if ok then MadeDir(ImagesDir(scratchDir)) else FailedDir(ImagesDir(scratchDir)))
  {
    var es := PrepareTrace(scratchDir, ok);
    assert es[1..] == [es[1]] && [es[1]][1..] == [];
    var there' := AfterStep(there, es[0]);
    assert DirsAfter(there', [es[1]]) == DirsAfter(AfterStep(there', es[1]), []);
  }

  lemma ScratchRemoves(there: set<string>, table: Table, a: OverlayArgs)
    requires !a.keepImages
    ensures DirsAfter(there, ScratchTrace(table, a)) == set x | x in there && !AtOrBelow(x, a.scratchDir)
  {
    hide AtOrBelow;
    var um := UmountTrace(table, a.mountsDir);
    DirsAfterAppend(there, um, [Removed(a.scratchDir)]);
    assert DirsAfter(there, um) == there;
  }

  /** The bind target does not lie above the scratch directory. */
  predicate StaysApart(a: OverlayArgs) {
    !Inside(a.scratchDir, TargetDirs(a))
  }

  /** The entered objects, seen from outside the scratch directory: only the caller's counts. */
  lemma EnteredOutside(a: OverlayArgs, stage: Stage, x: string)
    requires stage.Towered? && Reachable(a, stage) && a.scratchDir != "" && AtOrBelow(a.mountsDir, a.scratchDir)
    requires !AtOrBelow(x, a.scratchDir)
    ensures var dirs := DirsOf(Entered(Layers(a, stage), stage.o));
            && (Inside(x, dirs) <==> Inside(x, Bound(a, stage)))
            && (x in Above(dirs) ==> x in Above(Bound(a, stage)) || x in Parents(a.scratchDir))
            && (x in Above(Bound(a, stage)) ==> x in Above(dirs))
  {
    hide AtOrBelow, Inside, Above, Entered, DirsOf, AllInside, Bound, Layers, Parents;
    var pre, post := EnteredDirs(a, stage);
    var bound, scratch := Bound(a, stage), a.scratchDir;
    AboveAppend(pre + bound, post);
    AboveAppend(pre, bound);
    InsideAppend(x, pre + bound, post);
    InsideAppend(x, pre, bound);
    if x in Above(pre) { AboveInside(pre, scratch, x); }
    if x in Above(post) { AboveInside(post, scratch, x); }
    if Inside(x, pre) { InsideInside(pre, scratch, x); }
    if Inside(x, post) { InsideInside(post, scratch, x); }
  }

  /** The object that raised, seen from there. */
  lemma RaisedOutside(a: OverlayArgs, stage: Stage, x: string)
    requires stage.Towered? && Reachable(a, stage) && a.scratchDir != "" && AtOrBelow(a.mountsDir, a.scratchDir)
    requires stage.o.Raised? && !AtOrBelow(x, a.scratchDir)
    ensures var failed, vain := FailedDirs(Layers(a, stage), stage.o), InVain(Layers(a, stage), stage.o);
            if stage.o.depth == 2 then
              failed == TargetDirs(a) && vain == Above(failed) + Stranded(a, stage)
            else
              !Inside(x, failed) && (x in vain ==> x in Parents(a.scratchDir))
  {
    hide AtOrBelow, Parents, AllInside, MadeInVain, Inside;
    RaisedDirs(a, stage);
    var failed, made := FailedDirs(Layers(a, stage), stage.o), stage.o.made;
    if stage.o.depth == 2 {
      VainOfOne(failed[0], made);
    } else {
      VainInside(failed, made, a.scratchDir, x);
      if Inside(x, failed) { InsideInside(failed, a.scratchDir, x); }
    }
  }

  lemma VainOfOne(d: string, made: nat)
    requires made <= 1
    ensures MadeInVain([d], made) == Above([d]) + if made > 0 then {d} else {}
  {
    assert [d][1..] == [] && [d][..1] == [d] && [d][..0] == [];
    assert Above([d]) == Parents(d);
  }

  lemma VainInside(dirs: seq<string>, made: nat, dir: string, x: string)
    requires made <= |dirs| && AllInside(dirs, dir)
    ensures x in MadeInVain(dirs, made) ==> AtOrBelow(x, dir) || x in Parents(dir)
  {
    hide AtOrBelow;
    if x in Above(dirs[..made]) {
      AboveInside(dirs[..made], dir, x);
    } else if made < |dirs| && x in Parents(dirs[made]) {
      ParentsSplit(dirs[made], dir, x);
    }
  }

  /** In the situation the upgrade expects it does not. */
  lemma ExpectedTargetStaysApart(table: Table, a: OverlayArgs, fstab: seq<FstabEntry>)
    requires HostFits(table, a, fstab)
    ensures StaysApart(a)
  {
    hide AtOrBelow;
    if i :| 0 <= i < |TargetDirs(a)| && AtOrBelow(a.scratchDir, TargetDirs(a)[i]) {
      AtOrBelowTransitive(a.mountsDir, a.scratchDir, TargetDirs(a)[i]);
    }
  }

  /** What the tower leaves outside of the scratch directory, whose parents are there already. */
  lemma TowerOutside(there: set<string>, table: Table, a: OverlayArgs, stage: Stage, x: string)
    requires stage.Towered? && Reachable(a, stage) && a.scratchDir != "" && AtOrBelow(a.mountsDir, a.scratchDir)
    requires StaysApart(a) && !AtOrBelow(x, a.scratchDir) && (x in Parents(a.scratchDir) ==> x in there)
    ensures x in DirsAfter(there, TowerTrace(table, Layers(a, stage), stage.o)) <==>
              || x in Parents(a.scratchDir) || x in Above(Tried(a, stage)) || x in Stranded(a, stage)
              || (x in there && !Inside(x, Tried(a, stage)))
  {
    hide TowerTrace, SourceOverlayLayers, DirsAfter, DirsOf, Entered, AtOrBelow, StaysApart;
    SourcePaired(ImagesDir(a.scratchDir), a.mountsDir, stage.subMounts, a.mountTarget);
    TowerLeaves(there, table, Layers(a, stage), stage.o);
    EnteredOutside(a, stage, x);
    TargetParents(a, x);
    if x in Parents(a.scratchDir) { ScratchParents(a, x); }
    if stage.o.Raised? { RaisedOutside(a, stage, x); }
  }

  lemma ScratchParents(a: OverlayArgs, x: string)
    requires StaysApart(a) && x in Parents(a.scratchDir)
    ensures !Inside(x, TargetDirs(a))
  {
    hide AtOrBelow;
    ParentIsNotInside(a.scratchDir, x);
    if i :| 0 <= i < |TargetDirs(a)| && AtOrBelow(x, TargetDirs(a)[i]) {
      AtOrBelowTransitive(a.scratchDir, x, TargetDirs(a)[i]);
    }
  }

  lemma TargetParents(a: OverlayArgs, x: string)
    ensures x in Above(TargetDirs(a)) ==> !Inside(x, TargetDirs(a))
    ensures TargetDirs(a) != [] ==> Above(TargetDirs(a)) == Parents(TargetDirs(a)[0])
    ensures !Inside(x, []) && Above([]) == {}
  {
    var dirs := TargetDirs(a);
    if dirs != [] {
      assert dirs[1..] == [];
      assert Above(dirs) == Parents(dirs[0]) + {};
      if x in Parents(dirs[0]) { ParentIsNotInside(dirs[0], x); }
    }
  }

  // ---------------------------------------------------------------- the whole run

  /** Exactly which directories there are after a run that does not keep its images: nothing in
    * the scratch directory, and nothing in the caller's target, unless that was made and could
    * not be mounted; what was there elsewhere; and the parents of both directories, which were
    * made if they were missing and which nothing removes.
    */
  lemma DirectoriesAfterwards(there: set<string>, table: Table, a: OverlayArgs, stage: Stage, x: string)
    requires Reachable(a, stage) && !a.keepImages && a.scratchDir != "" && AtOrBelow(a.mountsDir, a.scratchDir)
    requires StaysApart(a)
    ensures x in DirsAfter(there, SourceOverlayTrace(table, a, stage)) <==>
              && !AtOrBelow(x, a.scratchDir)
              && (|| x in Parents(a.scratchDir) || x in Above(Tried(a, stage)) || x in Stranded(a, stage)
                  || (x in there && !Inside(x, Tried(a, stage))))
  {
    hide TowerTrace, Run, Possible, SourceOverlayLayers, AtOrBelow, Tried, Stranded, SetupTrace, ScratchTrace,
      DirsAfter;
    var setup, mounting := SetupTrace(a, stage), MountTrace(table, a, stage);
    var after := Run(table, mounting).table;
    var d1 := DirsAfter(there, setup);
    var d2 := DirsAfter(d1, mounting);
    DirsAfterAppend(there, setup + mounting, ScratchTrace(after, a));
    DirsAfterAppend(there, setup, mounting);
    ScratchRemoves(d2, after, a);
    if !AtOrBelow(x, a.scratchDir) {
      SetupOutside(there, a, stage, x);
      assert x in d2 <==> x in Parents(a.scratchDir) || x in Above(Tried(a, stage)) || x in Stranded(a, stage)
                          || (x in there && !Inside(x, Tried(a, stage))) by {
        MountingOutside(d1, table, a, stage, x);
      }
    }
  }

  lemma MountingOutside(there: set<string>, table: Table, a: OverlayArgs, stage: Stage, x: string)
    requires Reachable(a, stage) && a.scratchDir != "" && AtOrBelow(a.mountsDir, a.scratchDir)
    requires StaysApart(a) && !AtOrBelow(x, a.scratchDir)
    requires x in Parents(a.scratchDir) ==> x in there
    ensures x in DirsAfter(there, MountTrace(table, a, stage)) <==>
              || x in Parents(a.scratchDir) || x in Above(Tried(a, stage)) || x in Stranded(a, stage)
              || (x in there && !Inside(x, Tried(a, stage)))
  {
    hide TowerTrace, SourceOverlayLayers, AtOrBelow, StaysApart;
    if stage.Towered? {
      TowerOutside(there, table, a, stage, x);
    } else {
      TargetParents(a, x);
      assert DirsAfter(there, []) == there;
    }
  }

  /** A run that reaches the caller's code leaves nothing behind exactly if the directories above
    * the scratch directory and above the bind target were there.
    */
  lemma NothingIsLeftBehind(there: set<string>, table: Table, a: OverlayArgs, stage: Stage)
    requires Reachable(a, stage) && !a.keepImages && a.scratchDir != "" && AtOrBelow(a.mountsDir, a.scratchDir)
    requires StaysApart(a) && stage.Towered? && stage.o.Reached?
    ensures DirsAfter(there, SourceOverlayTrace(table, a, stage)) <= there <==>
              && Parents(a.scratchDir) <= there
              && forall p :: p in Above(TargetDirs(a)) ==> p in there || AtOrBelow(p, a.scratchDir)
  {
    hide SourceOverlayTrace, DirsAfter, Reachable, AtOrBelow, StaysApart, Parents;
    var after := DirsAfter(there, SourceOverlayTrace(table, a, stage));
    forall x { DirectoriesAfterwards(there, table, a, stage, x); }
    forall p | p in Parents(a.scratchDir) ensures !AtOrBelow(p, a.scratchDir) {
      ParentIsNotInside(a.scratchDir, p);
    }
    if after <= there {
      forall p | p in Parents(a.scratchDir) ensures p in there { assert p in after; }
      forall p | p in Above(TargetDirs(a)) && !AtOrBelow(p, a.scratchDir) ensures p in there { assert p in after; }
    }
  }

  /** The caller's target in a directory that was not there: that directory stays. */
  lemma MissingParentStays(there: set<string>, table: Table, a: OverlayArgs, stage: Stage)
    requires a == OverlayArgs("/var/lib/leapp/scratch/mounts", "/var/lib/leapp/scratch",
                              Some("/srv/x/installroot"), false)
    requires Reachable(a, stage) && stage.Towered? && stage.o.Reached? && "/srv/x" !in there
    ensures "/srv/x" in DirsAfter(there, SourceOverlayTrace(table, a, stage))
  {
    hide SourceOverlayTrace, DirsAfter, Reachable;
    var t := "/srv/x/installroot";
    assert AtOrBelow(a.mountsDir, a.scratchDir) by { assert AsDir(a.scratchDir) == a.mountsDir[..|a.scratchDir| + 1]; }
    assert t[6] == '/' && t[..6] == "/srv/x";
    assert "/srv/x" in Parents(t);
    TargetParents(a, "/srv/x");
    assert !AtOrBelow(a.scratchDir, t) && !AtOrBelow("/srv/x", a.scratchDir) by { assert t[1] != a.scratchDir[1]; }
    assert StaysApart(a) by { assert TargetDirs(a) == [t]; }
    DirectoriesAfterwards(there, table, a, stage, "/srv/x");
  }
}
