/** `overlaygen.py`: disk images and loop mounts for the mount points of `/etc/fstab`, the
  * tower of overlays built from them, and the clean-up that follows in every case.
  */
module OverlayGen {
  import opened Wrappers
  import opened Seqs
  import opened Strings
  import opened Ordering
  import opened Paths
  import opened MountTable
  import opened Mounting
  import opened OverlayLayout

  const OVERLAY_DO_NOT_MOUNT := {"tmpfs", "devtmpfs", "devpts", "sysfs", "proc", "cramfs", "sysv", "vfat", "hugetlbfs"}
  const MAGICAL_CONSTANT_OVL_SIZE := 128
  const MAGICAL_CONSTANT_MIN_CONTAINER_SIZE_8 := 3200
  const MAGICAL_CONSTANT_MIN_CONTAINER_SIZE_9 := 2200
  const MAGICAL_CONSTANT_MIN_PROTECTED_SIZE := 200
  const MAX_DISK_IMAGE_SIZE_MB := 0x10_0000
  const MIN_DISK_IMAGE_SIZE_MB := 130
  const MIB := 0x10_0000

  // ---------------------------------------------------------------- space

  function GetMinContainerSize(targetMajor: string): int {
    if targetMajor == "8" then MAGICAL_CONSTANT_MIN_CONTAINER_SIZE_8 else MAGICAL_CONSTANT_MIN_CONTAINER_SIZE_9
  }

  /** `containerSize` is what `du` printed, if it was called and succeeded. */
  function GetRecommendedLeappFreeSpace(targetMajor: string, containerSize: Option<int>): (reserve: int)
    ensures reserve >= MAGICAL_CONSTANT_MIN_PROTECTED_SIZE
    ensures containerSize.Some? && containerSize.value >= 0 ==>
              reserve + containerSize.value >= GetMinContainerSize(targetMajor)
    ensures reserve <= GetMinContainerSize(targetMajor)
    ensures containerSize.None? || containerSize.value < 0 ==> reserve == if targetMajor == "8" then 3200 else 2200
  {
    var minSize := GetMinContainerSize(targetMajor);
    if containerSize.None? || containerSize.value < 0 then minSize
    else
      var protected := minSize - containerSize.value;
      if protected < MAGICAL_CONSTANT_MIN_PROTECTED_SIZE then MAGICAL_CONSTANT_MIN_PROTECTED_SIZE else protected
  }

  /** A fuller container never asks for more reserve, and the reserve is the least that
    * keeps both bounds.
    */
  lemma ReserveIsLeast(targetMajor: string, size: nat, larger: nat, r: int)
    requires size <= larger
    ensures GetRecommendedLeappFreeSpace(targetMajor, Some(larger))
            <= GetRecommendedLeappFreeSpace(targetMajor, Some(size))
    ensures r >= 200 && r + size >= (if targetMajor == "8" then 3200 else 2200) ==>
              r >= GetRecommendedLeappFreeSpace(targetMajor, Some(size))
    ensures var reserve := GetRecommendedLeappFreeSpace(targetMajor, Some(size));
            reserve >= 200 && reserve + size >= if targetMajor == "8" then 3200 else 2200
  {
  }

  /** The size of the sparse file for a file system with `free` MiB to offer. */
  function ClampImageSize(free: int): (size: int)
    ensures MIN_DISK_IMAGE_SIZE_MB <= size <= MAX_DISK_IMAGE_SIZE_MB
    ensures MIN_DISK_IMAGE_SIZE_MB <= free <= MAX_DISK_IMAGE_SIZE_MB ==> size == free
    ensures free < 130 ==> size == 130
    ensures free > 0x10_0000 ==> size == 0x10_0000
  {
    if free > MAX_DISK_IMAGE_SIZE_MB then MAX_DISK_IMAGE_SIZE_MB
    else if free < MIN_DISK_IMAGE_SIZE_MB then MIN_DISK_IMAGE_SIZE_MB
    else free
  }

  /** Free MiB, five percent held back. */
  function CautiousFreeMiB(bytes: nat): int {
    bytes * 95 / 100 / MIB
  }

  /** It is the largest number of whole MiB within 95 percent of the bytes. */
  lemma CautiousFreeSpec(bytes: nat, n: int)
    ensures n <= CautiousFreeMiB(bytes) <==> n * 1024 * 1024 * 100 <= bytes * 95
  {
    var kept := bytes * 95 / 100;
    assert 100 * kept <= bytes * 95 < 100 * kept + 100;
    var mib := kept / MIB;
    assert MIB * mib <= kept < MIB * mib + MIB;
  }

  // ---------------------------------------------------------------- mount points

  datatype FstabEntry = FstabEntry(fsFile: string, fsVfstype: string, isDir: bool)

  /** `os.path.isdir` never holds for the empty string. */
  predicate Selected(e: FstabEntry) {
    e.isDir && e.fsFile != "" && e.fsVfstype !in OVERLAY_DO_NOT_MOUNT
  }

  /** `_get_mountpoints`: the distinct (path, type) pairs, in no particular order. */
  method GetMountpoints(fstab: seq<FstabEntry>) returns (mountPoints: seq<(string, string)>)
    ensures NoDup(mountPoints)
    ensures forall p :: p in mountPoints <==> exists e :: e in fstab && Selected(e) && p == (e.fsFile, e.fsVfstype)
    ensures forall p :: p in mountPoints <==>
              exists e :: e in fstab && p == (e.fsFile, e.fsVfstype) && e.isDir && e.fsFile != ""
                          && e.fsVfstype !in {"tmpfs", "devtmpfs", "devpts", "sysfs", "proc", "cramfs", "sysv",
                                              "vfat", "hugetlbfs"}
  {
    var found: set<(string, string)> := {};
    for i := 0 to |fstab|
      invariant forall p :: p in found <==>
                  exists j :: 0 <= j < i && Selected(fstab[j]) && p == (fstab[j].fsFile, fstab[j].fsVfstype)
    {
      if Selected(fstab[i]) {
        found := found + {(fstab[i].fsFile, fstab[i].fsVfstype)};
      }
    }
    mountPoints := [];
    var left := found;
    while left != {}
      invariant left <= found
      invariant NoDup(mountPoints)
      invariant forall p :: p in mountPoints <==> p in found && p !in left
      decreases left
    {
      var p :| p in left;
      mountPoints, left := mountPoints + [p], left - {p};
    }
    forall p ensures p in found <==> exists e :: e in fstab && Selected(e) && p == (e.fsFile, e.fsVfstype) {
      if p in found {
        var j :| 0 <= j < |fstab| && Selected(fstab[j]) && p == (fstab[j].fsFile, fstab[j].fsVfstype);
        assert fstab[j] in fstab;
      }
    }
  }

  lemma BelowPrefix(dir: string, mp: string)
    requires Below(dir, mp)
    ensures mp <= dir
  {
    assert mp <= AsDir(mp) <= dir;
  }

  /** Of two directories around the same path, the later one in string order is inside. */
  lemma LaterIsDeeper(dir: string, m: string, best: string)
    requires Below(dir, m) && Below(dir, best) && Leq(m, best)
    ensures m <= best
  {
    BelowPrefix(dir, m);
    BelowPrefix(dir, best);
    assert m == dir[..|m|] && best == dir[..|best|];
    if |best| < |m| {
      assert best == m[..|best|];
      PrefixLeq(best, m);
      LeqAntisymmetric(m, best);
    }
  }

  /** `_get_scratch_mountpoint`: the innermost listed directory around `dirPath`. */
  method GetScratchMountpoint(mountPoints: seq<string>, dirPath: string) returns (owner: Option<string>)
    requires "" !in mountPoints
    ensures owner.None? ==> forall m :: m in mountPoints ==> !Below(dirPath, m)
    ensures owner.Some? ==> owner.value in mountPoints && Below(dirPath, owner.value)
    ensures owner.Some? ==> forall m :: m in mountPoints && Below(dirPath, m) ==> m <= owner.value
  {
    hide Leq, SortStrings, Below;
    var sorted := SortStrings(mountPoints);
    SortStringsSorts(mountPoints);
    var i := |sorted|;
    while i > 0
      invariant 0 <= i <= |sorted|
      invariant forall j :: i <= j < |sorted| ==> !Below(dirPath, sorted[j])
    {
      i := i - 1;
      if Below(dirPath, sorted[i]) {
        forall m | m in mountPoints && Below(dirPath, m) ensures m <= sorted[i] {
          assert m in sorted;
          var j :| 0 <= j < |sorted| && sorted[j] == m;
          LeqReflexive(m);
          assert Leq(m, sorted[i]);
          LaterIsDeeper(dirPath, m, sorted[i]);
        }
        return Some(sorted[i]);
      }
    }
    forall m | m in mountPoints ensures !Below(dirPath, m) { assert m in sorted; }
    owner := None;
  }

  /** For clean paths the innermost owner in the string sense is the one whose components
    * are the longest proper prefix of those of the path.
    */
  lemma OwnerByComponents(dirPath: string, m: string, best: string)
    requires Clean(dirPath) && Clean(m) && Clean(best)
    ensures Below(dirPath, m) && m != dirPath <==>
              Components(m) <= Components(dirPath) && Components(m) != Components(dirPath)
    ensures Below(dirPath, m) && Below(dirPath, best) && m <= best ==> |Components(m)| <= |Components(best)|
  {
    AtOrBelowIsPrefix(dirPath, m);
    AtOrBelowIsPrefix(dirPath, best);
    if Components(m) == Components(dirPath) { CleanInjective(m, dirPath); }
    if Below(dirPath, m) && Below(dirPath, best) && m <= best {
      if |Components(best)| < |Components(m)| {
        assert Components(best) == Components(dirPath)[..|Components(best)|];
        assert Components(m) == Components(dirPath)[..|Components(m)|];
        assert Components(best) <= Components(m);
        AtOrBelowIsPrefix(m, best);
      }
    }
  }

  // ---------------------------------------------------------------- the dictionary of loop mounts

  /** The insertion-ordered dictionary from mount points to their loop mounts, which the
    * functions below fill, share and empty in place.
    */
  class MountDict {
    var keys: seq<string>
    var loops: map<string, MountingBase>

    constructor ()
      ensures keys == [] && loops == map[]
    {
      keys, loops := [], map[];
    }

    ghost predicate Valid(images: string, mountsDir: string)
      reads this
    {
      && NoDup(keys)
      && (forall k :: k in keys <==> k in loops)
      && (forall k :: k in loops ==> loops[k].AsLayer() == LoopLayer(images, mountsDir, k))
    }

    /** `d[key] = loop`: a known key keeps its place. */
    method Set(ghost images: string, ghost mountsDir: string, key: string, loop: MountingBase)
      requires Valid(images, mountsDir) && loop.AsLayer() == LoopLayer(images, mountsDir, key)
      modifies this
      ensures Valid(images, mountsDir)
      ensures keys == if key in old(keys) then old(keys) else old(keys) + [key]
      ensures loops == old(loops)[key := loop]
    {
      if key !in loops { keys := keys + [key]; }
      loops := loops[key := loop];
    }

    /** `d.pop(key)` */
    method Pop(ghost images: string, ghost mountsDir: string, key: string) returns (loop: MountingBase)
      requires Valid(images, mountsDir) && key in keys
      modifies this
      ensures Valid(images, mountsDir)
      ensures loop.AsLayer() == LoopLayer(images, mountsDir, key)
      ensures keys == Without(old(keys), key)
    {
      loop := loops[key];
      WithoutSpec(keys, key, Leq);
      keys := Without(keys, key);
      loops := map k | k in loops && k != key :: loops[k];
    }
  }

  // ---------------------------------------------------------------- disk images and loop mounts

  function ImagesDir(scratchDir: string): string { PathJoin(scratchDir, "diskimages") }

  function ImagePath(scratchDir: string, mountPoint: string): string {
    ImageOf(ImagesDir(scratchDir), mountPoint)
  }

  /** The size of the image that stands for `m`. */
  function ImageSize(m: string, owner: Option<string>, scratchFree: int, free: map<string, nat>): int
    requires m in free
  {
    ClampImageSize(if owner == Some(m) then scratchFree else CautiousFreeMiB(free[m]))
  }

  ghost predicate NamesApart(mps: seq<string>) {
    forall x, y :: x in mps && y in mps && MountName(x) == MountName(y) ==> x == y
  }

  datatype Preparation =
    | Prepared(mounts: MountDict, images: map<string, int>, mountPoints: seq<string>, owner: Option<string>,
               scratchFree: int)
    | NotPrepared(dirMade: bool)

  function PrepareTrace(scratchDir: string, dirMade: bool): seq<Event> {
    [Removed(ImagesDir(scratchDir)),
     if dirMade then MadeDir(ImagesDir(scratchDir)) else FailedDir(ImagesDir(scratchDir))]
  }

  /** The mount points a preparation works on, sorted; a path listed with two types counts
    * twice in the space check and once in the dictionary.
    */
  ghost predicate Listed(fstab: seq<FstabEntry>, mps: seq<string>) {
    SortedBy(mps, Leq) && forall m :: m in mps <==> exists e :: e in fstab && Selected(e) && e.fsFile == m
  }

  method SortedMountPoints(fstab: seq<FstabEntry>) returns (mps: seq<string>)
    ensures Listed(fstab, mps)
  {
    var pairs := GetMountpoints(fstab);
    var files := seq(|pairs|, i requires 0 <= i < |pairs| => pairs[i].0);
    mps := SortStrings(files);
    SortStringsSorts(files);
    forall m ensures m in mps <==> exists e :: e in fstab && Selected(e) && e.fsFile == m {
      if m in files {
        var i :| 0 <= i < |files| && files[i] == m;
        assert pairs[i] in pairs;
      }
      if e :| e in fstab && Selected(e) && e.fsFile == m {
        assert (e.fsFile, e.fsVfstype) in pairs;
        var i :| 0 <= i < |pairs| && pairs[i] == (e.fsFile, e.fsVfstype);
        assert files[i] == m;
      }
    }
  }

  /** `_prepare_required_mounts`. `free` gives the free bytes of the file system at a path;
    * `statvfs` raises where it has no entry, and building an image may fail.
    */
  method PrepareRequiredMounts(os: Os, scratchDir: string, mountsDir: string, fstab: seq<FstabEntry>,
                               free: map<string, nat>, scratchReserve: int) returns (p: Preparation)
    modifies os
    ensures os.mounts == old(os.mounts)
    ensures os.trace == old(os.trace) + PrepareTrace(scratchDir, p.Prepared? || p.dirMade)
    ensures p.Prepared? ==>
              fresh(p.mounts) && p.mounts.Valid(ImagesDir(scratchDir), mountsDir) && Listed(fstab, p.mounts.keys)
    ensures p.Prepared? ==> Listed(fstab, p.mountPoints) && p.scratchFree >= 128 * |p.mountPoints|
    ensures p.Prepared? ==>
              && scratchDir in free && p.scratchFree == free[scratchDir] / MIB - scratchReserve
              && free[scratchDir] >= (scratchReserve + 128 * |p.mountPoints|) * 1024 * 1024
    ensures p.Prepared? && p.owner.Some? ==>
              && p.owner.value in p.mounts.keys && Below(scratchDir, p.owner.value)
              && (forall m :: m in p.mounts.keys && Below(scratchDir, m) ==> m <= p.owner.value)
    ensures p.Prepared? ==> SizesBounded(p.images)
    ensures p.Prepared? && NamesApart(p.mountPoints) ==>
              ImagesOf(p.mountPoints, p.images, scratchDir, p.owner, p.scratchFree, free)
  {
    var mps := SortedMountPoints(fstab);
    var owner := GetScratchMountpoint(mps, scratchDir);
    os.RemoveTree(ImagesDir(scratchDir));
    var ok := os.MakeDirs(ImagesDir(scratchDir));
    assert os.trace == old(os.trace) + PrepareTrace(scratchDir, ok);
    if !ok || scratchDir !in free { return NotPrepared(ok); }
    var spaceNeeded := scratchReserve + MAGICAL_CONSTANT_OVL_SIZE * |mps|;
    if free[scratchDir] < spaceNeeded * MIB { return NotPrepared(true); }
    var scratchFree := free[scratchDir] / MIB - scratchReserve;

    var built, result, images := BuildLoopMounts(scratchDir, mountsDir, mps, owner, scratchFree, free);
    if !built { return NotPrepared(true); }
    p := Prepared(result, images, mps, owner, scratchFree);
  }

  ghost predicate ImagesOf(mps: seq<string>, images: map<string, int>, scratchDir: string, owner: Option<string>,
                           scratchFree: int, free: map<string, nat>) {
    forall m :: m in mps ==>
      && m in free && ImagePath(scratchDir, m) in images
      && images[ImagePath(scratchDir, m)] == ImageSize(m, owner, scratchFree, free)
  }

  ghost predicate SizesBounded(images: map<string, int>) {
    forall path :: path in images ==> MIN_DISK_IMAGE_SIZE_MB <= images[path] <= MAX_DISK_IMAGE_SIZE_MB
  }

  lemma ImagesOfMore(mps: seq<string>, m: string, images: map<string, int>, scratchDir: string, owner: Option<string>,
                     scratchFree: int, free: map<string, nat>)
    requires ImagesOf(mps, images, scratchDir, owner, scratchFree, free) && NamesApart(mps + [m]) && m in free
    ensures ImagesOf(mps + [m], images[ImagePath(scratchDir, m) := ImageSize(m, owner, scratchFree, free)],
                     scratchDir, owner, scratchFree, free)
  {
    hide ImageSize, ImagePath, MountName;
    forall x | x in mps ensures x in mps + [m] && (ImagePath(scratchDir, x) == ImagePath(scratchDir, m) ==> x == m) {
      assert x in mps + [m] && m in mps + [m];
      ImagePathInjective(scratchDir, x, m);
    }
  }

  lemma ImagePathInjective(scratchDir: string, x: string, y: string)
    ensures ImagePath(scratchDir, x) == ImagePath(scratchDir, y) ==> MountName(x) == MountName(y)
  {
    var p, q, n, n' := ImagePath(scratchDir, x), ImagePath(scratchDir, y), MountName(x), MountName(y);
    assert n == p[|p| - |n|..] && n' == q[|q| - |n'|..];
    assert |p| - |n| == |q| - |n'|;
  }

  lemma NothingYet(result: MountDict, mountsDir: string, images: map<string, int>, scratchDir: string,
                   owner: Option<string>, scratchFree: int, free: map<string, nat>)
    requires result.keys == [] && result.loops == map[] && images == map[]
    ensures result.Valid(ImagesDir(scratchDir), mountsDir) && SortedBy(result.keys, Leq) && SizesBounded(images)
    ensures ImagesOf([], images, scratchDir, owner, scratchFree, free)
  {
  }

  lemma SizesMore(images: map<string, int>, path: string, size: int)
    requires SizesBounded(images) && MIN_DISK_IMAGE_SIZE_MB <= size <= MAX_DISK_IMAGE_SIZE_MB
    ensures SizesBounded(images[path := size])
  {
  }

  lemma SizeOfImage(m: string, owner: Option<string>, scratchFree: int, free: map<string, nat>)
    requires m in free
    ensures ImageSize(m, owner, scratchFree, free) ==
              var size := if owner == Some(m) then scratchFree else CautiousFreeMiB(free[m]);
              var capped := if size > MAX_DISK_IMAGE_SIZE_MB then MAX_DISK_IMAGE_SIZE_MB else size;
              if capped < MIN_DISK_IMAGE_SIZE_MB then MIN_DISK_IMAGE_SIZE_MB else capped
  {
  }

  lemma SortedMore(keys: seq<string>, mps: seq<string>, i: nat)
    requires i < |mps| && SortedBy(mps, Leq) && SortedBy(keys, Leq)
    requires forall m :: m in keys <==> m in mps[..i]
    ensures SortedBy(keys + [mps[i]], Leq)
  {
    forall j | 0 <= j < |keys| ensures Leq(keys[j], mps[i]) {
      assert keys[j] in mps[..i];
    }
  }

  lemma NamesApartPrefix(mps: seq<string>, i: nat)
    requires i < |mps|
    ensures NamesApart(mps) ==> NamesApart(mps[..i] + [mps[i]])
  {
    assert mps[..i] + [mps[i]] == mps[..i + 1];
  }

  lemma LoopOf(scratchDir: string, mountsDir: string, m: string)
    ensures LoopLayer(ImagesDir(scratchDir), mountsDir, m)
            == Layer(MountDir(mountsDir, m), [], MOUNT, Image(ImagePath(scratchDir, m)))
  {
  }

  /** The loop of `_prepare_required_mounts` that creates the images and the loop mounts. */
  method BuildLoopMounts(scratchDir: string, mountsDir: string, mps: seq<string>, owner: Option<string>,
                         scratchFree: int, free: map<string, nat>)
    returns (built: bool, result: MountDict, images: map<string, int>)
    requires SortedBy(mps, Leq)
    ensures fresh(result) && SizesBounded(images)
    ensures built ==> result.Valid(ImagesDir(scratchDir), mountsDir) && SortedBy(result.keys, Leq)
    ensures built ==> forall m :: m in result.keys <==> m in mps
    ensures built && NamesApart(mps) ==> ImagesOf(mps, images, scratchDir, owner, scratchFree, free)
  {
    hide Leq, ImageSize, ImagePath, MountDir, ImagesOf, NamesApart, MountDict.Valid, SortedBy, SizesBounded;
    result := new MountDict();
    images := map[];
    built := false;
    NothingYet(result, mountsDir, images, scratchDir, owner, scratchFree, free);
    for i := 0 to |mps|
      invariant fresh(result) && result.Valid(ImagesDir(scratchDir), mountsDir) && SortedBy(result.keys, Leq)
      invariant forall m :: m in result.keys <==> m in mps[..i]
      invariant SizesBounded(images)
      invariant NamesApart(mps) ==> ImagesOf(mps[..i], images, scratchDir, owner, scratchFree, free)
    {
      var m := mps[i];
      if m !in free { return; }
      var diskSize := CautiousFreeMiB(free[m]);
      if owner == Some(m) { diskSize := scratchFree; }
      if diskSize > MAX_DISK_IMAGE_SIZE_MB { diskSize := MAX_DISK_IMAGE_SIZE_MB; }
      assert mps[..i + 1] == mps[..i] + [m];
      SizeOfImage(m, owner, scratchFree, free);
      NamesApartPrefix(mps, i);
      if NamesApart(mps) {
        ImagesOfMore(mps[..i], m, images, scratchDir, owner, scratchFree, free);
      }
      var created, image, size := CreateMountDiskImage(scratchDir, m, diskSize);
      if !created { return; }
      SizesMore(images, image, size);
      images := images[image := size];
      var loop := new MountingBase.Loop(image, MountDir(mountsDir, m));
      SortedMore(result.keys, mps, i);
      LoopOf(scratchDir, mountsDir, m);
      result.Set(ImagesDir(scratchDir), mountsDir, m, loop);
    }
    assert mps[..|mps|] == mps;
    built := true;
  }

  /** `_create_mount_disk_image`: `dd` and `mkfs` may fail; the size is never below the minimum. */
  method CreateMountDiskImage(scratchDir: string, mountPoint: string, diskSize: int)
    returns (ok: bool, image: string, size: int)
    ensures image == ImagePath(scratchDir, mountPoint)
    ensures size == if diskSize < MIN_DISK_IMAGE_SIZE_MB then MIN_DISK_IMAGE_SIZE_MB else diskSize
  {
    size := diskSize;
    if size < MIN_DISK_IMAGE_SIZE_MB { size := MIN_DISK_IMAGE_SIZE_MB; }
    image := ImagePath(scratchDir, mountPoint);
    ok := *;
  }

  // ---------------------------------------------------------------- the tower

  /** `_mount_dnf_cache` around the caller's code. */
  method MountDnfCache(os: Os, overlayTarget: string) returns (o: Outcome)
    modifies os
    ensures var layers := [PlainLayer(Dir("/var/cache/dnf"), CacheTarget(overlayTarget))];
            Possible(layers, o) && os.Did(TowerTrace(old(os.mounts), layers, o))
  {
    hide Run, EnterTrace, ExitTrace, FailedEnterTrace;
    var cache := new MountingBase.Bind(DNF_CACHE, CacheTarget(overlayTarget));
    ghost var l := cache.AsLayer();
    ghost var m0, t0 := os.mounts, os.trace;
    AppendNil([l]);
    var entry := cache.Enter(os);
    if entry.Failed? {
      WithFailed(m0, l, [], entry.made);
      return Raised(0, entry.made);
    }
    ghost var m1, t1 := os.mounts, os.trace;
    var ok := os.RunBody();
    ghost var m2, t2 := os.mounts, os.trace;
    cache.Exit(os);
    o := Reached(ok);
    WithStatement(m0, t0, l, m1, t1, [], o, m2, t2, os.mounts, os.trace);
  }

  /** `_build_overlay_mount`: takes the first mount point out of the shared dictionary, and
    * mounts its loop device, its overlay and its bind mount around the rest.
    */
  method BuildOverlayMount(os: Os, ghost images: string, ghost mountsDir: string, root: string, mounts: MountDict)
    returns (o: Outcome)
    requires mounts.Valid(images, mountsDir)
    modifies os, mounts
    ensures var layers := SubLayers(images, mountsDir, root, old(mounts.keys));
            Possible(layers, o) && os.Did(TowerTrace(old(os.mounts), layers, o))
    decreases |mounts.keys|
  {
    hide Run, EnterTrace, ExitTrace, FailedEnterTrace, TowerTrace, MountDir, MountName, BindTarget, CacheTarget,
      PathJoin;
    if mounts.keys == [] {
      o := MountDnfCache(os, root);
      return;
    }
    ghost var keys := mounts.keys;
    var current := mounts.keys[0];
    var currentMount := mounts.Pop(images, mountsDir, current);
    assert mounts.keys == keys[1..];
    ghost var rest := SubLayers(images, mountsDir, root, mounts.keys);
    var overlay := new MountingBase.Overlay(MountName(current), current, currentMount.target);
    var bind := new MountingBase.Bind(overlay.target, BindTarget(root, current));
    ghost var l1, l2, l3 := currentMount.AsLayer(), overlay.AsLayer(), bind.AsLayer();
    ConsThree(l1, l2, l3, rest);
    assert l2 == OverlayLayer(MountName(current), current, MountDir(mountsDir, current));

    ghost var m0, t0 := os.mounts, os.trace;
    var entry := currentMount.Enter(os);
    if entry.Failed? {
      WithFailed(m0, l1, [l2] + ([l3] + rest), entry.made);
      return Raised(0, entry.made);
    }
    ghost var m1, t1 := os.mounts, os.trace;
    entry := overlay.Enter(os);
    if entry.Failed? {
      o := Raised(0, entry.made);
      WithFailed(m1, l2, [l3] + rest, entry.made);
    } else {
      ghost var m2, t2 := os.mounts, os.trace;
      entry := bind.Enter(os);
      if entry.Failed? {
        o := Raised(0, entry.made);
        WithFailed(m2, l3, rest, entry.made);
      } else {
        ghost var m3, t3 := os.mounts, os.trace;
        o := BuildOverlayMount(os, images, mountsDir, root, mounts);
        ghost var m4, t4 := os.mounts, os.trace;
        bind.Exit(os);
        WithStatement(m2, t2, l3, m3, t3, rest, o, m4, t4, os.mounts, os.trace);
        o := Outer(o);
      }
      ghost var m5, t5 := os.mounts, os.trace;
      overlay.Exit(os);
      WithStatement(m1, t1, l2, m2, t2, [l3] + rest, o, m5, t5, os.mounts, os.trace);
      o := Outer(o);
    }
    ghost var m6, t6 := os.mounts, os.trace;
    currentMount.Exit(os);
    WithStatement(m0, t0, l1, m1, t1, [l2] + ([l3] + rest), o, m6, t6, os.mounts, os.trace);
    o := Outer(o);
  }

  lemma ConsThree(a: Layer, b: Layer, c: Layer, rest: seq<Layer>)
    ensures [a, b, c] + rest == [a] + ([b] + ([c] + rest))
  {
  }

  /** The nested `with` statements of `create_source_overlay`. */
  method MountSourceOverlay(os: Os, ghost images: string, ghost mountsDir: string, rootMount: MountingBase,
                            mounts: MountDict, mountTarget: Option<string>) returns (o: Outcome)
    requires mounts.Valid(images, mountsDir) && rootMount.AsLayer() == LoopLayer(images, mountsDir, "/")
    modifies os, mounts
    ensures var layers := SourceOverlayLayers(images, mountsDir, old(mounts.keys), mountTarget);
            Possible(layers, o) && os.Did(TowerTrace(old(os.mounts), layers, o))
  {
    hide Run, EnterTrace, ExitTrace, FailedEnterTrace, TowerTrace, MountDir, MountName, BindTarget, CacheTarget,
      PathJoin,
         SubLayers;
    var rootOverlay := new MountingBase.Overlay("system_overlay", "/", rootMount.target);
    var target: MountingBase;
    if mountTarget.Some? && mountTarget.value != "" {
      target := new MountingBase.Bind(rootOverlay.target, mountTarget.value);
    } else {
      target := new MountingBase.Null(rootOverlay.target);
    }
    ghost var root := SystemOverlay(mountsDir);
    assert rootOverlay.target == root;
    ghost var rest := SubLayers(images, mountsDir, root, mounts.keys);
    ghost var l1, l2, l3 := rootMount.AsLayer(), rootOverlay.AsLayer(), target.AsLayer();
    ConsThree(l1, l2, l3, rest);
    assert l2 == OverlayLayer("system_overlay", "/", MountDir(mountsDir, "/"));
    assert l3 == TargetLayer(root, mountTarget);

    ghost var m0, t0 := os.mounts, os.trace;
    var entry := rootMount.Enter(os);
    if entry.Failed? {
      WithFailed(m0, l1, [l2] + ([l3] + rest), entry.made);
      return Raised(0, entry.made);
    }
    ghost var m1, t1 := os.mounts, os.trace;
    entry := rootOverlay.Enter(os);
    if entry.Failed? {
      o := Raised(0, entry.made);
      WithFailed(m1, l2, [l3] + rest, entry.made);
    } else {
      ghost var m2, t2 := os.mounts, os.trace;
      entry := target.Enter(os);
      if entry.Failed? {
        o := Raised(0, entry.made);
        WithFailed(m2, l3, rest, entry.made);
      } else {
        ghost var m3, t3 := os.mounts, os.trace;
        o := BuildOverlayMount(os, images, mountsDir, rootOverlay.target, mounts);
        ghost var m4, t4 := os.mounts, os.trace;
        target.Exit(os);
        WithStatement(m2, t2, l3, m3, t3, rest, o, m4, t4, os.mounts, os.trace);
        o := Outer(o);
      }
      ghost var m5, t5 := os.mounts, os.trace;
      rootOverlay.Exit(os);
      WithStatement(m1, t1, l2, m2, t2, [l3] + rest, o, m5, t5, os.mounts, os.trace);
      o := Outer(o);
    }
    ghost var m6, t6 := os.mounts, os.trace;
    rootMount.Exit(os);
    WithStatement(m0, t0, l1, m1, t1, [l2] + ([l3] + rest), o, m6, t6, os.mounts, os.trace);
    o := Outer(o);
  }

  // ---------------------------------------------------------------- create_source_overlay

  datatype OverlayArgs =
    OverlayArgs(mountsDir: string, scratchDir: string, mountTarget: Option<string>, keepImages: bool)

  /** How far a run came: the mounts directory could not be made, the preparation raised, there
    * was no loop mount for '/', or the tower over the listed sub mounts ran with an outcome.
    */
  datatype Stage = NoMountsDir | Unprepared(dirMade: bool) | NoRootMount | Towered(subMounts: seq<string>, o: Outcome)

  function SetupTrace(a: OverlayArgs, stage: Stage): seq<Event> {
    match stage
    case NoMountsDir => [FailedDir(a.mountsDir)]
    case Unprepared(dirMade) => [MadeDir(a.mountsDir)] + PrepareTrace(a.scratchDir, dirMade)
    case _ => [MadeDir(a.mountsDir)] + PrepareTrace(a.scratchDir, true)
  }

  function Layers(a: OverlayArgs, stage: Stage): seq<Layer>
    requires stage.Towered?
  {
    SourceOverlayLayers(ImagesDir(a.scratchDir), a.mountsDir, stage.subMounts, a.mountTarget)
  }

  predicate Reachable(a: OverlayArgs, stage: Stage) {
    stage.Towered? ==> Possible(Layers(a, stage), stage.o)
  }

  function MountTrace(table: Table, a: OverlayArgs, stage: Stage): seq<Event>
    requires Reachable(a, stage)
  {
    if stage.Towered? then TowerTrace(table, Layers(a, stage), stage.o) else []
  }

  /** `cleanup_scratch` */
  function ScratchTrace(table: Table, a: OverlayArgs): seq<Event> {
    UmountTrace(table, a.mountsDir) + if a.keepImages then [] else [Removed(a.scratchDir)]
  }

  /** Every step of `create_source_overlay`. */
  function SourceOverlayTrace(table: Table, a: OverlayArgs, stage: Stage): seq<Event>
    requires Reachable(a, stage)
  {
    var mounting := MountTrace(table, a, stage);
    SetupTrace(a, stage) + mounting + ScratchTrace(Run(table, mounting).table, a)
  }

  method CleanupScratch(os: Os, a: OverlayArgs)
    modifies os
    ensures os.Did(ScratchTrace(old(os.mounts), a))
  {
    ghost var m0, t0 := os.mounts, os.trace;
    if IsMounted(os.mounts, a.mountsDir) { os.Umount(a.mountsDir); }
    ghost var m1, t1 := os.mounts, os.trace;
    AppendNil(t1);
    if !a.keepImages { os.RemoveTree(a.scratchDir); }
    Chained(m0, t0, UmountTrace(m0, a.mountsDir), m1, t1, if a.keepImages then [] else [Removed(a.scratchDir)],
            os.mounts, os.trace);
  }

  /** The part under `try`. */
  method BuildAndRun(os: Os, a: OverlayArgs, fstab: seq<FstabEntry>, free: map<string, nat>, scratchReserve: int)
    returns (stage: Stage)
    modifies os
    ensures Reachable(a, stage)
    ensures os.trace == old(os.trace) + SetupTrace(a, stage) + MountTrace(old(os.mounts), a, stage)
    ensures os.mounts == Run(old(os.mounts), MountTrace(old(os.mounts), a, stage)).table
    ensures stage.Towered? ==> FromFstab(fstab, stage.subMounts)
    ensures stage.NoRootMount? ==> forall e :: e in fstab && Selected(e) ==> e.fsFile != "/"
  {
    hide TowerTrace, SourceOverlayLayers, Possible, Run, Leq, SortedBy, Selected, NoDup, PrepareTrace, MountDir,
      MountDict.Valid, LoopLayer, ImagesDir, SizesBounded, ImagesOf, NamesApart, Below;
    ghost var t0 := os.trace;
    AppendNil(t0);
    RunNothing(os.mounts);
    var ok := os.MakeDirs(a.mountsDir);
    if !ok { return NoMountsDir; }
    var p := PrepareRequiredMounts(os, a.scratchDir, a.mountsDir, fstab, free, scratchReserve);
    Associative(t0, [MadeDir(a.mountsDir)], PrepareTrace(a.scratchDir, p.Prepared? || p.dirMade));
    AppendNil(os.trace);
    if p.NotPrepared? { return Unprepared(p.dirMade); }
    if "/" !in p.mounts.keys {
      return NoRootMount;
    }
    ghost var keys := p.mounts.keys;
    WithoutSpec(keys, "/", Leq);
    var rootMount := p.mounts.Pop(ImagesDir(a.scratchDir), a.mountsDir, "/");
    var subs := p.mounts.keys;
    var o := MountSourceOverlay(os, ImagesDir(a.scratchDir), a.mountsDir, rootMount, p.mounts, a.mountTarget);
    stage := Towered(subs, o);
  }

  /** The mount points of the tower besides '/': sorted, each once, all from `/etc/fstab`. */
  ghost predicate FromFstab(fstab: seq<FstabEntry>, subs: seq<string>) {
    && SortedBy(subs, Leq) && NoDup(subs)
    && (exists e :: e in fstab && Selected(e) && e.fsFile == "/")
    && forall m :: m in subs <==> m != "/" && exists e :: e in fstab && Selected(e) && e.fsFile == m
  }

  /** `create_source_overlay`, run to its end by the caller's code or by an exception. */
  method CreateSourceOverlay(os: Os, a: OverlayArgs, fstab: seq<FstabEntry>, free: map<string, nat>,
                             scratchReserve: int)
    returns (stage: Stage)
    modifies os
    ensures Reachable(a, stage)
    ensures os.Did(SourceOverlayTrace(old(os.mounts), a, stage))
    ensures stage.Towered? ==> FromFstab(fstab, stage.subMounts)
    ensures stage.NoRootMount? ==> forall e :: e in fstab && Selected(e) ==> e.fsFile != "/"
    ensures HostFits(old(os.mounts), a, fstab) ==> os.mounts == old(os.mounts)
  {
    hide TowerTrace, SourceOverlayLayers, Possible, HostFits, FromFstab;
    ghost var m0, t0 := os.mounts, os.trace;
    stage := BuildAndRun(os, a, fstab, free, scratchReserve);
    ghost var setup, mounting := SetupTrace(a, stage), MountTrace(m0, a, stage);
    ghost var m1, t1 := os.mounts, os.trace;
    CleanupScratch(os, a);
    SetupKeepsTable(m0, a, stage);
    Chained(m0, t0, setup, m0, t0 + setup, mounting, m1, t1);
    Chained(m0, t0, setup + mounting, m1, t1, ScratchTrace(m1, a), os.mounts, os.trace);
    if HostFits(m0, a, fstab) {
      SourceOverlayIsClean(m0, a, fstab, stage);
    }
  }

  lemma SetupKeepsTable(table: Table, a: OverlayArgs, stage: Stage)
    ensures Run(table, SetupTrace(a, stage)).table == table
  {
    RunQuiet(table, SetupTrace(a, stage));
  }

  // ---------------------------------------------------------------- safety of the whole run

  /** The situation the upgrade expects: the mounts directory lies in the scratch directory,
    * nothing is mounted there, and the mount points are spelled and named apart, none of
    * them in the DNF cache; a bind target lies elsewhere and is free.
    */
  ghost predicate HostFits(table: Table, a: OverlayArgs, fstab: seq<FstabEntry>) {
    && Clean(a.mountsDir) && a.scratchDir != "" && AtOrBelow(a.mountsDir, a.scratchDir)
    && Untouched(table, a.scratchDir)
    && (forall e :: e in fstab && Selected(e) ==> Clean(e.fsFile) && !AtOrBelow(e.fsFile, DNF_CACHE))
    && (forall e, e' | e in fstab && e' in fstab && Selected(e) && Selected(e')
                       && MountName(e.fsFile) == MountName(e'.fsFile) :: e.fsFile == e'.fsFile)
    && (a.mountTarget.Some? && a.mountTarget.value != "" ==>
          var t := a.mountTarget.value;
          Clean(t) && Untouched(table, t) && !AtOrBelow(t, a.mountsDir) && !AtOrBelow(a.mountsDir, t))
  }

  lemma UntouchedInside(table: Table, dir: string, inner: string)
    requires Untouched(table, dir) && AtOrBelow(inner, dir)
    ensures Untouched(table, inner)
  {
    forall i | 0 <= i < |table| ensures !AtOrBelow(table[i].target, inner) {
      if AtOrBelow(table[i].target, inner) { AtOrBelowTransitive(table[i].target, inner, dir); }
    }
  }

  lemma ChildInside(dir: string, name: string)
    requires dir != "" && name != "" && name[0] != '/'
    ensures AtOrBelow(PathJoin(dir, name), dir)
  {
    assert PathJoin(dir, name) == AsDir(dir) + name;
  }

  lemma HostFitsOverlay(table: Table, a: OverlayArgs, fstab: seq<FstabEntry>, subs: seq<string>)
    requires HostFits(table, a, fstab) && FromFstab(fstab, subs)
    ensures SubMounts(subs) && OverlayFits(table, a.mountsDir, subs, a.mountTarget)
  {
    UntouchedInside(table, a.scratchDir, a.mountsDir);
    MountDirUntouched(table, a.mountsDir, "/");
    forall i | 0 <= i < |subs|
      ensures SubMount(subs[i]) && Untouched(table, MountDir(a.mountsDir, subs[i])) && !AtOrBelow(subs[i], DNF_CACHE)
    {
      assert subs[i] in subs;
      MountDirUntouched(table, a.mountsDir, subs[i]);
    }
    SortedAncestorsFirst(subs);
    SubsDistinct(table, a, fstab, subs);
    if a.mountTarget.Some? && a.mountTarget.value != "" {
      OutsideTargetFits(table, a.mountsDir, subs, a.mountTarget.value);
    }
  }

  lemma SubsDistinct(table: Table, a: OverlayArgs, fstab: seq<FstabEntry>, subs: seq<string>)
    requires HostFits(table, a, fstab) && FromFstab(fstab, subs)
    ensures DistinctNames(subs)
  {
    hide MountName;
    forall i, j | 0 <= i < j < |subs| ensures MountName(subs[i]) != MountName(subs[j]) {
      assert subs[i] in subs && subs[j] in subs;
    }
  }

  lemma MountDirUntouched(table: Table, mountsDir: string, m: string)
    requires mountsDir != "" && Untouched(table, mountsDir)
    ensures Untouched(table, MountDir(mountsDir, m))
  {
    ChildInside(mountsDir, MountName(m));
    UntouchedInside(table, mountsDir, MountDir(mountsDir, m));
  }

  function StageMounts(a: OverlayArgs, stage: Stage): seq<Mount>
    requires Reachable(a, stage)
  {
    if stage.Towered? then MountsOf(Layers(a, stage), stage.o) else []
  }

  /** In the expected situation every run, from the first directory to the removal of the
    * scratch tree and whatever fails on the way, removes nothing that has a mount in or
    * below it, unmounts its own mounts in reverse and leaves the mount table as it was.
    */
  lemma SourceOverlayIsClean(table: Table, a: OverlayArgs, fstab: seq<FstabEntry>, stage: Stage)
    requires HostFits(table, a, fstab) && Reachable(a, stage)
    requires stage.Towered? ==> FromFstab(fstab, stage.subMounts)
    ensures Run(table, SourceOverlayTrace(table, a, stage))
            == CleanRun(table, StageMounts(a, stage), stage.Towered? && stage.o.Reached?)
  {
    var mounting := MountTrace(table, a, stage);
    var targets, reached := StageMounts(a, stage), stage.Towered? && stage.o.Reached?;
    assert Run(table, mounting) == CleanRun(table, targets, reached) by {
      if stage.Towered? {
        HostFitsOverlay(table, a, fstab, stage.subMounts);
        OverlayUnwindsIff(table, ImagesDir(a.scratchDir), a.mountsDir, stage.subMounts, a.mountTarget);
        assert Unwinds(table, Layers(a, stage), stage.o);
      }
    }
    SetupIsIdle(table, a, fstab, stage);
    ScratchIsIdle(table, a, fstab);
    RunThree(table, SetupTrace(a, stage), mounting, ScratchTrace(table, a));
    IdleThen(table, CleanRun(table, targets, reached));
    ThenIdle(CleanRun(table, targets, reached));
  }

  lemma ThenIdle(e: Effect)
    requires e.safe
    ensures e.Then(Idle(e.table)) == e
  {
    AppendNil(e.mounts);
    AppendNil(e.umounts);
    AppendNil(e.seen);
  }

  lemma SetupIsIdle(table: Table, a: OverlayArgs, fstab: seq<FstabEntry>, stage: Stage)
    requires HostFits(table, a, fstab)
    ensures Run(table, SetupTrace(a, stage)) == Idle(table)
  {
    ChildInside(a.scratchDir, "diskimages");
    UntouchedInside(table, a.scratchDir, ImagesDir(a.scratchDir));
    RunQuiet(table, SetupTrace(a, stage));
  }

  lemma ScratchIsIdle(table: Table, a: OverlayArgs, fstab: seq<FstabEntry>)
    requires HostFits(table, a, fstab)
    ensures Run(table, ScratchTrace(table, a)) == Idle(table)
  {
    UntouchedInside(table, a.scratchDir, a.mountsDir);
    assert !IsMounted(table, a.mountsDir);
    RunQuiet(table, ScratchTrace(table, a));
  }
}
