/** `_split_path_on_mount_point` of `addupgradebootentry.py`: walking up a path to the mount
  * point that owns it.
  */
module MountSplit {
  import opened Seqs
  import opened Strings
  import opened Paths

  /** `os.path.ismount` over a table of mount points; every spelling of '/' is mounted. */
  predicate IsMount(mounts: set<string>, p: string) {
    p in mounts || (p != "" && AllSlashes(p))
  }

  lemma {:induction false} RStripPrefix(s: string, drop: char -> bool)
    ensures RStrip(s, drop) <= s
    decreases |s|
  {
    if s != "" && drop(s[|s| - 1]) { RStripPrefix(s[..|s| - 1], drop); }
  }

  /** Going up shortens an absolute path that names more than the root. */
  lemma DirNameShrinks(p: string)
    requires Absolute(p) && !AllSlashes(p)
    ensures DirName(p) <= p && |DirName(p)| < |p| && Absolute(DirName(p))
  {
    var h := Head(p);
    HeadNotEmpty(p);
    if !AllSlashes(h) {
      RStripPrefix(h, IsSlash);
      assert IsSlash(h[|h| - 1]);
      RStripPrefix(h[..|h| - 1], IsSlash);
      assert RStrip(h, IsSlash) != "" by {
        var post := RStripSpec(h, IsSlash);
        NotOnlySlashes(h, post);
      }
    } else {
      assert h != p;
    }
  }

  lemma NotOnlySlashes(h: string, post: string)
    requires h == RStrip(h, IsSlash) + post && Only(post, IsSlash) && !AllSlashes(h)
    ensures RStrip(h, IsSlash) != ""
  {
    AppendNil(post);
    assert RStrip(h, IsSlash) == "" ==> h == post;
    assert forall i :: 0 <= i < |post| ==> IsSlash(post[i]);
  }

  lemma {:induction false} HeadNotEmpty(p: string)
    requires Absolute(p)
    ensures Absolute(Head(p))
    decreases |p|
  {
    if p[|p| - 1] != '/' {
      HeadNotEmpty(p[..|p| - 1]);
    }
  }

  method SplitPathOnMountPoint(mounts: set<string>, path: string) returns (mountPoint: string, suffix: string)
    requires Absolute(path)
    ensures mountPoint <= path && mountPoint != ""
    ensures mountPoint in mounts || forall i :: 0 <= i < |mountPoint| ==> mountPoint[i] == '/'
    ensures suffix != "" && suffix[0] == '/'
    ensures var rest := path[|mountPoint|..]; suffix == if rest != "" && rest[0] == '/' then rest else "/" + rest
    ensures forall m :: m in mounts && Clean(m) && Clean(path) && AtOrBelow(path, m) ==> AtOrBelow(mountPoint, m)
    ensures Clean(path) ==> Clean(mountPoint) && AtOrBelow(path, mountPoint)
  {
    mountPoint := path;
    while !IsMount(mounts, mountPoint)
      invariant Absolute(mountPoint) && mountPoint <= path
      invariant Clean(path) ==> Clean(mountPoint) && AtOrBelow(path, mountPoint)
      invariant Clean(path) ==> forall m :: m in mounts && Clean(m) && AtOrBelow(path, m) ==> AtOrBelow(mountPoint, m)
      decreases |mountPoint|
    {
      DirNameShrinks(mountPoint);
      if Clean(path) {
        DirNameOfClean(mountPoint);
        forall m | m in mounts && Clean(m) && AtOrBelow(mountPoint, m) ensures AtOrBelow(DirName(mountPoint), m) {
          UpStaysInside(mountPoint, m);
        }
        AtOrBelowTransitive(path, mountPoint, DirName(mountPoint));
      }
      mountPoint := DirName(mountPoint);
    }
    suffix := path[|mountPoint|..];
    if suffix == "" || suffix[0] != '/' {
      suffix := "/" + suffix;
    }
  }

  lemma HeadOfClean(p: string)
    requires Clean(p) && p != "/"
    ensures var h := Head(p);
            h == "/" || (|h| > 2 && h[|h| - 1] == '/' && h[|h| - 2] != '/' && h[0] == '/' && h[..|h| - 1] <= p)
  {
    HeadNotEmpty(p);
    var h := Head(p);
    assert h <= p;
    if |h| > 1 {
      assert h[|h| - 2] == p[|h| - 2] && h[|h| - 1] == p[|h| - 2 + 1];
      SlashBefore(p, |h| - 2);
      assert h[0] == p[0];
    }
  }

  lemma SlashBefore(p: string, i: nat)
    requires NoDoubleSlash(p) && i < |p| - 1 && p[i + 1] == '/'
    ensures p[i] != '/'
  {
  }

  lemma DirNameOfClean(p: string)
    requires Clean(p) && p != "/"
    ensures Clean(DirName(p)) && AsDir(DirName(p)) == Head(p) && Below(p, DirName(p))
  {
    var h := Head(p);
    HeadOfClean(p);
    if h != "/" {
      var d := h[..|h| - 1];
      assert !AllSlashes(h);
      assert RStrip(h, IsSlash) == d by { assert IsSlash(h[|h| - 1]) && !IsSlash(d[|d| - 1]); }
      assert NoDoubleSlash(d) by {
        forall i | 0 <= i < |d| - 1 ensures d[i] != '/' || d[i + 1] != '/' {
          assert d[i] == p[i] && d[i + 1] == p[i + 1];
        }
      }
      assert d + "/" == h;
    }
  }

  /** A mount point above `p` other than `p` is above the parent of `p` as well. */
  lemma UpStaysInside(p: string, m: string)
    requires Clean(p) && p != "/" && Clean(m) && p != m && AtOrBelow(p, m)
    ensures AtOrBelow(DirName(p), m)
  {
    DirNameOfClean(p);
    var h, d := Head(p), DirName(p);
    HeadIsLongest(p, AsDir(m));
    assert AsDir(m) <= h;
    if AsDir(m) != h {
      assert h == d + "/" || h == d;
      assert |AsDir(m)| <= |d|;
      assert AsDir(m) == h[..|AsDir(m)|] && d == h[..|d|];
      assert AsDir(m) == d[..|AsDir(m)|];
    } else {
      assert d == m by { assert AsDir(d) == AsDir(m); SameDir(d, m); }
    }
  }

  lemma SameDir(d: string, m: string)
    requires Clean(d) && Clean(m) && AsDir(d) == AsDir(m)
    ensures d == m
  {
    if d != "/" && m != "/" {
      assert d == AsDir(d)[..|d|] && m == AsDir(m)[..|m|];
    }
  }

  /** Every prefix that ends in a slash is within the head of the path. */
  lemma {:induction false} HeadIsLongest(p: string, dir: string)
    requires dir <= p && dir != "" && dir[|dir| - 1] == '/'
    ensures dir <= Head(p)
    decreases |p|
  {
    if p[|p| - 1] != '/' {
      assert |dir| < |p| by { assert dir[|dir| - 1] == p[|dir| - 1]; }
      assert dir <= p[..|p| - 1];
      HeadIsLongest(p[..|p| - 1], dir);
    }
  }

  /** The mount point and the suffix put together give the path back, up to one final slash. */
  lemma RejoinsToPath(path: string, mountPoint: string, suffix: string)
    requires Clean(path) && Clean(mountPoint) && AtOrBelow(path, mountPoint)
    requires var rest := path[|mountPoint|..]; suffix == if rest != "" && rest[0] == '/' then rest else "/" + rest
    ensures path == mountPoint ==> suffix == "/"
    ensures path != mountPoint ==> path == if mountPoint == "/" then suffix else mountPoint + suffix
  {
    var rest := path[|mountPoint|..];
    assert path == mountPoint + rest;
    if path != mountPoint && mountPoint == "/" {
      assert path[0 + 1] != '/' by { SlashAfterRoot(path); }
    }
  }

  lemma SlashAfterRoot(path: string)
    requires Clean(path) && path != "/"
    ensures path[1] != '/'
  {
    assert path[0] != '/' || path[0 + 1] != '/';
  }

  /** Walking up and searching the sorted list of mount points find the same owner. */
  lemma WalkAgreesWithSearch(mps: seq<string>, path: string, found: string, walked: string)
    requires Clean(path) && path !in mps && (forall m :: m in mps ==> Clean(m)) && "/" in mps && path != "/"
    requires found in mps && Below(path, found) && forall m :: m in mps && Below(path, m) ==> m <= found
    requires (walked in mps || AllSlashes(walked)) && Clean(walked) && AtOrBelow(path, walked)
    requires forall m :: m in mps && AtOrBelow(path, m) ==> AtOrBelow(walked, m)
    ensures found == walked
  {
    assert walked in mps by { if walked !in mps { assert AllSlashes(walked); OnlyRoot(walked); } }
    assert walked <= found;
    assert AtOrBelow(walked, found);
    if Below(walked, found) {
      assert found <= AsDir(found) <= walked;
    }
  }

  lemma OnlyRoot(p: string)
    requires Clean(p) && AllSlashes(p)
    ensures p == "/"
  {
    assert p[|p| - 1] == '/';
  }
}
