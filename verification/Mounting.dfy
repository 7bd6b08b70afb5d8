/** The mount objects of `mounting.py` acting on an operating system whose mount table is
  * mutable state. Creating a directory, mounting, and the code run inside may fail.
  */
module Mounting {
  import opened Seqs
  import opened Paths
  import opened MountTable

  /** The part of the operating system that the mount objects change. */
  class Os {
    var mounts: Table
    ghost var trace: seq<Event>

    constructor (mounts: Table)
      ensures this.mounts == mounts && trace == []
    {
      this.mounts := mounts;
      trace := [];
    }

    /** The steps taken since the old state, and nothing else, led to the current one. */
    twostate predicate Did(es: seq<Event>)
      reads this
    {
      trace == old(trace) + es && mounts == Run(old(mounts), es).table
    }

    /** `umount -fl` */
    method Umount(target: string)
      modifies this
      ensures Did([Umounted(target)])
    {
      mounts := Detach(mounts, target);
      trace := trace + [Umounted(target)];
    }

    /** `rm -rf` */
    method RemoveTree(dir: string)
      modifies this
      ensures Did([Removed(dir)]) && mounts == old(mounts)
    {
      trace := trace + [Removed(dir)];
    }

    /** `os.makedirs`, which may raise `OSError`. */
    method MakeDirs(dir: string) returns (ok: bool)
      modifies this
      ensures Did([if ok then MadeDir(dir) else FailedDir(dir)]) && mounts == old(mounts)
    {
      ok := *;
      trace := trace + [if ok then MadeDir(dir) else FailedDir(dir)];
    }

    /** The `mount` command, which may fail. */
    method Mount(mount: Mount) returns (ok: bool)
      modifies this
      ensures Did(if ok then [Mounted(mount)] else [])
    {
      ok := *;
      if ok {
        mounts := mounts + [mount];
        trace := trace + [Mounted(mount)];
      }
    }

    /** The code under a `with`; it may raise, and leaves the mount table as it found it. */
    method RunBody() returns (ok: bool)
      modifies this
      ensures Did([Body]) && mounts == old(mounts)
    {
      ok := *;
      trace := trace + [Body];
    }
  }

  /** Two stretches of steps are one stretch. */
  lemma Chained(m0: Table, t0: seq<Event>, a: seq<Event>, m1: Table, t1: seq<Event>, b: seq<Event>,
                m2: Table, t2: seq<Event>)
    requires t1 == t0 + a && m1 == Run(m0, a).table
    requires t2 == t1 + b && m2 == Run(m1, b).table
    ensures t2 == t0 + (a + b) && m2 == Run(m0, a + b).table
  {
    RunAppend(m0, a, b);
    Associative(t0, a, b);
  }

  lemma RunNothing(table: Table)
    ensures Run(table, []).table == table
  {
  }

  lemma {:induction false} RemovalsSnoc(dirs: seq<string>, d: string)
    ensures Removals(dirs + [d]) == Removals(dirs) + [Removed(d)]
    ensures Creations(dirs + [d]) == Creations(dirs) + [MadeDir(d)]
  {
    if dirs == [] {
      AppendNil([d]);
    } else {
      TailOfAppend(dirs, [d]);
      RemovalsSnoc(dirs[1..], d);
      Associative([Removed(dirs[0])], Removals(dirs[1..]), [Removed(d)]);
      Associative([MadeDir(dirs[0])], Creations(dirs[1..]), [MadeDir(d)]);
    }
  }

  datatype MountingMode = BIND | OVERLAY | LOOP | FSTYPE | NONE

  /** The result of `__enter__`: the object, or the exception after `made` directories. */
  datatype Entry = Entered | Failed(made: nat)

  class MountingBase {
    const mode: MountingMode
    const source: string
    const target: string
    const config: MountConfig
    const additionalDirectories: seq<string>

    constructor Loop(source: string, target: string, config: MountConfig := MOUNT)
      ensures this.mode == LOOP && AsLayer() == Layer(target, [], config, Image(source))
    {
      this.mode, this.source, this.target, this.config := LOOP, source, target, config;
      this.additionalDirectories := [];
    }

    constructor Bind(source: string, target: string, config: MountConfig := MOUNT)
      ensures this.mode == BIND && AsLayer() == Layer(target, [], config, Dir(source))
    {
      this.mode, this.source, this.target, this.config := BIND, source, target, config;
      this.additionalDirectories := [];
    }

    constructor Overlay(name: string, source: string, workdir: string, config: MountConfig := MOUNT)
      ensures this.mode == OVERLAY
      ensures AsLayer()
              == Layer(PathJoin(workdir, name), [PathJoin(workdir, "upper"), PathJoin(workdir, "work")], config,
                       Union(source, PathJoin(workdir, "upper"), PathJoin(workdir, "work")))
    {
      this.mode, this.source, this.target, this.config := OVERLAY, source, PathJoin(workdir, name), config;
      this.additionalDirectories := [PathJoin(workdir, "upper"), PathJoin(workdir, "work")];
    }

    constructor Null(target: string, config: MountConfig := ATTACH_ONLY)
      ensures this.mode == NONE && AsLayer() == Layer(target, [], ATTACH_ONLY, HostFs)
    {
      this.mode, this.source, this.target, this.config := NONE, target, target, config;
      this.additionalDirectories := [];
    }

    /** What `mount` is asked for with the options of the object. */
    function Options(): What {
      match mode
      case LOOP => Image(source)
      case BIND => Dir(source)
      case OVERLAY =>
        if |additionalDirectories| == 2 then Union(source, additionalDirectories[0], additionalDirectories[1])
        else HostFs
      case _ => HostFs
    }

    function Spec(): Layer { Layer(target, additionalDirectories, config, Options()) }

    /** How the object behaves in a `with` statement. */
    function AsLayer(): (l: Layer)
      ensures l.target == target
    {
      if mode == NONE then Layer(target, [], ATTACH_ONLY, HostFs) else Spec()
    }

    method Cleanup(os: Os)
      modifies os
      ensures os.Did(CleanupTrace(old(os.mounts), Spec()))
    {
      ghost var m0, t0 := os.mounts, os.trace;
      if IsMounted(os.mounts, target) {
        os.Umount(target);
      }
      ghost var m1, t1 := os.mounts, os.trace;
      assert t1 == t0 + UmountTrace(m0, target) && m1 == Run(m0, UmountTrace(m0, target)).table;
      var dirs := additionalDirectories + [target];
      for i := 0 to |dirs|
        invariant os.mounts == m1 && os.trace == t1 + Removals(dirs[..i])
      {
        os.RemoveTree(dirs[i]);
        assert dirs[..i + 1] == dirs[..i] + [dirs[i]];
        RemovalsSnoc(dirs[..i], dirs[i]);
        Associative(t1, Removals(dirs[..i]), [Removed(dirs[i])]);
      }
      assert dirs[..|dirs|] == dirs;
      RunRemovals(m1, dirs);
      Chained(m0, t0, UmountTrace(m0, target), m1, t1, Removals(dirs), os.mounts, os.trace);
    }

    /** The loop of `_create` over the directories; `made` counts the ones created. */
    method CreateDirs(os: Os) returns (made: nat)
      modifies os
      ensures made <= |Spec().Dirs()| && os.mounts == old(os.mounts)
      ensures os.trace == old(os.trace) + Attempts(Spec().Dirs(), made)
    {
      var dirs := additionalDirectories + [target];
      made := 0;
      while made < |dirs|
        invariant made <= |dirs| && os.mounts == old(os.mounts)
        invariant os.trace == old(os.trace) + Creations(dirs[..made])
      {
        var ok := os.MakeDirs(dirs[made]);
        if !ok {
          Associative(old(os.trace), Creations(dirs[..made]), [FailedDir(dirs[made])]);
          return;
        }
        assert dirs[..made + 1] == dirs[..made] + [dirs[made]];
        RemovalsSnoc(dirs[..made], dirs[made]);
        Associative(old(os.trace), Creations(dirs[..made]), [MadeDir(dirs[made])]);
        made := made + 1;
      }
      AppendNil(Creations(dirs[..made]));
    }

    /** `_create`: cleanup, the directories, the mount; each of the last two may raise. */
    method Create(os: Os) returns (r: Entry)
      modifies os
      ensures r.Failed? ==> r.made <= |Spec().Dirs()| && os.Did(FailedEnterTrace(old(os.mounts), Spec(), r.made))
      ensures r.Entered? ==>
                os.Did(CleanupTrace(old(os.mounts), Spec()) + Creations(Spec().Dirs()) + [Mounted(Spec().Own())])
    {
      ghost var m0, t0, pre := os.mounts, os.trace, CleanupTrace(os.mounts, Spec());
      hide CleanupTrace, Creations, Run;
      Cleanup(os);
      ghost var m1, t1 := os.mounts, os.trace;
      var made := CreateDirs(os);
      ghost var mk := Attempts(Spec().Dirs(), made);
      RunAttempts(m1, Spec().Dirs(), made);
      Chained(m0, t0, pre, m1, t1, mk, os.mounts, os.trace);
      if made < |additionalDirectories| + 1 { return Failed(made); }
      assert Spec().Dirs()[..made] == Spec().Dirs();
      AppendNil(Creations(Spec().Dirs()));
      ghost var t2 := os.trace;
      var ok := os.Mount(Spec().Own());
      if !ok {
        AppendNil(t2);
        RunNothing(m1);
        return Failed(made);
      }
      r := Entered;
      Chained(m0, t0, pre + mk, m1, t2, [Mounted(Spec().Own())], os.mounts, os.trace);
    }

    method Mount(os: Os) returns (r: Entry)
      modifies os
      ensures r.Failed? ==> config.shouldCreate && r.made <= |Spec().Dirs()|
                            && os.Did(FailedEnterTrace(old(os.mounts), Spec(), r.made))
      ensures r.Entered? ==> os.Did(EnterTrace(old(os.mounts), Spec()))
    {
      r := Entered;
      if config.shouldCreate { r := Create(os); }
    }

    method Umount(os: Os)
      modifies os
      ensures os.Did(ExitTrace(old(os.mounts), Spec()))
    {
      if config.shouldCleanup { Cleanup(os); }
    }

    /** `__enter__` */
    method Enter(os: Os) returns (r: Entry)
      modifies os
      ensures r.Failed? ==> AsLayer().Creates() && r.made <= |AsLayer().Dirs()|
                            && os.Did(FailedEnterTrace(old(os.mounts), AsLayer(), r.made))
      ensures r.Entered? ==> os.Did(EnterTrace(old(os.mounts), AsLayer()))
    {
      r := Entered;
      if mode != NONE { r := Mount(os); }
    }

    /** `__exit__` */
    method Exit(os: Os)
      modifies os
      ensures os.Did(ExitTrace(old(os.mounts), AsLayer()))
    {
      if mode != NONE { Umount(os); }
    }
  }

  // ---------------------------------------------------------------- nested with statements

  /** The tower that starts with a layer that was entered, around an inner tower. */
  lemma WithOne(table: Table, l: Layer, rest: seq<Layer>, o: Outcome)
    requires Possible(rest, o)
    ensures Possible([l] + rest, Outer(o))
    ensures var enter := EnterTrace(table, l);
            var inside := Run(table, enter).table;
            var inner := TowerTrace(inside, rest, o);
            TowerTrace(table, [l] + rest, Outer(o)) == enter + inner + ExitTrace(Run(inside, inner).table, l)
  {
    TailOfCons(l, rest);
    assert Inner(Outer(o)) == o;
  }

  /** The tower whose first layer fails to open. */
  lemma WithFailed(table: Table, l: Layer, rest: seq<Layer>, made: nat)
    requires l.Creates() && made <= |l.Dirs()|
    ensures Possible([l] + rest, Raised(0, made))
    ensures TowerTrace(table, [l] + rest, Raised(0, made)) == FailedEnterTrace(table, l, made)
  {
    TailOfCons(l, rest);
  }

  /** A whole `with` statement: the enter, the inner tower and the exit that were taken. */
  lemma WithStatement(m0: Table, t0: seq<Event>, l: Layer, m1: Table, t1: seq<Event>, rest: seq<Layer>, o: Outcome,
                      m2: Table, t2: seq<Event>, m3: Table, t3: seq<Event>)
    requires Possible(rest, o)
    requires t1 == t0 + EnterTrace(m0, l) && m1 == Run(m0, EnterTrace(m0, l)).table
    requires t2 == t1 + TowerTrace(m1, rest, o) && m2 == Run(m1, TowerTrace(m1, rest, o)).table
    requires t3 == t2 + ExitTrace(m2, l) && m3 == Run(m2, ExitTrace(m2, l)).table
    ensures Possible([l] + rest, Outer(o))
    ensures t3 == t0 + TowerTrace(m0, [l] + rest, Outer(o))
    ensures m3 == Run(m0, TowerTrace(m0, [l] + rest, Outer(o))).table
  {
    hide Run, EnterTrace, ExitTrace, TowerTrace;
    WithOne(m0, l, rest, o);
    Chained(m0, t0, EnterTrace(m0, l), m1, t1, TowerTrace(m1, rest, o), m2, t2);
    Chained(m0, t0, EnterTrace(m0, l) + TowerTrace(m1, rest, o), m2, t2, ExitTrace(m2, l), m3, t3);
  }
}
