/** The mount table as a state machine, and what a tower of nested `with` mounts does
  * to it for every point at which the tower can fail.
  */
module MountTable {
  import opened Paths
  import opened Seqs

  /** What is mounted: one of the host's own file systems, an image, another directory, or an
    * overlay, which reads from a lower directory and writes to an upper one.
    */
  datatype What = HostFs | Image(image: string) | Dir(dir: string) | Union(lower: string, upper: string, work: string)

  datatype Mount = Mount(target: string, what: What)

  /** The active mounts, oldest first. */
  type Table = seq<Mount>

  predicate IsMounted(table: Table, t: string) {
    exists i :: 0 <= i < |table| && table[i].target == t
  }

  /** The newest mount at `t`, if there is one. */
  function Newest(table: Table, t: string): seq<Mount> {
    if table == [] then []
    else if table[|table| - 1].target == t then [table[|table| - 1]]
    else Newest(table[..|table| - 1], t)
  }

  /** One step of the operating system as a mount object sees it. A directory that could not be
    * made is a step too, as some of the directories above it may have been.
    */
  datatype Event =
    | MadeDir(dir: string)
    | FailedDir(dir: string)
    | Mounted(mount: Mount)
    | Umounted(target: string)
    | Removed(dir: string)
    | Body

  /** `umount -fl t`: detaches the newest file system mounted at `t`, and with it
    * everything that was mounted on top of it later on.
    */
  function Detach(table: Table, t: string): (r: Table)
    ensures !IsMounted(table, t) ==> r == table
    ensures IsMounted(table, t) ==> |r| < |table|
  {
    if !IsMounted(table, t) then table
    else
      var last, init := table[|table| - 1], table[..|table| - 1];
      if last.target == t then init
      else
        MountedInit(table, t);
        if Below(last.target, t) then Detach(init, t) else Detach(init, t) + [last]
  }

  lemma MountedInit(table: Table, t: string)
    requires table != []
    ensures var last, init := table[|table| - 1], table[..|table| - 1];
            IsMounted(table, t) <==> last.target == t || IsMounted(init, t)
  {
    var init := table[..|table| - 1];
    if i :| 0 <= i < |table| && table[i].target == t {
      if i < |init| { assert init[i].target == t; }
    }
    if i :| 0 <= i < |init| && init[i].target == t { assert table[i].target == t; }
  }

  /** The mounts that are not inside of `t`. */
  function Outside(table: Table, t: string): Table {
    if table == [] then []
    else (if Below(table[0].target, t) then [] else [table[0]]) + Outside(table[1..], t)
  }

  lemma {:induction false} OutsideSnoc(table: Table, last: Mount, t: string)
    ensures Outside(table + [last], t) == Outside(table, t) + if Below(last.target, t) then [] else [last]
  {
    if table == [] {
      AppendNil([last]);
    } else {
      TailOfAppend(table, [last]);
      OutsideSnoc(table[1..], last, t);
    }
  }

  lemma DetachSnoc(table: Table, last: Mount, t: string)
    requires IsMounted(table, t) && last.target != t
    ensures Detach(table + [last], t) == Detach(table, t) + if Below(last.target, t) then [] else [last]
    ensures Newest(table + [last], t) == Newest(table, t)
  {
    assert (table + [last])[..|table|] == table && (table + [last])[|table|] == last;
    MountedInit(table + [last], t);
    AppendNil(Detach(table, t));
  }

  lemma DetachLast(table: Table, m: Mount)
    ensures Detach(table + [m], m.target) == table && Newest(table + [m], m.target) == [m]
    ensures IsMounted(table + [m], m.target)
  {
    assert (table + [m])[..|table|] == table && (table + [m])[|table|] == m;
  }

  /** Exactly what a lazy unmount takes: the newest mount at `t`, and the mounts inside of it
    * that were made after it; everything older stays, in order.
    */
  lemma {:induction false} DetachTakes(older: Table, m: Mount, newer: Table)
    requires !IsMounted(newer, m.target)
    ensures Detach(older + [m] + newer, m.target) == older + Outside(newer, m.target)
    ensures Newest(older + [m] + newer, m.target) == [m]
    ensures IsMounted(older + [m] + newer, m.target)
    decreases |newer|
  {
    hide Detach, Newest, Below, IsMounted;
    DetachLast(older, m);
    if newer == [] {
      AppendNil(older + [m]);
      AppendNil(older);
    } else {
      var init, last := newer[..|newer| - 1], newer[|newer| - 1];
      MountedInit(newer, m.target);
      DetachTakes(older, m, init);
      assert newer == init + [last];
      Associative(older + [m], init, [last]);
      DetachSnoc(older + [m] + init, last, m.target);
      MountedInit(older + [m] + init + [last], m.target);
      assert (older + [m] + init + [last])[..|older + [m] + init|] == older + [m] + init;
      OutsideSnoc(init, last, m.target);
      Associative(older, Outside(init, m.target), if Below(last.target, m.target) then [] else [last]);
    }
  }

  predicate Untouched(table: Table, dir: string) {
    forall i :: 0 <= i < |table| ==> !AtOrBelow(table[i].target, dir)
  }

  /** What a sequence of steps amounts to: whether every directory was removed while
    * nothing was mounted at it or below it, the table it ends with, the mounts and unmounts
    * in order, and the tables that the code under the innermost `with` got to see.
    */
  datatype Effect = Effect(safe: bool, table: Table, mounts: seq<Mount>, umounts: seq<Mount>, seen: seq<Table>)
  {
    function Then(next: Effect): Effect {
      Effect(safe && next.safe, next.table, mounts + next.mounts, umounts + next.umounts, seen + next.seen)
    }
  }

  function Idle(table: Table): Effect {
    Effect(true, table, [], [], [])
  }

  function StepEffect(table: Table, e: Event): Effect {
    match e
    case MadeDir(_) => Idle(table)
    case FailedDir(_) => Idle(table)
    case Mounted(m) => Effect(true, table + [m], [m], [], [])
    case Umounted(t) => Effect(true, Detach(table, t), [], Newest(table, t), [])
    case Removed(d) => Effect(Untouched(table, d), table, [], [], [])
    case Body => Effect(true, table, [], [], [table])
  }

  function Run(table: Table, es: seq<Event>): Effect
    decreases |es|
  {
    if es == [] then Idle(table)
    else
      var first := StepEffect(table, es[0]);
      first.Then(Run(first.table, es[1..]))
  }

  lemma {:induction false} RunAppend(table: Table, a: seq<Event>, b: seq<Event>)
    ensures Run(table, a + b) == Run(table, a).Then(Run(Run(table, a).table, b))
    decreases |a|
  {
    if a == [] {
      AppendNil(b);
      IdleThen(table, Run(table, b));
    } else {
      TailOfAppend(a, b);
      var first := StepEffect(table, a[0]);
      RunAppend(first.table, a[1..], b);
      ThenAssociative(first, Run(first.table, a[1..]), Run(Run(first.table, a[1..]).table, b));
    }
  }

  lemma IdleThen(table: Table, e: Effect)
    ensures Idle(table).Then(e) == e
  {
    AppendNil(e.mounts);
    AppendNil(e.umounts);
    AppendNil(e.seen);
  }

  lemma ThenAssociative(a: Effect, b: Effect, c: Effect)
    ensures a.Then(b).Then(c) == a.Then(b.Then(c))
  {
    Associative(a.mounts, b.mounts, c.mounts);
    Associative(a.umounts, b.umounts, c.umounts);
    Associative(a.seen, b.seen, c.seen);
  }

  lemma RunThree(table: Table, a: seq<Event>, b: seq<Event>, c: seq<Event>)
    ensures var ea := Run(table, a);
            var eb := Run(ea.table, b);
            Run(table, a + b + c) == ea.Then(eb).Then(Run(eb.table, c))
  {
    RunAppend(table, a + b, c);
    RunAppend(table, a, b);
  }

  /** Making directories, and removing ones without mounts, leaves no mark. */
  lemma {:induction false} RunQuiet(table: Table, es: seq<Event>)
    requires forall i :: 0 <= i < |es| ==> es[i].MadeDir? || es[i].FailedDir? || es[i].Removed?
    ensures Run(table, es).table == table
    ensures (forall i :: 0 <= i < |es| && es[i].Removed? ==> Untouched(table, es[i].dir)) ==>
              Run(table, es) == Idle(table)
    decreases |es|
  {
    if es != [] { RunQuiet(table, es[1..]); }
  }

  function Reverse(s: seq<Mount>): seq<Mount> {
    if s == [] then [] else Reverse(s[1..]) + [s[0]]
  }

  // ---------------------------------------------------------------- one mount object

  /** `MountConfig._Options`. */
  datatype MountConfig = MountConfig(shouldCreate: bool, shouldCleanup: bool)

  const ATTACH_ONLY := MountConfig(false, false)
  const ATTACH := MountConfig(false, true)
  const MOUNT_ONLY := MountConfig(true, false)
  const MOUNT := MountConfig(true, true)

  /** What a mount object asks of the operating system: its target, the directories it creates
    * besides the target, its options, and what it mounts.
    */
  datatype Layer = Layer(target: string, extra: seq<string>, config: MountConfig, what: What) {
    function Own(): Mount { Mount(target, what) }
    function Dirs(): seq<string> { extra + [target] }
    predicate Creates() { config.shouldCreate }
  }

  function Removals(dirs: seq<string>): seq<Event> {
    if dirs == [] then [] else [Removed(dirs[0])] + Removals(dirs[1..])
  }

  function Creations(dirs: seq<string>): seq<Event> {
    if dirs == [] then [] else [MadeDir(dirs[0])] + Creations(dirs[1..])
  }

  /** The attempts to make `dirs` when it ends after `made` of them: if one is left, it raised. */
  function Attempts(dirs: seq<string>, made: nat): seq<Event>
    requires made <= |dirs|
  {
    Creations(dirs[..made]) + if made < |dirs| then [FailedDir(dirs[made])] else []
  }

  function UmountTrace(table: Table, target: string): seq<Event> {
    if IsMounted(table, target) then [Umounted(target)] else []
  }

  /** `MountingBase._cleanup` */
  function CleanupTrace(table: Table, l: Layer): seq<Event> {
    UmountTrace(table, l.target) + Removals(l.Dirs())
  }

  /** `MountingBase.__enter__` when nothing goes wrong. */
  function EnterTrace(table: Table, l: Layer): seq<Event> {
    if l.Creates() then CleanupTrace(table, l) + Creations(l.Dirs()) + [Mounted(l.Own())] else []
  }

  /** `MountingBase.__enter__` when it raises after creating `made` directories: the next
    * directory cannot be created or, with all of them there, the mount call fails.
    */
  function FailedEnterTrace(table: Table, l: Layer, made: nat): seq<Event>
    requires made <= |l.Dirs()|
  {
    CleanupTrace(table, l) + Attempts(l.Dirs(), made)
  }

  /** `MountingBase.__exit__` */
  function ExitTrace(table: Table, l: Layer): seq<Event> {
    if l.config.shouldCleanup then CleanupTrace(table, l) else []
  }

  // ---------------------------------------------------------------- a tower of mounts

  /** How a run of the tower ends: the body was reached (and returned or raised), or the
    * object at `depth` raised from `__enter__` after creating `made` directories.
    */
  datatype Outcome = Reached(bodyOk: bool) | Raised(depth: nat, made: nat)

  predicate Possible(layers: seq<Layer>, o: Outcome) {
    o.Raised? ==> o.depth < |layers| && layers[o.depth].Creates() && o.made <= |layers[o.depth].Dirs()|
  }

  function Inner(o: Outcome): Outcome {
    if o.Raised? && o.depth > 0 then o.(depth := o.depth - 1) else o
  }

  function Outer(o: Outcome): Outcome {
    if o.Raised? then o.(depth := o.depth + 1) else o
  }

  /** Every step of `with layers[0]: with layers[1]: ... body`, for a given outcome. */
  function TowerTrace(table: Table, layers: seq<Layer>, o: Outcome): seq<Event>
    requires Possible(layers, o)
    decreases |layers|
  {
    if layers == [] then [Body]
    else if o.Raised? && o.depth == 0 then FailedEnterTrace(table, layers[0], o.made)
    else
      var enter := EnterTrace(table, layers[0]);
      var inside := Run(table, enter).table;
      var inner := TowerTrace(inside, layers[1..], Inner(o));
      enter + inner + ExitTrace(Run(inside, inner).table, layers[0])
  }

  /** The mount that an object makes itself, if any. */
  function Own(l: Layer): seq<Mount> {
    if l.Creates() then [l.Own()] else []
  }

  /** The mounts that the tower makes before its outcome is decided. */
  function MountsOf(layers: seq<Layer>, o: Outcome): seq<Mount> {
    if layers == [] || (o.Raised? && o.depth == 0) then []
    else Own(layers[0]) + MountsOf(layers[1..], Inner(o))
  }

  /** The promise made for one run: no removal reaches into a mounted file system, the
    * mounts made are `mounts`, the unmounts are the same backwards, the table is left as
    * it was found, and the body is run at most once, with every target in place.
    */
  function CleanRun(table: Table, mounts: seq<Mount>, reached: bool): Effect {
    Effect(true, table, mounts, Reverse(mounts), if reached then [table + mounts] else [])
  }

  ghost predicate Unwinds(table: Table, layers: seq<Layer>, o: Outcome)
    requires Possible(layers, o)
  {
    Run(table, TowerTrace(table, layers, o)) == CleanRun(table, MountsOf(layers, o), o.Reached?)
  }

  /** When a layer is entered nothing is mounted at or below a directory it removes. */
  predicate Clear(table: Table, l: Layer) {
    l.Creates() ==> forall i :: 0 <= i < |l.Dirs()| ==> Untouched(table, l.Dirs()[i])
  }

  function Opened(table: Table, l: Layer): Table {
    table + Own(l)
  }

  predicate Ready(table: Table, layers: seq<Layer>)
    decreases |layers|
  {
    layers == [] || (Clear(table, layers[0]) && Ready(Opened(table, layers[0]), layers[1..]))
  }

  /** The two configurations in use: mount and clean up, or leave everything alone. */
  ghost predicate Paired(layers: seq<Layer>) {
    forall i :: 0 <= i < |layers| ==> layers[i].config in {MOUNT, ATTACH_ONLY}
  }

  lemma {:induction false} RunRemovals(table: Table, dirs: seq<string>)
    ensures var safe := forall i :: 0 <= i < |dirs| ==> Untouched(table, dirs[i]);
            Run(table, Removals(dirs)) == Idle(table).(safe := safe)
  {
    if dirs != [] {
      RunRemovals(table, dirs[1..]);
      assert Removals(dirs)[1..] == Removals(dirs[1..]);
      assert dirs == [dirs[0]] + dirs[1..];
    }
  }

  lemma {:induction false} RunCreations(table: Table, dirs: seq<string>)
    ensures Run(table, Creations(dirs)) == Idle(table)
  {
    if dirs != [] {
      RunCreations(table, dirs[1..]);
      assert Creations(dirs)[1..] == Creations(dirs[1..]);
    }
  }

  lemma RunAttempts(table: Table, dirs: seq<string>, made: nat)
    requires made <= |dirs|
    ensures Run(table, Attempts(dirs, made)) == Idle(table)
  {
    RunCreations(table, dirs[..made]);
    RunAppend(table, Creations(dirs[..made]), if made < |dirs| then [FailedDir(dirs[made])] else []);
  }

  /** The effect of `_cleanup`: at most one unmount, then the removals. */
  function Cleaned(table: Table, l: Layer): Effect {
    var after := Detach(table, l.target);
    Effect(forall i :: 0 <= i < |l.Dirs()| ==> Untouched(after, l.Dirs()[i]), after,
           [], Newest(table, l.target), [])
  }

  lemma {:induction false} NoneNewest(table: Table, t: string)
    requires !IsMounted(table, t)
    ensures Newest(table, t) == []
  {
    if table != [] {
      MountedInit(table, t);
      NoneNewest(table[..|table| - 1], t);
    }
  }

  lemma RunUmount(table: Table, t: string)
    ensures Run(table, UmountTrace(table, t)) == Effect(true, Detach(table, t), [], Newest(table, t), [])
  {
    if IsMounted(table, t) {
      AppendNil(Newest(table, t));
      assert [Umounted(t)][1..] == [];
    } else {
      NoneNewest(table, t);
    }
  }

  lemma RunCleanup(table: Table, l: Layer)
    ensures Run(table, CleanupTrace(table, l)) == Cleaned(table, l)
  {
    hide Run, Detach, IsMounted, Newest, UmountTrace;
    RunUmount(table, l.target);
    RunAppend(table, UmountTrace(table, l.target), Removals(l.Dirs()));
    RunRemovals(Detach(table, l.target), l.Dirs());
    AppendNil(Newest(table, l.target));
  }

  /** The effect of `_create`: a cleanup and then the mount. */
  lemma RunEnter(table: Table, l: Layer)
    requires l.Creates()
    ensures var c := Cleaned(table, l);
            Run(table, EnterTrace(table, l)) == c.(table := c.table + [l.Own()], mounts := [l.Own()])
  {
    var mid := Detach(table, l.target);
    RunCleanup(table, l);
    RunCreations(mid, l.Dirs());
    RunThree(table, CleanupTrace(table, l), Creations(l.Dirs()), [Mounted(l.Own())]);
  }

  lemma NotMounted(table: Table, l: Layer)
    requires l.Creates() && Clear(table, l)
    ensures Cleaned(table, l) == Idle(table)
  {
    assert l.Dirs()[|l.extra|] == l.target;
    assert Untouched(table, l.target);
    assert !IsMounted(table, l.target);
    NoneNewest(table, l.target);
  }

  /** Entering a clear layer unmounts nothing and leaves its target as the newest mount. */
  lemma EnterClear(table: Table, l: Layer)
    requires Clear(table, l)
    ensures Run(table, EnterTrace(table, l)) == Effect(true, Opened(table, l), Own(l), [], [])
  {
    if l.Creates() {
      NotMounted(table, l);
      RunEnter(table, l);
    } else {
      assert table + [] == table;
    }
  }

  lemma FailedEnterClear(table: Table, l: Layer, made: nat)
    requires l.Creates() && Clear(table, l) && made <= |l.Dirs()|
    ensures Run(table, FailedEnterTrace(table, l, made)) == Idle(table)
  {
    NotMounted(table, l);
    RunCleanup(table, l);
    RunAttempts(table, l.Dirs(), made);
    RunAppend(table, CleanupTrace(table, l), Attempts(l.Dirs(), made));
  }

  /** Leaving a layer whose mount is the newest one takes just that mount away. */
  lemma ExitClear(table: Table, l: Layer)
    requires Clear(table, l) && l.config in {MOUNT, ATTACH_ONLY}
    ensures Run(Opened(table, l), ExitTrace(Opened(table, l), l)) == Effect(true, table, [], Own(l), [])
  {
    if l.Creates() {
      AppendNil(table + [l.Own()]);
      DetachTakes(table, l.Own(), []);
      AppendNil(table);
      RunCleanup(table + [l.Own()], l);
    } else {
      assert table + [] == table;
    }
  }

  lemma ReverseAround(l: Layer, inner: seq<Mount>)
    ensures Reverse(Own(l) + inner) == Reverse(inner) + Own(l)
  {
    if l.Creates() {
      assert ([l.Own()] + inner)[1..] == inner;
    } else {
      assert [] + inner == inner;
    }
  }

  /** A tower that is ready unwinds exactly, whatever fails and however deep. */
  lemma {:induction false} ReadyUnwinds(table: Table, layers: seq<Layer>, o: Outcome)
    requires Ready(table, layers) && Paired(layers) && Possible(layers, o)
    ensures Unwinds(table, layers, o)
    decreases |layers|
  {
    if layers == [] {
      assert table + MountsOf(layers, o) == table;
    } else if o.Raised? && o.depth == 0 {
      FailedEnterClear(table, layers[0], o.made);
    } else {
      ReadyUnwinds(Opened(table, layers[0]), layers[1..], Inner(o));
      WrapUnwinds(table, layers, o);
    }
  }

  /** One clear layer around a tower that unwinds. */
  lemma WrapUnwinds(table: Table, layers: seq<Layer>, o: Outcome)
    requires layers != [] && Clear(table, layers[0]) && layers[0].config in {MOUNT, ATTACH_ONLY}
    requires Possible(layers, o) && !(o.Raised? && o.depth == 0)
    requires Unwinds(Opened(table, layers[0]), layers[1..], Inner(o))
    ensures Unwinds(table, layers, o)
  {
    hide Run, TowerTrace, EnterTrace, ExitTrace, Clear, MountsOf;
    var l := layers[0];
    UnfoldTower(table, layers, o);
    WrapRun(table, l, MountsOf(layers[1..], Inner(o)), o.Reached?,
            TowerTrace(Opened(table, l), layers[1..], Inner(o)));
  }

  lemma UnfoldTower(table: Table, layers: seq<Layer>, o: Outcome)
    requires layers != [] && Clear(table, layers[0])
    requires Possible(layers, o) && !(o.Raised? && o.depth == 0)
    requires Run(Opened(table, layers[0]), TowerTrace(Opened(table, layers[0]), layers[1..], Inner(o))).table
             == Opened(table, layers[0])
    ensures TowerTrace(table, layers, o)
            == EnterTrace(table, layers[0]) + TowerTrace(Opened(table, layers[0]), layers[1..], Inner(o))
               + ExitTrace(Opened(table, layers[0]), layers[0])
    ensures MountsOf(layers, o) == Own(layers[0]) + MountsOf(layers[1..], Inner(o))
  {
    EnterClear(table, layers[0]);
  }

  lemma WrapRun(table: Table, l: Layer, mounts: seq<Mount>, reached: bool, inner: seq<Event>)
    requires Clear(table, l) && l.config in {MOUNT, ATTACH_ONLY}
    requires Run(Opened(table, l), inner) == CleanRun(Opened(table, l), mounts, reached)
    ensures Run(table, EnterTrace(table, l) + inner + ExitTrace(Opened(table, l), l))
            == CleanRun(table, Own(l) + mounts, reached)
  {
    EnterClear(table, l);
    ExitClear(table, l);
    RunThree(table, EnterTrace(table, l), inner, ExitTrace(Opened(table, l), l));
    ReverseAround(l, mounts);
    Nested(table, Own(l), mounts, reached);
  }

  /** A mount, a clean run on top of it and the matching unmount form a clean run. */
  lemma Nested(table: Table, own: seq<Mount>, mounts: seq<Mount>, reached: bool)
    requires Reverse(own + mounts) == Reverse(mounts) + own
    ensures var open, close := Effect(true, table + own, own, [], []), Effect(true, table, [], own, []);
            open.Then(CleanRun(table + own, mounts, reached)).Then(close)
            == CleanRun(table, own + mounts, reached)
  {
    Associative(table, own, mounts);
    AppendNil(own + mounts);
    AppendNil(Reverse(mounts));
    AppendNil<Table>([table + (own + mounts)]);
  }

  // ---------------------------------------------------------------- the condition is exact

  function CountCreating(layers: seq<Layer>): nat {
    if layers == [] then 0 else |Own(layers[0])| + CountCreating(layers[1..])
  }

  lemma {:induction false} MountsCount(layers: seq<Layer>)
    ensures |MountsOf(layers, Reached(true))| == CountCreating(layers)
  {
    if layers != [] { MountsCount(layers[1..]); }
  }

  /** The run that reaches the body, one layer at a time. */
  lemma ReachedStep(table: Table, layers: seq<Layer>)
    requires layers != []
    ensures var enter := Run(table, EnterTrace(table, layers[0]));
            var inner := Run(enter.table, TowerTrace(enter.table, layers[1..], Reached(true)));
            var whole := Run(table, TowerTrace(table, layers, Reached(true)));
            && (whole.safe ==> enter.safe && inner.safe)
            && whole.seen == inner.seen
  {
    var l := layers[0];
    var enter := EnterTrace(table, l);
    var inside := Run(table, enter).table;
    var inner := TowerTrace(inside, layers[1..], Reached(true));
    var after := Run(inside, inner).table;
    assert Run(table, enter).seen == [] by { EnterSees(table, l); }
    assert Run(after, ExitTrace(after, l)).seen == [] by { RunCleanup(after, l); }
    RunThree(table, enter, inner, ExitTrace(after, l));
    OnlyInnerSees(Run(table, enter), Run(inside, inner), Run(after, ExitTrace(after, l)));
  }

  lemma EnterSees(table: Table, l: Layer)
    ensures var enter := Run(table, EnterTrace(table, l));
            enter.seen == [] && |enter.table| <= |table| + |Own(l)|
  {
    if l.Creates() { RunEnter(table, l); }
  }

  lemma OnlyInnerSees(a: Effect, b: Effect, c: Effect)
    requires a.seen == [] && c.seen == []
    ensures a.Then(b).Then(c).seen == b.seen
  {
    assert [] + b.seen + [] == b.seen;
  }

  /** Each layer adds at most one mount to what the body sees. */
  lemma {:induction false} BodySeesAtMost(table: Table, layers: seq<Layer>)
    ensures var seen := Run(table, TowerTrace(table, layers, Reached(true))).seen;
            |seen| == 1 && |seen[0]| <= |table| + CountCreating(layers)
    decreases |layers|
  {
    if layers != [] {
      ReachedStep(table, layers);
      EnterSees(table, layers[0]);
      BodySeesAtMost(Run(table, EnterTrace(table, layers[0])).table, layers[1..]);
    }
  }

  /** If some layer is not clear when entered, the run that reaches the body already
    * breaks the promise: a removal reaches into a mount, or the body misses a mount.
    */
  lemma {:induction false} NotReadyBreaks(table: Table, layers: seq<Layer>)
    requires !Ready(table, layers)
    ensures var run := Run(table, TowerTrace(table, layers, Reached(true)));
            |run.seen| == 1 && (!run.safe || |run.seen[0]| < |table| + CountCreating(layers))
    decreases |layers|
  {
    var l, rest := layers[0], layers[1..];
    ReachedStep(table, layers);
    if Clear(table, l) {
      EnterClear(table, l);
      NotReadyBreaks(Opened(table, l), rest);
    } else {
      RunEnter(table, l);
      BodySeesAtMost(Run(table, EnterTrace(table, l)).table, rest);
    }
  }

  /** A tower keeps its promise on every run exactly when each layer finds the
    * directories it removes free of mounts, counting those of the layers around it.
    */
  lemma UnwindsIffReady(table: Table, layers: seq<Layer>)
    requires Paired(layers)
    ensures (forall o | Possible(layers, o) :: Unwinds(table, layers, o)) <==> Ready(table, layers)
  {
    if Ready(table, layers) {
      forall o | Possible(layers, o) ensures Unwinds(table, layers, o) {
        ReadyUnwinds(table, layers, o);
      }
    } else {
      NotReadyBreaks(table, layers);
      MountsCount(layers);
      assert Possible(layers, Reached(true)) && !Unwinds(table, layers, Reached(true));
    }
  }
}
