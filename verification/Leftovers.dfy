/** Which directories the steps of a run leave on disk. `os.makedirs` also makes every missing
  * directory above the one it is asked for, while a cleanup only removes what it was given.
  */
module Leftovers {
  import opened Paths
  import opened Seqs
  import opened MountTable

  // ---------------------------------------------------------------- the directories above one

  /** Where `os.makedirs` may have to make a directory on its way to `d`; the root is there. */
  function Parents(d: string): set<string> {
    set i | 1 <= i < |d| && d[i] == '/' :: d[..i]
  }

  /** For a clean path those are its proper ancestors besides the root. */
  lemma ParentsAreAncestors(d: string, p: string)
    requires Clean(d)
    ensures p in Parents(d) <==> Clean(p) && p != "/" && p != d && AtOrBelow(d, p)
  {
    if p in Parents(d) {
      var i :| 1 <= i < |d| && d[i] == '/' && p == d[..i];
      assert d[0] == '/' && d[i - 1] != '/';
      forall k | 0 <= k < |p| - 1 ensures p[k] != '/' || p[k + 1] != '/' {
        assert d[k] != '/' || d[k + 1] != '/';
      }
      assert d[..i + 1] == AsDir(p);
    }
    if Clean(p) && p != "/" && p != d && AtOrBelow(d, p) {
      assert AsDir(p) == p + "/" && d[|p|] == '/' && p == d[..|p|];
    }
  }

  /** What lies above something inside of `dir` is inside of `dir` or above it. */
  lemma ParentsSplit(d: string, dir: string, p: string)
    requires AtOrBelow(d, dir)
    ensures p in Parents(d) ==> AtOrBelow(p, dir) || p in Parents(dir)
    ensures p in Parents(dir) ==> p in Parents(d)
  {
    if p in Parents(dir) {
      var i :| 1 <= i < |dir| && dir[i] == '/' && p == dir[..i];
      assert dir <= d;
      assert d[i] == '/' && p == d[..i];
    }
    if p in Parents(d) && d != dir {
      var i :| 1 <= i < |d| && d[i] == '/' && p == d[..i];
      var n := |AsDir(dir)|;
      assert AsDir(dir) == d[..n];
      if i >= n {
        assert AsDir(dir) <= p;
      } else if i < |dir| {
        assert dir[i] == '/' && p == dir[..i];
      }
    }
  }

  lemma ParentIsNotInside(d: string, p: string)
    requires p in Parents(d)
    ensures !AtOrBelow(p, d) && AtOrBelow(d, p)
  {
    var i :| 1 <= i < |d| && d[i] == '/' && p == d[..i];
    assert p + "/" == d[..i + 1];
  }

  function Above(dirs: seq<string>): set<string> {
    if dirs == [] then {} else Parents(dirs[0]) + Above(dirs[1..])
  }

  predicate Inside(x: string, dirs: seq<string>) {
    exists i :: 0 <= i < |dirs| && AtOrBelow(x, dirs[i])
  }

  lemma {:induction false} AboveAppend(a: seq<string>, b: seq<string>)
    ensures Above(a + b) == Above(a) + Above(b)
  {
    if a == [] {
      AppendNil(b);
    } else {
      TailOfAppend(a, b);
      AboveAppend(a[1..], b);
    }
  }

  lemma InsideAppend(x: string, a: seq<string>, b: seq<string>)
    ensures Inside(x, a + b) <==> Inside(x, a) || Inside(x, b)
  {
    hide AtOrBelow;
    var ab := a + b;
    if i :| 0 <= i < |a| && AtOrBelow(x, a[i]) { assert AtOrBelow(x, ab[i]); }
    if i :| 0 <= i < |b| && AtOrBelow(x, b[i]) { assert AtOrBelow(x, ab[|a| + i]); }
    if i :| 0 <= i < |ab| && AtOrBelow(x, ab[i]) {
      if i < |a| { assert AtOrBelow(x, a[i]); } else { assert AtOrBelow(x, b[i - |a|]); }
    }
  }

  // ---------------------------------------------------------------- the steps

  function AfterStep(there: set<string>, e: Event): set<string> {
    match e
    case MadeDir(d) => there + Parents(d) + {d}
    case FailedDir(d) => there + Parents(d)
    case Removed(d) => set x | x in there && !AtOrBelow(x, d)
    case _ => there
  }

  /** The directories there are after the steps, given those there were before. Of the missing
    * directories above one that could not be made, all count as made.
    */
  function DirsAfter(there: set<string>, es: seq<Event>): set<string>
    decreases |es|
  {
    if es == [] then there else DirsAfter(AfterStep(there, es[0]), es[1..])
  }

  lemma {:induction false} DirsAfterAppend(there: set<string>, a: seq<Event>, b: seq<Event>)
    ensures DirsAfter(there, a + b) == DirsAfter(DirsAfter(there, a), b)
    decreases |a|
  {
    if a == [] {
      AppendNil(b);
    } else {
      TailOfAppend(a, b);
      DirsAfterAppend(AfterStep(there, a[0]), a[1..], b);
    }
  }

  lemma {:induction false} AfterRemovals(there: set<string>, dirs: seq<string>)
    ensures DirsAfter(there, Removals(dirs)) == set x | x in there && !Inside(x, dirs)
    decreases |dirs|
  {
    hide AtOrBelow;
    if dirs != [] {
      TailOfCons(Removed(dirs[0]), Removals(dirs[1..]));
      AfterRemovals((set x | x in there && !AtOrBelow(x, dirs[0])), dirs[1..]);
      HeadTail(dirs);
      forall x { InsideAppend(x, [dirs[0]], dirs[1..]); }
      forall x ensures Inside(x, [dirs[0]]) <==> AtOrBelow(x, dirs[0]) {
        if AtOrBelow(x, dirs[0]) { assert AtOrBelow(x, [dirs[0]][0]); }
      }
    }
  }

  lemma {:induction false} AfterCreations(there: set<string>, dirs: seq<string>)
    ensures DirsAfter(there, Creations(dirs)) == there + Above(dirs) + Elements(dirs)
    decreases |dirs|
  {
    if dirs != [] {
      HeadTail(dirs);
      TailOfCons(MadeDir(dirs[0]), Creations(dirs[1..]));
      AfterCreations(there + Parents(dirs[0]) + {dirs[0]}, dirs[1..]);
    }
  }

  /** What an object that raises from `__enter__` may have made by then. */
  function MadeInVain(dirs: seq<string>, made: nat): set<string>
    requires made <= |dirs|
  {
    Above(dirs[..made]) + Elements(dirs[..made]) + if made < |dirs| then Parents(dirs[made]) else {}
  }

  lemma AfterAttempts(there: set<string>, dirs: seq<string>, made: nat)
    requires made <= |dirs|
    ensures DirsAfter(there, Attempts(dirs, made)) == there + MadeInVain(dirs, made)
  {
    AfterCreations(there, dirs[..made]);
    DirsAfterAppend(there, Creations(dirs[..made]), if made < |dirs| then [FailedDir(dirs[made])] else []);
  }

  lemma AfterCleanup(there: set<string>, table: Table, l: Layer)
    ensures DirsAfter(there, CleanupTrace(table, l)) == set x | x in there && !Inside(x, l.Dirs())
  {
    DirsAfterAppend(there, UmountTrace(table, l.target), Removals(l.Dirs()));
    AfterRemovals(there, l.Dirs());
  }

  // ---------------------------------------------------------------- a tower of mounts

  /** The directories that the objects of a tower clean up. */
  function DirsOf(layers: seq<Layer>): seq<string> {
    if layers == [] then []
    else (if layers[0].Creates() then layers[0].Dirs() else []) + DirsOf(layers[1..])
  }

  /** The objects of a tower whose `__enter__` returned. */
  function Entered(layers: seq<Layer>, o: Outcome): seq<Layer>
    requires Possible(layers, o)
  {
    if o.Raised? then layers[..o.depth] else layers
  }

  /** The directories of the object whose `__enter__` raised, if any. */
  function FailedDirs(layers: seq<Layer>, o: Outcome): seq<string>
    requires Possible(layers, o)
  {
    if o.Raised? then layers[o.depth].Dirs() else []
  }

  function InVain(layers: seq<Layer>, o: Outcome): set<string>
    requires Possible(layers, o)
  {
    if o.Raised? then MadeInVain(layers[o.depth].Dirs(), o.made) else {}
  }

  /** What objects with the directories `dirs` leave of the directories `there` and of those above
    * their own, when one with the directories `failed` raised after making `vain`.
    */
  function Leaves(there: set<string>, dirs: seq<string>, failed: seq<string>, vain: set<string>): set<string> {
    set x | x in there + Above(dirs) + vain && (x in vain || !Inside(x, failed)) && !Inside(x, dirs)
  }

  /** Exactly which directories there are after a tower, however it ended: everything inside a
    * directory of an object that was entered is gone, the directories above those were made
    * and stay, and the object that raised leaves behind what it made.
    */
  lemma {:induction false} TowerLeaves(there: set<string>, table: Table, layers: seq<Layer>, o: Outcome)
    requires Paired(layers) && Possible(layers, o)
    ensures DirsAfter(there, TowerTrace(table, layers, o))
            == Leaves(there, DirsOf(Entered(layers, o)), FailedDirs(layers, o), InVain(layers, o))
    decreases |layers|
  {
    hide CleanupTrace, Run, Creations, Attempts, Inside, Above, MadeInVain;
    if layers == [] {
      NothingInside();
      assert DirsAfter(there, [Body]) == there;
    } else if o.Raised? && o.depth == 0 {
      var l := layers[0];
      NothingInside();
      AfterCleanup(there, table, l);
      DirsAfterAppend(there, CleanupTrace(table, l), Attempts(l.Dirs(), o.made));
      AfterAttempts(DirsAfter(there, CleanupTrace(table, l)), l.Dirs(), o.made);
    } else {
      LayerLeaves(there, table, layers, o);
    }
  }

  lemma NothingInside()
    ensures Above([]) == {} && forall x :: !Inside(x, [])
  {
  }

  lemma AfterEnter(there: set<string>, table: Table, l: Layer)
    requires l.Creates()
    ensures DirsAfter(there, EnterTrace(table, l))
            == (set x | x in there && !Inside(x, l.Dirs())) + Above(l.Dirs()) + Elements(l.Dirs())
  {
    hide CleanupTrace, Creations, Inside, Above;
    var clean, mk := CleanupTrace(table, l), Creations(l.Dirs());
    AfterCleanup(there, table, l);
    DirsAfterAppend(there, clean, mk);
    DirsAfterAppend(there, clean + mk, [Mounted(l.Own())]);
    AfterCreations(DirsAfter(there, clean), l.Dirs());
  }

  /** Entering a layer, what the tower on top of it leaves, and leaving the layer again. */
  lemma LeavesAround(there: set<string>, own: seq<string>, dirs: seq<string>, failed: seq<string>, vain: set<string>)
    ensures var entered := (set x | x in there && !Inside(x, own)) + Above(own) + Elements(own);
            (set x | x in Leaves(entered, dirs, failed, vain) && !Inside(x, own))
            == Leaves(there, own + dirs, failed, vain)
  {
    hide Above, AtOrBelow;
    var entered := (set x | x in there && !Inside(x, own)) + Above(own) + Elements(own);
    AboveAppend(own, dirs);
    forall x | x in own ensures Inside(x, own) {
      var i :| 0 <= i < |own| && own[i] == x;
      assert AtOrBelow(x, own[i]) by { AtOrBelowSelf(x); }
    }
    forall x
      ensures x in Leaves(entered, dirs, failed, vain) && !Inside(x, own) <==>
                x in Leaves(there, own + dirs, failed, vain)
    {
      InsideAppend(x, own, dirs);
    }
  }

  lemma AtOrBelowSelf(x: string)
    ensures AtOrBelow(x, x)
  {
  }

  lemma {:induction false} LayerLeaves(there: set<string>, table: Table, layers: seq<Layer>, o: Outcome)
    requires Paired(layers) && Possible(layers, o) && layers != [] && !(o.Raised? && o.depth == 0)
    ensures DirsAfter(there, TowerTrace(table, layers, o))
            == Leaves(there, DirsOf(Entered(layers, o)), FailedDirs(layers, o), InVain(layers, o))
    decreases |layers|, 0
  {
    hide CleanupTrace, EnterTrace, Run, DirsAfter, Inside, Above, MadeInVain, Leaves;
    var l, rest, o' := layers[0], layers[1..], Inner(o);
    var enter := EnterTrace(table, l);
    var inside := Run(table, enter).table;
    var inner := TowerTrace(inside, rest, o');
    var exit := ExitTrace(Run(inside, inner).table, l);
    var d1 := DirsAfter(there, enter);
    TowerLeaves(d1, inside, rest, o');
    DirsAfterAppend(there, enter, inner);
    DirsAfterAppend(there, enter + inner, exit);
    EnteredStep(layers, o);
    var dirs := DirsOf(Entered(rest, o'));
    if l.Creates() {
      AfterEnter(there, table, l);
      AfterCleanup(DirsAfter(d1, inner), Run(inside, inner).table, l);
      LeavesAround(there, l.Dirs(), dirs, FailedDirs(rest, o'), InVain(rest, o'));
    } else {
      NothingDone(there, table, l);
      NothingDone(DirsAfter(d1, inner), Run(inside, inner).table, l);
      AppendNil(dirs);
    }
  }

  lemma NothingDone(there: set<string>, table: Table, l: Layer)
    requires l.config == ATTACH_ONLY
    ensures DirsAfter(there, EnterTrace(table, l)) == there && DirsAfter(there, ExitTrace(table, l)) == there
  {
  }

  lemma EnteredStep(layers: seq<Layer>, o: Outcome)
    requires Possible(layers, o) && layers != [] && !(o.Raised? && o.depth == 0)
    ensures Possible(layers[1..], Inner(o))
    ensures DirsOf(Entered(layers, o))
            == (if layers[0].Creates() then layers[0].Dirs() else []) + DirsOf(Entered(layers[1..], Inner(o)))
    ensures FailedDirs(layers, o) == FailedDirs(layers[1..], Inner(o))
    ensures InVain(layers, o) == InVain(layers[1..], Inner(o))
  {
    if o.Raised? {
      assert layers[..o.depth][1..] == layers[1..][..o.depth - 1];
    }
  }
}
