/** `systemd.py`: which preset files of /etc and /usr are in force. */
module PresetOverrides {
  import opened Wrappers
  import opened Seqs
  import opened Strings
  import opened Ordering
  import opened Paths

  // ---------------------------------------------------------------- joining /etc and /usr

  /** The inner loop of the join, for one /etc file, from index `j` of the shrinking list of
    * /usr files; `None` is the `ValueError` of `list.remove`.
    */
  function ScanUsr(etc: seq<string>, usr: seq<string>, j: nat, e: string, masks: bool)
    : Option<(seq<string>, seq<string>)>
    decreases |usr| - j
  {
    if j >= |usr| then Some((etc, usr))
    else if BaseName(usr[j]) != BaseName(e) then ScanUsr(etc, usr, j + 1, e, masks)
    else if masks && e !in etc then None
    else
      RemoveShrinks(usr, usr[j]);
      ScanUsr(if masks then Without(etc, e) else etc, Without(usr, usr[j]), j + 1, e, masks)
  }

  lemma {:induction false} RemoveShrinks(s: seq<string>, x: string)
    requires x in s
    ensures |Without(s, x)| == |s| - 1
  {
    if s[0] != x { RemoveShrinks(s[1..], x); }
  }

  lemma {:induction false} ScanShrinks(etc: seq<string>, usr: seq<string>, j: nat, e: string, masks: bool)
    ensures var r := ScanUsr(etc, usr, j, e, masks); r.Some? ==> |r.value.0| <= |etc|
    decreases |usr| - j
  {
    if j < |usr| {
      if BaseName(usr[j]) != BaseName(e) {
        ScanShrinks(etc, usr, j + 1, e, masks);
      } else if !masks || e in etc {
        RemoveShrinks(usr, usr[j]);
        if masks { RemoveShrinks(etc, e); }
        ScanShrinks(if masks then Without(etc, e) else etc, Without(usr, usr[j]), j + 1, e, masks);
      }
    }
  }

  /** The outer loop from index `i`: Python keeps counting while the list gets shorter. */
  function JoinFrom(etc: seq<string>, i: nat, usr: seq<string>, maskers: set<string>): Option<seq<string>>
    decreases |etc| - i
  {
    if i >= |etc| then Some(etc + usr)
    else
      ScanShrinks(etc, usr, 0, etc[i], etc[i] in maskers);
      match ScanUsr(etc, usr, 0, etc[i], etc[i] in maskers)
      case None => None
      case Some((etc', usr')) => JoinFrom(etc', i + 1, usr', maskers)
  }

  /** The two lists, changed in place by the join. */
  class PresetLists {
    var etcFiles: seq<string>
    var usrFiles: seq<string>

    constructor (etcFiles: seq<string>, usrFiles: seq<string>)
      ensures this.etcFiles == etcFiles && this.usrFiles == usrFiles
    {
      this.etcFiles, this.usrFiles := etcFiles, usrFiles;
    }

    /** `_join_presets_resolving_overrides`; `maskers` are the links to /dev/null. */
    method Join(maskers: set<string>) returns (joined: Option<seq<string>>)
      modifies this
      ensures joined == JoinFrom(old(etcFiles), 0, old(usrFiles), maskers)
      ensures joined.Some? ==> joined.value == etcFiles + usrFiles
    {
      var i := 0;
      while i < |etcFiles|
        invariant JoinFrom(etcFiles, i, usrFiles, maskers) == JoinFrom(old(etcFiles), 0, old(usrFiles), maskers)
        decreases |etcFiles| - i
      {
        var etcFile := etcFiles[i];
        var masks := etcFile in maskers;
        ghost var etc0, usr0 := etcFiles, usrFiles;
        var j := 0;
        while j < |usrFiles|
          invariant ScanUsr(etcFiles, usrFiles, j, etcFile, masks) == ScanUsr(etc0, usr0, 0, etcFile, masks)
          invariant |etcFiles| <= |etc0|
          decreases |usrFiles| - j
        {
          var usrFile := usrFiles[j];
          if BaseName(etcFile) == BaseName(usrFile) {
            RemoveShrinks(usrFiles, usrFile);
            if masks {
              if etcFile !in etcFiles { return None; }
              RemoveShrinks(etcFiles, etcFile);
              etcFiles := Without(etcFiles, etcFile);
            }
            usrFiles := Without(usrFiles, usrFile);
          }
          j := j + 1;
        }
        i := i + 1;
      }
      joined := Some(etcFiles + usrFiles);
    }
  }

  // ---------------------------------------------------------------- what the join is meant to be

  function BaseNames(files: seq<string>): set<string> {
    set f | f in files :: BaseName(f)
  }

  ghost predicate UniqueBases(files: seq<string>) {
    forall i, j :: 0 <= i < j < |files| ==> BaseName(files[i]) != BaseName(files[j])
  }

  /** The /usr files left once every name in `names` is overridden. */
  function NotOverridden(usr: seq<string>, names: set<string>): seq<string> {
    if usr == [] then []
    else (if BaseName(usr[0]) in names then [] else [usr[0]]) + NotOverridden(usr[1..], names)
  }

  /** The /etc files without the maskers that found a /usr file of their name; a name in
    * `names` is found once.
    */
  function Effective(etc: seq<string>, names: set<string>, maskers: set<string>): seq<string> {
    if etc == [] then []
    else
      var name := BaseName(etc[0]);
      (if name in names && etc[0] in maskers then [] else [etc[0]]) + Effective(etc[1..], names - {name}, maskers)
  }

  function Intended(etc: seq<string>, usr: seq<string>, maskers: set<string>): seq<string> {
    Effective(etc, BaseNames(usr), maskers) + NotOverridden(usr, BaseNames(etc))
  }

  /** No masker that finds a /usr file is directly followed by an overriding /etc file. */
  ghost predicate Harmless(etc: seq<string>, names: set<string>, maskers: set<string>) {
    forall k :: 0 <= k < |etc| - 1 && etc[k] in maskers && BaseName(etc[k]) in names ==> BaseName(etc[k + 1]) !in names
  }

  // ---------------------------------------------------------------- the loops, file by file

  function DropName(usr: seq<string>, name: string): seq<string> { NotOverridden(usr, {name}) }

  lemma {:induction false} NotOverriddenSpec(usr: seq<string>, names: set<string>)
    ensures forall u :: u in NotOverridden(usr, names) <==> u in usr && BaseName(u) !in names
    ensures UniqueBases(usr) ==> UniqueBases(NotOverridden(usr, names))
  {
    if usr != [] {
      HeadTail(usr);
      NotOverriddenSpec(usr[1..], names);
      assert UniqueBases(usr) ==> UniqueBases(usr[1..]);
      var r := NotOverridden(usr[1..], names);
      forall i | 0 <= i < |r| ensures UniqueBases(usr) ==> BaseName(usr[0]) != BaseName(r[i]) {
        assert r[i] in r && r[i] in usr[1..];
        var j :| 0 <= j < |usr[1..]| && usr[1..][j] == r[i];
        assert usr[j + 1] == r[i];
      }
    }
  }

  lemma {:induction false} NotOverriddenNone(usr: seq<string>, names: set<string>)
    requires forall u :: u in usr ==> BaseName(u) !in names
    ensures NotOverridden(usr, names) == usr
  {
    if usr != [] {
      HeadTail(usr);
      NotOverriddenNone(usr[1..], names);
    }
  }

  lemma {:induction false} NotOverriddenTwice(usr: seq<string>, a: set<string>, b: set<string>)
    ensures NotOverridden(NotOverridden(usr, a), b) == NotOverridden(usr, a + b)
  {
    if usr != [] {
      NotOverriddenTwice(usr[1..], a, b);
      var rest := NotOverridden(usr[1..], a);
      AppendNil(rest);
      TailOfCons(usr[0], rest);
    }
  }

  lemma DropNames(usr: seq<string>, name: string)
    ensures BaseNames(DropName(usr, name)) == BaseNames(usr) - {name}
  {
    NotOverriddenSpec(usr, {name});
    forall n ensures n in BaseNames(DropName(usr, name)) <==> n in BaseNames(usr) - {name} {
      if n in BaseNames(usr) - {name} {
        var u :| u in usr && BaseName(u) == n;
        assert u in DropName(usr, name);
      }
    }
  }

  /** Removing the only file of a name from the list, seen from the front. */
  lemma {:induction false} DropOnly(usr: seq<string>, j: nat)
    requires UniqueBases(usr) && j < |usr|
    ensures Without(usr, usr[j]) == DropName(usr, BaseName(usr[j]))
  {
    HeadTail(usr);
    if j == 0 {
      forall u | u in usr[1..] ensures BaseName(u) !in {BaseName(usr[0])} {
        var i :| 0 <= i < |usr[1..]| && usr[1..][i] == u;
        assert usr[i + 1] == u;
      }
      NotOverriddenNone(usr[1..], {BaseName(usr[0])});
    } else {
      assert usr[1..][j - 1] == usr[j];
      DropOnly(usr[1..], j - 1);
    }
  }

  /** With unique names the inner loop drops the one overridden file, and the masker. */
  lemma {:induction false} ScanOnce(etc: seq<string>, usr: seq<string>, j: nat, e: string, masks: bool)
    requires UniqueBases(usr) && e in etc && j <= |usr|
    requires forall k :: 0 <= k < j ==> BaseName(usr[k]) != BaseName(e)
    ensures ScanUsr(etc, usr, j, e, masks)
            == Some((if masks && BaseName(e) in BaseNames(usr) then Without(etc, e) else etc,
                     DropName(usr, BaseName(e))))
    decreases |usr| - j
  {
    var name := BaseName(e);
    if j == |usr| {
      forall u | u in usr ensures BaseName(u) != name {
        var k :| 0 <= k < |usr| && usr[k] == u;
      }
      NotOverriddenNone(usr, {name});
    } else if BaseName(usr[j]) != name {
      ScanOnce(etc, usr, j + 1, e, masks);
    } else {
      assert usr[j] in usr;
      DropOnly(usr, j);
      RemoveShrinks(usr, usr[j]);
      var usr' := Without(usr, usr[j]);
      NotOverriddenSpec(usr, {name});
      ScanRest(if masks then Without(etc, e) else etc, usr', j + 1, e, masks);
    }
  }

  lemma {:induction false} ScanRest(etc: seq<string>, usr: seq<string>, j: nat, e: string, masks: bool)
    requires forall u :: u in usr ==> BaseName(u) != BaseName(e)
    ensures ScanUsr(etc, usr, j, e, masks) == Some((etc, usr))
    decreases |usr| - j
  {
    if j < |usr| {
      assert usr[j] in usr;
      ScanRest(etc, usr, j + 1, e, masks);
    }
  }

  /** The outer loop as a recursion over the /etc files it has not looked at: a removed masker
    * takes the place of the file after it, which is then passed over.
    */
  function LoopResult(todo: seq<string>, usr: seq<string>, maskers: set<string>): (seq<string>, seq<string>)
    decreases |todo|
  {
    if todo == [] then ([], usr)
    else
      var e := todo[0];
      var usr' := DropName(usr, BaseName(e));
      if BaseName(e) in BaseNames(usr) && e in maskers then
        var skipped := if |todo| > 1 then [todo[1]] else [];
        var rest := LoopResult(todo[1 + |skipped|..], usr', maskers);
        (skipped + rest.0, rest.1)
      else
        var rest := LoopResult(todo[1..], usr', maskers);
        ([e] + rest.0, rest.1)
  }

  lemma {:induction false} JoinIsLoopResult(etc: seq<string>, i: nat, usr: seq<string>, maskers: set<string>)
    requires NoDup(etc) && UniqueBases(usr) && i <= |etc|
    ensures var r := LoopResult(etc[i..], usr, maskers);
            JoinFrom(etc, i, usr, maskers) == Some(etc[..i] + r.0 + r.1)
    decreases |etc| - i
  {
    hide NotOverridden, BaseName, BaseNames, UniqueBases, ScanUsr, Without, Leq;
    if i == |etc| {
      assert etc[..i] == etc;
      AppendNil(etc);
    } else {
      var e := etc[i];
      TailAt(etc, i);
      var usr' := DropName(usr, BaseName(e));
      ScanOnce(etc, usr, 0, e, e in maskers);
      NotOverriddenSpec(usr, {BaseName(e)});
      if e in maskers && BaseName(e) in BaseNames(usr) {
        WithoutAt(etc, i);
        SkipStep(etc, i, usr', maskers);
      } else {
        JoinIsLoopResult(etc, i + 1, usr', maskers);
        var rest := LoopResult(etc[i + 1..], usr', maskers);
        Associative(etc[..i], [e], rest.0);
      }
    }
  }

  lemma TailAt(etc: seq<string>, i: nat)
    requires i < |etc|
    ensures etc[..i + 1] == etc[..i] + [etc[i]]
    ensures etc[i..][0] == etc[i] && etc[i..][1..] == etc[i + 1..]
    ensures |etc[i..]| > 1 ==> etc[i..][1] == etc[i + 1] && etc[i..][2..] == etc[i + 2..]
    ensures |etc[i..]| == |etc| - i
  {
  }

  /** The step after a masker was removed at index `i`. */
  lemma {:induction false} SkipStep(etc: seq<string>, i: nat, usr: seq<string>, maskers: set<string>)
    requires NoDup(etc) && UniqueBases(usr) && i < |etc|
    ensures var skipped := if i + 1 < |etc| then [etc[i + 1]] else [];
            var r := LoopResult(etc[i + 1 + |skipped|..], usr, maskers);
            JoinFrom(etc[..i] + etc[i + 1..], i + 1, usr, maskers) == Some(etc[..i] + (skipped + r.0) + r.1)
    decreases |etc| - i, 0
  {
    var etc' := etc[..i] + etc[i + 1..];
    if i + 1 < |etc| {
      JoinIsLoopResult(etc', i + 1, usr, maskers);
      assert etc'[..i + 1] == etc[..i] + [etc[i + 1]];
      assert etc'[i + 1..] == etc[i + 2..];
      var r := LoopResult(etc[i + 2..], usr, maskers);
      Associative(etc[..i], [etc[i + 1]], r.0);
    } else {
      assert etc' == etc[..i];
      AppendNil(etc[..i]);
      AppendNil<string>([]);
      var skipped: seq<string> := [];
      assert etc[i + 1 + |skipped|..] == [];
    }
  }

  lemma HarmlessTail(etc: seq<string>, names: set<string>, fewer: set<string>, maskers: set<string>)
    requires etc != [] && Harmless(etc, names, maskers) && fewer <= names
    ensures Harmless(etc[1..], fewer, maskers)
  {
    forall k | 0 <= k < |etc[1..]| - 1 && etc[1..][k] in maskers && BaseName(etc[1..][k]) in fewer
      ensures BaseName(etc[1..][k + 1]) !in fewer
    {
      assert etc[k + 1] in maskers && BaseName(etc[k + 1]) in names;
    }
  }

  /** If skipping is harmless, the loop computes what it is meant to. */
  lemma {:induction false} HarmlessResult(todo: seq<string>, usr: seq<string>, maskers: set<string>)
    requires Harmless(todo, BaseNames(usr), maskers)
    ensures LoopResult(todo, usr, maskers)
            == (Effective(todo, BaseNames(usr), maskers), NotOverridden(usr, BaseNames(todo)))
    decreases |todo|
  {
    if todo == [] {
      assert BaseNames(todo) == {};
      NotOverriddenNone(usr, {});
    } else {
      var e, names := todo[0], BaseNames(usr);
      var usr' := DropName(usr, BaseName(e));
      DropNames(usr, BaseName(e));
      HarmlessTail(todo, names, names - {BaseName(e)}, maskers);
      if BaseName(e) in names && e in maskers {
        if |todo| > 1 {
          HarmlessSkip(todo, usr, maskers);
        } else {
          HarmlessResult([], usr', maskers);
          assert BaseNames(todo) == {BaseName(e)} by { assert todo == [e]; }
          NotOverriddenNone(usr', {});
          AppendNil<string>([]);
        }
      } else {
        HarmlessResult(todo[1..], usr', maskers);
        BaseNamesCons(todo);
        NotOverriddenTwice(usr, {BaseName(e)}, BaseNames(todo[1..]));
      }
    }
  }

  lemma BaseNamesCons(etc: seq<string>)
    requires etc != []
    ensures BaseNames(etc) == {BaseName(etc[0])} + BaseNames(etc[1..])
  {
    HeadTail(etc);
  }

  lemma {:induction false} HarmlessSkip(todo: seq<string>, usr: seq<string>, maskers: set<string>)
    requires |todo| > 1 && Harmless(todo, BaseNames(usr), maskers)
    requires BaseName(todo[0]) in BaseNames(usr) && todo[0] in maskers
    ensures LoopResult(todo, usr, maskers)
            == (Effective(todo, BaseNames(usr), maskers), NotOverridden(usr, BaseNames(todo)))
    decreases |todo|, 0
  {
    var e, s, names, rest := todo[0], todo[1], BaseNames(usr), todo[2..];
    var usr' := DropName(usr, BaseName(e));
    DropNames(usr, BaseName(e));
    assert BaseName(todo[0 + 1]) !in names;
    HarmlessTail(todo, names, names - {BaseName(e)}, maskers);
    assert todo[1..][1..] == rest && todo[1..][0] == s;
    HarmlessTail(todo[1..], names - {BaseName(e)}, names - {BaseName(e)}, maskers);
    HarmlessResult(rest, usr', maskers);
    assert names - {BaseName(e)} - {BaseName(s)} == names - {BaseName(e)};
    assert Effective(todo, names, maskers) == [] + Effective(todo[1..], names - {BaseName(e)}, maskers);
    AppendNil(Effective(todo[1..], names - {BaseName(e)}, maskers));
    BaseNamesCons(todo);
    BaseNamesCons(todo[1..]);
    NotOverriddenTwice(usr, {BaseName(e)}, BaseNames(rest));
    SkippedNameUnused(usr, {BaseName(e)} + BaseNames(rest), BaseName(s));
    assert {BaseName(e)} + BaseNames(rest) + {BaseName(s)} == BaseNames(todo);
  }

  lemma {:induction false} SkippedNameUnused(usr: seq<string>, names: set<string>, extra: string)
    requires extra !in BaseNames(usr)
    ensures NotOverridden(usr, names) == NotOverridden(usr, names + {extra})
  {
    if usr != [] {
      BaseNamesCons(usr);
      SkippedNameUnused(usr[1..], names, extra);
    }
  }

  /** A /usr file keeps its place if no remaining /etc file has its name. */
  lemma {:induction false} ResultKeeps(todo: seq<string>, usr: seq<string>, maskers: set<string>, u: string)
    requires u in usr && BaseName(u) !in BaseNames(todo)
    ensures u in LoopResult(todo, usr, maskers).1
    decreases |todo|
  {
    hide NotOverridden, BaseName, BaseNames, UniqueBases;
    if todo != [] {
      var e := todo[0];
      var usr' := DropName(usr, BaseName(e));
      BaseNamesCons(todo);
      NotOverriddenSpec(usr, {BaseName(e)});
      ResultKeeps(todo[1..], usr', maskers, u);
      if |todo| > 1 {
        BaseNamesCons(todo[1..]);
        assert todo[1..][1..] == todo[2..];
        ResultKeeps(todo[2..], usr', maskers, u);
      }
    }
  }

  lemma UniqueTail(todo: seq<string>)
    requires todo != [] && UniqueBases(todo)
    ensures UniqueBases(todo[1..]) && BaseName(todo[0]) !in BaseNames(todo[1..])
  {
    forall e | e in todo[1..] ensures BaseName(e) != BaseName(todo[0]) {
      var i :| 0 <= i < |todo[1..]| && todo[1..][i] == e;
      assert todo[i + 1] == e;
    }
  }

  /** What makes skipping harmful is still there one file further on, unless it was the first. */
  lemma HarmfulTail(todo: seq<string>, names: set<string>, maskers: set<string>)
    requires todo != [] && UniqueBases(todo) && !Harmless(todo, names, maskers)
    requires !(|todo| > 1 && todo[0] in maskers && BaseName(todo[0]) in names && BaseName(todo[1]) in names)
    ensures !Harmless(todo[1..], names - {BaseName(todo[0])}, maskers)
  {
    var k :| 0 <= k < |todo| - 1 && todo[k] in maskers && BaseName(todo[k]) in names && BaseName(todo[k + 1]) in names;
    assert k > 0;
    var rest := todo[1..];
    assert rest[k - 1] == todo[k] && rest[k - 1 + 1] == todo[k + 1];
  }

  /** If skipping is harmful, some overridden /usr file survives the loop. */
  lemma {:induction false} HarmfulResult(todo: seq<string>, usr: seq<string>, maskers: set<string>) returns (u: string)
    requires UniqueBases(todo) && !Harmless(todo, BaseNames(usr), maskers)
    ensures u in LoopResult(todo, usr, maskers).1 && u in usr && BaseName(u) in BaseNames(todo)
    decreases |todo|
  {
    hide NotOverridden, BaseName, BaseNames, UniqueBases;
    var e, names := todo[0], BaseNames(usr);
    var usr' := DropName(usr, BaseName(e));
    DropNames(usr, BaseName(e));
    NotOverriddenSpec(usr, {BaseName(e)});
    UniqueTail(todo);
    BaseNamesCons(todo);
    if e in maskers && BaseName(e) in names {
      var k :| 0 <= k < |todo| - 1;
      u := HarmfulSkip(todo, usr, maskers);
    } else {
      HarmfulTail(todo, names, maskers);
      u := HarmfulResult(todo[1..], usr', maskers);
    }
  }

  /** The case of a masker that finds its /usr file. */
  lemma {:induction false} HarmfulSkip(todo: seq<string>, usr: seq<string>, maskers: set<string>) returns (u: string)
    requires UniqueBases(todo) && !Harmless(todo, BaseNames(usr), maskers)
    requires |todo| > 1 && todo[0] in maskers && BaseName(todo[0]) in BaseNames(usr)
    ensures u in LoopResult(todo, usr, maskers).1 && u in usr && BaseName(u) in BaseNames(todo)
    decreases |todo|, 0
  {
    hide NotOverridden, BaseName, UniqueBases, Harmless;
    var e, s, rest, names := todo[0], todo[1], todo[2..], BaseNames(usr);
    var usr' := DropName(usr, BaseName(e));
    NotOverriddenSpec(usr, {BaseName(e)});
    UniqueTail(todo);
    BaseNamesCons(todo);
    assert todo[1..][0] == s && todo[1..][1..] == rest;
    BaseNamesCons(todo[1..]);
    UniqueTail(todo[1..]);
    if BaseName(s) in names {
      u :| u in usr && BaseName(u) == BaseName(s);
      assert u in usr';
      ResultKeeps(rest, usr', maskers, u);
    } else {
      HarmfulTail(todo, names, maskers);
      HarmfulTail(todo[1..], names - {BaseName(e)}, maskers);
      DropNames(usr, BaseName(e));
      assert names - {BaseName(e)} - {BaseName(s)} == names - {BaseName(e)};
      u := HarmfulResult(rest, usr', maskers);
    }
  }

  /** The join does what its documentation says whenever no masker that finds a /usr file is
    * directly followed by an overriding /etc file.
    */
  lemma JoinIsIntended(etc: seq<string>, usr: seq<string>, maskers: set<string>)
    requires NoDup(etc) && UniqueBases(usr) && Harmless(etc, BaseNames(usr), maskers)
    ensures JoinFrom(etc, 0, usr, maskers) == Some(Intended(etc, usr, maskers))
  {
    JoinIsLoopResult(etc, 0, usr, maskers);
    HarmlessResult(etc, usr, maskers);
    assert etc[0..] == etc && etc[..0] == [];
    AppendNil(LoopResult(etc, usr, maskers).0);
  }

  /** With unique names on both sides that condition is also necessary. */
  lemma JoinIsIntendedIff(etc: seq<string>, usr: seq<string>, maskers: set<string>)
    requires UniqueBases(etc) && UniqueBases(usr) && forall u :: u in usr ==> u !in etc
    ensures JoinFrom(etc, 0, usr, maskers) == Some(Intended(etc, usr, maskers)) <==>
              Harmless(etc, BaseNames(usr), maskers)
  {
    if Harmless(etc, BaseNames(usr), maskers) {
      JoinIsIntended(etc, usr, maskers);
    } else {
      JoinIsLoopResult(etc, 0, usr, maskers);
      assert etc[0..] == etc && etc[..0] == [];
      var r := LoopResult(etc, usr, maskers);
      AppendNil(r.0);
      var u := HarmfulResult(etc, usr, maskers);
      assert u in r.0 + r.1;
      NotOverriddenSpec(usr, BaseNames(etc));
      EffectiveSubset(etc, BaseNames(usr), maskers);
      assert u !in Intended(etc, usr, maskers);
    }
  }

  lemma {:induction false} EffectiveSubset(etc: seq<string>, names: set<string>, maskers: set<string>)
    ensures forall e :: e in Effective(etc, names, maskers) ==> e in etc
  {
    if etc != [] {
      HeadTail(etc);
      EffectiveSubset(etc[1..], names - {BaseName(etc[0])}, maskers);
    }
  }

  /** With unique /etc names, "found a /usr file of its name" needs no bookkeeping. */
  lemma {:induction false} EffectiveOfUnique(etc: seq<string>, names: set<string>, maskers: set<string>)
    requires UniqueBases(etc)
    ensures forall e :: e in Effective(etc, names, maskers) <==> e in etc && !(e in maskers && BaseName(e) in names)
  {
    if etc != [] {
      HeadTail(etc);
      UniqueTail(etc);
      EffectiveOfUnique(etc[1..], names - {BaseName(etc[0])}, maskers);
      forall e | e in etc[1..] ensures BaseName(e) in names <==> BaseName(e) in names - {BaseName(etc[0])} {
        assert BaseName(e) in BaseNames(etc[1..]);
      }
    }
  }

  lemma BaseOf(dir: string, name: string)
    requires dir != "" && dir[|dir| - 1] == '/' && '/' !in name
    ensures BaseName(dir + name) == name
  {
    HeadOf(dir, name);
  }

  lemma {:induction false} HeadOf(dir: string, name: string)
    requires dir != "" && dir[|dir| - 1] == '/' && '/' !in name
    ensures Head(dir + name) == dir
  {
    if name == "" {
      AppendNil(dir);
    } else {
      InitOfAppend(dir, name);
      HeadOf(dir, name[..|name| - 1]);
    }
  }

  lemma NotOverriddenTwo(ua: string, ub: string, names: set<string>)
    ensures NotOverridden([ua, ub], names)
            == (if BaseName(ua) in names then [] else [ua]) + (if BaseName(ub) in names then [] else [ub])
  {
    NotOverriddenCons(ub, [], names);
    NotOverriddenCons(ua, [ub], names);
    assert [ub] + [] == [ub] && [ua] + [ub] == [ua, ub];
    AppendNil(if BaseName(ub) in names then [] else [ub]);
  }

  lemma NotOverriddenCons(u: string, rest: seq<string>, names: set<string>)
    ensures NotOverridden([u] + rest, names)
            == (if BaseName(u) in names then [] else [u]) + NotOverridden(rest, names)
  {
    TailOfCons(u, rest);
  }

  /** Masking one file keeps the overridden /usr copy of its neighbour. */
  lemma NeighbourSurvives(ea: string, eb: string, ua: string, ub: string)
    requires BaseName(ea) == BaseName(ua) && BaseName(eb) == BaseName(ub) && BaseName(ea) != BaseName(eb)
    ensures JoinFrom([ea, eb], 0, [ua, ub], {ea}) == Some([eb, ub])
    ensures Intended([ea, eb], [ua, ub], {ea}) == [eb]
  {
    hide BaseName;
    var etc, usr, maskers := [ea, eb], [ua, ub], {ea};
    assert etc[0..] == etc && etc[..0] == [] && etc[1..] == [eb] && etc[2..] == [] && [eb][1..] == [];
    assert BaseNames(usr) == {BaseName(ea), BaseName(eb)};
    assert BaseNames(etc) == {BaseName(ea), BaseName(eb)};
    NotOverriddenTwo(ua, ub, {BaseName(ea)});
    NotOverriddenTwo(ua, ub, BaseNames(etc));
    JoinIsLoopResult(etc, 0, usr, maskers);
    AppendNil([eb]);
    assert DropName(usr, BaseName(ea)) == [ub];
    var skipped := [eb];
    assert etc[1 + |skipped|..] == [];
    assert LoopResult([], [ub], maskers) == ([], [ub]);
    assert Effective([eb], {BaseName(eb)}, maskers) == [eb] + Effective([], {}, maskers);
    assert BaseNames(usr) - {BaseName(ea)} == {BaseName(eb)};
    assert etc[..0] + [eb] + [ub] == [eb, ub];
  }

  lemma NeighbourSurvivesExample()
    ensures JoinFrom(["/etc/" + "a", "/etc/" + "b"], 0, ["/usr/" + "a", "/usr/" + "b"], {"/etc/" + "a"})
            == Some(["/etc/" + "b", "/usr/" + "b"])
  {
    hide BaseName, JoinFrom;
    BaseOf("/etc/", "a");
    BaseOf("/etc/", "b");
    BaseOf("/usr/", "a");
    BaseOf("/usr/", "b");
    assert "a"[0] != "b"[0];
    NeighbourSurvives("/etc/" + "a", "/etc/" + "b", "/usr/" + "a", "/usr/" + "b");
  }

  /** If base names occur twice in /etc, which a search in subdirectories can give, the condition is
    * sufficient only: here a later namesake overrides the /usr file that the skipped one did not.
    */
  lemma LaterNamesakeOverrides(ea: string, eb: string, ec: string, ua: string, ub: string)
    requires BaseName(ea) == BaseName(ua) && BaseName(eb) == BaseName(ec) == BaseName(ub)
    requires BaseName(ea) != BaseName(eb) && eb != ec
    ensures !Harmless([ea, eb, ec], BaseNames([ua, ub]), {ea})
    ensures JoinFrom([ea, eb, ec], 0, [ua, ub], {ea}) == Some(Intended([ea, eb, ec], [ua, ub], {ea})) == Some([eb, ec])
  {
    hide BaseName;
    var etc, usr, maskers := [ea, eb, ec], [ua, ub], {ea};
    assert BaseNames(usr) == {BaseName(ea), BaseName(eb)} == BaseNames(etc);
    assert etc[0] in maskers && BaseName(etc[0 + 1]) in BaseNames(usr);
    assert etc[0..] == etc && etc[..0] == [] && etc[1..] == [eb, ec] && etc[2..] == [ec];
    JoinIsLoopResult(etc, 0, usr, maskers);
    NotOverriddenTwo(ua, ub, {BaseName(ea)});
    NotOverriddenTwo(ua, ub, BaseNames(etc));
    var names := BaseNames(usr) - {BaseName(ea)};
    NotOverriddenCons(ub, [], {BaseName(ec)});
    AppendNil([ub]);
    assert [ec][1..] == [] && [eb, ec][1..] == [ec];
    assert DropName([ub], BaseName(ec)) == [];
    AppendNil([ec]);
    assert BaseName(ec) != BaseName(ea) && ec !in maskers;
    assert LoopResult([ec], [ub], maskers) == ([ec] + [], []) by { assert LoopResult([], [], maskers) == ([], []); }
    assert LoopResult(etc, usr, maskers) == ([eb] + [ec], []);
    assert Effective([ec], names - {BaseName(eb)}, maskers) == [ec] + Effective([], {}, maskers);
    assert Effective([eb, ec], names, maskers) == [eb] + [ec];
    assert [eb] + [ec] == [eb, ec];
    AppendNil([eb, ec]);
  }
}
