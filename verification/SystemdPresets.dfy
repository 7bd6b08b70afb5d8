/** `systemd.py`: the state that the preset files in force give each unit. */
module SystemdPresets {
  import opened Wrappers
  import opened Seqs
  import opened Strings
  import opened Ordering
  import PO = PresetOverrides

  // ---------------------------------------------------------------- one preset line

  /** `fnmatch` and the directory listings, which the model leaves open. */
  datatype Host = Host(glob: (string, string) -> bool, files: string -> seq<string>)

  predicate WellFormed(columns: seq<string>) {
    |columns| >= 2 && columns[0] in {"enable", "disable"}
  }

  /** The file names below the load path that match, in the order they are visited. */
  function Select(host: Host, pattern: string, names: seq<string>): seq<string> {
    if names == [] then []
    else (if host.glob(names[0], pattern) then [names[0]] else []) + Select(host, pattern, names[1..])
  }

  function Matching(host: Host, pattern: string, loadPath: seq<string>): seq<string> {
    if loadPath == [] then []
    else Select(host, pattern, host.files(loadPath[0])) + Matching(host, pattern, loadPath[1..])
  }

  /** `unit_file[:unit_file.index('@') + 1]` */
  function UpToAt(unit: string): string
    requires '@' in unit
  {
    if unit[0] == '@' then "@" else [unit[0]] + UpToAt(unit[1..])
  }

  type Setting = (string, string)

  function Instances(unit: string, instances: seq<string>, state: string): seq<Setting>
    requires '@' in unit
  {
    if instances == [] then []
    else [(UpToAt(unit) + instances[0] + ".service", state)] + Instances(unit, instances[1..], state)
  }

  predicate ForInstances(columns: seq<string>)
    requires WellFormed(columns)
  {
    '@' in columns[1] && |columns| > 2
  }

  /** What a line sets for one matching name. */
  function SetByName(columns: seq<string>, name: string): seq<Setting>
    requires WellFormed(columns) && (ForInstances(columns) ==> '@' in name)
  {
    if ForInstances(columns) then Instances(name, columns[2..], columns[0]) else [(name, columns[0])]
  }

  /** What a line sets, unit by unit; the flag is false if a `ValueError` cut it short. */
  function SetBy(columns: seq<string>, units: seq<string>): (seq<Setting>, bool)
    requires WellFormed(columns)
  {
    if units == [] then ([], true)
    else if ForInstances(columns) && '@' !in units[0] then ([], false)
    else
      var rest := SetBy(columns, units[1..]);
      (SetByName(columns, units[0]) + rest.0, rest.1)
  }

  function LineEffect(host: Host, loadPath: seq<string>, entry: string): (seq<Setting>, bool) {
    var columns := Words(entry);
    if WellFormed(columns) then SetBy(columns, Matching(host, columns[1], loadPath)) else ([], false)
  }

  // ---------------------------------------------------------------- the table

  /** `if key not in presets: presets[key] = state`, for each setting in turn. */
  function Apply(presets: map<string, string>, settings: seq<Setting>): map<string, string>
    decreases |settings|
  {
    if settings == [] then presets
    else
      var (unit, state) := settings[0];
      Apply(if unit in presets then presets else presets[unit := state], settings[1..])
  }

  lemma {:induction false} ApplyAppend(presets: map<string, string>, a: seq<Setting>, b: seq<Setting>)
    ensures Apply(presets, a + b) == Apply(Apply(presets, a), b)
    decreases |a|
  {
    if a == [] {
      AppendNil(b);
    } else {
      TailOfAppend(a, b);
      var (unit, state) := a[0];
      ApplyAppend(if unit in presets then presets else presets[unit := state], a[1..], b);
    }
  }

  function FirstFor(settings: seq<Setting>, unit: string): Option<string> {
    if settings == [] then None
    else if settings[0].0 == unit then Some(settings[0].1)
    else FirstFor(settings[1..], unit)
  }

  /** A table filled that way holds the first setting of each unit. */
  lemma {:induction false} ApplyIsFirst(presets: map<string, string>, settings: seq<Setting>, unit: string)
    ensures var r := Apply(presets, settings);
            && (unit in r <==> unit in presets || FirstFor(settings, unit).Some?)
            && (unit in presets ==> r[unit] == presets[unit])
            && (unit !in presets && FirstFor(settings, unit).Some? ==> r[unit] == FirstFor(settings, unit).value)
    decreases |settings|
  {
    if settings != [] {
      var (key, state) := settings[0];
      ApplyIsFirst(if key in presets then presets else presets[key := state], settings[1..], unit);
    }
  }

  class PresetTable {
    var presets: map<string, string>

    constructor ()
      ensures presets == map[]
    {
      presets := map[];
    }

    method SetDefault(unit: string, state: string)
      modifies this
      ensures presets == Apply(old(presets), [(unit, state)])
    {
      if unit !in presets { presets := presets[unit := state]; }
    }

    /** The loop over the columns after a template name. */
    method SetInstances(unit: string, instances: seq<string>, state: string)
      requires '@' in unit
      modifies this
      ensures presets == Apply(old(presets), Instances(unit, instances, state))
    {
      for i := 0 to |instances|
        invariant Apply(presets, Instances(unit, instances[i..], state))
                  == Apply(old(presets), Instances(unit, instances, state))
      {
        SetDefault(UpToAt(unit) + instances[i] + ".service", state);
        ghost var rest := Instances(unit, instances[i + 1..], state);
        assert Instances(unit, instances[i..], state) == [(UpToAt(unit) + instances[i] + ".service", state)] + rest by {
          assert instances[i..][1..] == instances[i + 1..];
        }
        ApplyAppend(old(presets), [], []);
        TailOfCons((UpToAt(unit) + instances[i] + ".service", state), rest);
      }
    }

    /** `_parse_preset_entry`; false is the `ValueError`, which may come after some settings. */
    method ParseEntry(host: Host, entry: string, loadPath: seq<string>) returns (ok: bool)
      modifies this
      ensures ok == LineEffect(host, loadPath, entry).1
      ensures presets == Apply(old(presets), LineEffect(host, loadPath, entry).0)
    {
      hide Words, Instances, UpToAt, Apply, SetBy;
      var columns := Words(entry);
      ApplyNothing(presets);
      if |columns| < 2 || columns[0] !in {"enable", "disable"} { return false; }
      ghost var units := Matching(host, columns[1], loadPath);
      ghost var todo := units;
      for i := 0 to |loadPath|
        invariant todo == Matching(host, columns[1], loadPath[i..])
        invariant SetBy(columns, units).1 == SetBy(columns, todo).1
        invariant Apply(presets, SetBy(columns, todo).0) == Apply(old(presets), SetBy(columns, units).0)
      {
        var names := host.files(loadPath[i]);
        ghost var after := Matching(host, columns[1], loadPath[i + 1..]);
        assert loadPath[i..][1..] == loadPath[i + 1..];
        for j := 0 to |names|
          invariant todo == Select(host, columns[1], names[j..]) + after
          invariant SetBy(columns, units).1 == SetBy(columns, todo).1
          invariant Apply(presets, SetBy(columns, todo).0) == Apply(old(presets), SetBy(columns, units).0)
        {
          var unit := names[j];
          assert names[j..][1..] == names[j + 1..];
          if host.glob(unit, columns[1]) {
            assert todo[0] == unit && todo[1..] == Select(host, columns[1], names[j + 1..]) + after;
            SetByStep(presets, columns, todo);
            ApplyNothing(presets);
            if '@' in columns[1] && |columns| > 2 {
              if '@' !in unit { return false; }
              SetInstances(unit, columns[2..], columns[0]);
            } else {
              SetDefault(unit, columns[0]);
            }
            todo := todo[1..];
          }
        }
      }
      ApplyNothing(presets);
      SetByNothing(columns);
      ok := true;
    }
  }

  lemma SetByNothing(columns: seq<string>)
    requires WellFormed(columns)
    ensures SetBy(columns, []) == ([], true)
  {
  }

  lemma SetByStep(presets: map<string, string>, columns: seq<string>, units: seq<string>)
    requires WellFormed(columns) && units != []
    ensures ForInstances(columns) && '@' !in units[0] ==> SetBy(columns, units) == ([], false)
    ensures !(ForInstances(columns) && '@' !in units[0]) ==>
              && SetBy(columns, units).1 == SetBy(columns, units[1..]).1
              && Apply(presets, SetBy(columns, units).0)
                 == Apply(Apply(presets, SetByName(columns, units[0])), SetBy(columns, units[1..]).0)
  {
    if !(ForInstances(columns) && '@' !in units[0]) {
      ApplyAppend(presets, SetByName(columns, units[0]), SetBy(columns, units[1..]).0);
    }
  }

  // ---------------------------------------------------------------- whole files

  /** A line that is neither blank nor a comment. */
  predicate Counts(stripped: string) {
    stripped != "" && stripped[0] != '#' && stripped[0] != ';'
  }

  /** The entries of a list of lines, in order. */
  function Entries(lines: seq<string>): seq<string> {
    if lines == [] then []
    else
      var stripped := Strip(lines[0], IsSpace);
      (if Counts(stripped) then [stripped] else []) + Entries(lines[1..])
  }

  function AllEntries(content: string -> seq<string>, files: seq<string>): seq<string> {
    if files == [] then [] else Entries(content(files[0])) + AllEntries(content, files[1..])
  }

  function AllSettings(host: Host, loadPath: seq<string>, entries: seq<string>): seq<Setting> {
    if entries == [] then [] else LineEffect(host, loadPath, entries[0]).0 + AllSettings(host, loadPath, entries[1..])
  }

  ghost predicate AllValid(host: Host, loadPath: seq<string>, entries: seq<string>) {
    forall i :: 0 <= i < |entries| ==> LineEffect(host, loadPath, entries[i]).1
  }

  /** `_parse_preset_files`; `None` is the `ValueError` for an invalid entry. */
  method ParsePresetFiles(host: Host, content: string -> seq<string>, presetFiles: seq<string>, loadPath: seq<string>,
                          ignoreInvalidEntries: bool) returns (presets: Option<map<string, string>>)
    ensures presets.None? <==> !ignoreInvalidEntries && !AllValid(host, loadPath, AllEntries(content, presetFiles))
    ensures presets.Some? ==>
              presets.value == Apply(map[], AllSettings(host, loadPath, AllEntries(content, presetFiles)))
    ensures LiteralAt(host) ==> (presets.None? <==> !ignoreInvalidEntries && SomeLineInvalid(content, presetFiles))
    ensures LiteralAt(host) && presets.Some? ==>
              TableOfLines(host, content, loadPath, presetFiles, presets.value)
  {
    hide LineEffect, Entries, Apply, LiteralAt, SomeLineInvalid, TableOfLines;
    if LiteralAt(host) {
      AllEntriesValidIff(host, content, loadPath, presetFiles);
      ParsedIsTableOfLines(host, content, loadPath, presetFiles);
    }
    ghost var entries := AllEntries(content, presetFiles);
    ghost var done: seq<string> := [];
    var table := new PresetTable();
    ApplyNothing(table.presets);
    for i := 0 to |presetFiles|
      invariant entries == done + AllEntries(content, presetFiles[i..])
      invariant table.presets == Apply(map[], AllSettings(host, loadPath, done))
      invariant !ignoreInvalidEntries ==> AllValid(host, loadPath, done)
    {
      var lines := content(presetFiles[i]);
      ghost var later := AllEntries(content, presetFiles[i + 1..]);
      assert presetFiles[i..][1..] == presetFiles[i + 1..];
      Associative(done, Entries(lines), later);
      assert lines[0..] == lines;
      for j := 0 to |lines|
        invariant entries == done + Entries(lines[j..]) + later
        invariant table.presets == Apply(map[], AllSettings(host, loadPath, done))
        invariant !ignoreInvalidEntries ==> AllValid(host, loadPath, done)
      {
        var stripped := Strip(lines[j], IsSpace);
        EntriesStep(lines, j);
        if Counts(stripped) {
          ghost var before := table.presets;
          var ok := table.ParseEntry(host, stripped, loadPath);
          AllSettingsSnoc(host, loadPath, done, stripped);
          ApplyAppend(map[], AllSettings(host, loadPath, done), LineEffect(host, loadPath, stripped).0);
          Regroup(done, stripped, Entries(lines[j + 1..]), later);
          if !ok && !ignoreInvalidEntries {
            assert entries[|done|] == stripped;
            return None;
          }
          done := done + [stripped];
        } else {
          AppendNil(Entries(lines[j + 1..]));
        }
      }
      EntriesEnd(lines);
      AppendNil(done);
    }
    AppendNil(done);
    presets := Some(table.presets);
  }

  lemma ApplyNothing(presets: map<string, string>)
    ensures Apply(presets, []) == presets
  {
  }

  lemma EntriesStep(lines: seq<string>, j: nat)
    requires j < |lines|
    ensures var stripped := Strip(lines[j], IsSpace);
            Entries(lines[j..]) == (if Counts(stripped) then [stripped] else []) + Entries(lines[j + 1..])
  {
    assert lines[j..][1..] == lines[j + 1..];
  }

  lemma EntriesEnd(lines: seq<string>)
    ensures Entries(lines[|lines|..]) == []
  {
  }

  lemma Regroup(done: seq<string>, e: string, rest: seq<string>, later: seq<string>)
    ensures done + ([e] + rest) + later == done + [e] + rest + later
  {
  }

  lemma {:induction false} AllSettingsSnoc(host: Host, loadPath: seq<string>, entries: seq<string>, e: string)
    ensures AllSettings(host, loadPath, entries + [e])
            == AllSettings(host, loadPath, entries) + LineEffect(host, loadPath, e).0
  {
    hide LineEffect;
    if entries == [] {
      AppendNil([e]);
      AppendNil(LineEffect(host, loadPath, e).0);
    } else {
      TailOfAppend(entries, [e]);
      AllSettingsSnoc(host, loadPath, entries[1..], e);
      Associative(LineEffect(host, loadPath, entries[0]).0, AllSettings(host, loadPath, entries[1..]),
                  LineEffect(host, loadPath, e).0);
    }
  }

  // ---------------------------------------------------------------- first match wins

  /** A glob with an '@' only matches names with an '@'. */
  ghost predicate LiteralAt(host: Host) {
    forall name, pattern :: host.glob(name, pattern) && '@' in pattern ==> '@' in name
  }

  /** What a line says about a unit, read off the documentation: a template line with instance
    * names is about those instances of the matching templates, any other line about the
    * matching units themselves.
    */
  ghost predicate AppliesTo(host: Host, loadPath: seq<string>, entry: string, unit: string) {
    var columns := Words(entry);
    && WellFormed(columns)
    && exists name :: name in Matching(host, columns[1], loadPath) && NameGives(columns, name, unit)
  }

  ghost predicate NameGives(columns: seq<string>, name: string, unit: string)
    requires WellFormed(columns)
  {
    if ForInstances(columns)
    then '@' in name && exists k :: 2 <= k < |columns| && unit == UpToAt(name) + columns[k] + ".service"
    else unit == name
  }

  function State(entry: string): string
    requires WellFormed(Words(entry))
  {
    Words(entry)[0]
  }

  /** The state of the first entry that applies. */
  ghost function FirstMatch(host: Host, loadPath: seq<string>, entries: seq<string>, unit: string): Option<string> {
    if entries == [] then None
    else if AppliesTo(host, loadPath, entries[0], unit) then Some(State(entries[0]))
    else FirstMatch(host, loadPath, entries[1..], unit)
  }

  lemma {:induction false} SelectSpec(host: Host, pattern: string, names: seq<string>)
    ensures forall n :: n in Select(host, pattern, names) <==> n in names && host.glob(n, pattern)
  {
    if names != [] {
      HeadTail(names);
      SelectSpec(host, pattern, names[1..]);
    }
  }

  /** The names a line looks at are the matching names below its load path. */
  lemma {:induction false} MatchingSpec(host: Host, pattern: string, loadPath: seq<string>)
    ensures forall n :: n in Matching(host, pattern, loadPath) <==>
              exists p :: p in loadPath && n in host.files(p) && host.glob(n, pattern)
  {
    if loadPath != [] {
      HeadTail(loadPath);
      SelectSpec(host, pattern, host.files(loadPath[0]));
      MatchingSpec(host, pattern, loadPath[1..]);
      forall n ensures n in Matching(host, pattern, loadPath) <==>
                         exists p :: p in loadPath && n in host.files(p) && host.glob(n, pattern)
      {
        assert n in Matching(host, pattern, loadPath) <==>
                 n in Select(host, pattern, host.files(loadPath[0])) || n in Matching(host, pattern, loadPath[1..]);
      }
    }
  }

  lemma {:induction false} InstancesFirst(name: string, instances: seq<string>, state: string, unit: string)
    requires '@' in name
    ensures FirstFor(Instances(name, instances, state), unit)
            == if exists k :: 0 <= k < |instances| && unit == UpToAt(name) + instances[k] + ".service" then Some(state)
               else None
  {
    if instances != [] {
      var rest := instances[1..];
      InstancesFirst(name, rest, state, unit);
      if k :| 0 <= k < |instances| && unit == UpToAt(name) + instances[k] + ".service" {
        if k > 0 { assert rest[k - 1] == instances[k]; }
      }
      if k :| 0 <= k < |rest| && unit == UpToAt(name) + rest[k] + ".service" {
        assert instances[k + 1] == rest[k];
      }
    }
  }

  lemma {:induction false} FirstForAppend(a: seq<Setting>, b: seq<Setting>, unit: string)
    ensures FirstFor(a + b, unit) == if FirstFor(a, unit).Some? then FirstFor(a, unit) else FirstFor(b, unit)
  {
    if a == [] {
      AppendNil(b);
    } else {
      TailOfAppend(a, b);
      FirstForAppend(a[1..], b, unit);
    }
  }

  lemma FirstOfName(columns: seq<string>, name: string, unit: string)
    requires WellFormed(columns) && (ForInstances(columns) ==> '@' in name)
    ensures FirstFor(SetByName(columns, name), unit)
            == if NameGives(columns, name, unit) then Some(columns[0]) else None
  {
    if ForInstances(columns) {
      var instances := columns[2..];
      InstancesFirst(name, instances, columns[0], unit);
      if k :| 2 <= k < |columns| && unit == UpToAt(name) + columns[k] + ".service" {
        assert instances[k - 2] == columns[k];
      }
      if k :| 0 <= k < |instances| && unit == UpToAt(name) + instances[k] + ".service" {
        assert columns[k + 2] == instances[k];
      }
    }
  }

  lemma {:induction false} SetByFirst(columns: seq<string>, units: seq<string>, unit: string)
    requires WellFormed(columns) && (ForInstances(columns) ==> forall n :: n in units ==> '@' in n)
    ensures SetBy(columns, units).1
    ensures FirstFor(SetBy(columns, units).0, unit)
            == if exists n :: n in units && NameGives(columns, n, unit) then Some(columns[0]) else None
  {
    if units != [] {
      HeadTail(units);
      FirstOfName(columns, units[0], unit);
      SetByFirst(columns, units[1..], unit);
      FirstForAppend(SetByName(columns, units[0]), SetBy(columns, units[1..]).0, unit);
    }
  }

  /** One line: it fails only if it is malformed, then sets nothing, and otherwise gives its
    * state to exactly the units it applies to.
    */
  lemma LineFirst(host: Host, loadPath: seq<string>, entry: string, unit: string)
    requires LiteralAt(host)
    ensures LineEffect(host, loadPath, entry).1 <==> WellFormed(Words(entry))
    ensures FirstFor(LineEffect(host, loadPath, entry).0, unit)
            == if AppliesTo(host, loadPath, entry, unit) then Some(State(entry)) else None
  {
    var columns := Words(entry);
    if WellFormed(columns) {
      MatchingSpec(host, columns[1], loadPath);
      SetByFirst(columns, Matching(host, columns[1], loadPath), unit);
    }
  }

  lemma {:induction false} SettingsAreFirstMatch(host: Host, loadPath: seq<string>, entries: seq<string>, unit: string)
    requires LiteralAt(host)
    ensures FirstFor(AllSettings(host, loadPath, entries), unit) == FirstMatch(host, loadPath, entries, unit)
  {
    if entries != [] {
      LineFirst(host, loadPath, entries[0], unit);
      SettingsAreFirstMatch(host, loadPath, entries[1..], unit);
      FirstForAppend(LineEffect(host, loadPath, entries[0]).0, AllSettings(host, loadPath, entries[1..]), unit);
    }
  }

  /** The parsed table gives each unit the state of the first entry, in file-then-line order,
    * that applies to it, and has no unit that no entry applies to.
    */
  lemma TableIsFirstMatch(host: Host, loadPath: seq<string>, entries: seq<string>, unit: string)
    requires LiteralAt(host)
    ensures var presets := Apply(map[], AllSettings(host, loadPath, entries));
            var meant := FirstMatch(host, loadPath, entries, unit);
            && (unit in presets <==> meant.Some?)
            && (unit in presets ==> presets[unit] == meant.value)
  {
    ApplyIsFirst(map[], AllSettings(host, loadPath, entries), unit);
    SettingsAreFirstMatch(host, loadPath, entries, unit);
  }

  function OnlyValid(host: Host, loadPath: seq<string>, entries: seq<string>): seq<string> {
    if entries == [] then []
    else
      (if LineEffect(host, loadPath, entries[0]).1 then [entries[0]] else [])
      + OnlyValid(host, loadPath, entries[1..])
  }

  /** Entries that are ignored as invalid leave no trace in the table. */
  lemma {:induction false} InvalidEntriesHaveNoEffect(host: Host, loadPath: seq<string>, entries: seq<string>)
    requires LiteralAt(host)
    ensures AllSettings(host, loadPath, entries) == AllSettings(host, loadPath, OnlyValid(host, loadPath, entries))
  {
    if entries != [] {
      LineFirst(host, loadPath, entries[0], "");
      InvalidEntriesHaveNoEffect(host, loadPath, entries[1..]);
      var rest := OnlyValid(host, loadPath, entries[1..]);
      TailOfCons(entries[0], rest);
      AppendNil(rest);
      AppendNil(AllSettings(host, loadPath, rest));
    }
  }

  // ---------------------------------------------------------------- what the lines of the files say

  /** What a line of a preset file says, with nothing of the parser in it: it is neither blank nor a
    * comment, its first two words are a state and a pattern, and some file below the load path
    * matches the pattern; with instance names after a template pattern it is about those
    * instances of the template, otherwise about the file itself.
    */
  ghost predicate LineGives(host: Host, loadPath: seq<string>, line: string, unit: string, state: string) {
    var text := Strip(line, IsSpace);
    var columns := Words(text);
    && text != "" && text[0] != '#' && text[0] != ';'
    && |columns| >= 2 && (columns[0] == "enable" || columns[0] == "disable") && state == columns[0]
    && exists path, name ::
         && path in loadPath && name in host.files(path) && host.glob(name, columns[1])
         && Concerns(columns, name, unit)
  }

  ghost predicate Concerns(columns: seq<string>, name: string, unit: string)
    requires |columns| >= 2
  {
    if '@' in columns[1] && |columns| > 2 then
      exists k, before: string ::
        && 2 <= k < |columns| && '@' !in before && before + "@" <= name
        && unit == before + "@" + columns[k] + ".service"
    else unit == name
  }

  /** A line that is neither blank nor a comment and does not have the form of an entry. */
  ghost predicate LineInvalid(line: string) {
    var text := Strip(line, IsSpace);
    && text != "" && text[0] != '#' && text[0] != ';'
    && (|Words(text)| < 2 || (Words(text)[0] != "enable" && Words(text)[0] != "disable"))
  }

  /** Line `l` of file `f` is the first one, in file-then-line order, that says something about the
    * unit.
    */
  ghost predicate FirstToGive(host: Host, content: string -> seq<string>, loadPath: seq<string>, files: seq<string>,
                              unit: string, state: string, f: nat, l: nat) {
    && f < |files| && l < |content(files[f])| && LineGives(host, loadPath, content(files[f])[l], unit, state)
    && (forall k, other :: 0 <= k < l ==> !LineGives(host, loadPath, content(files[f])[k], unit, other))
    && (forall g, k, other :: 0 <= g < f && 0 <= k < |content(files[g])| ==>
          !LineGives(host, loadPath, content(files[g])[k], unit, other))
  }

  lemma {:induction false} UpToAtSpec(name: string) returns (before: string, after: string)
    requires '@' in name
    ensures name == before + "@" + after && '@' !in before && UpToAt(name) == before + "@"
  {
    if name[0] == '@' {
      before, after := "", name[1..];
    } else {
      before, after := UpToAtSpec(name[1..]);
      before := [name[0]] + before;
    }
  }

  lemma {:induction false} UpToAtUnique(before: string, after: string)
    requires '@' !in before
    ensures UpToAt(before + "@" + after) == before + "@"
  {
    if before != "" {
      assert (before + "@" + after)[1..] == before[1..] + "@" + after;
      UpToAtUnique(before[1..], after);
    }
  }

  lemma ConcernsIsNameGives(columns: seq<string>, name: string, unit: string)
    requires WellFormed(columns)
    ensures Concerns(columns, name, unit) <==> NameGives(columns, name, unit)
  {
    if ForInstances(columns) {
      if k, before: string :|
        && 2 <= k < |columns| && '@' !in before && before + "@" <= name
        && unit == before + "@" + columns[k] + ".service"
      {
        var after := name[|before| + 1..];
        assert name == before + "@" + after;
        UpToAtUnique(before, after);
        assert name[|before|] == '@';
      }
      if NameGives(columns, name, unit) {
        var k :| 2 <= k < |columns| && unit == UpToAt(name) + columns[k] + ".service";
        var before, after := UpToAtSpec(name);
        assert '@' !in before && before + "@" <= name && unit == before + "@" + columns[k] + ".service";
      }
    }
  }

  /** A line of a file and the entry that the parser makes of it. */
  lemma LineMeansEntry(host: Host, loadPath: seq<string>, line: string, unit: string)
    ensures var text := Strip(line, IsSpace);
            (exists state :: LineGives(host, loadPath, line, unit, state)) <==>
              Counts(text) && AppliesTo(host, loadPath, text, unit)
    ensures forall state :: LineGives(host, loadPath, line, unit, state) ==>
              AppliesTo(host, loadPath, Strip(line, IsSpace), unit) && state == State(Strip(line, IsSpace))
    ensures LineInvalid(line) <==> Counts(Strip(line, IsSpace)) && !WellFormed(Words(Strip(line, IsSpace)))
  {
    hide Words, Strip, Concerns, NameGives, Matching;
    var columns := Words(Strip(line, IsSpace));
    if WellFormed(columns) {
      MatchingSpec(host, columns[1], loadPath);
      forall name { ConcernsIsNameGives(columns, name, unit); }
      if Counts(Strip(line, IsSpace)) && AppliesTo(host, loadPath, Strip(line, IsSpace), unit) {
        assert LineGives(host, loadPath, line, unit, columns[0]);
      }
    }
  }

  /** The state that the first line of one file gives. */
  lemma {:induction false} FirstLine(host: Host, loadPath: seq<string>, lines: seq<string>, unit: string)
    returns (l: nat)
    ensures var first := FirstMatch(host, loadPath, Entries(lines), unit);
            && (forall k, other :: 0 <= k < |lines| && (first.None? || k < l) ==>
                  !LineGives(host, loadPath, lines[k], unit, other))
            && (first.Some? ==> l < |lines| && LineGives(host, loadPath, lines[l], unit, first.value))
  {
    hide Words, Strip, Concerns, AppliesTo, LineGives;
    l := 0;
    if lines != [] {
      var text, rest := Strip(lines[0], IsSpace), Entries(lines[1..]);
      LineMeansEntry(host, loadPath, lines[0], unit);
      if Counts(text) {
        TailOfCons(text, rest);
      } else {
        AppendNil(rest);
      }
      if !(Counts(text) && AppliesTo(host, loadPath, text, unit)) {
        l := FirstLine(host, loadPath, lines[1..], unit);
        l := l + 1;
        assert forall k :: 1 <= k < |lines| ==> lines[k] == lines[1..][k - 1];
      }
    }
  }

  /** ... and of several files. */
  lemma {:induction false} FirstOfFiles(host: Host, content: string -> seq<string>, loadPath: seq<string>,
                                        files: seq<string>, unit: string) returns (f: nat, l: nat)
    ensures var first := FirstMatch(host, loadPath, AllEntries(content, files), unit);
            && (first.Some? ==> FirstToGive(host, content, loadPath, files, unit, first.value, f, l))
            && (first.None? ==> forall g, k, other :: 0 <= g < |files| && 0 <= k < |content(files[g])| ==>
                                  !LineGives(host, loadPath, content(files[g])[k], unit, other))
  {
    hide LineGives, FirstMatch, Entries, AppliesTo;
    f, l := 0, 0;
    if files == [] {
      NoEntries(host, loadPath, unit);
    } else {
      var head, rest := Entries(content(files[0])), AllEntries(content, files[1..]);
      FirstMatchAppend(host, loadPath, head, rest, unit);
      l := FirstLine(host, loadPath, content(files[0]), unit);
      if FirstMatch(host, loadPath, head, unit).None? {
        f, l := FirstOfFiles(host, content, loadPath, files[1..], unit);
        f := f + 1;
        assert forall g :: 1 <= g < |files| ==> files[g] == files[1..][g - 1];
      }
    }
  }

  lemma NoEntries(host: Host, loadPath: seq<string>, unit: string)
    ensures FirstMatch(host, loadPath, [], unit).None?
  {
  }

  /** There is at most one first line, and at most one state that it gives. */
  lemma FirstIsUnique(host: Host, content: string -> seq<string>, loadPath: seq<string>, files: seq<string>,
                      unit: string, s: string, f: nat, l: nat, s': string, f': nat, l': nat)
    requires FirstToGive(host, content, loadPath, files, unit, s, f, l)
    requires FirstToGive(host, content, loadPath, files, unit, s', f', l')
    ensures s == s' && f == f' && l == l'
  {
    assert f == f';
    assert l == l';
  }

  /** A table that says of each unit what the first line about it says, and nothing else. */
  ghost predicate TableOfLines(host: Host, content: string -> seq<string>, loadPath: seq<string>, files: seq<string>,
                               presets: map<string, string>) {
    forall unit, state :: HasState(presets, unit, state) <==> FirstSays(host, content, loadPath, files, unit, state)
  }

  ghost predicate HasState(presets: map<string, string>, unit: string, state: string) {
    unit in presets && presets[unit] == state
  }

  ghost predicate FirstSays(host: Host, content: string -> seq<string>, loadPath: seq<string>, files: seq<string>,
                            unit: string, state: string) {
    exists f, l :: FirstToGive(host, content, loadPath, files, unit, state, f, l)
  }

  /** Some line of the files is invalid. */
  ghost predicate SomeLineInvalid(content: string -> seq<string>, files: seq<string>) {
    exists f, l :: 0 <= f < |files| && 0 <= l < |content(files[f])| && LineInvalid(content(files[f])[l])
  }

  lemma ParsedIsTableOfLines(host: Host, content: string -> seq<string>, loadPath: seq<string>, files: seq<string>)
    requires LiteralAt(host)
    ensures TableOfLines(host, content, loadPath, files,
                         Apply(map[], AllSettings(host, loadPath, AllEntries(content, files))))
  {
    hide LiteralAt, FirstToGive, AllEntries, AllSettings, Apply, FirstMatch, LineGives;
    var presets := Apply(map[], AllSettings(host, loadPath, AllEntries(content, files)));
    forall unit, state
      ensures HasState(presets, unit, state) <==> FirstSays(host, content, loadPath, files, unit, state)
    {
      TableIsFirstMatch(host, loadPath, AllEntries(content, files), unit);
      var f, l := FirstOfFiles(host, content, loadPath, files, unit);
      var first := FirstMatch(host, loadPath, AllEntries(content, files), unit);
      if first.Some? { assert FirstSays(host, content, loadPath, files, unit, first.value); }
      if g, k :| FirstToGive(host, content, loadPath, files, unit, state, g, k) {
        GivesSomething(host, content, loadPath, files, unit, state, g, k);
        if first.Some? {
          FirstIsUnique(host, content, loadPath, files, unit, state, g, k, first.value, f, l);
        }
      }
    }
  }

  lemma GivesSomething(host: Host, content: string -> seq<string>, loadPath: seq<string>, files: seq<string>,
                       unit: string, state: string, f: nat, l: nat)
    requires FirstToGive(host, content, loadPath, files, unit, state, f, l)
    ensures f < |files| && l < |content(files[f])| && LineGives(host, loadPath, content(files[f])[l], unit, state)
  {
  }

  lemma {:induction false} EntriesValidIff(host: Host, loadPath: seq<string>, lines: seq<string>)
    requires LiteralAt(host)
    ensures AllValid(host, loadPath, Entries(lines)) <==> forall l :: 0 <= l < |lines| ==> !LineInvalid(lines[l])
  {
    hide LiteralAt, Words, Strip, LineEffect, LineInvalid, LineGives, WellFormed, AppliesTo, AllValid, Counts;
    if lines == [] {
      NoneInvalid(host, loadPath);
    } else {
      var text, rest := Strip(lines[0], IsSpace), Entries(lines[1..]);
      EntriesValidIff(host, loadPath, lines[1..]);
      LineMeansEntry(host, loadPath, lines[0], "");
      LineFirst(host, loadPath, text, "");
      AllValidAppend(host, loadPath, if Counts(text) then [text] else [], rest);
      OneValid(host, loadPath, text);
      assert Entries(lines) == (if Counts(text) then [text] else []) + rest;
      assert forall l :: 1 <= l < |lines| ==> lines[l] == lines[1..][l - 1];
      assert forall l :: 0 <= l < |lines[1..]| ==> lines[1..][l] == lines[l + 1];
    }
  }

  lemma OneValid(host: Host, loadPath: seq<string>, entry: string)
    ensures AllValid(host, loadPath, [entry]) <==> LineEffect(host, loadPath, entry).1
    ensures AllValid(host, loadPath, [])
  {
    hide LineEffect;
    assert [entry][0] == entry;
  }

  lemma AllValidAppend(host: Host, loadPath: seq<string>, a: seq<string>, b: seq<string>)
    ensures AllValid(host, loadPath, a + b) <==> AllValid(host, loadPath, a) && AllValid(host, loadPath, b)
  {
    hide LineEffect;
    if AllValid(host, loadPath, a + b) {
      forall i | 0 <= i < |a| ensures LineEffect(host, loadPath, a[i]).1 { assert a[i] == (a + b)[i]; }
      forall i | 0 <= i < |b| ensures LineEffect(host, loadPath, b[i]).1 { assert b[i] == (a + b)[|a| + i]; }
    }
  }

  lemma {:induction false} AllEntriesValidIff(host: Host, content: string -> seq<string>, loadPath: seq<string>,
                                              files: seq<string>)
    requires LiteralAt(host)
    ensures AllValid(host, loadPath, AllEntries(content, files)) <==> !SomeLineInvalid(content, files)
  {
    hide LiteralAt, LineEffect, LineInvalid, Entries, AllValid;
    if files == [] {
      NoneInvalid(host, loadPath);
    } else {
      var rest := files[1..];
      AllEntriesValidIff(host, content, loadPath, rest);
      EntriesValidIff(host, loadPath, content(files[0]));
      AllValidAppend(host, loadPath, Entries(content(files[0])), AllEntries(content, rest));
      assert forall f :: 1 <= f < |files| ==> files[f] == rest[f - 1];
      assert forall f :: 0 <= f < |rest| ==> rest[f] == files[f + 1];
    }
  }

  lemma NoneInvalid(host: Host, loadPath: seq<string>)
    ensures AllValid(host, loadPath, [])
  {
  }

  // ---------------------------------------------------------------- /etc before /usr

  const ETC_PRESETS_PATH := "/etc/systemd/system-preset/"
  const USR_PRESETS_PATH := "/usr/lib/systemd/system-preset/"

  /** `_get_system_preset_files`, given what `find` printed for the two directories. */
  method GetSystemPresetFiles(etcFiles: seq<string>, usrFiles: seq<string>, maskers: set<string>)
    returns (files: Option<seq<string>>)
    ensures files.Some? <==> PO.JoinFrom(etcFiles, 0, usrFiles, maskers).Some?
    ensures files.Some? ==> SortedBy(files.value, Leq)
                            && multiset(files.value) == multiset(PO.JoinFrom(etcFiles, 0, usrFiles, maskers).value)
  {
    var lists := new PO.PresetLists(etcFiles, usrFiles);
    var joined := lists.Join(maskers);
    if joined.None? { return None; }
    SortStringsSorts(joined.value);
    files := Some(SortStrings(joined.value));
  }

  function InDirectory(dir: string, files: seq<string>): seq<string> {
    if files == [] then [] else (if dir <= files[0] then [files[0]] else []) + InDirectory(dir, files[1..])
  }

  lemma EtcSortsFirst(e: string, u: string)
    requires ETC_PRESETS_PATH <= e && USR_PRESETS_PATH <= u
    ensures !Leq(u, e)
  {
    assert e[0] == ETC_PRESETS_PATH[0] && u[0] == USR_PRESETS_PATH[0];
    assert e[1] == ETC_PRESETS_PATH[1] && u[1] == USR_PRESETS_PATH[1];
    assert e[1..][0] == e[1] && u[1..][0] == u[1];
  }

  lemma {:induction false} SortedSplit(files: seq<string>)
    requires SortedBy(files, Leq)
    requires forall f :: f in files ==> ETC_PRESETS_PATH <= f || USR_PRESETS_PATH <= f
    ensures files == InDirectory(ETC_PRESETS_PATH, files) + InDirectory(USR_PRESETS_PATH, files)
    ensures files != [] && USR_PRESETS_PATH <= files[0] ==> InDirectory(ETC_PRESETS_PATH, files) == []
  {
    hide Leq, SortedBy, InDirectory;
    if files == [] {
      InDirectoryStep(ETC_PRESETS_PATH, files);
      InDirectoryStep(USR_PRESETS_PATH, files);
    } else {
      HeadTail(files);
      var f, rest := files[0], files[1..];
      assert f in files;
      assert forall x :: x in rest ==> x in files;
      SortedTail(files);
      SortedSplit(rest);
      var etc, usr := InDirectory(ETC_PRESETS_PATH, rest), InDirectory(USR_PRESETS_PATH, rest);
      NotBoth(f);
      InDirectoryStep(ETC_PRESETS_PATH, files);
      InDirectoryStep(USR_PRESETS_PATH, files);
      Associative([f], etc, usr);
      AppendNil(usr);
      if USR_PRESETS_PATH <= f {
        NoEtcAfterUsr(files);
        AppendNil([f] + usr);
      }
    }
  }

  lemma SortedTail(files: seq<string>)
    requires files != [] && SortedBy(files, Leq)
    ensures SortedBy(files[1..], Leq)
  {
  }

  lemma InDirectoryStep(dir: string, files: seq<string>)
    ensures InDirectory(dir, files)
            == if files == [] then [] else if dir <= files[0] then [files[0]] + InDirectory(dir, files[1..])
               else InDirectory(dir, files[1..])
  {
    if files != [] { AppendNil(InDirectory(dir, files[1..])); }
  }

  lemma NotBoth(f: string)
    ensures !(ETC_PRESETS_PATH <= f && USR_PRESETS_PATH <= f)
  {
    assert ETC_PRESETS_PATH[1] != USR_PRESETS_PATH[1];
  }

  lemma {:induction false} NoneInDirectory(dir: string, files: seq<string>)
    requires forall f :: f in files ==> !(dir <= f)
    ensures InDirectory(dir, files) == []
  {
    if files != [] {
      assert files[0] in files;
      assert forall f :: f in files[1..] ==> f in files;
      NoneInDirectory(dir, files[1..]);
    }
  }

  lemma NoEtcAfterUsr(files: seq<string>)
    requires files != [] && SortedBy(files, Leq) && USR_PRESETS_PATH <= files[0]
    ensures InDirectory(ETC_PRESETS_PATH, files[1..]) == []
  {
    hide Leq;
    forall f | f in files[1..] ensures !(ETC_PRESETS_PATH <= f) {
      var i :| 0 <= i < |files[1..]| && files[1..][i] == f;
      assert files[i + 1] == f;
      if ETC_PRESETS_PATH <= f { EtcSortsFirst(f, files[0]); }
    }
    NoneInDirectory(ETC_PRESETS_PATH, files[1..]);
  }

  lemma {:induction false} AllEntriesAppend(content: string -> seq<string>, a: seq<string>, b: seq<string>)
    ensures AllEntries(content, a + b) == AllEntries(content, a) + AllEntries(content, b)
  {
    if a == [] {
      AppendNil(b);
    } else {
      TailOfAppend(a, b);
      AllEntriesAppend(content, a[1..], b);
      Associative(Entries(content(a[0])), AllEntries(content, a[1..]), AllEntries(content, b));
    }
  }

  lemma {:induction false} FirstMatchAppend(host: Host, loadPath: seq<string>, a: seq<string>, b: seq<string>,
                                            unit: string)
    ensures FirstMatch(host, loadPath, a + b, unit)
            == if FirstMatch(host, loadPath, a, unit).Some? then FirstMatch(host, loadPath, a, unit)
               else FirstMatch(host, loadPath, b, unit)
  {
    hide AppliesTo;
    if a == [] {
      AppendNil(b);
    } else {
      TailOfAppend(a, b);
      FirstMatchAppend(host, loadPath, a[1..], b, unit);
    }
  }

  /** Because the files are sorted by full path, a unit that some /etc entry applies to has the
    * state of the first such entry, whatever the /usr files say.
    */
  lemma EtcBeatsUsr(host: Host, content: string -> seq<string>, loadPath: seq<string>, files: seq<string>, unit: string)
    requires LiteralAt(host) && SortedBy(files, Leq)
    requires forall f :: f in files ==> ETC_PRESETS_PATH <= f || USR_PRESETS_PATH <= f
    ensures var presets := Apply(map[], AllSettings(host, loadPath, AllEntries(content, files)));
            var etc := FirstMatch(host, loadPath, AllEntries(content, InDirectory(ETC_PRESETS_PATH, files)), unit);
            var usr := FirstMatch(host, loadPath, AllEntries(content, InDirectory(USR_PRESETS_PATH, files)), unit);
            && (unit in presets <==> etc.Some? || usr.Some?)
            && (unit in presets ==> presets[unit] == if etc.Some? then etc.value else usr.value)
  {
    hide Leq, FirstMatch, Apply, AllSettings;
    var etcFiles, usrFiles := InDirectory(ETC_PRESETS_PATH, files), InDirectory(USR_PRESETS_PATH, files);
    SortedSplit(files);
    AllEntriesAppend(content, etcFiles, usrFiles);
    FirstMatchAppend(host, loadPath, AllEntries(content, etcFiles), AllEntries(content, usrFiles), unit);
    TableIsFirstMatch(host, loadPath, AllEntries(content, files), unit);
  }

  // ---------------------------------------------------------------- from the directories to the table

  /** What `find` prints for the two directories, in the situation in which the join is right. */
  ghost predicate Expected(etcFiles: seq<string>, usrFiles: seq<string>, maskers: set<string>) {
    && NoDup(etcFiles) && PO.UniqueBases(usrFiles) && PO.Harmless(etcFiles, PO.BaseNames(usrFiles), maskers)
    && (forall f :: f in etcFiles ==> ETC_PRESETS_PATH <= f)
    && (forall f :: f in usrFiles ==> USR_PRESETS_PATH <= f)
  }

  /** The /etc files in force, in the order in which they are read. */
  function EtcInForce(etcFiles: seq<string>, usrFiles: seq<string>, maskers: set<string>): seq<string> {
    SortStrings(PO.Effective(etcFiles, PO.BaseNames(usrFiles), maskers))
  }

  /** The /usr files that no /etc file has the name of, in that order. */
  function UsrInForce(etcFiles: seq<string>, usrFiles: seq<string>): seq<string> {
    SortStrings(PO.NotOverridden(usrFiles, PO.BaseNames(etcFiles)))
  }

  /** Sorting the joined files reads the /etc files in force first, then the /usr ones. */
  lemma FilesInForce(etcFiles: seq<string>, usrFiles: seq<string>, maskers: set<string>, files: seq<string>)
    requires Expected(etcFiles, usrFiles, maskers)
    requires PO.JoinFrom(etcFiles, 0, usrFiles, maskers).Some? && SortedBy(files, Leq)
    requires multiset(files) == multiset(PO.JoinFrom(etcFiles, 0, usrFiles, maskers).value)
    ensures files == EtcInForce(etcFiles, usrFiles, maskers) + UsrInForce(etcFiles, usrFiles)
  {
    hide Leq, SortedBy, PO.JoinFrom, PO.Effective, PO.NotOverridden, PO.UniqueBases, PO.BaseNames, PO.Harmless, NoDup,
      SortStrings;
    var etc := PO.Effective(etcFiles, PO.BaseNames(usrFiles), maskers);
    var usr := PO.NotOverridden(usrFiles, PO.BaseNames(etcFiles));
    PO.JoinIsIntended(etcFiles, usrFiles, maskers);
    PO.EffectiveSubset(etcFiles, PO.BaseNames(usrFiles), maskers);
    PO.NotOverriddenSpec(usrFiles, PO.BaseNames(etcFiles));
    SortStringsSorts(etc);
    SortStringsSorts(usr);
    SortedConcat(SortStrings(etc), SortStrings(usr));
    forall x, y | Leq(x, y) && Leq(y, x) ensures x == y { LeqAntisymmetric(x, y); }
    SortedUnique(files, SortStrings(etc) + SortStrings(usr), Leq);
  }

  lemma SortedConcat(etc: seq<string>, usr: seq<string>)
    requires SortedBy(etc, Leq) && SortedBy(usr, Leq)
    requires forall f :: f in etc ==> ETC_PRESETS_PATH <= f
    requires forall f :: f in usr ==> USR_PRESETS_PATH <= f
    ensures SortedBy(etc + usr, Leq)
  {
    hide Leq;
    forall i, j | 0 <= i < |etc| && 0 <= j < |usr| ensures Leq(etc[i], usr[j]) {
      assert etc[i] in etc && usr[j] in usr;
      EtcSortsFirst(etc[i], usr[j]);
      LeqTotal(etc[i], usr[j]);
    }
  }

  /** From the listings of the two directories to the table: a `ValueError` only for an invalid line
    * that is not ignored, and otherwise each unit has the state that the first line about it gives
    * it, the /etc files in force being read before the /usr files in force.
    */
  method SystemPresets(host: Host, content: string -> seq<string>, etcFiles: seq<string>, usrFiles: seq<string>,
                       maskers: set<string>, loadPath: seq<string>, ignoreInvalidEntries: bool)
    returns (presets: Option<map<string, string>>)
    ensures Expected(etcFiles, usrFiles, maskers) && LiteralAt(host) ==>
              var files := EtcInForce(etcFiles, usrFiles, maskers) + UsrInForce(etcFiles, usrFiles);
              && (presets.None? <==> !ignoreInvalidEntries && SomeLineInvalid(content, files))
              && (presets.Some? ==> TableOfLines(host, content, loadPath, files, presets.value))
  {
    hide Expected, LiteralAt, AllEntries, AllSettings, Apply, PO.JoinFrom, SortedBy, EtcInForce, UsrInForce, AllValid,
      TableOfLines, SomeLineInvalid;
    var files := GetSystemPresetFiles(etcFiles, usrFiles, maskers);
    if files.None? {
      ExpectedJoins(etcFiles, usrFiles, maskers);
      return None;
    }
    presets := ParsePresetFiles(host, content, files.value, loadPath, ignoreInvalidEntries);
    if Expected(etcFiles, usrFiles, maskers) {
      FilesInForce(etcFiles, usrFiles, maskers, files.value);
    }
  }

  lemma ExpectedJoins(etcFiles: seq<string>, usrFiles: seq<string>, maskers: set<string>)
    ensures Expected(etcFiles, usrFiles, maskers) ==> PO.JoinFrom(etcFiles, 0, usrFiles, maskers).Some?
  {
    if Expected(etcFiles, usrFiles, maskers) { PO.JoinIsIntended(etcFiles, usrFiles, maskers); }
  }
}
