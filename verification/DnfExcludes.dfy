/** `dnflibs/dnfconfig.py`: reading the main options that DNF dumps, and keeping the leapp
  * packages on its exclude list.
  */
module DnfExcludes {
  import opened Wrappers
  import opened Seqs
  import opened Strings
  import opened Ordering

  // ---------------------------------------------------------------- the exclude list as text

  /** `_strip_split(data, sep)` */
  function StripSplit(data: string, sep: char): seq<string> { StripAll(Split(data, sep)) }

  function NonEmpty(items: seq<string>): seq<string> {
    if items == [] then [] else (if items[0] == "" then [] else [items[0]]) + NonEmpty(items[1..])
  }

  /** The package names of an exclude option. */
  function Names(value: string): seq<string> { NonEmpty(StripSplit(value, ',')) }

  /** A name as RPM has them: not empty, no comma, no outer white space. */
  predicate IsName(s: string) { s != "" && ',' !in s && Bare(s, IsSpace) }

  ghost predicate AllNames(names: seq<string>) { forall i :: 0 <= i < |names| ==> IsName(names[i]) }

  lemma {:induction false} NamesStripped(names: seq<string>)
    requires AllNames(names)
    ensures NonEmpty(StripAll(names)) == names && Free(names, ',')
  {
    if names != [] {
      assert IsName(names[0]);
      HeadTail(names);
      StripOfBare(names[0], IsSpace);
      NamesStripped(names[1..]);
      TailOfCons(names[0], StripAll(names[1..]));
    }
  }

  /** Joining names with commas and splitting again gives the names. */
  lemma NamesOfJoined(names: seq<string>)
    requires AllNames(names)
    ensures Names(Join(names, ",")) == names
  {
    NamesStripped(names);
    if names == [] {
      SplitOfFree("", ',');
      assert StripSplit("", ',') == [""];
    } else {
      SplitJoin(names, ',');
    }
  }

  /** Whatever the option says, what is read from it are proper names. */
  lemma NamesAreNames(value: string)
    ensures AllNames(Names(value))
  {
    SplitIsFree(value, ',');
    StrippedNames(Split(value, ','));
  }

  lemma {:induction false} StrippedNames(items: seq<string>)
    requires Free(items, ',')
    ensures AllNames(NonEmpty(StripAll(items)))
  {
    if items != [] {
      var pre, post := StripSpec(items[0], IsSpace);
      var s := Strip(items[0], IsSpace);
      assert ',' !in items[0] && items[0] == pre + s + post;
      assert forall c :: c in s ==> c in items[0];
      assert Free(items[1..], ',');
      StrippedNames(items[1..]);
      TailOfCons(s, StripAll(items[1..]));
    }
  }

  /** One item of an exclude option as it may be written: a name or nothing, in white space. */
  datatype Piece = Piece(pre: string, name: string, post: string)

  function PieceTexts(pieces: seq<Piece>): seq<string> {
    if pieces == [] then [] else [pieces[0].pre + pieces[0].name + pieces[0].post] + PieceTexts(pieces[1..])
  }

  /** The names of the items that have one, in order. */
  function NamesAmong(pieces: seq<Piece>): seq<string> {
    if pieces == [] then []
    else (if pieces[0].name == "" then [] else [pieces[0].name]) + NamesAmong(pieces[1..])
  }

  ghost predicate GoodPiece(p: Piece) {
    && (forall i :: 0 <= i < |p.pre| ==> IsSpace(p.pre[i])) && (forall i :: 0 <= i < |p.post| ==> IsSpace(p.post[i]))
    && (p.name != "" ==> ',' !in p.name && !IsSpace(p.name[0]) && !IsSpace(p.name[|p.name| - 1]))
  }

  /** A text is the items, with commas between them. */
  ghost predicate Reads(value: string, pieces: seq<Piece>) {
    (forall i :: 0 <= i < |pieces| ==> GoodPiece(pieces[i])) && value == Join(PieceTexts(pieces), ",")
  }

  lemma {:induction false} PiecesStripped(pieces: seq<Piece>)
    requires forall i :: 0 <= i < |pieces| ==> GoodPiece(pieces[i])
    ensures NonEmpty(StripAll(PieceTexts(pieces))) == NamesAmong(pieces) && Free(PieceTexts(pieces), ',')
  {
    if pieces != [] {
      var p, rest := pieces[0], PieceTexts(pieces[1..]);
      assert GoodPiece(p);
      PiecesStripped(pieces[1..]);
      StripPadded(p.pre, p.name, p.post, IsSpace);
      assert ',' !in p.pre && ',' !in p.post;
      TailOfCons(p.pre + p.name + p.post, rest);
      TailOfCons(p.name, StripAll(rest));
    }
  }

  /** However the items are padded, and whether or not some are empty: the names read are the names
    * written, in order.
    */
  lemma NamesOfPieces(value: string, pieces: seq<Piece>)
    requires Reads(value, pieces)
    ensures Names(value) == NamesAmong(pieces)
  {
    PiecesStripped(pieces);
    if pieces == [] {
      SplitOfFree("", ',');
      assert StripSplit("", ',') == [""];
    } else {
      SplitJoin(PieceTexts(pieces), ',');
    }
  }

  lemma PieceOf(item: string) returns (p: Piece)
    requires ',' !in item
    ensures GoodPiece(p) && p.pre + p.name + p.post == item
  {
    var pre, post := StripSpec(item, IsSpace);
    p := Piece(pre, Strip(item, IsSpace), post);
    assert forall c :: c in p.name ==> c in pre + p.name + post;
  }

  lemma {:induction false} PiecesOf(items: seq<string>) returns (pieces: seq<Piece>)
    requires Free(items, ',')
    ensures PieceTexts(pieces) == items && forall i :: 0 <= i < |pieces| ==> GoodPiece(pieces[i])
  {
    hide GoodPiece;
    pieces := [];
    if items != [] {
      var p := PieceOf(items[0]);
      assert Free(items[1..], ',');
      var rest := PiecesOf(items[1..]);
      pieces := [p] + rest;
      TailOfCons(p, rest);
      HeadTail(items);
    }
  }

  /** Every text is some such items. */
  lemma EveryValueReads(value: string) returns (pieces: seq<Piece>)
    ensures Reads(value, pieces)
  {
    SplitIsFree(value, ',');
    JoinSplit(value, ',');
    pieces := PiecesOf(Split(value, ','));
  }

  // ---------------------------------------------------------------- the dump

  /** `key, val = _strip_split(line, '=', 1)`; `None` for a blank line and for the `ValueError`
    * of a line without '='.
    */
  function ReadOption(line: string): Option<(string, string)> {
    if Strip(line, IsSpace) == "" then None
    else
      var parts := Split(line, '=');
      if |parts| == 1 then None else Some((Strip(parts[0], IsSpace), Strip(Join(parts[1..], "="), IsSpace)))
  }

  function ReadOptions(lines: seq<string>): map<string, string> {
    if lines == [] then map[]
    else
      var options := ReadOptions(lines[..|lines| - 1]);
      var last := ReadOption(lines[|lines| - 1]);
      if last.None? then options else options[last.value.0 := last.value.1]
  }

  /** The lines after the first `[main]`. */
  function AfterMain(data: seq<string>): Option<seq<string>> {
    if data == [] then None else if data[0] == "[main]" then Some(data[1..]) else AfterMain(data[1..])
  }

  /** A line with a '=' gives what is around the first one, without white space. */
  lemma OptionLineSpec(key: string, value: string, a: string, b: string, c: string, d: string)
    requires '=' !in key && Bare(key, IsSpace) && Bare(value, IsSpace)
    requires Only(a, IsSpace) && Only(b, IsSpace) && Only(c, IsSpace) && Only(d, IsSpace)
    ensures ReadOption(a + key + b + "=" + (c + value + d)) == Some((key, value))
  {
    hide Strip, Split, Join;
    var left, right := a + key + b, c + value + d;
    var line := left + "=" + right;
    assert '=' !in a && '=' !in b by { assert !IsSpace('='); }
    StripPadded(a, key, b, IsSpace);
    StripPadded(c, value, d, IsSpace);
    SplitAppend(left, right, '=');
    SplitOfFree(left, '=');
    TailOfCons(left, Split(right, '='));
    JoinSplit(right, '=');
    StripToNothing(line, IsSpace);
    assert line[|left|] == '=' && !IsSpace('=');
  }

  /** A line without one gives nothing. */
  lemma NoOptionLine(line: string)
    requires '=' !in line
    ensures ReadOption(line).None?
  {
    SplitOfFree(line, '=');
  }

  ghost predicate Sets(line: string, key: string) {
    ReadOption(line).Some? && ReadOption(line).value.0 == key
  }

  /** The options read are those that some line sets, each with the value of the last such line. */
  lemma {:induction false} ReadOptionsSpec(lines: seq<string>, key: string) returns (at: nat)
    ensures key in ReadOptions(lines) ==>
              && at < |lines| && ReadOption(lines[at]) == Some((key, ReadOptions(lines)[key]))
              && forall i :: at < i < |lines| ==> !Sets(lines[i], key)
    ensures key !in ReadOptions(lines) ==> forall i :: 0 <= i < |lines| ==> !Sets(lines[i], key)
  {
    hide ReadOption;
    at := 0;
    if lines != [] {
      var init := lines[..|lines| - 1];
      at := ReadOptionsSpec(init, key);
      assert forall i :: 0 <= i < |init| ==> lines[i] == init[i];
      if Sets(lines[|lines| - 1], key) { at := |lines| - 1; }
    }
  }

  /** `_get_main_dump`: the options in the lines after the first `[main]`; `None` is
    * `InvalidDNFConfig`.
    */
  method GetMainDump(data: seq<string>) returns (options: Option<map<string, string>>)
    ensures options == var main := AfterMain(data); if main.None? then None else Some(ReadOptions(main.value))
    ensures options.None? <==> "[main]" !in data
    ensures options.Some? ==> exists n :: 0 <= n < |data| && data[n] == "[main]" && "[main]" !in data[..n]
                                          && options.value == ReadOptions(data[n + 1..])
  {
    var mainStart := 0;
    while mainStart < |data| && data[mainStart] != "[main]"
      invariant mainStart <= |data| && AfterMain(data) == AfterMain(data[mainStart..])
      invariant "[main]" !in data[..mainStart]
    {
      mainStart := mainStart + 1;
    }
    if mainStart == |data| { return None; }
    var lines := data[mainStart + 1..];
    assert data[mainStart..][1..] == lines;
    var output: map<string, string> := map[];
    for i := 0 to |lines|
      invariant output == ReadOptions(lines[..i])
    {
      var line := lines[i];
      assert lines[..i + 1][..i] == lines[..i];
      if Strip(line, IsSpace) != "" {
        var parts := Split(line, '=');
        if |parts| > 1 {
          output := output[Strip(parts[0], IsSpace) := Strip(Join(parts[1..], "="), IsSpace)];
        }
      }
    }
    assert lines[..|lines|] == lines;
    options := Some(output);
  }

  // ---------------------------------------------------------------- DNF

  /** The options DNF keeps in its main section. */
  class Dnf {
    var options: map<string, string>

    constructor (options: map<string, string>)
      requires Dumpable(options)
      ensures this.options == options
    {
      this.options := options;
    }

    ghost predicate Valid()
      reads this
    {
      Dumpable(options)
    }

    /** `dnf config-manager --dump`: the main section, one option a line, in some order; the
      * call may fail.
      */
    method DumpConfig() returns (data: Option<seq<string>>)
      ensures data.Some? ==> exists keys: seq<string> ::
                NoDup(keys) && (forall k :: k in keys <==> k in options)
                 && data.value == ["[main]"] + Render(keys, options)
    {
      var keys: seq<string> := [];
      var left := options.Keys;
      while left != {}
        invariant left <= options.Keys && NoDup(keys)
        invariant forall k :: k in keys <==> k in options && k !in left
        decreases left
      {
        var k :| k in left;
        keys, left := keys + [k], left - {k};
      }
      var ok := *;
      data := if ok then Some(["[main]"] + Render(keys, options)) else None;
    }

    /** `dnf config-manager --save --setopt exclude=...`: DNF may spell the list its own way, as
      * long as it has the same names; the call may fail.
      */
    method SaveExclude(value: string) returns (ok: bool)
      requires Valid() && Bare(value, IsSpace)
      modifies this
      ensures Valid()
      ensures !ok ==> options == old(options)
      ensures ok ==> "exclude" in options && Names(options["exclude"]) == Names(value)
                     && options == old(options)["exclude" := options["exclude"]]
    {
      ok := *;
      if ok { options := options["exclude" := value]; }
    }
  }

  /** Options that a dump shows unambiguously. */
  ghost predicate Dumpable(options: map<string, string>) {
    forall k :: k in options ==> k != "" && '=' !in k && Bare(k, IsSpace) && Bare(options[k], IsSpace)
  }

  function OptionLine(key: string, value: string): string { key + " = " + value }

  function Render(keys: seq<string>, options: map<string, string>): seq<string>
    requires forall k :: k in keys ==> k in options
  {
    if keys == [] then []
    else Render(keys[..|keys| - 1], options) + [OptionLine(keys[|keys| - 1], options[keys[|keys| - 1]])]
  }

  lemma OptionLineReads(key: string, value: string)
    requires key != "" && '=' !in key && Bare(key, IsSpace) && Bare(value, IsSpace)
    ensures ReadOption(OptionLine(key, value)) == Some((key, value))
  {
    var line := OptionLine(key, value);
    LineSplits(key, value);
    StripPadded("", key, " ", IsSpace);
    StripPadded(" ", value, "", IsSpace);
    AppendNil(key + " ");
    AppendNil(key);
    AppendNil(" " + value);
    StripToNothing(line, IsSpace);
    assert !IsSpace(line[0]);
  }

  lemma LineSplits(key: string, value: string)
    requires '=' !in key
    ensures var parts := Split(OptionLine(key, value), '=');
            |parts| > 1 && parts[0] == key + " " && Join(parts[1..], "=") == " " + value
  {
    var left, right := key + " ", " " + value;
    assert OptionLine(key, value) == left + ['='] + right;
    SplitAppend(left, right, '=');
    SplitOfFree(left, '=');
    TailOfCons(left, Split(right, '='));
    JoinSplit(right, '=');
  }

  lemma {:induction false} RenderReads(keys: seq<string>, options: map<string, string>)
    requires Dumpable(options) && NoDup(keys) && forall k :: k in keys ==> k in options
    ensures forall k :: k in ReadOptions(Render(keys, options)) <==> k in keys
    ensures forall k :: k in keys ==> ReadOptions(Render(keys, options))[k] == options[k]
  {
    if keys != [] {
      var init, last := keys[..|keys| - 1], keys[|keys| - 1];
      assert keys == init + [last];
      RenderReads(init, options);
      OptionLineReads(last, options[last]);
      InitOfAppend(Render(init, options), [OptionLine(last, options[last])]);
      AppendNil(Render(init, options));
    }
  }

  /** Reading a dump gives the options that were dumped. */
  lemma DumpReadsBack(keys: seq<string>, options: map<string, string>)
    requires Dumpable(options) && NoDup(keys) && forall k :: k in keys <==> k in options
    ensures AfterMain(["[main]"] + Render(keys, options)) == Some(Render(keys, options))
    ensures ReadOptions(Render(keys, options)) == options
  {
    TailOfCons("[main]", Render(keys, options));
    RenderReads(keys, options);
  }

  // ---------------------------------------------------------------- excluding leapp

  function NamesIn(options: map<string, string>): seq<string> {
    Names(if "exclude" in options then options["exclude"] else "")
  }

  datatype Status = Done | CannotObtain | CannotUpdate

  /** The text of the exclude option. */
  function ExcludeText(options: map<string, string>): string {
    if "exclude" in options then options["exclude"] else ""
  }

  /** `_get_excluded_pkgs`: the names written in the option, however it is padded. */
  method GetExcludedPkgs(dnf: Dnf) returns (pkgs: Option<seq<string>>)
    requires dnf.Valid()
    ensures pkgs.Some? ==> pkgs.value == NamesIn(dnf.options)
    ensures pkgs.Some? ==> forall pieces :: Reads(ExcludeText(dnf.options), pieces) ==> pkgs.value == NamesAmong(pieces)
  {
    forall pieces | Reads(ExcludeText(dnf.options), pieces)
      ensures NamesIn(dnf.options) == NamesAmong(pieces)
    {
      NamesOfPieces(ExcludeText(dnf.options), pieces);
    }
    var data := dnf.DumpConfig();
    if data.None? { return None; }
    var main := GetMainDump(data.value);
    ghost var keys: seq<string> :| NoDup(keys) && (forall k :: k in keys <==> k in dnf.options)
                                   && data.value == ["[main]"] + Render(keys, dnf.options);
    DumpReadsBack(keys, dnf.options);
    pkgs := Some(Names(if "exclude" in main.value then main.value["exclude"] else ""));
  }

  /** `list(set(names))`: each name once, in some order. */
  method ListOfSet(names: seq<string>) returns (list: seq<string>)
    ensures NoDup(list) && Elements(list) == Elements(names)
  {
    list := [];
    var left := Elements(names);
    while left != {}
      invariant left <= Elements(names) && NoDup(list)
      invariant forall n :: n in list <==> n in names && n !in left
      decreases left
    {
      var n :| n in left;
      list, left := list + [n], left - {n};
    }
  }

  lemma {:induction false} JoinedIsBare(names: seq<string>)
    requires AllNames(names)
    ensures Bare(Join(names, ","), IsSpace)
    ensures names != [] ==> Join(names, ",") != ""
  {
    if names != [] {
      assert IsName(names[0]);
      if |names| > 1 {
        assert AllNames(names[1..]);
        JoinedIsBare(names[1..]);
        LastOf(names[0] + ",", Join(names[1..], ","));
      }
    }
  }

  /** `exclude_leapp_rpms`: on success the names read back are the old ones and the leapp
    * packages, each once; on failure nothing has changed.
    */
  method ExcludeLeappRpms(dnf: Dnf, leappPackages: seq<string>) returns (status: Status)
    requires dnf.Valid() && AllNames(leappPackages)
    modifies dnf
    ensures dnf.Valid()
    ensures status != Done ==> dnf.options == old(dnf.options)
    ensures status == Done ==>
              && Elements(NamesIn(dnf.options)) == Elements(NamesIn(old(dnf.options))) + Elements(leappPackages)
              && NoDup(NamesIn(dnf.options))
              && "exclude" in dnf.options && dnf.options == old(dnf.options)["exclude" := dnf.options["exclude"]]
    ensures status == Done ==> forall before, after ::
              Reads(ExcludeText(old(dnf.options)), before) && Reads(ExcludeText(dnf.options), after) ==>
                Elements(NamesAmong(after)) == Elements(NamesAmong(before)) + Elements(leappPackages)
  {
    hide Names, IsName, Dumpable, Bare, Reads;
    var excluded := GetExcludedPkgs(dnf);
    if excluded.None? { return CannotObtain; }
    var toExclude := ListOfSet(excluded.value + leappPackages);
    NamesAreNames(if "exclude" in dnf.options then dnf.options["exclude"] else "");
    AllNamesOfSet(excluded.value, leappPackages, toExclude);
    NamesOfJoined(toExclude);
    JoinedIsBare(toExclude);
    var ok := dnf.SaveExclude(Join(toExclude, ","));
    status := if ok then Done else CannotUpdate;
    forall before, after | Reads(ExcludeText(old(dnf.options)), before) && Reads(ExcludeText(dnf.options), after)
      ensures NamesIn(old(dnf.options)) == NamesAmong(before) && NamesIn(dnf.options) == NamesAmong(after)
    {
      NamesOfPieces(ExcludeText(old(dnf.options)), before);
      NamesOfPieces(ExcludeText(dnf.options), after);
    }
  }

  lemma AllNamesOfSet(a: seq<string>, b: seq<string>, list: seq<string>)
    requires AllNames(a) && AllNames(b) && Elements(list) == Elements(a + b)
    ensures AllNames(list) && Elements(list) == Elements(a) + Elements(b)
  {
    hide IsName;
    forall n ensures n in Elements(list) <==> n in Elements(a) + Elements(b) {
      assert n in a + b <==> n in a || n in b;
    }
    forall i | 0 <= i < |list| ensures IsName(list[i]) {
      assert list[i] in Elements(list);
    }
  }

  /** A second run finds everything in place. */
  method ExcludeTwice(dnf: Dnf, leappPackages: seq<string>) returns (first: Status, second: Status)
    requires dnf.Valid() && AllNames(leappPackages)
    modifies dnf
    ensures first == Done ==>
              Elements(NamesIn(dnf.options)) == Elements(NamesIn(old(dnf.options))) + Elements(leappPackages)
  {
    first := ExcludeLeappRpms(dnf, leappPackages);
    second := ExcludeLeappRpms(dnf, leappPackages);
  }
}
