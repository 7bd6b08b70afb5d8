/** `config/version.py`: matching a version against a list of versions or of comparisons. */
module Versions {
  import opened Seqs
  import opened Strings
  import opened Numbers

  // ---------------------------------------------------------------- version strings

  function WithoutFinalNewline(s: string): string {
    if s != "" && s[|s| - 1] == '\n' then s[..|s| - 1] else s
  }

  /** The regular expression of `_validate_versions`; its final `$` lets one newline through. */
  predicate ValidVersion(version: string) {
    var parts := Split(WithoutFinalNewline(version), '.');
    |parts| == 2 && Digits(parts[0]) && parts[0][0] != '0' && Digits(parts[1])
  }

  /** `_version_to_tuple`; `int` ignores the newline that the validation lets through. */
  function VersionToTuple(version: string): (int, int)
    requires ValidVersion(version)
  {
    var parts := Split(WithoutFinalNewline(version), '.');
    (ToNat(parts[0]), ToNat(parts[1]))
  }

  /** `<=` on tuples */
  predicate TupleLeq(a: (int, int), b: (int, int)) {
    a.0 < b.0 || (a.0 == b.0 && a.1 <= b.1)
  }

  const OP_MAP := {">", ">=", "<", "<="}

  predicate Compare(op: string, a: (int, int), b: (int, int))
    requires op in OP_MAP
  {
    if op == ">" then !TupleLeq(a, b)
    else if op == ">=" then TupleLeq(b, a)
    else if op == "<" then !TupleLeq(b, a)
    else TupleLeq(a, b)
  }

  // ---------------------------------------------------------------- the match list

  /** The answer, or the `ValueError`. */
  datatype Answer = Answer(matches: bool) | ValueError

  predicate IsBare(v: string) { |Words(v)| == 1 }

  /** `_are_comparison_operators_used` */
  predicate OperatorsUsed(versions: seq<string>) {
    !forall i :: 0 <= i < |versions| ==> IsBare(versions[i])
  }

  predicate IsComparison(v: string) {
    |Words(v)| == 2 && Words(v)[0] in OP_MAP
  }

  /** `_cmp_versions` */
  predicate CmpVersions(versions: seq<string>) {
    forall i :: 0 <= i < |versions| ==> IsComparison(versions[i])
  }

  predicate BareValid(versions: seq<string>) {
    forall i :: 0 <= i < |versions| ==> ValidVersion(versions[i])
  }

  predicate ComparisonsValid(versions: seq<string>)
    requires CmpVersions(versions)
  {
    forall i :: 0 <= i < |versions| ==> ValidVersion(Words(versions[i])[1])
  }

  predicate Holds(comparison: string, detected: string)
    requires IsComparison(comparison) && ValidVersion(Words(comparison)[1]) && ValidVersion(detected)
  {
    Compare(Words(comparison)[0], VersionToTuple(detected), VersionToTuple(Words(comparison)[1]))
  }

  /** `matches_version` after the corrections for CentOS. */
  function Evaluate(matchList: seq<string>, detected: string): Answer {
    if !ValidVersion(detected) then ValueError
    else if !OperatorsUsed(matchList) then
      if BareValid(matchList) then Answer(detected in matchList) else ValueError
    else if CmpVersions(matchList) && ComparisonsValid(matchList) then
      Answer(forall i :: 0 <= i < |matchList| ==> Holds(matchList[i], detected))
    else ValueError
  }

  // ---------------------------------------------------------------- CentOS

  datatype Config = Config(sourceDistro: string, targetDistro: string, source: string, target: string,
                           virtualSource: string, virtualTarget: string)

  predicate OnCentos(cfg: Config) {
    cfg.sourceDistro == "centos" || cfg.targetDistro == "centos"
  }

  /** `_autocorrect_centos_version` */
  function Autocorrect(version: string, cfg: Config): string {
    if version == cfg.source then cfg.virtualSource
    else if version == cfg.target then cfg.virtualTarget
    else version
  }

  function AutocorrectEntry(entry: string, cfg: Config): string {
    var parts := Split(entry, ' ');
    if |parts| > 1 then parts[0] + " " + Autocorrect(Join(parts[1..], " "), cfg) else Autocorrect(entry, cfg)
  }

  function AutocorrectAll(entries: seq<string>, cfg: Config): seq<string> {
    if entries == [] then [] else [AutocorrectEntry(entries[0], cfg)] + AutocorrectAll(entries[1..], cfg)
  }

  function Matches(matchList: seq<string>, detected: string, cfg: Config): Answer {
    if OnCentos(cfg) then Evaluate(AutocorrectAll(matchList, cfg), Autocorrect(detected, cfg))
    else Evaluate(matchList, detected)
  }

  /** `matches_version` */
  method MatchesVersion(matchList: seq<string>, detected: string, cfg: Config) returns (answer: Answer)
    ensures answer == Matches(matchList, detected, cfg)
  {
    hide Evaluate, Autocorrect, AutocorrectEntry;
    if OnCentos(cfg) {
      var newMatchlist: seq<string> := [];
      for i := 0 to |matchList|
        invariant AutocorrectAll(matchList, cfg) == newMatchlist + AutocorrectAll(matchList[i..], cfg)
      {
        assert matchList[i..][1..] == matchList[i + 1..];
        Associative(newMatchlist, [AutocorrectEntry(matchList[i], cfg)], AutocorrectAll(matchList[i + 1..], cfg));
        newMatchlist := newMatchlist + [AutocorrectEntry(matchList[i], cfg)];
      }
      AppendNil(newMatchlist);
      answer := EvaluateList(newMatchlist, Autocorrect(detected, cfg));
    } else {
      answer := EvaluateList(matchList, detected);
    }
  }

  method EvaluateList(matchList: seq<string>, detected: string) returns (answer: Answer)
    ensures answer == Evaluate(matchList, detected)
  {
    hide ValidVersion, Words, VersionToTuple, IsBare;
    if !ValidVersion(detected) { return ValueError; }
    if !OperatorsUsed(matchList) {
      if !BareValid(matchList) { return ValueError; }
      return Answer(detected in matchList);
    }
    if CmpVersions(matchList) {
      if !ComparisonsValid(matchList) { return ValueError; }
      for i := 0 to |matchList|
        invariant forall j :: 0 <= j < i ==> Holds(matchList[j], detected)
      {
        if !Holds(matchList[i], detected) { return Answer(false); }
      }
      return Answer(true);
    }
    answer := ValueError;
  }

  // ---------------------------------------------------------------- what a match list means

  ghost predicate AllBare(versions: seq<string>) { forall v :: v in versions ==> IsBare(v) }

  ghost predicate AllComparisons(versions: seq<string>) { forall v :: v in versions ==> IsComparison(v) }

  lemma IndexedIsMembership(versions: seq<string>)
    ensures AllBare(versions) <==> !OperatorsUsed(versions)
    ensures AllComparisons(versions) <==> CmpVersions(versions)
    ensures AllBare(versions) && AllComparisons(versions) ==> versions == []
  {
    hide Words;
    assert forall v :: v in versions ==> exists i :: 0 <= i < |versions| && versions[i] == v;
    if versions != [] { assert versions[0] in versions; }
  }

  /** Whether a list means anything, and then whether it accepts the version, entry by entry. */
  lemma EvaluateMeaning(list: seq<string>, detected: string)
    ensures Evaluate(list, detected).Answer? <==>
              && ValidVersion(detected)
              && ((forall v :: v in list ==> IsBare(v) && ValidVersion(v))
                  || (forall v :: v in list ==> IsComparison(v) && ValidVersion(Words(v)[1])))
    ensures Evaluate(list, detected).Answer? && AllBare(list) ==> Evaluate(list, detected).matches == (detected in list)
    ensures Evaluate(list, detected).Answer? && list != [] && AllComparisons(list) ==>
              Evaluate(list, detected).matches == forall v :: v in list ==> Holds(v, detected)
  {
    hide Words, ValidVersion, VersionToTuple;
    IndexedIsMembership(list);
    assert forall v :: v in list ==> exists i :: 0 <= i < |list| && list[i] == v;
  }

  lemma SameEntries(a: seq<string>, b: seq<string>)
    requires forall v :: v in a <==> v in b
    ensures a == [] <==> b == []
  {
    if a != [] { assert a[0] in a; }
    if b != [] { assert b[0] in b; }
  }

  /** The answer depends on which entries a list has, not on their order or number. */
  lemma OrderIsIrrelevant(a: seq<string>, b: seq<string>, detected: string)
    requires forall v :: v in a <==> v in b
    ensures Evaluate(a, detected) == Evaluate(b, detected)
  {
    hide ValidVersion, Words, Holds, Evaluate;
    SameEntries(a, b);
    EvaluateMeaning(a, detected);
    EvaluateMeaning(b, detected);
    IndexedIsMembership(a);
    if Evaluate(a, detected).Answer? && !AllBare(a) {
      assert AllComparisons(a) && AllComparisons(b);
    }
  }

  /** Joining non-empty lists of comparisons is AND, and an error in either is an error. */
  lemma JoiningComparisonsIsAnd(a: seq<string>, b: seq<string>, detected: string)
    requires a != [] && b != [] && AllComparisons(a) && AllComparisons(b)
    ensures Evaluate(a + b, detected)
            == if Evaluate(a, detected).ValueError? || Evaluate(b, detected).ValueError? then ValueError
               else Answer(Evaluate(a, detected).matches && Evaluate(b, detected).matches)
  {
    hide ValidVersion, Words, Holds, Evaluate;
    IndexedIsMembership(a);
    IndexedIsMembership(b);
    EvaluateMeaning(a, detected);
    EvaluateMeaning(b, detected);
    EvaluateMeaning(a + b, detected);
    assert forall v :: v in a + b <==> v in a || v in b;
    IndexedIsMembership(a + b);
  }

  /** Joining lists of bare versions is OR, and an error in either is an error. */
  lemma JoiningBareVersionsIsOr(a: seq<string>, b: seq<string>, detected: string)
    requires AllBare(a) && AllBare(b)
    ensures Evaluate(a + b, detected)
            == if Evaluate(a, detected).ValueError? || Evaluate(b, detected).ValueError? then ValueError
               else Answer(Evaluate(a, detected).matches || Evaluate(b, detected).matches)
  {
    hide ValidVersion, Words, Holds, Evaluate;
    EvaluateMeaning(a, detected);
    EvaluateMeaning(b, detected);
    EvaluateMeaning(a + b, detected);
    assert forall v :: v in a + b <==> v in a || v in b;
    IndexedIsMembership(a);
    IndexedIsMembership(b);
    IndexedIsMembership(a + b);
  }

  /** A list that mixes bare versions and anything else always raises. */
  lemma MixedListRaises(list: seq<string>, bare: string, other: string, detected: string)
    requires bare in list && other in list && IsBare(bare) && !IsBare(other)
    ensures Evaluate(list, detected) == ValueError
  {
    hide ValidVersion, Words, Holds, Evaluate;
    EvaluateMeaning(list, detected);
  }

  /** Comparisons accept an interval: with two versions every version between them. */
  lemma AcceptedVersionsAreConvex(list: seq<string>, low: string, middle: string, high: string)
    requires AllComparisons(list) && list != []
    requires Evaluate(list, low) == Answer(true) && Evaluate(list, high) == Answer(true) && ValidVersion(middle)
    requires TupleLeq(VersionToTuple(low), VersionToTuple(middle))
    requires TupleLeq(VersionToTuple(middle), VersionToTuple(high))
    ensures Evaluate(list, middle) == Answer(true)
  {
    hide ValidVersion, Words, VersionToTuple, Evaluate;
    EvaluateMeaning(list, low);
    EvaluateMeaning(list, middle);
    EvaluateMeaning(list, high);
    IndexedIsMembership(list);
    forall v | v in list ensures Holds(v, middle) {
      assert Holds(v, low) && Holds(v, high);
    }
  }

  /** Versions that are equal as numbers are treated alike by comparisons. */
  lemma OnlyNumbersMatter(list: seq<string>, a: string, b: string)
    requires AllComparisons(list) && list != [] && ValidVersion(a) && ValidVersion(b)
    requires VersionToTuple(a) == VersionToTuple(b)
    ensures Evaluate(list, a) == Evaluate(list, b)
  {
    hide ValidVersion, Words, VersionToTuple, Evaluate;
    EvaluateMeaning(list, a);
    EvaluateMeaning(list, b);
    IndexedIsMembership(list);
  }

  // ---------------------------------------------------------------- substitution on CentOS

  /** A comparison in the documented spelling. */
  datatype Comparison = Comparison(op: string, version: string)

  ghost predicate NoSpace(s: string) { s != "" && forall i :: 0 <= i < |s| ==> !IsSpace(s[i]) }

  function Spell(c: Comparison): string { c.op + " " + c.version }

  function SpellAll(cs: seq<Comparison>): seq<string> {
    if cs == [] then [] else [Spell(cs[0])] + SpellAll(cs[1..])
  }

  function Substitute(cs: seq<Comparison>, cfg: Config): seq<Comparison> {
    if cs == [] then []
    else [Comparison(cs[0].op, Autocorrect(cs[0].version, cfg))] + Substitute(cs[1..], cfg)
  }

  lemma WordsOfSpelled(op: string, version: string)
    requires NoSpace(op) && NoSpace(version)
    ensures Words(op + " " + version) == [op, version]
  {
    var s, tail := op + " " + version, " " + version;
    Associative(op, " ", version);
    TailOfAppend(op, tail);
    WordIsAll(op, tail);
    assert LStrip(s, IsSpace) == s;
    assert s[|op|..] == tail;
    TailOfCons(' ', version);
    assert LStrip(tail, IsSpace) == version;
    AppendNil(version);
    WordIsAll(version, "");
    assert version[|version|..] == "";
    assert Words(tail) == [version] + Words("");
  }

  /** On CentOS a spelled comparison is corrected in its version only. */
  lemma AutocorrectSpelled(c: Comparison, cfg: Config)
    requires NoSpace(c.op)
    ensures AutocorrectEntry(Spell(c), cfg) == Spell(Comparison(c.op, Autocorrect(c.version, cfg)))
  {
    hide Autocorrect;
    assert IsSpace(' ');
    SplitAppend(c.op, c.version, ' ');
    SplitOfFree(c.op, ' ');
    TailOfCons(c.op, Split(c.version, ' '));
    JoinSplit(c.version, ' ');
  }

  lemma {:induction false} AutocorrectAllSpelled(cs: seq<Comparison>, cfg: Config)
    requires forall i :: 0 <= i < |cs| ==> NoSpace(cs[i].op)
    ensures AutocorrectAll(SpellAll(cs), cfg) == SpellAll(Substitute(cs, cfg))
  {
    hide Autocorrect, AutocorrectEntry, NoSpace;
    if cs != [] {
      AutocorrectSpelled(cs[0], cfg);
      TailOfCons(Spell(cs[0]), SpellAll(cs[1..]));
      AutocorrectAllSpelled(cs[1..], cfg);
      TailOfCons(Comparison(cs[0].op, Autocorrect(cs[0].version, cfg)), Substitute(cs[1..], cfg));
    }
  }

  ghost predicate Meaningful(cs: seq<Comparison>) {
    forall i :: 0 <= i < |cs| ==> cs[i].op in OP_MAP && NoSpace(cs[i].version) && ValidVersion(cs[i].version)
  }

  lemma OperatorsHaveNoSpace(op: string)
    requires op in OP_MAP
    ensures NoSpace(op)
  {
  }

  lemma {:induction false} SpelledList(cs: seq<Comparison>)
    ensures |SpellAll(cs)| == |cs| && forall i :: 0 <= i < |cs| ==> SpellAll(cs)[i] == Spell(cs[i])
  {
    if cs != [] { SpelledList(cs[1..]); }
  }

  /** Spelled comparisons evaluate to the conjunction of comparisons of tuples. */
  lemma SpelledComparisonsEvaluate(cs: seq<Comparison>, detected: string)
    requires cs != [] && Meaningful(cs) && ValidVersion(detected)
    ensures Evaluate(SpellAll(cs), detected)
            == Answer(forall i :: 0 <= i < |cs| ==>
                        Compare(cs[i].op, VersionToTuple(detected), VersionToTuple(cs[i].version)))
  {
    hide ValidVersion, VersionToTuple, Words, Holds, Compare, Spell;
    var list := SpellAll(cs);
    SpelledList(cs);
    forall i | 0 <= i < |cs|
      ensures IsComparison(list[i]) && !IsBare(list[i]) && Words(list[i])[1] == cs[i].version
      ensures Holds(list[i], detected) == Compare(cs[i].op, VersionToTuple(detected), VersionToTuple(cs[i].version))
    {
      SpelledEntry(cs[i], detected);
    }
    assert !IsBare(list[0]);
  }

  lemma SpelledEntry(c: Comparison, detected: string)
    requires c.op in OP_MAP && NoSpace(c.version) && ValidVersion(c.version) && ValidVersion(detected)
    ensures IsComparison(Spell(c)) && !IsBare(Spell(c)) && Words(Spell(c))[1] == c.version
    ensures Holds(Spell(c), detected) == Compare(c.op, VersionToTuple(detected), VersionToTuple(c.version))
  {
    hide ValidVersion, VersionToTuple, Words, Compare;
    OperatorsHaveNoSpace(c.op);
    WordsOfSpelled(c.op, c.version);
  }

  // ---------------------------------------------------------------- versions made of numbers

  /** `major.minor` */
  function Version(major: nat, minor: nat): string { Decimal(major) + "." + Decimal(minor) }

  /** A version with the newline that the validation lets through, or without it. */
  lemma VersionShape(a: string, b: string, end: string)
    requires Digits(a) && a[0] != '0' && Digits(b) && end in {"", "\n"}
    ensures ValidVersion(a + "." + b + end) && VersionToTuple(a + "." + b + end) == (ToNat(a), ToNat(b))
  {
    var v := a + "." + b;
    NoSpaceInDigits(a);
    NoSpaceInDigits(b);
    AppendNil(v);
    assert WithoutFinalNewline(v + end) == v by { assert v[|v| - 1] == b[|b| - 1]; }
    SplitAppend(a, b, '.');
    SplitOfFree(a, '.');
    SplitOfFree(b, '.');
  }

  /** Valid are exactly two runs of digits around a dot, the first one not starting with a zero,
    * and at most one newline after them.
    */
  lemma ValidVersionIff(v: string)
    ensures ValidVersion(v) <==>
              exists a: string, b: string, end: string ::
                && v == a + "." + b + end && end in {"", "\n"} && a != "" && b != "" && a[0] != '0'
                && (forall i :: 0 <= i < |a| ==> '0' <= a[i] <= '9') && forall i :: 0 <= i < |b| ==> '0' <= b[i] <= '9'
  {
    if ValidVersion(v) {
      var core := WithoutFinalNewline(v);
      var parts := Split(core, '.');
      var end := v[|core|..];
      JoinSplit(core, '.');
      assert parts[1..] == [parts[1]];
      assert Join(parts, ".") == parts[0] + "." + parts[1];
      assert end == if core == v then "" else "\n";
      assert v == parts[0] + "." + parts[1] + end;
      assert forall i :: 0 <= i < |parts[0]| ==> IsDigit(parts[0][i]);
      assert forall i :: 0 <= i < |parts[1]| ==> IsDigit(parts[1][i]);
    }
    if a: string, b: string, end: string :|
      && v == a + "." + b + end && end in {"", "\n"} && a != "" && b != "" && a[0] != '0'
      && (forall i :: 0 <= i < |a| ==> '0' <= a[i] <= '9') && forall i :: 0 <= i < |b| ==> '0' <= b[i] <= '9'
    {
      assert Digits(a) && Digits(b);
      VersionShape(a, b, end);
    }
  }

  /** The version written from two numbers is valid and means these numbers. */
  lemma VersionOfNumbers(major: nat, minor: nat)
    requires major >= 1
    ensures ValidVersion(Version(major, minor)) && VersionToTuple(Version(major, minor)) == (major, minor)
    ensures NoSpace(Version(major, minor))
  {
    ToNatOfDecimal(major);
    ToNatOfDecimal(minor);
    VersionShape(Decimal(major), Decimal(minor), "");
    AppendNil(Version(major, minor));
  }

  /** A comparison with a version given by its numbers. */
  datatype Numbered = Numbered(op: string, major: nat, minor: nat)

  function SpellNumbered(cs: seq<Numbered>): seq<string> {
    if cs == [] then []
    else [cs[0].op + " " + Version(cs[0].major, cs[0].minor)] + SpellNumbered(cs[1..])
  }

  function AsComparisons(cs: seq<Numbered>): seq<Comparison> {
    if cs == [] then [] else [Comparison(cs[0].op, Version(cs[0].major, cs[0].minor))] + AsComparisons(cs[1..])
  }

  lemma {:induction false} AsComparisonsSpec(cs: seq<Numbered>)
    ensures SpellAll(AsComparisons(cs)) == SpellNumbered(cs) && |AsComparisons(cs)| == |cs|
    ensures forall i :: 0 <= i < |cs| ==>
              AsComparisons(cs)[i] == Comparison(cs[i].op, Version(cs[i].major, cs[i].minor))
  {
    hide Version;
    if cs != [] {
      AsComparisonsSpec(cs[1..]);
      TailOfCons(Comparison(cs[0].op, Version(cs[0].major, cs[0].minor)), AsComparisons(cs[1..]));
    }
  }

  /** `['op major.minor', ...]` means the conjunction of comparisons of numbers: the major versions
    * first, and the minor ones if those are equal.
    */
  lemma SpelledComparisonsMean(cs: seq<Numbered>, major: nat, minor: nat, cfg: Config)
    requires cs != [] && major >= 1 && cfg.sourceDistro != "centos" && cfg.targetDistro != "centos"
    requires forall i :: 0 <= i < |cs| ==> cs[i].major >= 1 && cs[i].op in {">", ">=", "<", "<="}
    ensures Matches(SpellNumbered(cs), Decimal(major) + "." + Decimal(minor), cfg)
            == Answer(forall i :: 0 <= i < |cs| ==>
                        var c := cs[i];
                        var less := major < c.major || (major == c.major && minor < c.minor);
                        var more := major > c.major || (major == c.major && minor > c.minor);
                        if c.op == "<" then less else if c.op == ">" then more
                        else if c.op == "<=" then !more else !less)
  {
    hide ValidVersion, VersionToTuple, Evaluate, Version, Decimal, NoSpace;
    assert Decimal(major) + "." + Decimal(minor) == Version(major, minor) by { VersionMeans(major, minor); }
    var list := AsComparisons(cs);
    AsComparisonsSpec(cs);
    VersionOfNumbers(major, minor);
    forall i | 0 <= i < |cs| { VersionOfNumbers(cs[i].major, cs[i].minor); }
    OperatorsDiffer();
    SpelledComparisonsEvaluate(list, Version(major, minor));
  }

  lemma VersionMeans(major: nat, minor: nat)
    ensures Version(major, minor) == Decimal(major) + "." + Decimal(minor)
  {
  }

  /** Numbers of different length: 10.2 is at least 9.0. */
  lemma TenIsMoreThanNine(cfg: Config)
    requires cfg.sourceDistro != "centos" && cfg.targetDistro != "centos"
    ensures Matches([">= 9.0"], "10.2", cfg) == Answer(true)
  {
    hide Matches;
    var c := Numbered(">=", 9, 0);
    assert Decimal(9) == "9" && Decimal(0) == "0" && Decimal(2) == "2" && Decimal(10) == "10" by {
      assert Decimal(10) == Decimal(1) + [Digit(0)];
    }
    assert SpellNumbered([c]) == [">= 9.0"] by { assert [c][1..] == [] && ">=" + " " + ("9" + "." + "0") == ">= 9.0"; }
    assert "10" + "." + "2" == "10.2";
    SpelledComparisonsMean([c], 10, 2, cfg);
  }

  /** On CentOS the answer is the conjunction of the comparisons with the virtual versions put
    * in place of the configured ones, on both sides; the source version goes first.
    */
  lemma CentosSubstitutes(cs: seq<Comparison>, detected: string, cfg: Config)
    requires (cfg.sourceDistro == "centos" || cfg.targetDistro == "centos") && cs != []
    requires Meaningful(Substitute(cs, cfg)) && ValidVersion(Autocorrect(detected, cfg))
    ensures var cs', d := Substitute(cs, cfg), Autocorrect(detected, cfg);
            && Matches(SpellAll(cs), detected, cfg)
               == Answer(forall i :: 0 <= i < |cs'| ==>
                           Compare(cs'[i].op, VersionToTuple(d), VersionToTuple(cs'[i].version)))
            && d == (if detected == cfg.source then cfg.virtualSource
                     else if detected == cfg.target then cfg.virtualTarget else detected)
            && |cs'| == |cs| && forall i :: 0 <= i < |cs| ==>
                 && cs'[i].op == cs[i].op
                 && cs'[i].version == if cs[i].version == cfg.source then cfg.virtualSource
                                      else if cs[i].version == cfg.target then cfg.virtualTarget else cs[i].version
  {
    hide ValidVersion, VersionToTuple, Evaluate, Autocorrect, Compare;
    SubstituteOps(cs, cfg);
    forall v { AutocorrectMeans(v, cfg); }
    forall i | 0 <= i < |cs| ensures NoSpace(cs[i].op) {
      assert Substitute(cs, cfg)[i].op in OP_MAP;
      OperatorsHaveNoSpace(cs[i].op);
    }
    AutocorrectAllSpelled(cs, cfg);
    SpelledComparisonsEvaluate(Substitute(cs, cfg), Autocorrect(detected, cfg));
  }

  lemma AutocorrectMeans(v: string, cfg: Config)
    ensures Autocorrect(v, cfg) == if v == cfg.source then cfg.virtualSource
                                   else if v == cfg.target then cfg.virtualTarget else v
  {
  }

  lemma {:induction false} SubstituteOps(cs: seq<Comparison>, cfg: Config)
    ensures |Substitute(cs, cfg)| == |cs|
    ensures forall i :: 0 <= i < |cs| ==>
              Substitute(cs, cfg)[i] == Comparison(cs[i].op, Autocorrect(cs[i].version, cfg))
  {
    hide Autocorrect;
    if cs != [] { SubstituteOps(cs[1..], cfg); }
  }

  // ---------------------------------------------------------------- major versions on CentOS

  /** `int(m)` */
  function MajorNumber(m: string): nat
    requires Digits(m)
  {
    ToNat(m)
  }

  /** A configured version that is only a major one, with a virtual version of that major. */
  ghost predicate ConfiguredMajor(m: string, cfg: Config) {
    && (m == cfg.source || m == cfg.target) && Digits(m)
    && ValidVersion(Autocorrect(m, cfg)) && NoSpace(Autocorrect(m, cfg))
    && VersionToTuple(Autocorrect(m, cfg)).0 == MajorNumber(m)
  }

  /** The comparison as documented: of the major versions only. */
  predicate CompareMajor(op: string, d: int, m: int)
    requires op in OP_MAP
  {
    if op == ">" then d > m else if op == ">=" then d >= m else if op == "<" then d < m else d <= m
  }

  /** With virtual version `v` the code rejects `d` where the documentation accepts it. */
  predicate TooStrict(op: string, d: (int, int), v: (int, int)) {
    d.0 == v.0 && ((op == ">=" && d.1 < v.1) || (op == "<=" && d.1 > v.1))
  }

  predicate TooLenient(op: string, d: (int, int), v: (int, int)) {
    d.0 == v.0 && ((op == "<" && d.1 < v.1) || (op == ">" && d.1 > v.1))
  }

  predicate RejectedAnyway(op: string, d: (int, int), v: (int, int)) {
    || (op in {">", ">="} && d.0 < v.0) || (op == ">" && d.0 == v.0 && d.1 <= v.1)
    || (op in {"<", "<="} && d.0 > v.0) || (op == "<" && d.0 == v.0 && d.1 >= v.1)
  }

  /** One comparison: where code and documentation differ, and in which direction. */
  lemma MajorComparisonIff(op: string, d: (int, int), v: (int, int))
    requires op in OP_MAP
    ensures CompareMajor(op, d.0, v.0) && !Compare(op, d, v) <==> TooStrict(op, d, v)
    ensures !CompareMajor(op, d.0, v.0) && Compare(op, d, v) <==> TooLenient(op, d, v)
    ensures !CompareMajor(op, d.0, v.0) && !Compare(op, d, v) <==> RejectedAnyway(op, d, v)
  {
    OperatorsDiffer();
  }

  lemma OperatorsDiffer()
    ensures ">" != ">=" && "<" != "<=" && ">" != "<" && ">=" != "<=" && ">" != "<=" && ">=" != "<"
  {
    assert ">"[0] != "<"[0] && ">="[0] != "<="[0];
  }

  /** All operators do what is documented exactly for versions of another major and for the
    * virtual version itself.
    */
  lemma EveryOperatorAgreesIff(d: (int, int), v: (int, int))
    ensures (forall op :: op in OP_MAP ==> Compare(op, d, v) == CompareMajor(op, d.0, v.0)) <==>
              d.0 != v.0 || d.1 == v.1
  {
    hide Compare, CompareMajor;
    OperatorsDiffer();
    forall op | op in OP_MAP { MajorComparisonIff(op, d, v); }
    assert ">=" in OP_MAP && "<=" in OP_MAP;
  }

  ghost predicate MajorComparisons(cs: seq<Comparison>, cfg: Config) {
    cs != [] && forall i :: 0 <= i < |cs| ==> cs[i].op in OP_MAP && ConfiguredMajor(cs[i].version, cfg)
  }

  function VirtualOf(c: Comparison, cfg: Config): (int, int)
    requires ValidVersion(Autocorrect(c.version, cfg))
  {
    VersionToTuple(Autocorrect(c.version, cfg))
  }

  ghost predicate Documented(cs: seq<Comparison>, d: int)
    requires forall i :: 0 <= i < |cs| ==> cs[i].op in OP_MAP && Digits(cs[i].version)
  {
    forall i :: 0 <= i < |cs| ==> CompareMajor(cs[i].op, d, MajorNumber(cs[i].version))
  }

  /** A whole list of comparisons with configured major versions: the answer is the documented one
    * exactly if every comparison of it is, or some comparison rejects the version either way, or
    * mistakes in both directions meet.
    */
  lemma MajorListAgreesIff(cs: seq<Comparison>, detected: string, cfg: Config)
    requires OnCentos(cfg) && MajorComparisons(cs, cfg) && ValidVersion(Autocorrect(detected, cfg))
    ensures var d := VersionToTuple(Autocorrect(detected, cfg));
            Matches(SpellAll(cs), detected, cfg) == Answer(Documented(cs, d.0)) <==>
              || (forall i :: 0 <= i < |cs| ==>
                    !TooStrict(cs[i].op, d, VirtualOf(cs[i], cfg)) && !TooLenient(cs[i].op, d, VirtualOf(cs[i], cfg)))
              || (exists i :: 0 <= i < |cs| && RejectedAnyway(cs[i].op, d, VirtualOf(cs[i], cfg)))
              || ((exists i :: 0 <= i < |cs| && TooStrict(cs[i].op, d, VirtualOf(cs[i], cfg)))
                  && exists i :: 0 <= i < |cs| && TooLenient(cs[i].op, d, VirtualOf(cs[i], cfg)))
  {
    hide Autocorrect, ValidVersion, VersionToTuple, Compare, CompareMajor, TooStrict, TooLenient, RejectedAnyway,
      Matches, NoSpace, MajorNumber, Digits, SpellAll, Substitute;
    var cs', d := Substitute(cs, cfg), VersionToTuple(Autocorrect(detected, cfg));
    SubstituteOps(cs, cfg);
    CentosSubstitutes(cs, detected, cfg);
    var code := seq(|cs|, i requires 0 <= i < |cs| => Compare(cs[i].op, d, VirtualOf(cs[i], cfg)));
    var doc := seq(|cs|, i requires 0 <= i < |cs| => CompareMajor(cs[i].op, d.0, VirtualOf(cs[i], cfg).0));
    forall i | 0 <= i < |cs|
      ensures code[i] == Compare(cs'[i].op, d, VersionToTuple(cs'[i].version))
      ensures doc[i] == CompareMajor(cs[i].op, d.0, MajorNumber(cs[i].version))
      ensures doc[i] && !code[i] <==> TooStrict(cs[i].op, d, VirtualOf(cs[i], cfg))
      ensures !doc[i] && code[i] <==> TooLenient(cs[i].op, d, VirtualOf(cs[i], cfg))
      ensures !doc[i] && !code[i] <==> RejectedAnyway(cs[i].op, d, VirtualOf(cs[i], cfg))
    {
      MajorComparisonIff(cs[i].op, d, VirtualOf(cs[i], cfg));
    }
    ConjunctionsAgreeIff(code, doc);
  }

  lemma ConjunctionsAgreeIff(a: seq<bool>, b: seq<bool>)
    requires |a| == |b|
    ensures ((forall i :: 0 <= i < |a| ==> a[i]) <==> (forall i :: 0 <= i < |b| ==> b[i])) <==>
              || (forall i :: 0 <= i < |a| ==> a[i] == b[i])
              || (exists i :: 0 <= i < |a| && !a[i] && !b[i])
              || ((exists i :: 0 <= i < |a| && b[i] && !a[i]) && exists i :: 0 <= i < |a| && !b[i] && a[i])
  {
  }

  /** Bare major versions: the answer is the documented one exactly if the version is a virtual
    * version of the list or has none of its majors.
    */
  lemma BareMajorsAgreeIff(list: seq<string>, detected: string, cfg: Config)
    requires OnCentos(cfg) && ValidVersion(Autocorrect(detected, cfg))
    requires forall i :: 0 <= i < |list| ==> Digits(list[i]) && ConfiguredMajor(list[i], cfg)
    ensures var d := VersionToTuple(Autocorrect(detected, cfg));
            Matches(list, detected, cfg) == Answer(exists i :: 0 <= i < |list| && MajorNumber(list[i]) == d.0) <==>
              || (exists i :: 0 <= i < |list| && Autocorrect(list[i], cfg) == Autocorrect(detected, cfg))
              || (forall i :: 0 <= i < |list| ==> MajorNumber(list[i]) != d.0)
  {
    hide Autocorrect, ValidVersion, VersionToTuple, ToNat, Digits, NoSpace, Words, Split;
    BareAutocorrect(list, cfg);
    var list' := AutocorrectAll(list, cfg);
    forall i | 0 <= i < |list| ensures IsBare(list'[i]) && ValidVersion(list'[i]) { WordsOfOne(list'[i]); }
    assert forall v :: v in list' ==> exists i :: 0 <= i < |list'| && list'[i] == v;
    assert forall i :: 0 <= i < |list'| ==> list'[i] in list';
    assert Matches(list, detected, cfg) == Answer(Autocorrect(detected, cfg) in list');
  }

  lemma WordsOfOne(v: string)
    requires NoSpace(v)
    ensures IsBare(v)
  {
    AppendNil(v);
    WordIsAll(v, "");
    assert v[|v|..] == "" && LStrip(v, IsSpace) == v;
    assert Words(v) == [v] + Words("");
  }

  lemma {:induction false} BareAutocorrect(list: seq<string>, cfg: Config)
    requires forall i :: 0 <= i < |list| ==> Digits(list[i])
    ensures |AutocorrectAll(list, cfg)| == |list|
    ensures forall i :: 0 <= i < |list| ==> AutocorrectAll(list, cfg)[i] == Autocorrect(list[i], cfg)
  {
    hide Autocorrect;
    if list != [] {
      NoSpaceInDigits(list[0]);
      SplitOfFree(list[0], ' ');
      BareAutocorrect(list[1..], cfg);
    }
  }

  lemma NoSpaceInDigits(s: string)
    requires Digits(s)
    ensures ' ' !in s && '.' !in s && '\n' !in s
  {
    assert forall i :: 0 <= i < |s| ==> IsDigit(s[i]);
  }

  /** A major version is understood only on CentOS, and only if it is configured as source or
    * target; anywhere else it raises, whatever else the list has.
    */
  lemma UnknownMajorRaises(cs: seq<Comparison>, i: nat, detected: string, cfg: Config)
    requires i < |cs| && forall k :: 0 <= k < |cs| ==> cs[k].op in OP_MAP && NoSpace(Effective(cs[k], cfg))
    requires Digits(cs[i].version) && (OnCentos(cfg) ==> cs[i].version != cfg.source && cs[i].version != cfg.target)
    ensures Matches(SpellAll(cs), detected, cfg) == ValueError
  {
    hide ValidVersion, VersionToTuple, Words, Autocorrect, NoSpace, Digits, Evaluate, Spell, IsComparison;
    forall k | 0 <= k < |cs| ensures NoSpace(cs[k].op) { OperatorsHaveNoSpace(cs[k].op); }
    AutocorrectAllSpelled(cs, cfg);
    SubstituteOps(cs, cfg);
    var cs' := if OnCentos(cfg) then Substitute(cs, cfg) else cs;
    assert cs'[i].version == cs[i].version by { UnconfiguredStays(cs[i].version, cfg); }
    MajorIsNoVersion(cs[i].version);
    SpelledList(cs');
    assert SpellAll(cs')[i] in SpellAll(cs');
    OperatorsHaveNoSpace(cs'[i].op);
    SpelledWords(cs'[i]);
    EvaluateMeaning(SpellAll(cs'), if OnCentos(cfg) then Autocorrect(detected, cfg) else detected);
  }

  /** The version that is compared with. */
  function Effective(c: Comparison, cfg: Config): string {
    if OnCentos(cfg) then Autocorrect(c.version, cfg) else c.version
  }

  lemma UnconfiguredStays(version: string, cfg: Config)
    ensures version != cfg.source && version != cfg.target ==> Autocorrect(version, cfg) == version
  {
  }

  lemma SpelledWords(c: Comparison)
    requires NoSpace(c.op) && NoSpace(c.version)
    ensures Words(Spell(c)) == [c.op, c.version] && !IsBare(Spell(c))
  {
    WordsOfSpelled(c.op, c.version);
  }

  lemma MajorIsNoVersion(m: string)
    requires Digits(m)
    ensures !ValidVersion(m)
  {
    NoSpaceInDigits(m);
    assert m[|m| - 1] != '\n';
    SplitOfFree(m, '.');
  }

  const STREAM_9 := Config("centos", "centos", "8", "9", "8.10", "9.7")

  /** With virtual version 9.7 the list `<= 9` rejects 9.8, which the documentation accepts. */
  lemma MajorComparisonExample()
    ensures Matches(["<= 9"], "9.8", STREAM_9) == Answer(false) && CompareMajor("<=", 9, 9)
  {
    hide Matches, ValidVersion, VersionToTuple, Autocorrect, Compare;
    var c := Comparison("<=", "9");
    OperatorsDiffer();
    assert !Compare("<=", (9, 8), (9, 7)) by { NewerMinor(); }
    assert SpellAll([c]) == ["<= 9"] by {
      assert "<=" + " " + "9" == "<= 9" && [c][1..] == [];
      assert SpellAll([c]) == [Spell(c)] + SpellAll([]);
    }
    assert Substitute([c], STREAM_9) == [Comparison("<=", Autocorrect("9", STREAM_9))] by { assert [c][1..] == []; }
    ExampleVersions();
    CentosSubstitutes([c], "9.8", STREAM_9);
    assert Substitute([c], STREAM_9)[0].version == "9.7";
  }

  lemma NewerMinor()
    ensures !Compare("<=", (9, 8), (9, 7)) && CompareMajor("<=", 9, 9)
  {
    OperatorsDiffer();
  }

  lemma ExampleVersions()
    ensures Autocorrect("9", STREAM_9) == "9.7" && Autocorrect("9.8", STREAM_9) == "9.8"
    ensures ValidVersion("9.7") && VersionToTuple("9.7") == (9, 7) && NoSpace("9.7")
    ensures ValidVersion("9.8") && VersionToTuple("9.8") == (9, 8)
  {
    assert "9"[0] != "8"[0];
    OneDigitVersion('9', '7');
    OneDigitVersion('9', '8');
  }

  lemma OneDigitVersion(major: char, minor: char)
    requires '1' <= major <= '9' && IsDigit(minor)
    ensures ValidVersion([major, '.', minor])
    ensures VersionToTuple([major, '.', minor]) == (major as int - '0' as int, minor as int - '0' as int)
  {
    var v := [major, '.', minor];
    assert v == [major] + ['.'] + [minor];
    SplitAppend([major], [minor], '.');
    SplitOfFree([major], '.');
    SplitOfFree([minor], '.');
    assert ToNat([major]) == major as int - '0' as int && ToNat([minor]) == minor as int - '0' as int by {
      assert [major][..0] == "" && [minor][..0] == "";
    }
  }
}
