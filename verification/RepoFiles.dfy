/** `adjustlocalrepos.py`: splitting a repository file into its repositories, redirecting local
  * URLs into the container and writing the file back. Text is what Python sees after
  * newline translation.
  */
module RepoFiles {
  import opened Wrappers
  import opened Seqs
  import opened Strings
  import opened Paths

  const HOST_ROOT_MOUNT_BIND_PATH := "/installroot"
  const LOCAL_FILE_URL_PREFIX := "file://"

  // ---------------------------------------------------------------- lines

  /** Parts of a text between newlines, each with its newline; nothing after the last newline
    * is no line.
    */
  function WithNewlines(parts: seq<string>): seq<string> {
    if parts == [] then []
    else if |parts| == 1 then (if parts[0] == "" then [] else [parts[0]])
    else [parts[0] + "\n"] + WithNewlines(parts[1..])
  }

  /** Python's `readlines()` */
  function ReadLines(text: string): seq<string> {
    WithNewlines(Split(text, '\n'))
  }

  /** The lines of a text without their newlines. */
  function BareLines(parts: seq<string>): seq<string> {
    if parts != [] && parts[|parts| - 1] == "" then parts[..|parts| - 1] else parts
  }

  lemma {:induction false} LinesAreTheText(parts: seq<string>)
    requires parts != []
    ensures Join(WithNewlines(parts), "") == Join(parts, "\n")
  {
    if |parts| > 1 {
      LinesAreTheText(parts[1..]);
      var rest := WithNewlines(parts[1..]);
      TailOfCons(parts[0] + "\n", rest);
      AppendNil(parts[0] + "\n");
      if rest != [] {
        Associative(parts[0] + "\n", "", Join(rest, ""));
      } else {
        assert Join(parts[1..], "\n") == "";
      }
    }
  }

  /** The lines read from a text are together the text. */
  lemma ReadLinesLosesNothing(text: string)
    ensures Join(ReadLines(text), "") == text
  {
    LinesAreTheText(Split(text, '\n'));
    JoinSplit(text, '\n');
  }

  /** A piece of text with its newline at the end and nowhere else; only the last may have none. */
  ghost predicate IsLine(lines: seq<string>, i: nat)
    requires i < |lines|
  {
    && lines[i] != "" && '\n' !in lines[i][..|lines[i]| - 1]
    && (i < |lines| - 1 ==> lines[i][|lines[i]| - 1] == '\n')
  }

  ghost predicate AreLines(lines: seq<string>) {
    forall i :: 0 <= i < |lines| ==> IsLine(lines, i)
  }

  lemma {:induction false} LinesEndInNewlines(parts: seq<string>)
    requires Free(parts, '\n')
    ensures AreLines(WithNewlines(parts))
  {
    if |parts| > 1 {
      var first, rest := parts[0] + "\n", WithNewlines(parts[1..]);
      assert Free(parts[1..], '\n');
      LinesEndInNewlines(parts[1..]);
      var lines := WithNewlines(parts);
      assert lines == [first] + rest;
      assert first[..|first| - 1] == parts[0] && first[|first| - 1] == '\n';
      forall i | 0 <= i < |lines| ensures IsLine(lines, i) {
        if i > 0 { assert lines[i] == rest[i - 1] && IsLine(rest, i - 1); }
      }
    } else if |parts| == 1 && parts[0] != "" {
      assert '\n' !in parts[0];
    }
  }

  /** `readlines()` cuts a text after each newline and nowhere else. */
  lemma ReadLinesSpec(text: string)
    ensures Join(ReadLines(text), "") == text && AreLines(ReadLines(text))
  {
    hide AreLines;
    ReadLinesLosesNothing(text);
    SplitIsFree(text, '\n');
    LinesEndInNewlines(Split(text, '\n'));
  }

  lemma StripNewline(s: string)
    ensures Strip(s + "\n", IsSpace) == Strip(s, IsSpace)
  {
    var pre, post := StripSpec(s, IsSpace);
    var core := Strip(s, IsSpace);
    assert pre + core + post + "\n" == pre + core + (post + "\n");
    StripPadded(pre, core, post + "\n", IsSpace);
  }

  predicate IsHeader(line: string) { line != "" && line[0] == '[' }

  /** The lines from the first one on that starts with '['. */
  function FromHeader(lines: seq<string>): seq<string> {
    if lines == [] || IsHeader(lines[0]) then lines else FromHeader(lines[1..])
  }

  lemma FromHeaderCons(line: string, lines: seq<string>)
    ensures FromHeader([line] + lines) == if IsHeader(line) then [line] + lines else FromHeader(lines)
  {
    TailOfCons(line, lines);
  }

  lemma {:induction false} NewlinesDoNotMatter(parts: seq<string>)
    requires parts != []
    ensures StripAll(FromHeader(WithNewlines(parts))) == StripAll(FromHeader(BareLines(parts)))
  {
    hide Strip;
    if |parts| == 1 {
      assert BareLines(parts) == if parts[0] == "" then [] else parts;
    } else {
      var rest := parts[1..];
      NewlinesDoNotMatter(rest);
      assert BareLines(parts) == [parts[0]] + BareLines(rest);
      assert IsHeader(parts[0]) <==> IsHeader(parts[0] + "\n");
      FromHeaderCons(parts[0], BareLines(rest));
      FromHeaderCons(parts[0] + "\n", WithNewlines(rest));
      if IsHeader(parts[0]) {
        NewlinesStrip(parts);
      }
    }
  }

  lemma {:induction false} NewlinesStrip(parts: seq<string>)
    requires parts != []
    ensures StripAll(WithNewlines(parts)) == StripAll(BareLines(parts))
  {
    if |parts| == 1 {
      assert BareLines(parts) == if parts[0] == "" then [] else parts;
    } else {
      var rest := parts[1..];
      NewlinesStrip(rest);
      assert BareLines(parts) == [parts[0]] + BareLines(rest);
      TailOfCons(parts[0], BareLines(rest));
      TailOfCons(parts[0] + "\n", WithNewlines(rest));
      StripNewline(parts[0]);
    }
  }

  // ---------------------------------------------------------------- repositories

  /** The loop that collects the lines of a repository until the next header. */
  function Group(current: seq<string>, lines: seq<string>): seq<seq<string>>
    decreases |lines|
  {
    if lines == [] then [current]
    else if IsHeader(lines[0]) && current != [] then [current] + Group([lines[0]], lines[1..])
    else Group(current + [lines[0]], lines[1..])
  }

  function ReposOf(stripped: seq<string>): seq<seq<string>> {
    if stripped == [] then [] else Group([], stripped)
  }

  /** `_extract_repos_from_repofile`: the repositories, each with its lines. */
  function Extract(text: string): seq<seq<string>> {
    ReposOf(StripAll(FromHeader(ReadLines(text))))
  }

  method ExtractRepos(text: string) returns (repos: seq<seq<string>>)
    ensures repos == Extract(text)
  {
    var lines := ReadLines(text);
    ghost var all := lines;
    var repoFound := false;
    var idx := 0;
    while idx < |lines| && !repoFound
      invariant idx <= |all| && lines == all
      invariant FromHeader(all) == FromHeader(all[idx..])
      invariant repoFound ==> idx < |all| && IsHeader(all[idx])
      decreases |lines| - idx, !repoFound
    {
      if IsHeader(lines[idx]) {
        repoFound := true;
      } else {
        idx := idx + 1;
      }
    }
    if !repoFound { return []; }
    lines := lines[idx..];
    repos := [];
    var currentRepo: seq<string> := [];
    for i := 0 to |lines|
      invariant Group([], StripAll(lines)) == repos + Group(currentRepo, StripAll(lines[i..]))
    {
      var line := Strip(lines[i], IsSpace);
      assert lines[i..][1..] == lines[i + 1..];
      TailOfCons(line, StripAll(lines[i + 1..]));
      if IsHeader(line) && currentRepo != [] {
        Associative(repos, [currentRepo], Group([line], StripAll(lines[i + 1..])));
        repos := repos + [currentRepo];
        currentRepo := [];
        AppendNil([line]);
      }
      currentRepo := currentRepo + [line];
    }
    repos := repos + [currentRepo];
  }

  function Concat(repos: seq<seq<string>>): seq<string> {
    if repos == [] then [] else repos[0] + Concat(repos[1..])
  }

  /** A header and then no further header. */
  ghost predicate IsRepo(repo: seq<string>) {
    repo != [] && IsHeader(repo[0]) && forall i :: 1 <= i < |repo| ==> !IsHeader(repo[i])
  }

  ghost predicate AreRepos(repos: seq<seq<string>>) {
    forall i :: 0 <= i < |repos| ==> IsRepo(repos[i])
  }

  lemma {:induction false} GroupSpec(current: seq<string>, lines: seq<string>)
    requires IsRepo(current)
    ensures Concat(Group(current, lines)) == current + lines && AreRepos(Group(current, lines))
    decreases |lines|
  {
    if lines == [] {
      AppendNil(current);
    } else {
      HeadTail(lines);
      if IsHeader(lines[0]) {
        GroupSpec([lines[0]], lines[1..]);
        TailOfCons(current, Group([lines[0]], lines[1..]));
      } else {
        GroupSpec(current + [lines[0]], lines[1..]);
        Associative(current, [lines[0]], lines[1..]);
      }
    }
  }

  lemma ReposOfSpec(stripped: seq<string>)
    requires stripped != [] ==> IsHeader(stripped[0])
    ensures Concat(ReposOf(stripped)) == stripped && AreRepos(ReposOf(stripped))
  {
    if stripped != [] {
      HeadTail(stripped);
      AppendNil([stripped[0]]);
      GroupSpec([stripped[0]], stripped[1..]);
    }
  }

  lemma {:induction false} GroupOfRepo(current: seq<string>, more: seq<string>, rest: seq<string>)
    requires current != [] && forall i :: 0 <= i < |more| ==> !IsHeader(more[i])
    ensures Group(current, more + rest) == Group(current + more, rest)
    decreases |more|
  {
    if more == [] {
      AppendNil(current);
      AppendNil(rest);
    } else {
      TailOfAppend(more, rest);
      HeadTail(more);
      GroupOfRepo(current + [more[0]], more[1..], rest);
      Associative(current, [more[0]], more[1..]);
    }
  }

  lemma {:induction false} GroupOfConcat(current: seq<string>, repos: seq<seq<string>>)
    requires current != [] && AreRepos(repos)
    ensures Group(current, Concat(repos)) == [current] + repos
    decreases |repos|
  {
    if repos == [] {
      AppendNil([current]);
    } else {
      var repo, rest := repos[0], Concat(repos[1..]);
      HeadTail(repo);
      TailOfAppend(repo, rest);
      GroupOfRepo([repo[0]], repo[1..], rest);
      GroupOfConcat(repo, repos[1..]);
      HeadTail(repos);
    }
  }

  /** Splitting undoes putting repositories one after the other. */
  lemma ReposOfConcat(repos: seq<seq<string>>)
    requires AreRepos(repos)
    ensures ReposOf(Concat(repos)) == repos
  {
    if repos != [] {
      var repo, rest := repos[0], Concat(repos[1..]);
      HeadTail(repo);
      TailOfAppend(repo, rest);
      AppendNil([repo[0]]);
      GroupOfRepo([repo[0]], repo[1..], rest);
      GroupOfConcat(repo, repos[1..]);
      HeadTail(repos);
    }
  }

  lemma {:induction false} FromHeaderSpec(lines: seq<string>)
    ensures FromHeader(lines) != [] ==> IsHeader(FromHeader(lines)[0])
    ensures exists n :: 0 <= n <= |lines| && FromHeader(lines) == lines[n..]
                        && forall i :: 0 <= i < n ==> !IsHeader(lines[i])
  {
    if lines != [] && !IsHeader(lines[0]) {
      FromHeaderSpec(lines[1..]);
      var n :| 0 <= n <= |lines[1..]| && FromHeader(lines[1..]) == lines[1..][n..]
               && forall i :: 0 <= i < n ==> !IsHeader(lines[1..][i]);
      assert lines[1..][n..] == lines[n + 1..];
      assert forall i :: 1 <= i < n + 1 ==> lines[i] == lines[1..][i - 1];
    } else {
      assert lines[0..] == lines;
    }
  }

  lemma StripOfHeader(line: string)
    requires IsHeader(line)
    ensures IsHeader(Strip(line, IsSpace))
  {
    assert LStrip(line, IsSpace) == line;
    var post := RStripSpec(line, IsSpace);
    var core := Strip(line, IsSpace);
    assert line == core + post;
    StripToNothing(line, IsSpace);
    assert !IsSpace(line[0]);
  }

  lemma {:induction false} StripAllSpec(lines: seq<string>)
    ensures |StripAll(lines)| == |lines|
    ensures forall i :: 0 <= i < |lines| ==> StripAll(lines)[i] == Strip(lines[i], IsSpace)
  {
    if lines != [] { StripAllSpec(lines[1..]); }
  }

  lemma ExtractConcat(text: string)
    ensures Concat(Extract(text)) == StripAll(FromHeader(ReadLines(text)))
    ensures AreRepos(Extract(text))
  {
    var lines := FromHeader(ReadLines(text));
    FromHeaderSpec(ReadLines(text));
    StripAllSpec(lines);
    if lines != [] { StripOfHeader(lines[0]); }
    ReposOfSpec(StripAll(lines));
  }

  /** The extracted repositories are together the lines of the text, without outer white space, from
    * the first one on that starts with '['; and in each of them the first line, and no other,
    * starts with '['.
    */
  lemma ExtractSpec(text: string) returns (n: nat)
    ensures var lines, all := ReadLines(text), Concat(Extract(text));
            && n <= |lines| && (forall i :: 0 <= i < n ==> lines[i] == "" || lines[i][0] != '[')
            && (n < |lines| ==> lines[n] != "" && lines[n][0] == '[')
            && |all| == |lines| - n && forall i :: 0 <= i < |all| ==> all[i] == Strip(lines[n + i], IsSpace)
    ensures forall i :: 0 <= i < |Extract(text)| ==>
              var repo := Extract(text)[i];
              && repo != [] && repo[0] != "" && repo[0][0] == '['
              && forall k :: 1 <= k < |repo| ==> repo[k] == "" || repo[k][0] != '['
  {
    hide Strip, Extract, ReadLines, FromHeader, StripAll, Concat;
    var lines := ReadLines(text);
    ExtractConcat(text);
    n := HeaderAt(lines);
    StripAllSpec(lines[n..]);
  }

  lemma HeaderAt(lines: seq<string>) returns (n: nat)
    ensures n <= |lines| && FromHeader(lines) == lines[n..] && forall i :: 0 <= i < n ==> !IsHeader(lines[i])
    ensures n < |lines| ==> IsHeader(lines[n])
  {
    FromHeaderSpec(lines);
    n :| 0 <= n <= |lines| && FromHeader(lines) == lines[n..] && forall i :: 0 <= i < n ==> !IsHeader(lines[i]);
  }

  /** A repository is chosen by what its header has between the brackets. */
  lemma HeaderId(id: string)
    requires id != "" ==> id[0] != '[' && id[0] != ']' && id[|id| - 1] != '[' && id[|id| - 1] != ']'
    ensures Strip("[" + id + "]", IsBracket) == id
  {
    StripPadded("[", id, "]", IsBracket);
  }

  // ---------------------------------------------------------------- redirecting local URLs

  predicate IsQuote(c: char) { c == '\'' || c == '"' }

  predicate IsBracket(c: char) { c == '[' || c == ']' }

  predicate IsUrlField(field: string) {
    "baseurl" <= field || "mirrorlist" <= field
  }

  /** `_adjust_local_file_url`; `None` is the `ValueError` for a line without '='. */
  function AdjustLine(line: string): Option<string> {
    if !Contains(line, LOCAL_FILE_URL_PREFIX) || (line != "" && line[0] == '#') then Some(line)
    else
      var parts := Split(Strip(line, IsSpace), '=');
      if |parts| == 1 then None
      else if !IsUrlField(parts[0]) then Some(line)
      else
        var value := Strip(Join(parts[1..], "="), IsQuote);
        var path := if |value| < |LOCAL_FILE_URL_PREFIX| then "" else value[|LOCAL_FILE_URL_PREFIX|..];
        Some(parts[0] + "=" + LOCAL_FILE_URL_PREFIX + PathJoin(HOST_ROOT_MOUNT_BIND_PATH, LStrip(path, IsSlash)))
  }

  function AdjustLines(lines: seq<string>): Option<seq<string>> {
    if lines == [] then Some([])
    else
      var first := AdjustLine(lines[0]);
      if first.None? then None
      else
        var rest := AdjustLines(lines[1..]);
        if rest.None? then None else Some([first.value] + rest.value)
  }

  /** A line is changed only if it is a `baseurl` or `mirrorlist` setting that mentions a local
    * URL, and then it points below the bind mount of the host.
    */
  lemma OnlyLocalUrlsChange(line: string)
    requires AdjustLine(line).Some? && AdjustLine(line).value != line
    ensures Contains(line, LOCAL_FILE_URL_PREFIX) && line[0] != '#' && '=' in line
    ensures exists field, path ::
              && IsUrlField(field) && '=' !in field && field <= Strip(line, IsSpace)
              && (path == "" || path[0] != '/')
              && AdjustLine(line).value == field + "=" + "file://" + ("/installroot" + "/" + path)
  {
    var stripped := Strip(line, IsSpace);
    var parts := Split(stripped, '=');
    var value := Strip(Join(parts[1..], "="), IsQuote);
    var path := LStrip(if |value| < 7 then "" else value[7..], IsSlash);
    SplitIsFree(stripped, '=');
    JoinSplit(stripped, '=');
    assert parts[0] + "=" + Join(parts[1..], "=") == stripped;
    assert parts[0] <= stripped;
    var pre, post := StripSpec(line, IsSpace);
    assert '=' in line by { assert stripped[|parts[0]|] == '='; assert line[|pre| + |parts[0]|] == '='; }
    assert PathJoin("/installroot", path) == "/installroot" + "/" + path;
  }

  /** The ordinary case: an unquoted local URL moves below the bind mount. */
  lemma LocalUrlIsRedirected(field: string, path: string)
    requires IsUrlField(field) && '=' !in field && !IsSpace(field[0])
    requires path != "" && !IsSpace(path[|path| - 1]) && !IsQuote(path[|path| - 1])
    ensures AdjustLine(field + "=" + ("file://" + path))
            == Some(field + "=" + LOCAL_FILE_URL_PREFIX + PathJoin(HOST_ROOT_MOUNT_BIND_PATH, LStrip(path, IsSlash)))
  {
    hide Contains, Strip, PathJoin, LStrip, IsUrlField, AdjustLine;
    var value := "file://" + path;
    UrlFieldStart(field);
    RedirectedLine(field, path);
    SplitAppend(field, value, '=');
    SplitOfFree(field, '=');
    RedirectSteps(field + "=" + value, field, value, path);
  }

  lemma RedirectSteps(line: string, field: string, value: string, path: string)
    requires IsUrlField(field) && line != "" && line[0] != '#' && Contains(line, LOCAL_FILE_URL_PREFIX)
    requires Strip(line, IsSpace) == line && Split(line, '=') == [field] + Split(value, '=')
    requires Strip(value, IsQuote) == value && value == LOCAL_FILE_URL_PREFIX + path
    ensures AdjustLine(line)
            == Some(field + "=" + LOCAL_FILE_URL_PREFIX + PathJoin(HOST_ROOT_MOUNT_BIND_PATH, LStrip(path, IsSlash)))
  {
    hide Contains, Strip, PathJoin, LStrip, IsUrlField, Split, Join;
    TailOfCons(field, Split(value, '='));
    JoinSplit(value, '=');
    assert value[|LOCAL_FILE_URL_PREFIX|..] == path;
  }

  /** A line with a setting in general, in white space and with quotes around its value. If the name
    * of the field starts with `baseurl` or `mirrorlist`, the value becomes a URL below the bind
    * mount: its first seven characters, which are `file://` in a local URL, and the slashes after
    * them make way for it.
    */
  lemma SettingIsAdjusted(pre: string, field: string, left: string, head: string, slashes: string, path: string,
                          right: string, post: string)
    requires Only(pre, IsSpace) && Only(post, IsSpace) && '=' !in field
    requires forall i :: 0 <= i < |left| ==> left[i] == '"' || left[i] == '\''
    requires forall i :: 0 <= i < |right| ==> right[i] == '"' || right[i] == '\''
    requires forall i :: 0 <= i < |slashes| ==> slashes[i] == '/'
    requires |head| == 7 || (|head| < 7 && slashes + path == "")
    requires path == "" || path[0] != '/'
    requires Bare(head + (slashes + path), IsQuote)
    requires Bare(field + "=" + (left + (head + (slashes + path)) + right), IsSpace)
    requires var line := pre + (field + "=" + (left + (head + (slashes + path)) + right)) + post;
             line[0] != '#' && Contains(line, "file://")
    ensures var line := pre + (field + "=" + (left + (head + (slashes + path)) + right)) + post;
            AdjustLine(line)
            == if "baseurl" <= field || "mirrorlist" <= field
               then Some(field + "=" + "file://" + ("/installroot/" + path)) else Some(line)
  {
    hide Contains, Strip, PathJoin, LStrip, Split, Join, AdjustLine;
    var url := head + (slashes + path);
    var value := left + url + right;
    var setting := field + "=" + value;
    StripPadded(left, url, right, IsQuote);
    StripPadded(pre, setting, post, IsSpace);
    SplitAppend(field, value, '=');
    SplitOfFree(field, '=');
    TailOfCons(field, Split(value, '='));
    JoinSplit(value, '=');
    assert (if |url| < 7 then "" else url[7..]) == slashes + path;
    LStripPrefix(slashes, path, IsSlash);
    InstallRoot(path);
    AdjustSteps(pre + setting + post, field, value, url);
  }

  lemma InstallRoot(path: string)
    requires path == "" || path[0] != '/'
    ensures PathJoin("/installroot", path) == "/installroot/" + path
  {
    assert "/installroot" + "/" == "/installroot/";
  }

  lemma AdjustSteps(line: string, field: string, value: string, url: string)
    requires line != "" && line[0] != '#' && Contains(line, LOCAL_FILE_URL_PREFIX)
    requires var parts := Split(Strip(line, IsSpace), '=');
             |parts| > 1 && parts[0] == field && Join(parts[1..], "=") == value
    requires Strip(value, IsQuote) == url
    ensures AdjustLine(line)
            == if "baseurl" <= field || "mirrorlist" <= field
               then Some(field + "=" + "file://"
                         + PathJoin("/installroot", LStrip(if |url| < 7 then "" else url[7..], IsSlash)))
               else Some(line)
  {
    hide Contains, Strip, PathJoin, LStrip, Split, Join;
  }

  /** A comment or a line that mentions no local URL stays, and one that does and has no '=' raises. */
  lemma OtherLinesAre(line: string)
    ensures (line != "" && line[0] == '#') || !Contains(line, "file://") ==> AdjustLine(line) == Some(line)
    ensures AdjustLine(line).None? <==> Contains(line, "file://") && line[0] != '#' && '=' !in line
  {
    hide Contains, PathJoin, LStrip, IsUrlField;
    var stripped := Strip(line, IsSpace);
    var pre, post := StripSpec(line, IsSpace);
    if '=' !in line {
      assert '=' !in stripped;
      SplitOfFree(stripped, '=');
    } else {
      var i :| 0 <= i < |line| && line[i] == '=';
      assert '=' in stripped by {
        assert !IsSpace('=') && |pre| <= i < |pre| + |stripped|;
        assert stripped[i - |pre|] == '=';
      }
      SplitAtSeparator(stripped, '=');
    }
    NothingMentioned();
  }

  lemma {:induction false} SplitAtSeparator(s: string, sep: char)
    requires sep in s
    ensures |Split(s, sep)| > 1
  {
    if s[0] != sep {
      assert sep in s[1..] by {
        var i :| 0 <= i < |s| && s[i] == sep;
        assert s[1..][i - 1] == sep;
      }
      SplitAtSeparator(s[1..], sep);
    }
  }

  lemma NothingMentioned()
    ensures !Contains("", LOCAL_FILE_URL_PREFIX)
  {
  }

  lemma UrlFieldStart(field: string)
    requires IsUrlField(field)
    ensures field != "" && field[0] != '#' && field[0] != '[' && !IsSpace(field[0])
  {
    assert field[0] == "baseurl"[0] || field[0] == "mirrorlist"[0];
  }

  lemma RedirectedLine(field: string, path: string)
    requires field != "" && !IsSpace(field[0])
    requires path != "" && !IsSpace(path[|path| - 1]) && !IsQuote(path[|path| - 1])
    ensures var value := "file://" + path;
            var line := field + "=" + value;
            && Contains(line, LOCAL_FILE_URL_PREFIX)
            && Strip(line, IsSpace) == line && Strip(value, IsQuote) == value
  {
    hide Contains;
    var value := "file://" + path;
    ContainsInside(field + "=", "file://", path);
    Associative(field + "=", "file://", path);
    LastOf("file://", path);
    LastOf(field + "=", value);
    StripOfBare(field + "=" + value, IsSpace);
    StripOfBare(value, IsQuote);
  }

  // ---------------------------------------------------------------- rewriting the file

  /** The adjusted repositories, those with an id in `ids` redirected; `None` if a line raises. */
  function AdjustRepos(repos: seq<seq<string>>, ids: set<string>): Option<seq<seq<string>>>
    requires AreRepos(repos)
  {
    if repos == [] then Some([])
    else
      var first := if Strip(repos[0][0], IsBracket) in ids then AdjustLines(repos[0]) else Some(repos[0]);
      if first.None? then None
      else
        var rest := AdjustRepos(repos[1..], ids);
        if rest.None? then None else Some([first.value] + rest.value)
  }

  /** The adjusted repositories of a text; `None` is the `ValueError`. */
  function Adjusted(text: string, ids: set<string>): Option<seq<seq<string>>> {
    ExtractConcat(text);
    AdjustRepos(Extract(text), ids)
  }

  function JoinEach(repos: seq<seq<string>>): seq<string> {
    if repos == [] then [] else [Join(repos[0], "\n")] + JoinEach(repos[1..])
  }

  function Written(repos: seq<seq<string>>): string {
    Join(JoinEach(repos), "\n")
  }

  /** `_adjust_local_repos_to_container`: the new text of the file; `None` is the `ValueError`,
    * which leaves the file as it was.
    */
  method AdjustLocalRepos(text: string, ids: set<string>) returns (newText: Option<string>)
    ensures newText == if Adjusted(text, ids).None? then None else Some(Written(Adjusted(text, ids).value))
  {
    ExtractConcat(text);
    var repos := ExtractRepos(text);
    var newRepos: seq<seq<string>> := [];
    assert repos[0..] == repos;
    if AdjustRepos(repos, ids).Some? { AppendNil(AdjustRepos(repos, ids).value); }
    for i := 0 to |repos|
      invariant AdjustRepos(repos, ids) ==
                var rest := AdjustRepos(repos[i..], ids);
                if rest.None? then None else Some(newRepos + rest.value)
    {
      assert repos[i..][1..] == repos[i + 1..];
      var adjusted := Some(repos[i]);
      if Strip(repos[i][0], IsBracket) in ids {
        adjusted := AdjustLines(repos[i]);
      }
      if adjusted.None? { return None; }
      ghost var rest := AdjustRepos(repos[i + 1..], ids);
      if rest.Some? { Associative(newRepos, [adjusted.value], rest.value); }
      newRepos := newRepos + [adjusted.value];
    }
    AppendNil(newRepos);
    newText := Some(Written(newRepos));
  }

  lemma {:induction false} WrittenIsJoin(repos: seq<seq<string>>)
    requires AreRepos(repos) && repos != []
    ensures Written(repos) == Join(Concat(repos), "\n")
  {
    var rest := repos[1..];
    if rest == [] {
      assert JoinEach(repos) == [Join(repos[0], "\n")];
      AppendNil(repos[0]);
    } else {
      WrittenIsJoin(rest);
      TailOfCons(Join(repos[0], "\n"), JoinEach(rest));
      assert Concat(rest) != [] by { assert rest[0] != []; }
      JoinAppend(repos[0], Concat(rest), "\n");
    }
  }

  // ---------------------------------------------------------------- the round trip

  lemma CharsOfStrip(s: string, drop: char -> bool, c: char)
    ensures c in Strip(s, drop) ==> c in s
  {
    var pre, post := StripSpec(s, drop);
    assert s == pre + Strip(s, drop) + post;
  }

  lemma {:induction false} CharsOfJoin(parts: seq<string>, sep: string, c: char)
    requires c !in sep && forall i :: 0 <= i < |parts| ==> c !in parts[i]
    ensures c !in Join(parts, sep)
  {
    if |parts| > 1 { CharsOfJoin(parts[1..], sep, c); }
  }

  lemma {:induction false} CharsOfSplit(s: string, sep: char, c: char)
    requires c !in s
    ensures forall i :: 0 <= i < |Split(s, sep)| ==> c !in Split(s, sep)[i]
  {
    if s != "" { CharsOfSplit(s[1..], sep, c); }
  }

  lemma CharsOfLStrip(s: string, drop: char -> bool, c: char)
    requires c !in s
    ensures c !in LStrip(s, drop)
  {
    var pre := LStripSpec(s, drop);
  }

  lemma CharsOfRedirect(path: string, c: char)
    requires c !in path && c !in LOCAL_FILE_URL_PREFIX && c !in HOST_ROOT_MOUNT_BIND_PATH
    ensures c !in LOCAL_FILE_URL_PREFIX + PathJoin(HOST_ROOT_MOUNT_BIND_PATH, path)
  {
    assert "/" == HOST_ROOT_MOUNT_BIND_PATH[..1];
  }

  lemma NoNewlineInConstants()
    ensures '\n' !in LOCAL_FILE_URL_PREFIX && '\n' !in HOST_ROOT_MOUNT_BIND_PATH
  {
  }

  /** Adjusting a line neither breaks it nor turns it into or out of a header. */
  lemma AdjustedLineShape(line: string)
    requires AdjustLine(line).Some? && '\n' !in line
    ensures '\n' !in AdjustLine(line).value
    ensures IsHeader(line) ==> AdjustLine(line).value == line
    ensures !IsHeader(line) ==> !IsHeader(AdjustLine(line).value)
  {
    hide Contains, PathJoin, LStrip, Strip, Split, Join, IsUrlField;
    var stripped := Strip(line, IsSpace);
    var parts := Split(stripped, '=');
    if AdjustLine(line).value != line {
      var joined := Join(parts[1..], "=");
      var value := Strip(joined, IsQuote);
      var path := if |value| < |LOCAL_FILE_URL_PREFIX| then "" else value[|LOCAL_FILE_URL_PREFIX|..];
      NoNewlineInConstants();
      CharsOfStrip(line, IsSpace, '\n');
      CharsOfSplit(stripped, '=', '\n');
      CharsOfJoin(parts[1..], "=", '\n');
      CharsOfStrip(joined, IsQuote, '\n');
      CharsOfLStrip(path, IsSlash, '\n');
      CharsOfRedirect(LStrip(path, IsSlash), '\n');
      UrlFieldStart(parts[0]);
      FieldOfHeader(line);
    }
  }

  lemma FieldOfHeader(line: string)
    ensures IsHeader(line) ==> !IsUrlField(Split(Strip(line, IsSpace), '=')[0])
  {
    if IsHeader(line) {
      var stripped := Strip(line, IsSpace);
      StripOfHeader(line);
      var field := Split(stripped, '=')[0];
      assert field != "" ==> field[0] == '[';
      if IsUrlField(field) { UrlFieldStart(field); }
    }
  }

  ghost predicate NoNewlines(lines: seq<string>) { Free(lines, '\n') }

  lemma {:induction false} AdjustedLinesShape(lines: seq<string>)
    requires AdjustLines(lines).Some? && NoNewlines(lines)
    ensures var r := AdjustLines(lines).value;
            && |r| == |lines| && NoNewlines(r)
            && forall i :: 0 <= i < |lines| ==>
                 && (IsHeader(lines[i]) ==> r[i] == lines[i])
                 && (!IsHeader(lines[i]) ==> !IsHeader(r[i]))
                 && AdjustLine(lines[i]) == Some(r[i])
  {
    hide AdjustLine;
    if lines != [] {
      AdjustedLineShape(lines[0]);
      assert NoNewlines(lines[1..]);
      AdjustedLinesShape(lines[1..]);
    }
  }

  /** The rewritten repositories are repositories again, line for line; only repositories whose
    * id was asked for have lines that changed.
    */
  lemma {:induction false} AdjustedReposShape(repos: seq<seq<string>>, ids: set<string>)
    requires AreRepos(repos) && AdjustRepos(repos, ids).Some? && NoNewlines(Concat(repos))
    ensures var r := AdjustRepos(repos, ids).value;
            && |r| == |repos| && AreRepos(r) && NoNewlines(Concat(r))
            && forall i :: 0 <= i < |repos| ==>
                 && |r[i]| == |repos[i]| && r[i][0] == repos[i][0]
                 && (Strip(repos[i][0], IsBracket) !in ids ==> r[i] == repos[i])
                 && (Strip(repos[i][0], IsBracket) in ids ==>
                      forall k :: 0 <= k < |repos[i]| ==> AdjustLine(repos[i][k]) == Some(r[i][k]))
  {
    hide AdjustLine, Strip;
    if repos != [] {
      ClearAppend(repos[0], Concat(repos[1..]));
      if Strip(repos[0][0], IsBracket) in ids { AdjustedLinesShape(repos[0]); }
      AdjustedReposShape(repos[1..], ids);
      var r := AdjustRepos(repos, ids).value;
      TailOfCons(r[0], AdjustRepos(repos[1..], ids).value);
      ClearAppend(r[0], Concat(r[1..]));
    }
  }

  lemma ClearAppend(a: seq<string>, b: seq<string>)
    ensures NoNewlines(a + b) <==> NoNewlines(a) && NoNewlines(b)
  {
    assert NoNewlines(a + b) ==> (forall i :: 0 <= i < |a| ==> (a + b)[i] == a[i]);
    assert NoNewlines(a + b) ==> (forall i :: 0 <= i < |b| ==> (a + b)[|a| + i] == b[i]);
    if NoNewlines(a + b) {
      forall i | 0 <= i < |a| ensures '\n' !in a[i] { assert (a + b)[i] == a[i]; }
      forall i | 0 <= i < |b| ensures '\n' !in b[i] { assert (a + b)[|a| + i] == b[i]; }
    }
  }

  lemma ExtractIsClear(text: string)
    ensures NoNewlines(Concat(Extract(text)))
  {
    var lines := FromHeader(ReadLines(text));
    ExtractConcat(text);
    StripAllSpec(lines);
    FromHeaderSpec(ReadLines(text));
    SplitIsFree(text, '\n');
    forall i | 0 <= i < |lines| ensures '\n' !in Strip(lines[i], IsSpace) {
      assert lines[i] in ReadLines(text);
      StrippedLineClear(Split(text, '\n'), lines[i]);
    }
  }

  lemma {:induction false} StrippedLineClear(parts: seq<string>, line: string)
    requires NoNewlines(parts) && line in WithNewlines(parts)
    ensures '\n' !in Strip(line, IsSpace)
  {
    if |parts| == 1 {
      assert line == parts[0];
      CharsOfStrip(line, IsSpace, '\n');
    } else if line == parts[0] + "\n" {
      StripNewline(parts[0]);
      CharsOfStrip(parts[0], IsSpace, '\n');
    } else {
      assert NoNewlines(parts[1..]);
      StrippedLineClear(parts[1..], line);
    }
  }

  ghost predicate AllBare(lines: seq<string>) {
    forall i :: 0 <= i < |lines| ==> Strip(lines[i], IsSpace) == lines[i]
  }

  /** Reading back written repositories gives them again exactly when no line has outer white
    * space and the last line is not empty.
    */
  lemma WrittenReposReadBack(repos: seq<seq<string>>)
    requires AreRepos(repos) && repos != [] && NoNewlines(Concat(repos))
    ensures var flat := Concat(repos);
            Extract(Written(repos)) == repos <==> AllBare(flat) && flat[|flat| - 1] != ""
  {
    var flat, text := Concat(repos), Written(repos);
    WrittenIsJoin(repos);
    SplitJoin(flat, '\n');
    assert flat[0] == repos[0][0] by { assert repos[0] != []; }
    NewlinesDoNotMatter(flat);
    var kept := BareLines(flat);
    assert kept != [] && kept[0] == flat[0];
    assert FromHeader(kept) == kept;
    StripAllSpec(kept);
    assert Extract(text) == ReposOf(StripAll(kept));
    StripOfHeader(kept[0]);
    ReposOfSpec(StripAll(kept));
    if AllBare(flat) && flat[|flat| - 1] != "" {
      assert StripAll(kept) == flat;
      ReposOfConcat(repos);
    }
    if Extract(text) == repos {
      assert StripAll(kept) == flat;
      assert |kept| == |flat|;
    }
  }

  // ---------------------------------------------------------------- the condition on the text

  /** The guards of `_adjust_local_file_url`: the line is an active setting of a URL field and
    * mentions a local URL.
    */
  predicate Redirects(line: string) {
    && Contains(line, LOCAL_FILE_URL_PREFIX) && !(line != "" && line[0] == '#')
    && |Split(Strip(line, IsSpace), '=')| > 1 && IsUrlField(Split(Strip(line, IsSpace), '=')[0])
  }

  /** The path of the URL in a setting, without quotes and without the prefix. */
  function UrlPath(line: string): string {
    var value := Strip(Join(Split(Strip(line, IsSpace), '=')[1..], "="), IsQuote);
    if |value| < |LOCAL_FILE_URL_PREFIX| then "" else value[|LOCAL_FILE_URL_PREFIX|..]
  }

  predicate EndsInSpace(s: string) { s != "" && IsSpace(s[|s| - 1]) }

  /** A redirected line is not empty, and it has outer white space exactly if the path had been
    * shielded by quotes and ends in white space.
    */
  lemma RedirectedLineIsBareIff(line: string)
    requires Redirects(line)
    ensures AdjustLine(line).Some? && AdjustLine(line).value != ""
    ensures Strip(AdjustLine(line).value, IsSpace) == AdjustLine(line).value <==> !EndsInSpace(UrlPath(line))
  {
    hide Contains, Strip, Split, Join, IsUrlField, LStrip, AdjustLine;
    var field, path := Split(Strip(line, IsSpace), '=')[0], LStrip(UrlPath(line), IsSlash);
    var r := field + "=" + LOCAL_FILE_URL_PREFIX + (HOST_ROOT_MOUNT_BIND_PATH + "/" + path);
    assert AdjustLine(line) == Some(r) by { RedirectValue(line); }
    UrlFieldStart(field);
    assert r[0] == field[0];
    var pre := LStripSpec(UrlPath(line), IsSlash);
    if path != "" {
      assert UrlPath(line)[|UrlPath(line)| - 1] == path[|path| - 1] == r[|r| - 1];
    } else {
      assert r[|r| - 1] == '/' && UrlPath(line) == pre;
    }
    BareIff(r);
  }

  lemma RedirectValue(line: string)
    requires Redirects(line)
    ensures AdjustLine(line) == Some(Split(Strip(line, IsSpace), '=')[0] + "=" + LOCAL_FILE_URL_PREFIX
                                     + (HOST_ROOT_MOUNT_BIND_PATH + "/" + LStrip(UrlPath(line), IsSlash)))
  {
    hide Contains, Strip, Split, Join, IsUrlField, LStrip;
  }

  lemma BareIff(s: string)
    ensures Strip(s, IsSpace) == s <==> Bare(s, IsSpace)
  {
    if Bare(s, IsSpace) { StripOfBare(s, IsSpace); }
    var pre, post := StripSpec(s, IsSpace);
  }

  lemma OtherLinesStay(line: string)
    requires AdjustLine(line).Some? && !Redirects(line)
    ensures AdjustLine(line).value == line
  {
    hide Contains, Strip, Join, IsUrlField, LStrip, PathJoin;
  }

  predicate Chosen(repo: seq<string>, ids: set<string>) {
    repo != [] && Strip(repo[0], IsBracket) in ids
  }

  /** A line of a chosen repository whose quoted path ends in white space. */
  ghost predicate ShieldsSpace(line: string) {
    Redirects(line) && EndsInSpace(UrlPath(line))
  }

  /** What a caller can read off the file: it does not end in an empty line, and no chosen
    * repository has a redirected URL that ends in white space.
    */
  ghost predicate SurvivesRewrite(text: string, ids: set<string>) {
    var repos := Extract(text);
    && (Concat(repos) == [] || Concat(repos)[|Concat(repos)| - 1] != "")
    && forall i, k :: 0 <= i < |repos| && Chosen(repos[i], ids) && 0 <= k < |repos[i]| ==> !ShieldsSpace(repos[i][k])
  }

  lemma {:induction false} BareConcatIff(repos: seq<seq<string>>)
    ensures AllBare(Concat(repos)) <==> forall i, k :: 0 <= i < |repos| && 0 <= k < |repos[i]| ==>
              Strip(repos[i][k], IsSpace) == repos[i][k]
  {
    hide Strip;
    if repos != [] {
      var first, rest := repos[0], Concat(repos[1..]);
      BareConcatIff(repos[1..]);
      assert forall i :: 1 <= i < |repos| ==> repos[i] == repos[1..][i - 1];
      assert forall i :: 0 <= i < |repos[1..]| ==> repos[1..][i] == repos[i + 1];
      assert forall k :: 0 <= k < |first| ==> (first + rest)[k] == first[k];
      assert forall k :: 0 <= k < |rest| ==> (first + rest)[|first| + k] == rest[k];
    }
  }

  lemma {:induction false} LastOfConcat(repos: seq<seq<string>>)
    requires repos != [] && AreRepos(repos)
    ensures Concat(repos) != []
    ensures var last := repos[|repos| - 1]; Concat(repos)[|Concat(repos)| - 1] == last[|last| - 1]
  {
    if |repos| == 1 {
      assert Concat(repos[1..]) == [];
      AppendNil(repos[0]);
    } else {
      LastOfConcat(repos[1..]);
      LastOf(repos[0], Concat(repos[1..]));
      assert repos[1..][|repos[1..]| - 1] == repos[|repos| - 1];
    }
  }

  lemma ExtractIsBare(text: string)
    ensures AllBare(Concat(Extract(text)))
  {
    hide Strip, Extract;
    var lines := FromHeader(ReadLines(text));
    ExtractConcat(text);
    StripAllSpec(lines);
    forall i | 0 <= i < |lines| ensures Strip(Strip(lines[i], IsSpace), IsSpace) == Strip(lines[i], IsSpace) {
      var pre, post := StripSpec(lines[i], IsSpace);
      BareIff(Strip(lines[i], IsSpace));
    }
  }

  /** One line, adjusted as its repository is: whether it stays free of outer white space, and
    * whether it stays or becomes empty.
    */
  lemma AdjustedLineIsBareIff(line: string)
    requires AdjustLine(line).Some? && Strip(line, IsSpace) == line
    ensures Strip(AdjustLine(line).value, IsSpace) == AdjustLine(line).value <==> !ShieldsSpace(line)
    ensures AdjustLine(line).value == "" <==> line == ""
  {
    hide Strip, AdjustLine, UrlPath, Redirects;
    if Redirects(line) {
      RedirectedLineIsBareIff(line);
      EmptyStays();
    } else {
      OtherLinesStay(line);
    }
  }

  lemma EmptyStays()
    ensures !Redirects("")
  {
  }

  /** The same for all lines of the file. */
  lemma AdjustedIsBareIff(repos: seq<seq<string>>, ids: set<string>, adjusted: seq<seq<string>>)
    requires AreRepos(repos) && repos != [] && AllBare(Concat(repos)) && NoNewlines(Concat(repos))
    requires AdjustRepos(repos, ids) == Some(adjusted)
    ensures AllBare(Concat(adjusted)) <==>
              forall i, k :: 0 <= i < |repos| && Chosen(repos[i], ids) && 0 <= k < |repos[i]| ==>
                !ShieldsSpace(repos[i][k])
    ensures Concat(adjusted) != [] && Concat(repos) != []
    ensures Concat(adjusted)[|Concat(adjusted)| - 1] == "" <==> Concat(repos)[|Concat(repos)| - 1] == ""
  {
    hide Strip, AdjustLine, AdjustRepos, ShieldsSpace, AllBare, Concat;
    AdjustedReposShape(repos, ids);
    BareConcatIff(repos);
    BareConcatIff(adjusted);
    LastOfConcat(repos);
    LastOfConcat(adjusted);
    forall i, k | 0 <= i < |repos| && Chosen(repos[i], ids) && 0 <= k < |repos[i]|
      ensures Strip(adjusted[i][k], IsSpace) == adjusted[i][k] <==> !ShieldsSpace(repos[i][k])
      ensures adjusted[i][k] == "" <==> repos[i][k] == ""
    {
      AdjustedLineIsBareIff(repos[i][k]);
    }
  }

  /** Extracting, redirecting, writing and extracting again yields exactly the redirected
    * repositories, if and only if the file does not end in an empty line and no redirected URL of
    * a chosen repository is a quoted one that ends in white space.
    */
  lemma RewriteRoundTrip(text: string, ids: set<string>)
    requires Adjusted(text, ids).Some?
    ensures var adjusted := Adjusted(text, ids).value;
            Extract(Written(adjusted)) == adjusted <==> SurvivesRewrite(text, ids)
  {
    hide Extract, Written, AdjustRepos, Strip, ShieldsSpace, Concat, AllBare;
    ExtractConcat(text);
    var repos, adjusted := Extract(text), Adjusted(text, ids).value;
    if repos == [] {
      NoRepos(ids);
    } else {
      ExtractIsClear(text);
      ExtractIsBare(text);
      AdjustedReposShape(repos, ids);
      AdjustedIsBareIff(repos, ids, adjusted);
      WrittenReposReadBack(adjusted);
    }
  }

  lemma NoRepos(ids: set<string>)
    ensures AdjustRepos([], ids) == Some([]) && Extract(Written([])) == [] && Concat([]) == []
  {
    assert Split("", '\n') == [""];
    assert ReadLines("") == [];
  }

  /** The repositories of a text whose lines all end in a newline. */
  lemma ExtractLines(lines: seq<string>)
    requires lines != [] && NoNewlines(lines) && IsHeader(lines[0])
    ensures Extract(Join(lines + [""], "\n")) == ReposOf(StripAll(lines))
  {
    hide Strip;
    assert NoNewlines(lines + [""]);
    SplitJoin(lines + [""], '\n');
    NewlinesDoNotMatter(lines + [""]);
    assert BareLines(lines + [""]) == lines;
  }

  /** ... if those lines are a single repository. */
  lemma ExtractOneRepo(repo: seq<string>, text: string)
    requires IsRepo(repo) && NoNewlines(repo) && AllBare(repo) && text == Join(repo + [""], "\n")
    ensures Extract(text) == [repo]
  {
    hide Strip, Extract;
    ExtractLines(repo);
    StripAllSpec(repo);
    assert StripAll(repo) == repo;
    OneRepo(repo);
    ReposOfConcat([repo]);
  }

  lemma OneRepo(repo: seq<string>)
    ensures Concat([repo]) == repo
  {
    assert [repo][1..] == [];
    AppendNil(repo);
  }

  lemma JoinTwo(a: string, b: string, sep: string)
    ensures Join([a, b], sep) == a + sep + b && Join([a], sep) == a
    ensures Join([a, b, ""], sep) == a + sep + (b + sep + "")
  {
    assert [a, b][1..] == [b] && [a, b, ""][1..] == [b, ""] && [b, ""][1..] == [""];
    assert Join([""], sep) == "" && Join([b, ""], sep) == b + sep + "";
  }

  /** A file that ends in an empty line loses it, whatever repositories are chosen. */
  lemma TrailingEmptyLineIsLost(ids: set<string>)
    ensures var text := "[a]\n\n";
            && Extract(text) == [["[a]", ""]] && !SurvivesRewrite(text, ids)
            && (Adjusted(text, ids).Some? ==>
                  Extract(Written(Adjusted(text, ids).value)) != Adjusted(text, ids).value)
  {
    hide Extract, Written, Adjusted, Redirects, Chosen, ShieldsSpace;
    var text, repo := "[a]\n\n", ["[a]", ""];
    JoinTwo("[a]", "", "\n");
    assert repo + [""] == ["[a]", "", ""] && "[a]" + "\n" + ("" + "\n" + "") == text;
    BareConstants();
    ExtractOneRepo(repo, text);
    OneRepo(repo);
    if Adjusted(text, ids).Some? { RewriteRoundTrip(text, ids); }
  }

  lemma BareConstants()
    ensures Strip("[a]", IsSpace) == "[a]" && Strip("", IsSpace) == "" && Strip("[a]", IsBracket) == "a"
  {
    StripOfBare("[a]", IsSpace);
    assert "[a]" == "[" + "a" + "]";
    StripPadded("[", "a", "]", IsBracket);
  }

  /** So does a quoted URL with a space at its end lose that space. */
  lemma QuotedSpaceIsLost()
    ensures var text := "[a]\n" + "baseurl=" + "\"file:///x \"" + "\n";
            && Extract(text) == [["[a]", "baseurl=" + "\"file:///x \""]] && !SurvivesRewrite(text, {"a"})
            && (Adjusted(text, {"a"}).Some? ==>
                  Extract(Written(Adjusted(text, {"a"}).value)) != Adjusted(text, {"a"}).value)
  {
    hide Extract, Written, Adjusted, ShieldsSpace;
    var line := "baseurl=" + "\"file:///x \"";
    var text, repo := "[a]\n" + "baseurl=" + "\"file:///x \"" + "\n", ["[a]", line];
    JoinTwo("[a]", line, "\n");
    assert repo + [""] == ["[a]", line, ""] && "[a]" + "\n" + (line + "\n" + "") == text;
    BareConstants();
    QuotedSpace();
    ExtractOneRepo(repo, text);
    assert Chosen(Extract(text)[0], {"a"}) && ShieldsSpace(Extract(text)[0][1]);
    if Adjusted(text, {"a"}).Some? { RewriteRoundTrip(text, {"a"}); }
  }

  lemma QuotedSpace()
    ensures var line := "baseurl=" + "\"file:///x \"";
            ShieldsSpace(line) && Strip(line, IsSpace) == line && '\n' !in line
  {
    hide Strip, Split, Join, Contains, IsUrlField;
    var value, line := "\"file:///x \"", "baseurl=" + "\"file:///x \"";
    QuotedLine();
    QuotedValue();
    TailOfCons("baseurl", [value]);
    assert Split(line, '=')[1..] == [value];
    assert Join([value], "=") == value by { JoinTwo(value, "", "="); }
    assert UrlPath(line) == "file:///x "[7..] == "/x ";
  }

  lemma QuotedValue()
    ensures Strip("\"file:///x \"", IsQuote) == "file:///x "
  {
    hide Strip;
    assert "\"file:///x \"" == "\"" + "file:///x " + "\"";
    StripPadded("\"", "file:///x ", "\"", IsQuote);
  }

  lemma QuotedLine()
    ensures var line := "baseurl=" + "\"file:///x \"";
            && Strip(line, IsSpace) == line && Split(line, '=') == ["baseurl", "\"file:///x \""]
            && Contains(line, LOCAL_FILE_URL_PREFIX) && line[0] == 'b' && IsUrlField("baseurl") && '\n' !in line
  {
    hide Strip, Split, Contains;
    var field, value, line := "baseurl", "\"file:///x \"", "baseurl=" + "\"file:///x \"";
    assert line == field + "=" + value;
    StripOfBare(line, IsSpace);
    SplitAppend(field, value, '=');
    SplitOfFree(field, '=');
    SplitOfFree(value, '=');
    assert line == "baseurl=\"" + "file://" + "/x \"";
    ContainsInside("baseurl=\"", "file://", "/x \"");
  }
}
