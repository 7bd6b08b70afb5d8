/** The Python string operations the modelled files rely on: `str.join`,
  * `str.split(sep)`, `str.strip` and `str.replace`, with the laws that connect them.
  */
module Strings {
  import opened Seqs

  // ---------------------------------------------------------------- join and split

  /** Python's `sep.join(parts)`. */
  function Join(parts: seq<string>, sep: string): string {
    if |parts| == 0 then ""
    else if |parts| == 1 then parts[0]
    else parts[0] + sep + Join(parts[1..], sep)
  }

  /** Python's `s.split(sep)` for a one-character separator. */
  function Split(s: string, sep: char): (parts: seq<string>)
    ensures |parts| >= 1
  {
    if s == "" then [""]
    else if s[0] == sep then [""] + Split(s[1..], sep)
    else
      var rest := Split(s[1..], sep);
      [[s[0]] + rest[0]] + rest[1..]
  }

  ghost predicate Free(parts: seq<string>, c: char) {
    forall i :: 0 <= i < |parts| ==> c !in parts[i]
  }

  /** A separator in the text is exactly a boundary between two split results. */
  lemma {:induction false} SplitAppend(x: string, y: string, sep: char)
    ensures Split(x + [sep] + y, sep) == Split(x, sep) + Split(y, sep)
  {
    if x == "" {
      TailOfCons(sep, y);
      assert x + [sep] + y == [sep] + y;
    } else {
      var A, B := Split(x[1..], sep), Split(y, sep);
      SplitAppend(x[1..], y, sep);
      Associative(x, [sep], y);
      TailOfAppend(x, [sep] + y);
      Associative(x[1..], [sep], y);
      if x[0] == sep {
        Associative([""], A, B);
      } else {
        TailOfAppend(A, B);
        Associative([[x[0]] + A[0]], A[1..], B);
      }
    }
  }

  lemma {:induction false} SplitOfFree(s: string, sep: char)
    requires sep !in s
    ensures Split(s, sep) == [s]
  {
    if s != "" {
      SplitOfFree(s[1..], sep);
      assert [s[0]] + s[1..] == s;
    }
  }

  lemma {:induction false} SplitIsFree(s: string, sep: char)
    ensures Free(Split(s, sep), sep)
  {
    if s != "" {
      SplitIsFree(s[1..], sep);
    }
  }

  /** `sep.join(parts).split(sep) == parts` */
  lemma {:induction false} SplitJoin(parts: seq<string>, sep: char)
    requires parts != [] && Free(parts, sep)
    ensures Split(Join(parts, [sep]), sep) == parts
  {
    SplitOfFree(parts[0], sep);
    if |parts| > 1 {
      SplitJoin(parts[1..], sep);
      SplitAppend(parts[0], Join(parts[1..], [sep]), sep);
    }
  }

  /** `sep.join(s.split(sep)) == s` */
  lemma {:induction false} JoinSplit(s: string, sep: char)
    ensures Join(Split(s, sep), [sep]) == s
  {
    if s != "" {
      JoinSplit(s[1..], sep);
      var rest := Split(s[1..], sep);
      if s[0] == sep {
        assert ([""] + rest)[1..] == rest;
      } else if |rest| > 1 {
        assert ([[s[0]] + rest[0]] + rest[1..])[1..] == rest[1..];
      }
    }
  }

  lemma {:induction false} JoinAppend(a: seq<string>, b: seq<string>, sep: string)
    requires a != [] && b != []
    ensures Join(a + b, sep) == Join(a, sep) + sep + Join(b, sep)
  {
    if |a| == 1 {
      assert (a + b)[1..] == b;
    } else {
      assert (a + b)[1..] == a[1..] + b;
      JoinAppend(a[1..], b, sep);
    }
  }

  // ---------------------------------------------------------------- strip

  function LStrip(s: string, drop: char -> bool): (r: string)
    ensures |r| <= |s| && (r == "" || !drop(r[0]))
  {
    if s != "" && drop(s[0]) then LStrip(s[1..], drop) else s
  }

  function RStrip(s: string, drop: char -> bool): string {
    if s != "" && drop(s[|s| - 1]) then RStrip(s[..|s| - 1], drop) else s
  }

  /** Python's `s.strip(chars)`, the set of characters given by `drop`. */
  function Strip(s: string, drop: char -> bool): string {
    RStrip(LStrip(s, drop), drop)
  }

  ghost predicate Only(s: string, p: char -> bool) {
    forall i :: 0 <= i < |s| ==> p(s[i])
  }

  /** Nothing is left to strip on either side. */
  predicate Bare(s: string, drop: char -> bool) {
    s == "" || (!drop(s[0]) && !drop(s[|s| - 1]))
  }

  lemma {:induction false} LStripSpec(s: string, drop: char -> bool) returns (pre: string)
    ensures s == pre + LStrip(s, drop) && Only(pre, drop)
    ensures LStrip(s, drop) == "" || !drop(LStrip(s, drop)[0])
  {
    if s != "" && drop(s[0]) {
      var p := LStripSpec(s[1..], drop);
      pre := [s[0]] + p;
    } else {
      pre := "";
    }
  }

  lemma {:induction false} RStripSpec(s: string, drop: char -> bool) returns (post: string)
    ensures s == RStrip(s, drop) + post && Only(post, drop)
    ensures RStrip(s, drop) == "" || !drop(RStrip(s, drop)[|RStrip(s, drop)| - 1])
  {
    if s != "" && drop(s[|s| - 1]) {
      var p := RStripSpec(s[..|s| - 1], drop);
      post := p + [s[|s| - 1]];
    } else {
      post := "";
    }
  }

  lemma StripSpec(s: string, drop: char -> bool) returns (pre: string, post: string)
    ensures s == pre + Strip(s, drop) + post && Only(pre, drop) && Only(post, drop)
    ensures Bare(Strip(s, drop), drop)
  {
    pre := LStripSpec(s, drop);
    post := RStripSpec(LStrip(s, drop), drop);
  }

  lemma StripToNothing(s: string, drop: char -> bool)
    ensures Strip(s, drop) == "" ==> Only(s, drop)
  {
    var pre, post := StripSpec(s, drop);
    assert Strip(s, drop) == "" ==> s == pre + post;
  }

  lemma StripOfBare(s: string, drop: char -> bool)
    requires Bare(s, drop)
    ensures Strip(s, drop) == s
  {
  }

  lemma {:induction false} LStripPrefix(pre: string, s: string, drop: char -> bool)
    requires Only(pre, drop)
    requires s == "" || !drop(s[0])
    ensures LStrip(pre + s, drop) == s
  {
    if pre == "" {
      assert pre + s == s;
    } else {
      assert (pre + s)[1..] == pre[1..] + s;
      LStripPrefix(pre[1..], s, drop);
    }
  }

  lemma {:induction false} RStripSuffix(s: string, post: string, drop: char -> bool)
    requires Only(post, drop)
    requires s == "" || !drop(s[|s| - 1])
    ensures RStrip(s + post, drop) == s
  {
    if post == "" {
      assert s + post == s;
    } else {
      assert (s + post)[..|s + post| - 1] == s + post[..|post| - 1];
      RStripSuffix(s, post[..|post| - 1], drop);
    }
  }

  /** Padding on both sides is exactly what strip removes. */
  lemma StripPadded(pre: string, s: string, post: string, drop: char -> bool)
    requires Only(pre, drop) && Only(post, drop) && Bare(s, drop)
    ensures Strip(pre + s + post, drop) == s
  {
    if s == "" {
      LStripPrefix(pre + post, "", drop);
      assert pre + s + post == pre + post + "";
    } else {
      LStripPrefix(pre, s + post, drop);
      assert pre + s + post == pre + (s + post);
      RStripSuffix(s, post, drop);
    }
  }

  /** Every item without its outer white space. */
  function StripAll(items: seq<string>): seq<string> {
    if items == [] then [] else [Strip(items[0], IsSpace)] + StripAll(items[1..])
  }

  // ---------------------------------------------------------------- words

  /** The leading characters that are not white space. */
  function Word(s: string): (w: string)
    ensures w <= s && (s != "" && !IsSpace(s[0]) ==> w != "")
    ensures forall i :: 0 <= i < |w| ==> !IsSpace(w[i])
    ensures |w| < |s| ==> IsSpace(s[|w|])
  {
    if s == "" || IsSpace(s[0]) then "" else [s[0]] + Word(s[1..])
  }

  /** Python's `s.split()` */
  function Words(s: string): seq<string>
    decreases |s|
  {
    var t := LStrip(s, IsSpace);
    if t == "" then [] else [Word(t)] + Words(t[|Word(t)|..])
  }

  ghost predicate IsWord(w: string) { w != "" && forall i :: 0 <= i < |w| ==> !IsSpace(w[i]) }

  /** Words, each with the white space after it. */
  function Spaced(items: seq<(string, string)>): string {
    if items == [] then "" else items[0].0 + items[0].1 + Spaced(items[1..])
  }

  function WordsIn(items: seq<(string, string)>): seq<string> {
    if items == [] then [] else [items[0].0] + WordsIn(items[1..])
  }

  lemma {:induction false} WordIsAll(w: string, rest: string)
    requires forall i :: 0 <= i < |w| ==> !IsSpace(w[i])
    requires rest == "" || IsSpace(rest[0])
    ensures Word(w + rest) == w
  {
    if w == "" {
      AppendNil(rest);
    } else {
      TailOfAppend(w, rest);
      WordIsAll(w[1..], rest);
      HeadTail(w);
    }
  }

  /** `split()` gives the words of a text, whatever white space is around and between them. */
  lemma {:induction false} WordsOfSpaced(lead: string, items: seq<(string, string)>)
    requires Only(lead, IsSpace)
    requires forall i :: 0 <= i < |items| ==> IsWord(items[i].0) && Only(items[i].1, IsSpace)
    requires forall i :: 0 <= i < |items| - 1 ==> items[i].1 != ""
    ensures Words(lead + Spaced(items)) == WordsIn(items)
    decreases |items|
  {
    hide Only;
    var text := lead + Spaced(items);
    if items == [] {
      LStripPrefix(lead, "", IsSpace);
    } else {
      var w, gap, rest := items[0].0, items[0].1, Spaced(items[1..]);
      assert IsWord(w);
      Associative(w, gap, rest);
      LStripPrefix(lead, Spaced(items), IsSpace);
      assert gap + rest == "" || IsSpace((gap + rest)[0]) by { GapStarts(items); }
      WordIsAll(w, gap + rest);
      assert Spaced(items)[|w|..] == gap + rest;
      WordsOfSpaced(gap, items[1..]);
    }
  }

  lemma GapStarts(items: seq<(string, string)>)
    requires items != [] && Only(items[0].1, IsSpace) && (|items| > 1 ==> items[0].1 != "")
    ensures var after := items[0].1 + Spaced(items[1..]); after == "" || IsSpace(after[0])
  {
  }

  // ---------------------------------------------------------------- replace

  /** Python's `s.replace(pat, rep)`: leftmost, non-overlapping. */
  function Replace(s: string, pat: string, rep: string): string
    requires pat != ""
  {
    if |s| < |pat| then s
    else if pat <= s then rep + Replace(s[|pat|..], pat, rep)
    else [s[0]] + Replace(s[1..], pat, rep)
  }

  /** `s.replace(a, b)` for single characters. */
  function ReplaceChar(s: string, a: char, b: char): (r: string)
    ensures |r| == |s|
    ensures forall i :: 0 <= i < |s| ==> r[i] == if s[i] == a then b else s[i]
  {
    seq(|s|, i requires 0 <= i < |s| => if s[i] == a then b else s[i])
  }

  /** `pat in s` */
  predicate Contains(s: string, pat: string) {
    |pat| <= |s| && (pat <= s || (s != "" && Contains(s[1..], pat)))
  }

  /** The pattern occurs if and only if the text is something around it. */
  lemma {:induction false} ContainsIff(s: string, pat: string)
    ensures Contains(s, pat) <==> exists before: string, after: string :: s == before + pat + after
  {
    if Contains(s, pat) {
      var before, after := Occurrence(s, pat);
      assert s == before + pat + after;
    }
    if before: string, after: string :| s == before + pat + after {
      ContainsInside(before, pat, after);
    }
  }

  lemma {:induction false} Occurrence(s: string, pat: string) returns (before: string, after: string)
    requires Contains(s, pat)
    ensures s == before + pat + after
  {
    if pat <= s {
      before, after := "", s[|pat|..];
    } else {
      before, after := Occurrence(s[1..], pat);
      before := [s[0]] + before;
    }
  }

  lemma {:induction false} ContainsInside(pre: string, pat: string, post: string)
    ensures Contains(pre + pat + post, pat)
  {
    if pre == "" {
      assert pre + pat + post == pat + post;
      assert pat <= pat + post;
    } else {
      Associative(pre, pat, post);
      TailOfAppend(pre, pat + post);
      Associative(pre[1..], pat, post);
      ContainsInside(pre[1..], pat, post);
    }
  }

  lemma {:induction false} ReplaceAbsent(s: string, pat: string, rep: string)
    requires pat != "" && !Contains(s, pat)
    ensures Replace(s, pat, rep) == s
  {
    if |s| >= |pat| {
      ReplaceAbsent(s[1..], pat, rep);
      assert [s[0]] + s[1..] == s;
    }
  }

  /** Deleting a pattern that occurs takes away at least its length. */
  lemma {:induction false} DeleteShrinks(s: string, pat: string)
    requires pat != ""
    ensures |Replace(s, pat, "")| <= |s|
    ensures Contains(s, pat) ==> |Replace(s, pat, "")| + |pat| <= |s|
  {
    if |s| >= |pat| {
      if pat <= s {
        DeleteShrinks(s[|pat|..], pat);
      } else {
        DeleteShrinks(s[1..], pat);
      }
    }
  }

  // ---------------------------------------------------------------- character classes

  predicate IsSlash(c: char) { c == '/' }

  /** The characters for which Python's `str.isspace` holds. */
  predicate IsSpace(c: char) {
    var n := c as int;
    9 <= n <= 13 || 28 <= n <= 32 || n == 0x85 || n == 0xA0 || n == 0x1680 || 0x2000 <= n <= 0x200A
    || n == 0x2028 || n == 0x2029 || n == 0x202F || n == 0x205F || n == 0x3000
  }

  predicate IsDigit(c: char) { '0' <= c <= '9' }

  /** Of the ASCII characters these are white space. */
  lemma AsciiSpaces(c: char)
    requires c as int < 128
    ensures IsSpace(c) <==> c in " \t\n\r\U{0B}\U{0C}\U{1C}\U{1D}\U{1E}\U{1F}"
  {
    var listed := " \t\n\r\U{0B}\U{0C}\U{1C}\U{1D}\U{1E}\U{1F}";
    assert c in listed <==> exists i :: 0 <= i < 10 && listed[i] == c;
    assert listed[0] == ' ' && listed[1] == '\t' && listed[2] == '\n' && listed[3] == '\r' && |listed| == 10;
    assert listed[4] as int == 11 && listed[5] as int == 12 && listed[6] as int == 28 && listed[7] as int == 29;
    assert listed[8] as int == 30 && listed[9] as int == 31;
  }
}
