/** POSIX paths as plain strings: `os.path.join`, `dirname` and `basename`, and the
  * link between string prefixes and path components.
  */
module Paths {
  import opened Strings

  // ---------------------------------------------------------------- os.path

  /** `os.path.join(a, b)` */
  function PathJoin(a: string, b: string): string {
    if b != "" && b[0] == '/' then b
    else if a == "" || a[|a| - 1] == '/' then a + b
    else a + "/" + b
  }

  /** An absolute path stands for itself, any other is inside the directory it is joined to. */
  lemma PathJoinSpec(a: string, b: string)
    ensures b != "" && b[0] == '/' ==> PathJoin(a, b) == b
    ensures (b == "" || b[0] != '/') && a != "" ==> PathJoin(a, b) == AsDir(a) + b
    ensures (b == "" || b[0] != '/') && a == "" ==> PathJoin(a, b) == b
  {
  }

  /** Everything up to and including the last slash. */
  function Head(p: string): (h: string)
    ensures h <= p && '/' !in p[|h|..]
    ensures h == "" || h[|h| - 1] == '/'
  {
    if p == "" || p[|p| - 1] == '/' then p else Head(p[..|p| - 1])
  }

  /** `os.path.isabs(p)` */
  predicate Absolute(p: string) { p != "" && p[0] == '/' }

  predicate AllSlashes(p: string) {
    forall i :: 0 <= i < |p| ==> p[i] == '/'
  }

  /** `os.path.dirname(p)` */
  function DirName(p: string): string {
    var h := Head(p);
    if AllSlashes(h) then h else RStrip(h, IsSlash)
  }

  /** `os.path.basename(p)` */
  function BaseName(p: string): string {
    p[|Head(p)|..]
  }

  // ---------------------------------------------------------------- containment, on strings

  function AsDir(p: string): string {
    if p != "" && p[|p| - 1] == '/' then p else p + "/"
  }

  /** `p` lies strictly inside the directory `dir`. */
  predicate Below(p: string, dir: string) {
    AsDir(dir) <= p
  }

  predicate AtOrBelow(p: string, dir: string) {
    p == dir || Below(p, dir)
  }

  lemma AtOrBelowTransitive(t: string, inner: string, dir: string)
    requires AtOrBelow(t, inner) && AtOrBelow(inner, dir)
    ensures AtOrBelow(t, dir)
  {
    if t != inner && inner != dir {
      assert AsDir(dir) <= inner <= AsDir(inner) <= t;
    }
  }

  // ---------------------------------------------------------------- components

  predicate NoDoubleSlash(p: string) {
    forall i :: 0 <= i < |p| - 1 ==> p[i] != '/' || p[i + 1] != '/'
  }

  /** An absolute path in its shortest spelling (symbolic parts such as `..` aside). */
  predicate Clean(p: string) {
    p == "/" || (|p| > 1 && p[0] == '/' && p[|p| - 1] != '/' && NoDoubleSlash(p))
  }

  function Components(p: string): seq<string> {
    var inner := Strip(p, IsSlash);
    if inner == "" then [] else Split(inner, '/')
  }

  ghost predicate Names(cs: seq<string>) {
    Free(cs, '/') && forall i :: 0 <= i < |cs| ==> cs[i] != ""
  }

  function Render(cs: seq<string>): string {
    "/" + Join(cs, "/")
  }

  lemma TailNoDoubleSlash(p: string)
    requires p != "" && NoDoubleSlash(p)
    ensures NoDoubleSlash(p[1..])
  {
    forall i | 0 <= i < |p[1..]| - 1
      ensures p[1..][i] != '/' || p[1..][i + 1] != '/'
    {
      assert p[i + 1] != '/' || p[i + 1 + 1] != '/';
    }
  }

  lemma {:induction false} SplitNonEmpty(s: string)
    requires NoDoubleSlash(s)
    requires s == "" || s[|s| - 1] != '/'
    ensures forall i :: 0 < i < |Split(s, '/')| ==> Split(s, '/')[i] != ""
    ensures Split(s, '/')[0] == "" <==> s == "" || s[0] == '/'
  {
    if s != "" {
      TailNoDoubleSlash(s);
      SplitNonEmpty(s[1..]);
      var rest := Split(s[1..], '/');
      if s[0] == '/' {
        assert Split(s, '/') == [""] + rest;
        assert |s| > 1 && s[1] != '/';
      }
    }
  }

  /** A clean path is the rendering of its own components. */
  lemma CleanComponents(p: string)
    requires Clean(p)
    ensures Names(Components(p)) && Render(Components(p)) == p
    ensures Components(p) == [] <==> p == "/"
  {
    if p == "/" {
      StripPadded("/", "", "", IsSlash);
    } else {
      var inner := p[1..];
      assert inner[0] != '/' by { assert p[0] == '/'; }
      assert p == "/" + inner + "";
      StripPadded("/", inner, "", IsSlash);
      TailNoDoubleSlash(p);
      SplitNonEmpty(inner);
      SplitIsFree(inner, '/');
      JoinSplit(inner, '/');
    }
  }

  lemma {:induction false} JoinNames(cs: seq<string>)
    requires Names(cs) && cs != []
    ensures var s := Join(cs, "/"); s != "" && s[0] != '/' && s[|s| - 1] != '/' && NoDoubleSlash(s)
  {
    if |cs| > 1 {
      JoinNames(cs[1..]);
    }
  }

  /** ... and every list of names is the component list of its rendering. */
  lemma RenderClean(cs: seq<string>)
    requires Names(cs)
    ensures Clean(Render(cs)) && Components(Render(cs)) == cs
  {
    if cs == [] {
      assert Render(cs) == "/";
      CleanComponents("/");
    } else {
      JoinNames(cs);
      var s := Join(cs, "/");
      assert "/" + s == "/" + s + "";
      StripPadded("/", s, "", IsSlash);
      SplitJoin(cs, '/');
    }
  }

  lemma CleanInjective(p: string, q: string)
    requires Clean(p) && Clean(q) && Components(p) == Components(q)
    ensures p == q
  {
    CleanComponents(p);
    CleanComponents(q);
  }

  lemma CleanSplit(p: string)
    requires Clean(p) && p != "/"
    ensures Components(p) == Split(p[1..], '/')
  {
    assert p == "/" + p[1..] + "";
    assert Bare(p[1..], IsSlash) by { assert p[0] == '/'; }
    StripPadded("/", p[1..], "", IsSlash);
  }

  lemma BelowComponents(p: string, q: string)
    requires Clean(p) && Clean(q) && p != q && Below(p, q)
    ensures Components(q) <= Components(p)
  {
    CleanComponents(q);
    if q != "/" {
      var rest := p[|q| + 1..];
      assert p[1..] == q[1..] + ['/'] + rest by { assert p == q + "/" + rest; }
      CleanSplit(p);
      CleanSplit(q);
      SplitAppend(q[1..], rest, '/');
    }
  }

  lemma RenderAppend(a: seq<string>, b: seq<string>)
    requires a != [] && b != []
    ensures Render(a + b) == Render(a) + "/" + Join(b, "/")
  {
    JoinAppend(a, b, "/");
    assert "/" + (Join(a, "/") + "/" + Join(b, "/")) == "/" + Join(a, "/") + "/" + Join(b, "/");
  }

  lemma ComponentsBelow(p: string, q: string)
    requires Clean(p) && Clean(q) && p != q && Components(q) <= Components(p)
    ensures Below(p, q)
  {
    CleanComponents(p);
    CleanComponents(q);
    if q != "/" {
      var cq := Components(q);
      var more := Components(p)[|cq|..];
      assert Components(p) == cq + more;
      if more == [] {
        CleanInjective(p, q);
      } else {
        RenderAppend(cq, more);
        assert AsDir(q) == q + "/";
      }
    }
  }

  /** The string test for containment is the component test. */
  lemma AtOrBelowIsPrefix(p: string, q: string)
    requires Clean(p) && Clean(q)
    ensures AtOrBelow(p, q) <==> Components(q) <= Components(p)
  {
    if p != q {
      if Below(p, q) { BelowComponents(p, q); }
      if Components(q) <= Components(p) { ComponentsBelow(p, q); }
    }
  }
}
