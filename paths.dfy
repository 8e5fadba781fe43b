/**
 * The parts of Python's `posixpath` the pipeline uses: `join` of two parts,
 * `basename` and `splitext`.
 */
module Paths {
  import opened Strings

  /** `s.rfind(c)`: the index of the last `c` in `s`, or -1. */
  function RFind(s: string, c: char): (i: int)
    ensures -1 <= i < |s|
    ensures i >= 0 ==> s[i] == c
    ensures forall j :: i < j < |s| ==> s[j] != c
  {
    if s == [] then -1
    else if s[|s| - 1] == c then |s| - 1
    else RFind(s[..|s| - 1], c)
  }

  /** `os.path.join(a, b)`. */
  function Join(a: string, b: string): string
  {
    if StartsWith(b, "/") then b
    else if a == [] || EndsWith(a, "/") then a + b
    else a + "/" + b
  }

  /** `os.path.basename(p)`: what follows the last '/'. */
  function Basename(p: string): (r: string)
    ensures '/' !in r
    ensures |r| <= |p| && r == p[|p| - |r|..]
  {
    p[RFind(p, '/') + 1..]
  }

  /** Some character in `p[lo..hi]` is not a dot. */
  predicate HasNonDot(p: string, lo: int, hi: int)
    requires 0 <= lo && hi <= |p|
  {
    exists k :: lo <= k < hi && p[k] != '.'
  }

  /** `os.path.splitext(p)`: the extension runs from the last dot of the last path
      component, unless every character before that dot in the component is a dot. */
  function SplitExt(p: string): (r: (string, string))
    ensures r.0 + r.1 == p
    ensures r.1 == [] || (r.1[0] == '.' && '/' !in r.1 && '.' !in r.1[1..])
  {
    var sep := RFind(p, '/');
    var dot := RFind(p, '.');
    if dot > sep && HasNonDot(p, sep + 1, dot) then
      assert p[dot..][1..] == p[dot + 1..];
      (p[..dot], p[dot..])
    else (p, "")
  }

  /** Joining puts the name after a directory part that is empty or ends in '/'. */
  lemma JoinParts(dir: string, name: string) returns (pre: string)
    requires '/' !in name
    ensures Join(dir, name) == pre + name
    ensures pre == [] || pre[|pre| - 1] == '/'
  {
    if name != [] { assert name[0] != '/'; }
    if dir == [] || EndsWith(dir, "/") {
      pre := dir;
      if dir != [] { assert dir[|dir| - 1] == dir[|dir| - 1..][0]; }
    } else {
      pre := dir + "/";
      AppendAssoc(dir, "/", name);
    }
  }

  /** Appending text without `c` does not move the last `c`. */
  lemma {:induction false} RFindAppend(a: string, b: string, c: char)
    requires c !in b
    ensures RFind(a + b, c) == RFind(a, c)
    decreases |b|
  {
    if b != [] {
      var b' := b[..|b| - 1];
      assert (a + b)[|a + b| - 1] == b[|b| - 1];
      assert (a + b)[..|a + b| - 1] == a + b';
      RFindAppend(a, b', c);
    } else {
      assert a + b == a;
    }
  }

  /** The basename of a name joined to a directory is the name. */
  lemma BasenameJoin(dir: string, name: string)
    requires '/' !in name
    ensures Basename(Join(dir, name)) == name
  {
    var pre := JoinParts(dir, name);
    RFindAppend(pre, name, '/');
    assert (pre + name)[|pre|..] == name;
  }

  /** The last dot of `head + ext`, for an extension without dots, ends `head`. */
  lemma RFindDotBeforeExt(head: string, ext: string)
    requires head != [] && head[|head| - 1] == '.' && '.' !in ext
    ensures RFind(head + ext, '.') == |head| - 1
  {
    RFindAppend(head, ext, '.');
  }

  /** A path `pre + stem + "." + ext` splits at the dot before `ext`. */
  lemma SplitExtName(pre: string, stem: string, ext: string)
    requires pre == [] || pre[|pre| - 1] == '/'
    requires '/' !in stem && '/' !in ext && '.' !in ext
    requires exists k :: 0 <= k < |stem| && stem[k] != '.'
    ensures SplitExt(pre + (stem + "." + ext)) == (pre + stem, "." + ext)
  {
    var name := stem + "." + ext;
    var p := pre + name;
    var head := pre + stem + ".";
    assert p == head + ext by { AppendAssoc(pre, stem + ".", ext); AppendAssoc(pre, stem, "."); }
    var dot := |pre| + |stem|;
    assert RFind(p, '.') == dot by { RFindDotBeforeExt(head, ext); }
    assert '/' !in name;
    assert RFind(p, '/') == RFind(pre, '/') by { RFindAppend(pre, name, '/'); }
    var k :| 0 <= k < |stem| && stem[k] != '.';
    assert p[|pre| + k] == stem[k];
    assert HasNonDot(p, RFind(p, '/') + 1, dot);
    assert p[..dot] == pre + stem;
    assert p[dot..] == "." + ext;
  }

  /** A file named `<stem>.<ext>`, with a stem that holds a character other than a dot
      and an extension free of dots and slashes, splits at that last dot. */
  lemma SplitExtFile(dir: string, stem: string, ext: string)
    requires '/' !in stem && '/' !in ext && '.' !in ext
    requires exists k :: 0 <= k < |stem| && stem[k] != '.'
    ensures var p := Join(dir, stem + "." + ext);
      SplitExt(p) == (p[..|p| - |ext| - 1], "." + ext)
  {
    var name := stem + "." + ext;
    assert '/' !in name;
    var pre := JoinParts(dir, name);
    SplitExtName(pre, stem, ext);
    var p := pre + name;
    assert p[..|p| - |ext| - 1] == pre + stem;
  }
}
