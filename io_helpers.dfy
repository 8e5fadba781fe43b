/**
 * Filename derivation of the result store: `slugify` and `safe_filename`.
 * The file reading and writing helpers of the same source file are I/O and are
 * not part of this model.
 */
module IoHelpers {
  import opened Strings

  /** The length a slug is cut to. */
  const SlugMax: nat := 50

  predicate IsSlugChar(c: char) { 'a' <= c <= 'z' || '0' <= c <= '9' }

  predicate NotSlugChar(c: char) { !IsSlugChar(c) }

  predicate IsDash(c: char) { c == '-' }

  /** Every character is in [a-z0-9-]. */
  predicate InSlugAlphabet(s: string)
  {
    forall i :: 0 <= i < |s| ==> IsSlugChar(s[i]) || s[i] == '-'
  }

  /** Positions `i` and `i + 1` both hold a hyphen. */
  predicate DashPair(s: string, i: nat)
    requires i + 1 < |s|
  {
    s[i] == '-' && s[i + 1] == '-'
  }

  /** No two hyphens are adjacent. */
  predicate NoDoubleDash(s: string)
  {
    forall i: nat :: i + 1 < |s| ==> !DashPair(s, i)
  }

  predicate EndsWithDash(s: string) { |s| > 0 && s[|s| - 1] == '-' }

  /** `re.sub(r'[^a-z0-9]+', '-', s)`: each maximal run of characters outside
      [a-z0-9] becomes a single hyphen. */
  function Collapse(s: string): (r: string)
    ensures s == [] <==> r == []
    ensures s != [] ==> (r[0] == '-' <==> !IsSlugChar(s[0]))
    decreases |s|
  {
    if s == [] then []
    else if IsSlugChar(s[0]) then [s[0]] + Collapse(s[1..])
    else "-" + Collapse(TrimLeft(s[1..], NotSlugChar))
  }

  /** The slug before the length cut: `text.lower()`, runs collapsed, `strip('-')`. */
  function FullSlug(t: string): (r: string)
    ensures r == [] || (r[0] != '-' && !EndsWithDash(r))
  {
    StripDashes(Collapse(Lower(t)))
  }

  /** `s.strip('-')`. */
  function StripDashes(c: string): (r: string)
    ensures r == [] || (r[0] != '-' && !EndsWithDash(r))
  {
    TrimRight(TrimLeft(c, IsDash), IsDash)
  }

  /** `slugify(text)`: the full slug cut to its first fifty characters. */
  function Slugify(t: string): (r: string)
    ensures |r| <= SlugMax && |r| <= |FullSlug(t)|
    ensures |r| < SlugMax ==> |r| == |FullSlug(t)|
    ensures r == FullSlug(t)[..|r|]
    ensures r == [] || r[0] != '-'
    ensures EndsWithDash(r) ==> |FullSlug(t)| > SlugMax
  {
    var f := FullSlug(t);
    f[..if |f| < SlugMax then |f| else SlugMax]
  }

  /** `safe_filename(prefix, title, extension)`. */
  function SafeFilename(prefix: string, title: string, extension: string): string
  {
    prefix + "_" + Slugify(title) + "." + extension
  }

  // ---------------------------------------------------------------------------
  // Lemmas

  lemma SliceKeepsShape(s: string, i: nat, j: nat)
    requires i <= j <= |s| && InSlugAlphabet(s) && NoDoubleDash(s)
    ensures InSlugAlphabet(s[i..j]) && NoDoubleDash(s[i..j])
  {
    var t := s[i..j];
    forall k: nat | k + 1 < |t| ensures !DashPair(t, k) {
      assert t[k] == s[i + k] && t[k + 1] == s[i + k + 1];
      assert !DashPair(s, i + k);
    }
  }

  /** Prepending a character keeps the slug shape when it does not start a pair of hyphens. */
  lemma ConsKeepsShape(c: char, r: string)
    requires IsSlugChar(c) || c == '-'
    requires InSlugAlphabet(r) && NoDoubleDash(r)
    requires c == '-' ==> r == [] || r[0] != '-'
    ensures InSlugAlphabet([c] + r) && NoDoubleDash([c] + r)
  {
    var s := [c] + r;
    forall k: nat | k + 1 < |s| ensures !DashPair(s, k) {
      if k > 0 {
        assert s[k] == r[k - 1] && s[k + 1] == r[k];
        assert !DashPair(r, k - 1);
      }
    }
  }

  /** The collapsed text holds only [a-z0-9-] and no two adjacent hyphens. */
  lemma {:induction false} CollapseShape(s: string)
    ensures InSlugAlphabet(Collapse(s)) && NoDoubleDash(Collapse(s))
    decreases |s|
  {
    if s != [] {
      if IsSlugChar(s[0]) {
        CollapseShape(s[1..]);
        ConsKeepsShape(s[0], Collapse(s[1..]));
      } else {
        var t := TrimLeft(s[1..], NotSlugChar);
        CollapseShape(t);
        ConsKeepsShape('-', Collapse(t));
      }
    }
  }

  /** The full slug holds only [a-z0-9-] and no two adjacent hyphens. */
  lemma FullSlugShape(t: string)
    ensures InSlugAlphabet(FullSlug(t)) && NoDoubleDash(FullSlug(t))
  {
    var c := Collapse(Lower(t));
    CollapseShape(Lower(t));
    var l := TrimLeft(c, IsDash);
    SliceKeepsShape(c, |c| - |l|, |c|);
    assert l == c[|c| - |l|..|c|];
    var r := TrimRight(l, IsDash);
    SliceKeepsShape(l, 0, |r|);
    assert FullSlug(t) == r;
  }

  /** A slug holds only [a-z0-9-], no two adjacent hyphens, and so no underscore:
      the underscore `safe_filename` puts after the prefix is the name's first one
      after the prefix. */
  lemma SlugShape(t: string)
    ensures InSlugAlphabet(Slugify(t)) && NoDoubleDash(Slugify(t)) && '_' !in Slugify(t)
  {
    FullSlugShape(t);
    SliceKeepsShape(FullSlug(t), 0, |Slugify(t)|);
  }

  /** Text already in slug shape is left alone by the collapsing step. */
  lemma {:induction false} CollapseFixed(s: string)
    requires InSlugAlphabet(s) && NoDoubleDash(s)
    ensures Collapse(s) == s
    decreases |s|
  {
    if s != [] {
      SliceKeepsShape(s, 1, |s|);
      assert s[1..] == s[1..|s|];
      CollapseFixed(s[1..]);
      if !IsSlugChar(s[0]) {
        assert |s| > 1 ==> !DashPair(s, 0) && IsSlugChar(s[1]);
        assert TrimLeft(s[1..], NotSlugChar) == s[1..];
      }
    }
  }

  /** A slug is its own slug: text in slug shape is a fixed point of `Slugify`. */
  lemma SlugifyFixedPoint(s: string)
    requires InSlugAlphabet(s) && NoDoubleDash(s) && |s| <= SlugMax
    requires s == [] || (s[0] != '-' && !EndsWithDash(s))
    ensures Slugify(s) == s
  {
    LowerNoUpper(s);
    assert Lower(s) == s;
    CollapseFixed(s);
    assert TrimLeft(s, IsDash) == s;
    assert TrimRight(s, IsDash) == s;
    assert FullSlug(s) == s;
    assert Slugify(s) == s[..|s|];
  }

  /** `slugify` is idempotent unless its cut left a trailing hyphen. */
  lemma SlugifyIdempotent(t: string)
    requires !EndsWithDash(Slugify(t))
    ensures Slugify(Slugify(t)) == Slugify(t)
  {
    SlugShape(t);
    SlugifyFixedPoint(Slugify(t));
  }

  /** A trailing hyphen in a slug can only come from the length cut. */
  lemma ShortSlugIsFull(t: string)
    requires |FullSlug(t)| <= SlugMax
    ensures Slugify(t) == FullSlug(t) && !EndsWithDash(Slugify(t))
  {
    var f := FullSlug(t);
    assert Slugify(t) == f[..|f|];
    assert f[..|f|] == f;
  }

  lemma EndsWithDashCons(c: char, s: string)
    requires s != [] || c != '-'
    ensures EndsWithDash([c] + s) == EndsWithDash(s)
  {
    if s != [] { assert ([c] + s)[|s|] == s[|s| - 1]; }
  }

  /** Text starting with a separator collapses to a hyphen followed by the collapse of
      what follows its whole run. */
  lemma CollapseSeparatorStart(w: string)
    requires w != [] && !IsSlugChar(w[0])
    ensures Collapse(w) == "-" + Collapse(TrimLeft(w, NotSlugChar))
  {
    assert TrimLeft(w, NotSlugChar) == TrimLeft(w[1..], NotSlugChar);
  }

  /** Collapsing a concatenation whose right part starts with a run of separators:
      that run merges with a run the left part ends in. */
  lemma {:induction false} CollapseAppendRun(x: string, w: string)
    requires w != [] && !IsSlugChar(w[0])
    ensures Collapse(x + w) ==
      if EndsWithDash(Collapse(x)) then Collapse(x) + Collapse(w)[1..] else Collapse(x) + Collapse(w)
    decreases |x|, 1
  {
    if x == [] {
      assert x + w == w;
      assert Collapse(x) + Collapse(w) == Collapse(w);
    } else if IsSlugChar(x[0]) {
      CollapseAppendRunLetter(x, w);
    } else {
      CollapseAppendRunSeparator(x, w);
    }
  }

  lemma {:induction false} CollapseAppendRunLetter(x: string, w: string)
    requires w != [] && !IsSlugChar(w[0])
    requires x != [] && IsSlugChar(x[0])
    ensures Collapse(x + w) ==
      if EndsWithDash(Collapse(x)) then Collapse(x) + Collapse(w)[1..] else Collapse(x) + Collapse(w)
    decreases |x|, 0
  {
    var cx := Collapse(x[1..]);
    var tail := if EndsWithDash(cx) then Collapse(w)[1..] else Collapse(w);
    AppendTail(x, w);
    assert Collapse(x + w) == [x[0]] + Collapse(x[1..] + w);
    CollapseAppendRun(x[1..], w);
    assert Collapse(x) == [x[0]] + cx;
    EndsWithDashCons(x[0], cx);
    AppendAssoc([x[0]], cx, tail);
  }

  lemma {:induction false} CollapseAppendRunSeparator(x: string, w: string)
    requires w != [] && !IsSlugChar(w[0])
    requires x != [] && !IsSlugChar(x[0])
    ensures Collapse(x + w) ==
      if EndsWithDash(Collapse(x)) then Collapse(x) + Collapse(w)[1..] else Collapse(x) + Collapse(w)
    decreases |x|, 0
  {
    var t := TrimLeft(x[1..], NotSlugChar);
    AppendTail(x, w);
    assert Collapse(x + w) == "-" + Collapse(TrimLeft(x[1..] + w, NotSlugChar));
    assert Collapse(x) == "-" + Collapse(t);
    TrimLeftAppend(x[1..], w, NotSlugChar);
    if t == [] {
      CollapseSeparatorStart(w);
      assert Collapse(x + w) == Collapse(w);
    } else {
      var ct := Collapse(t);
      var tail := if EndsWithDash(ct) then Collapse(w)[1..] else Collapse(w);
      assert Collapse(x + w) == "-" + Collapse(t + w);
      CollapseAppendRun(t, w);
      EndsWithDashCons('-', ct);
      AppendAssoc("-", ct, tail);
    }
  }

  /** Appending "_meta" to a title: the collapsed text gains "meta" after exactly one hyphen. */
  lemma CollapseAppendMeta(x: string)
    ensures Collapse(x + "_meta") ==
      if EndsWithDash(Collapse(x)) then Collapse(x) + "meta" else Collapse(x) + "-meta"
  {
    var w := "_meta";
    assert TrimLeft(w[1..], NotSlugChar) == "meta";
    CollapseFixed("meta");
    assert Collapse(w) == "-meta";
    CollapseAppendRun(x, w);
  }

  /** The last character of a non-empty suffix is the last character of the text. */
  lemma SuffixLast(c: string, l: string)
    requires |l| <= |c| && l == c[|c| - |l|..] && l != []
    ensures l[|l| - 1] == c[|c| - 1]
  {
  }

  /** A slug-shaped text with a trailing hyphen after a non-hyphen start loses exactly
      that hyphen when its hyphens are stripped from the right. */
  lemma TrimOneDash(l: string)
    requires InSlugAlphabet(l) && NoDoubleDash(l)
    requires l != [] && l[0] != '-' && EndsWithDash(l)
    ensures TrimRight(l, IsDash) + "-" == l
  {
    assert |l| >= 2;
    assert !DashPair(l, |l| - 2);
    var k := l[..|l| - 1];
    assert k[|k| - 1] == l[|l| - 2];
    TrimRightKeep(k, IsDash);
    assert TrimRight(l, IsDash) == TrimRight(k, IsDash);
    assert k + "-" == l;
  }

  lemma WordAfterTrailingDash(l: string, w: string)
    requires InSlugAlphabet(l) && NoDoubleDash(l)
    requires l != [] && l[0] != '-' && EndsWithDash(l)
    requires w != [] && !EndsWithDash(w)
    ensures TrimRight(l, IsDash) != []
    ensures TrimRight(l + w, IsDash) == TrimRight(l, IsDash) + "-" + w
  {
    var f := TrimRight(l, IsDash);
    TrimOneDash(l);
    assert (l + w)[|l + w| - 1] == w[|w| - 1];
    TrimRightKeep(l + w, IsDash);
  }

  lemma StripDashesAfterDashedText(c: string, w: string)
    requires InSlugAlphabet(c) && NoDoubleDash(c) && EndsWithDash(c)
    requires w != [] && w[0] != '-' && !EndsWithDash(w)
    requires TrimLeft(c, IsDash) != []
    ensures StripDashes(c) != [] && StripDashes(c + w) == StripDashes(c) + "-" + w
  {
    var l := TrimLeft(c, IsDash);
    assert TrimLeft(c + w, IsDash) == l + w by { TrimLeftAppend(c, w, IsDash); }
    assert InSlugAlphabet(l) && NoDoubleDash(l) by {
      SliceKeepsShape(c, |c| - |l|, |c|);
      assert l == c[|c| - |l|..|c|];
    }
    assert EndsWithDash(l) by { SuffixLast(c, l); }
    WordAfterTrailingDash(l, w);
  }

  /** Stripping hyphens after a word was appended to a collapsed text that ends in a hyphen. */
  lemma StripDashesAfterDash(c: string, w: string)
    requires InSlugAlphabet(c) && NoDoubleDash(c) && EndsWithDash(c)
    requires w != [] && w[0] != '-' && !EndsWithDash(w)
    ensures StripDashes(c + w) == if StripDashes(c) == [] then w else StripDashes(c) + "-" + w
  {
    TrimLeftAppend(c, w, IsDash);
    if TrimLeft(c, IsDash) == [] {
      TrimLeftKeep(w, IsDash);
      TrimRightKeep(w, IsDash);
    } else {
      StripDashesAfterDashedText(c, w);
    }
  }

  /** Stripping hyphens after a hyphen and a word were appended to a text that does not
      end in a hyphen. */
  lemma StripDashesAfterChar(c: string, w: string)
    requires !EndsWithDash(c)
    requires w != [] && w[0] != '-' && !EndsWithDash(w)
    ensures StripDashes(c + "-" + w) == if StripDashes(c) == [] then w else StripDashes(c) + "-" + w
  {
    var l := TrimLeft(c, IsDash);
    var dw := "-" + w;
    AppendAssoc(c, "-", w);
    TrimLeftAppend(c, dw, IsDash);
    if l == [] {
      assert TrimLeft(c + dw, IsDash) == w by {
        assert TrimLeft(dw, IsDash) == TrimLeft(w, IsDash);
        TrimLeftKeep(w, IsDash);
      }
      TrimRightKeep(w, IsDash);
    } else {
      assert TrimLeft(c + dw, IsDash) == l + dw;
      assert TrimRight(l, IsDash) == l by {
        SuffixLast(c, l);
        TrimRightKeep(l, IsDash);
      }
      assert TrimRight(l + dw, IsDash) == l + dw by {
        assert (l + dw)[|l + dw| - 1] == w[|w| - 1];
        TrimRightKeep(l + dw, IsDash);
      }
      AppendAssoc(l, "-", w);
    }
  }

  lemma DashMeta()
    ensures "-" + "meta" == "-meta"
  {
  }

  /** The untruncated slug of `title + "_meta"` is the title's slug followed by "-meta",
      or just "meta" when the title has no letter or digit. */
  lemma FullSlugMeta(t: string)
    ensures FullSlug(t + "_meta") == if FullSlug(t) == [] then "meta" else FullSlug(t) + "-meta"
  {
    var c := Collapse(Lower(t));
    assert Collapse(Lower(t + "_meta")) == Collapse(Lower(t) + "_meta") by {
      LowerAppend(t, "_meta");
      assert Lower("_meta") == "_meta";
    }
    CollapseAppendMeta(Lower(t));
    assert InSlugAlphabet(c) && NoDoubleDash(c) by { CollapseShape(Lower(t)); }
    var f := StripDashes(c);
    DashMeta();
    AppendAssoc(f, "-", "meta");
    if EndsWithDash(c) {
      StripDashesAfterDash(c, "meta");
    } else {
      AppendAssoc(c, "-", "meta");
      StripDashesAfterChar(c, "meta");
    }
  }

  /** The metadata slug is the first fifty characters of the title's full slug
      followed by "-meta" (just "meta" for a title without letters or digits). */
  lemma MetaSlug(t: string)
    ensures var f := FullSlug(t);
      Slugify(t + "_meta") ==
        if f == [] then "meta"
        else (f + "-meta")[..if |f| + 5 < SlugMax then |f| + 5 else SlugMax]
  {
    FullSlugMeta(t);
  }

  /** When the title's full slug reaches the cut, the metadata slug equals the
      title's slug: "-meta" is cut away entirely. */
  lemma MetaSlugCollides(t: string)
    requires |FullSlug(t)| >= SlugMax
    ensures Slugify(t + "_meta") == Slugify(t)
  {
    MetaSlug(t);
    var f := FullSlug(t);
    assert (f + "-meta")[..SlugMax] == f[..SlugMax];
  }

  /** A digit prefix is recovered from the text before the first underscore. */
  lemma {:induction false} DigitPrefixUnique(p1: string, r1: string, p2: string, r2: string)
    requires AllDigits(p1) && AllDigits(p2)
    requires p1 + "_" + r1 == p2 + "_" + r2
    ensures p1 == p2
  {
    var n := p1 + "_" + r1;
    assert n[|p1|] == '_';
    assert (p2 + "_" + r2)[|p2|] == '_';
    if |p1| != |p2| {
      assert false;
    } else {
      assert p1 == n[..|p1|];
      assert p2 == (p2 + "_" + r2)[..|p2|];
    }
  }

  /** The prefix of a safe filename is recovered from the name when it is made of
      digits, whatever the titles and extensions. */
  lemma FilenamePrefixDetermined(p1: string, t1: string, e1: string, p2: string, t2: string, e2: string)
    requires AllDigits(p1) && AllDigits(p2)
    requires SafeFilename(p1, t1, e1) == SafeFilename(p2, t2, e2)
    ensures p1 == p2
  {
    var r1 := Slugify(t1) + "." + e1;
    var r2 := Slugify(t2) + "." + e2;
    AppendAssoc(p1 + "_", Slugify(t1), ".");
    AppendAssoc(p1 + "_", Slugify(t1) + ".", e1);
    AppendAssoc(p2 + "_", Slugify(t2), ".");
    AppendAssoc(p2 + "_", Slugify(t2) + ".", e2);
    DigitPrefixUnique(p1, r1, p2, r2);
  }
}
