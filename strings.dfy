/**
 * The parts of Python's `str` that the pipeline relies on: `lower`, `strip`,
 * `startswith`/`endswith`, the `in` operator, `split`, `join`, `replace`,
 * decimal formatting of integers and code-point string ordering.
 * Characters are restricted to ASCII behaviour: `Lower` only maps 'A'..'Z',
 * and `Strip` removes the ASCII characters for which `str.isspace` holds.
 */
module Strings {

  // ---------------------------------------------------------------------------
  // Sequence facts used as proof steps

  lemma AppendTail(x: string, w: string)
    requires x != []
    ensures (x + w)[1..] == x[1..] + w
  {
  }

  lemma AppendAssoc(a: string, b: string, c: string)
    ensures a + (b + c) == (a + b) + c
  {
  }

  // ---------------------------------------------------------------------------
  // Subsequences and distinct elements

  /** `a` is `b` with some entries left out, the rest in their order. */
  predicate IsSubsequence<T(==)>(a: seq<T>, b: seq<T>)
    decreases |b|
  {
    if a == [] then true
    else if b == [] then false
    else (a[0] == b[0] && IsSubsequence(a[1..], b[1..])) || IsSubsequence(a, b[1..])
  }

  /** No element occurs twice. */
  predicate Distinct<T(==)>(s: seq<T>)
  {
    forall i, j :: 0 <= i < j < |s| ==> s[i] != s[j]
  }

  /** Each element of a sequence without repeats occurs once. */
  lemma {:induction false} DistinctCount<T>(s: seq<T>, x: T)
    requires Distinct(s)
    ensures multiset(s)[x] <= 1
    decreases |s|
  {
    if s != [] {
      var init := s[..|s| - 1];
      assert s == init + [s[|s| - 1]];
      assert Distinct(init);
      DistinctCount(init, x);
    }
  }

  /** An element found at two positions occurs at least twice. */
  lemma RepeatCount<T>(s: seq<T>, i: nat, j: nat)
    requires i < j < |s| && s[i] == s[j]
    ensures multiset(s)[s[i]] >= 2
  {
    assert s == s[..j] + [s[j]] + s[j + 1..];
    assert s[..j][i] == s[i];
    assert s[i] in multiset(s[..j]);
  }

  /** A rearrangement of a sequence without repeats has none. */
  lemma DistinctPermutation<T>(a: seq<T>, b: seq<T>)
    requires Distinct(a) && multiset(a) == multiset(b)
    ensures Distinct(b)
  {
    forall i, j | 0 <= i < j < |b| ensures b[i] != b[j] {
      if b[i] == b[j] {
        RepeatCount(b, i, j);
        DistinctCount(a, b[i]);
      }
    }
  }

  // ---------------------------------------------------------------------------
  // Case

  predicate IsUpper(c: char) { 'A' <= c <= 'Z' }

  function LowerChar(c: char): char
  {
    if IsUpper(c) then (c as int + 32) as char else c
  }

  /** `s.lower()` on ASCII text: every upper-case letter is mapped, nothing else changes. */
  function Lower(s: string): (r: string)
    ensures |r| == |s|
    ensures forall i :: 0 <= i < |s| ==> r[i] == LowerChar(s[i])
    ensures forall i :: 0 <= i < |r| ==> !IsUpper(r[i])
  {
    if s == [] then [] else [LowerChar(s[0])] + Lower(s[1..])
  }

  lemma {:induction false} LowerAppend(a: string, b: string)
    ensures Lower(a + b) == Lower(a) + Lower(b)
    decreases |a|
  {
    if a == [] {
      assert a + b == b;
    } else {
      assert (a + b)[1..] == a[1..] + b;
      LowerAppend(a[1..], b);
      AppendAssoc([LowerChar(a[0])], Lower(a[1..]), Lower(b));
    }
  }

  lemma LowerNoUpper(s: string)
    requires forall i :: 0 <= i < |s| ==> !IsUpper(s[i])
    ensures Lower(s) == s
  {
  }

  // ---------------------------------------------------------------------------
  // Prefixes, suffixes, membership

  predicate StartsWith(s: string, p: string) { |p| <= |s| && s[..|p|] == p }

  predicate EndsWith(s: string, p: string) { |p| <= |s| && s[|s| - |p|..] == p }

  /** Python's `p in s`. */
  predicate Contains(s: string, p: string)
    decreases |s|
  {
    StartsWith(s, p) || (|s| > 0 && Contains(s[1..], p))
  }

  lemma ContainsLength(s: string, p: string)
    requires Contains(s, p)
    ensures |p| <= |s|
    decreases |s|
  {
    if !StartsWith(s, p) { ContainsLength(s[1..], p); }
  }

  /** `Contains` is the existence of an occurrence at some index. */
  lemma {:induction false} ContainsAt(s: string, p: string, i: nat)
    requires i + |p| <= |s| && s[i..i + |p|] == p
    ensures Contains(s, p)
    decreases i
  {
    if i > 0 {
      assert s[1..][i - 1..i - 1 + |p|] == s[i..i + |p|];
      ContainsAt(s[1..], p, i - 1);
    }
  }

  lemma {:induction false} ContainsWitness(s: string, p: string) returns (i: nat)
    requires Contains(s, p)
    ensures i + |p| <= |s| && s[i..i + |p|] == p
    decreases |s|
  {
    if StartsWith(s, p) {
      i := 0;
    } else {
      var j := ContainsWitness(s[1..], p);
      i := j + 1;
      assert s[1..][j..j + |p|] == s[i..i + |p|];
    }
  }

  /** An occurrence inside a part is an occurrence in the whole. */
  lemma ContainsInfix(a: string, m: string, b: string, p: string)
    requires Contains(m, p)
    ensures Contains(a + m + b, p)
  {
    var i := ContainsWitness(m, p);
    assert (a + m + b)[|a| + i..|a| + i + |p|] == m[i..i + |p|];
    ContainsAt(a + m + b, p, |a| + i);
  }

  /** An occurrence inside a slice is an occurrence in the whole. */
  lemma ContainsSlice(s: string, i: nat, j: nat, p: string)
    requires i <= j <= |s| && Contains(s[i..j], p)
    ensures Contains(s, p)
  {
    var t := s[i..j];
    var k := ContainsWitness(t, p);
    assert k + |p| <= j - i;
    forall x | 0 <= x < |p| ensures s[i + k + x] == p[x] {
      assert t[k + x] == t[k..k + |p|][x];
    }
    assert s[i + k..i + k + |p|] == p;
    ContainsAt(s, p, i + k);
  }

  /** A character is contained exactly when it occurs. */
  lemma ContainsChar(s: string, c: char)
    ensures Contains(s, [c]) <==> c in s
  {
    if Contains(s, [c]) {
      var i := ContainsWitness(s, [c]);
      assert s[i] == c;
    }
    if c in s {
      var i :| 0 <= i < |s| && s[i] == c;
      assert s[i..i + 1] == [c];
      ContainsAt(s, [c], i);
    }
  }

  // ---------------------------------------------------------------------------
  // Stripping

  /** The ASCII characters Python's `str.isspace` accepts. */
  predicate IsSpace(c: char)
  {
    c == ' ' || c == '\t' || c == '\n' || c == '\r' || c == '\U{B}' || c == '\U{C}'
    || c == '\U{1C}' || c == '\U{1D}' || c == '\U{1E}' || c == '\U{1F}'
  }

  function TrimLeft(s: string, drop: char -> bool): (r: string)
    ensures |r| <= |s| && r == s[|s| - |r|..]
    ensures r == [] || !drop(r[0])
  {
    if s != [] && drop(s[0]) then TrimLeft(s[1..], drop) else s
  }

  /** Every character `TrimLeft` removes is one it was told to drop. */
  lemma {:induction false} TrimLeftDropped(s: string, drop: char -> bool)
    ensures forall i :: 0 <= i < |s| - |TrimLeft(s, drop)| ==> drop(s[i])
    decreases |s|
  {
    if s != [] && drop(s[0]) {
      TrimLeftDropped(s[1..], drop);
      forall i | 0 < i < |s| - |TrimLeft(s, drop)| ensures drop(s[i]) {
        assert s[i] == s[1..][i - 1];
      }
    }
  }

  function TrimRight(s: string, drop: char -> bool): (r: string)
    ensures |r| <= |s| && r == s[..|r|]
    ensures r == [] || !drop(r[|r| - 1])
  {
    if s != [] && drop(s[|s| - 1]) then TrimRight(s[..|s| - 1], drop) else s
  }

  /** Every character `TrimRight` removes is one it was told to drop. */
  lemma {:induction false} TrimRightDropped(s: string, drop: char -> bool)
    ensures forall i :: |TrimRight(s, drop)| <= i < |s| ==> drop(s[i])
    decreases |s|
  {
    if s != [] && drop(s[|s| - 1]) {
      TrimRightDropped(s[..|s| - 1], drop);
    }
  }

  /** Nothing is trimmed from text that does not start with a character to drop. */
  lemma TrimLeftKeep(s: string, drop: char -> bool)
    requires s == [] || !drop(s[0])
    ensures TrimLeft(s, drop) == s
  {
  }

  /** Nothing is trimmed from text that does not end with a character to drop. */
  lemma TrimRightKeep(s: string, drop: char -> bool)
    requires s == [] || !drop(s[|s| - 1])
    ensures TrimRight(s, drop) == s
  {
  }

  /** Trimming a concatenation: the left part is trimmed first, and the right part is
      reached only when the whole left part is trimmed away. */
  lemma {:induction false} TrimLeftAppend(x: string, w: string, drop: char -> bool)
    ensures TrimLeft(x + w, drop) == if TrimLeft(x, drop) == [] then TrimLeft(w, drop) else TrimLeft(x, drop) + w
    decreases |x|
  {
    if x == [] {
      assert x + w == w;
    } else if drop(x[0]) {
      assert (x + w)[1..] == x[1..] + w;
      TrimLeftAppend(x[1..], w, drop);
    }
  }

  /** `s.strip()`. */
  function Strip(s: string): string
  {
    TrimRight(TrimLeft(s, IsSpace), IsSpace)
  }

  lemma StripBounds(s: string)
    ensures var r := Strip(s);
      (r == [] || (!IsSpace(r[0]) && !IsSpace(r[|r| - 1])))
      && exists i, j :: 0 <= i <= j <= |s| && r == s[i..j]
  {
    var l := TrimLeft(s, IsSpace);
    var r := TrimRight(l, IsSpace);
    assert r == s[|s| - |l|..|s| - |l| + |r|];
  }

  /** Stripping keeps a text free of a pattern. */
  lemma StripFree(s: string, p: string)
    requires !Contains(s, p)
    ensures !Contains(Strip(s), p)
  {
    StripBounds(s);
    var i, j :| 0 <= i <= j <= |s| && Strip(s) == s[i..j];
    if Contains(s[i..j], p) {
      ContainsSlice(s, i, j, p);
    }
  }

  // ---------------------------------------------------------------------------
  // split / join / replace

  /** Python's `s.split(sep)` for a non-empty separator: cut at every occurrence,
      found left to right without overlap. */
  function Split(s: string, sep: string): (parts: seq<string>)
    requires |sep| > 0
    ensures |parts| >= 1
    decreases |s|
  {
    if |s| < |sep| then [s]
    else if s[..|sep|] == sep then [""] + Split(s[|sep|..], sep)
    else
      var rest := Split(s[1..], sep);
      [[s[0]] + rest[0]] + rest[1..]
  }

  /** Python's `sep.join(parts)`. */
  function Join(parts: seq<string>, sep: string): string
  {
    if |parts| == 0 then ""
    else if |parts| == 1 then parts[0]
    else parts[0] + sep + Join(parts[1..], sep)
  }

  lemma JoinConsHead(c: char, p: string, ps: seq<string>, sep: string)
    ensures Join([[c] + p] + ps, sep) == [c] + Join([p] + ps, sep)
  {
    assert ([[c] + p] + ps)[1..] == ps;
    assert ([p] + ps)[1..] == ps;
  }

  lemma JoinSnoc(ps: seq<string>, x: string, sep: string)
    requires |ps| > 0
    ensures Join(ps + [x], sep) == Join(ps, sep) + sep + x
  {
    if |ps| == 1 {
      assert (ps + [x])[1..] == [x];
    } else {
      assert (ps + [x])[1..] == ps[1..] + [x];
      JoinSnoc(ps[1..], x, sep);
    }
  }

  /** Splitting and joining with the same separator gives the text back. */
  lemma {:induction false} JoinSplit(s: string, sep: string)
    requires |sep| > 0
    ensures Join(Split(s, sep), sep) == s
    decreases |s|
  {
    if |s| < |sep| {
    } else if s[..|sep|] == sep {
      var rest := Split(s[|sep|..], sep);
      assert Split(s, sep) == [""] + rest;
      assert Join([""] + rest, sep) == "" + sep + Join(rest, sep) by {
        assert ([""] + rest)[1..] == rest;
      }
      JoinSplit(s[|sep|..], sep);
      assert s == "" + sep + s[|sep|..];
    } else {
      var rest := Split(s[1..], sep);
      assert Split(s, sep) == [[s[0]] + rest[0]] + rest[1..];
      assert Join([[s[0]] + rest[0]] + rest[1..], sep) == [s[0]] + Join(rest, sep) by {
        JoinConsHead(s[0], rest[0], rest[1..], sep);
        assert [rest[0]] + rest[1..] == rest;
      }
      JoinSplit(s[1..], sep);
      assert s == [s[0]] + s[1..];
    }
  }

  /** No part of a split contains the separator. */
  lemma {:induction false} SplitPartsFree(s: string, sep: string)
    requires |sep| > 0
    ensures forall i :: 0 <= i < |Split(s, sep)| ==> !Contains(Split(s, sep)[i], sep)
    decreases |s|
  {
    var parts := Split(s, sep);
    if |s| < |sep| {
      if Contains(s, sep) { ContainsLength(s, sep); }
    } else if s[..|sep|] == sep {
      SplitPartsFree(s[|sep|..], sep);
      if Contains("", sep) { ContainsLength("", sep); }
    } else {
      SplitPartsFree(s[1..], sep);
      var rest := Split(s[1..], sep);
      var head := [s[0]] + rest[0];
      JoinSplit(s[1..], sep);
      if |rest| > 1 {
        assert rest == [rest[0]] + rest[1..];
        assert Join(rest, sep) == rest[0] + (sep + Join(rest[1..], sep));
      }
      assert s[1..][..|rest[0]|] == rest[0];
      assert s[..|head|] == head;
      assert !StartsWith(head, sep) by {
        if |sep| <= |head| { assert s[..|sep|] == head[..|sep|]; }
      }
      assert head[1..] == rest[0];
      assert !Contains(head, sep);
      forall i | 0 <= i < |parts| ensures !Contains(parts[i], sep) {
        if i > 0 { assert parts[i] == rest[i]; }
      }
    }
  }

  /** A separator occurs exactly when the split has at least two parts. */
  lemma {:induction false} SplitCount(s: string, sep: string)
    requires |sep| > 0
    ensures Contains(s, sep) <==> |Split(s, sep)| >= 2
    decreases |s|
  {
    if |s| < |sep| {
      if Contains(s, sep) { ContainsLength(s, sep); }
    } else if s[..|sep|] == sep {
    } else {
      SplitCount(s[1..], sep);
    }
  }

  /** A text that starts with the separator splits into an empty first part. */
  lemma SplitLeading(s: string, sep: string)
    requires |sep| > 0 && StartsWith(s, sep)
    ensures Split(s, sep)[0] == ""
  {
  }

  /** The text is its first part, then (if there is a second part) the separator and the rest. */
  lemma SplitHead(s: string, sep: string)
    requires |sep| > 0
    ensures var parts := Split(s, sep);
      s == parts[0] + (if |parts| > 1 then sep + Join(parts[1..], sep) else "")
  {
    JoinSplit(s, sep);
  }

  /** Text without the separator splits into itself alone. */
  lemma SplitSingle(s: string, sep: string)
    requires |sep| > 0 && !Contains(s, sep)
    ensures Split(s, sep) == [s]
  {
    SplitCount(s, sep);
    SplitHead(s, sep);
    var parts := Split(s, sep);
    assert |parts| == 1;
    assert s == parts[0] + "";
    assert parts[0] + "" == parts[0];
    assert parts == [parts[0]];
  }

  /** The text is everything up to the last separator, then the last part. */
  lemma SplitLast(s: string, sep: string)
    requires |sep| > 0 && |Split(s, sep)| > 1
    ensures var parts := Split(s, sep);
      s == Join(parts[..|parts| - 1], sep) + sep + parts[|parts| - 1]
  {
    var parts := Split(s, sep);
    JoinSplit(s, sep);
    JoinSnoc(parts[..|parts| - 1], parts[|parts| - 1], sep);
    assert parts[..|parts| - 1] + [parts[|parts| - 1]] == parts;
  }

  /** Python's `s.replace(pat, rep)`: every occurrence, left to right, without overlap;
      an empty pattern matches before every character and at the end. */
  function Replace(s: string, pat: string, rep: string): string
    decreases |s|
  {
    if |pat| == 0 then
      (if |s| == 0 then rep else rep + [s[0]] + Replace(s[1..], pat, rep))
    else if |s| < |pat| then s
    else if s[..|pat|] == pat then rep + Replace(s[|pat|..], pat, rep)
    else [s[0]] + Replace(s[1..], pat, rep)
  }

  /** `replace` is split-then-join: the reference definition of replacement. */
  lemma {:induction false} ReplaceIsSplitJoin(s: string, pat: string, rep: string)
    requires |pat| > 0
    ensures Replace(s, pat, rep) == Join(Split(s, pat), rep)
    decreases |s|
  {
    if |s| < |pat| {
    } else if s[..|pat|] == pat {
      ReplaceIsSplitJoin(s[|pat|..], pat, rep);
      var rest := Split(s[|pat|..], pat);
      assert ([""] + rest)[1..] == rest;
    } else {
      ReplaceIsSplitJoin(s[1..], pat, rep);
      var rest := Split(s[1..], pat);
      JoinConsHead(s[0], rest[0], rest[1..], rep);
      assert [rest[0]] + rest[1..] == rest;
    }
  }

  /** No occurrence of `pat` starts at index `i` of `s`. */
  predicate NoMatchAt(s: string, pat: string, i: nat)
  {
    i + |pat| <= |s| ==> s[i..i + |pat|] != pat
  }

  /** Replacement copies a prefix that holds no occurrence starting in it. */
  lemma {:induction false} ReplaceSkip(s: string, pat: string, rep: string, k: nat)
    requires |pat| > 0 && k <= |s|
    requires forall i: nat :: i < k ==> NoMatchAt(s, pat, i)
    ensures Replace(s, pat, rep) == s[..k] + Replace(s[k..], pat, rep)
    decreases k
  {
    if k > 0 {
      ReplaceCopiesHead(s, pat, rep);
      NoMatchTail(s, pat, k);
      ReplaceSkip(s[1..], pat, rep, k - 1);
      ConsSlices(s, k, Replace(s[k..], pat, rep));
    }
  }

  /** Without an occurrence at the front, `replace` copies the first character. */
  lemma ReplaceCopiesHead(s: string, pat: string, rep: string)
    requires |pat| > 0 && |s| > 0 && NoMatchAt(s, pat, 0)
    ensures Replace(s, pat, rep) == [s[0]] + Replace(s[1..], pat, rep)
  {
    if |pat| <= |s| { assert s[0..|pat|] == s[..|pat|]; }
  }

  /** Dropping the first character shifts the positions without an occurrence. */
  lemma NoMatchTail(s: string, pat: string, k: nat)
    requires 0 < k <= |s|
    requires forall i: nat :: i < k ==> NoMatchAt(s, pat, i)
    ensures forall i: nat :: i < k - 1 ==> NoMatchAt(s[1..], pat, i)
  {
    forall i: nat | i < k - 1
      ensures NoMatchAt(s[1..], pat, i)
    {
      assert NoMatchAt(s, pat, i + 1);
      if i + |pat| <= |s[1..]| { assert s[1..][i..i + |pat|] == s[i + 1..i + 1 + |pat|]; }
    }
  }

  /** `s[..k] + t` read as the first character, then the rest of the prefix. */
  lemma ConsSlices(s: string, k: nat, t: string)
    requires 0 < k <= |s|
    ensures s[..k] + t == [s[0]] + (s[1..][..k - 1] + t)
    ensures s[1..][k - 1..] == s[k..]
  {
    assert s[..k] == [s[0]] + s[1..][..k - 1];
    AppendAssoc([s[0]], s[1..][..k - 1], t);
  }

  /** Without an occurrence, `replace` changes nothing. */
  lemma {:induction false} ReplaceAbsent(s: string, pat: string, rep: string)
    requires !Contains(s, pat)
    ensures Replace(s, pat, rep) == s
    decreases |s|
  {
    if |s| >= |pat| && s[..|pat|] != pat {
      ReplaceAbsent(s[1..], pat, rep);
    }
  }

  /** Every character of the result comes from the text or from the replacement. */
  lemma {:induction false} ReplaceChars(s: string, pat: string, rep: string)
    ensures forall c :: c in Replace(s, pat, rep) ==> c in s || c in rep
    decreases |s|
  {
    if |pat| == 0 {
      if |s| > 0 { ReplaceChars(s[1..], pat, rep); }
    } else if |s| < |pat| {
    } else if s[..|pat|] == pat {
      ReplaceChars(s[|pat|..], pat, rep);
      forall c | c in s[|pat|..] ensures c in s { }
    } else {
      ReplaceChars(s[1..], pat, rep);
    }
  }

  /** Replacing a one-character pattern by text without it removes that character. */
  lemma {:induction false} ReplaceRemoves(s: string, c: char, rep: string)
    requires c !in rep
    ensures c !in Replace(s, [c], rep)
    decreases |s|
  {
    if |s| >= 1 {
      ReplaceRemoves(s[1..], c, rep);
      if s[..1] != [c] { assert s[0] != c; }
    }
  }

  /** A replacement no longer than its pattern never lengthens the text, and
      shortens it when the pattern occurs and the replacement is strictly shorter. */
  lemma {:induction false} ReplaceLength(s: string, pat: string, rep: string)
    requires |pat| > 0 && |rep| <= |pat|
    ensures |Replace(s, pat, rep)| <= |s|
    ensures Contains(s, pat) && |rep| < |pat| ==> |Replace(s, pat, rep)| < |s|
    decreases |s|
  {
    if |s| < |pat| {
      if Contains(s, pat) { ContainsLength(s, pat); }
    } else if s[..|pat|] == pat {
      ReplaceLength(s[|pat|..], pat, rep);
    } else {
      ReplaceLength(s[1..], pat, rep);
    }
  }

  // ---------------------------------------------------------------------------
  // Decimal formatting

  predicate IsDigit(c: char) { '0' <= c <= '9' }

  predicate AllDigits(s: string) { forall i :: 0 <= i < |s| ==> IsDigit(s[i]) }

  function DigitChar(d: nat): char
    requires d < 10
  {
    ('0' as int + d) as char
  }

  /** `str(n)` for a natural number. */
  function NatToString(n: nat): (s: string)
    ensures |s| >= 1 && AllDigits(s)
    ensures s[0] == '0' ==> n == 0
    decreases n
  {
    if n < 10 then [DigitChar(n)] else NatToString(n / 10) + [DigitChar(n % 10)]
  }

  /** `int(s)` for a non-empty string of decimal digits; the partner of `NatToString`. */
  function DecimalValue(s: string): nat
    requires AllDigits(s)
  {
    if s == [] then 0 else DecimalValue(s[..|s| - 1]) * 10 + (s[|s| - 1] as int - '0' as int)
  }

  lemma {:induction false} DecimalRoundTrip(n: nat)
    ensures DecimalValue(NatToString(n)) == n
    decreases n
  {
    if n >= 10 {
      DecimalRoundTrip(n / 10);
      var s := NatToString(n);
      assert s[..|s| - 1] == NatToString(n / 10);
    }
  }

  /** A leading zero does not change the value. */
  lemma {:induction false} LeadingZero(s: string)
    requires AllDigits(s)
    ensures AllDigits("0" + s) && DecimalValue("0" + s) == DecimalValue(s)
    decreases |s|
  {
    if s != [] {
      LeadingZero(s[..|s| - 1]);
      assert ("0" + s)[..|"0" + s| - 1] == "0" + s[..|s| - 1];
    }
  }

  // ---------------------------------------------------------------------------
  // Ordering

  /** Python's `a < b` on strings: lexicographic by code point. */
  predicate StrLt(a: string, b: string)
    decreases |a|
  {
    |b| > 0 && (|a| == 0 || a[0] < b[0] || (a[0] == b[0] && StrLt(a[1..], b[1..])))
  }

  lemma StrLtIrreflexive(a: string)
    ensures !StrLt(a, a)
  {
  }

  lemma {:induction false} StrLtTransitive(a: string, b: string, c: string)
    requires StrLt(a, b) && StrLt(b, c)
    ensures StrLt(a, c)
    decreases |a|
  {
    if |a| > 0 && a[0] == b[0] && b[0] == c[0] {
      StrLtTransitive(a[1..], b[1..], c[1..]);
    }
  }

  lemma {:induction false} StrLtTotal(a: string, b: string)
    ensures a == b || StrLt(a, b) || StrLt(b, a)
    decreases |a|
  {
    if |a| > 0 && |b| > 0 && a[0] == b[0] {
      StrLtTotal(a[1..], b[1..]);
      if a[1..] == b[1..] {
        assert a == [a[0]] + a[1..] && b == [b[0]] + b[1..];
      }
    }
  }

  lemma StrLtAsymmetric(a: string, b: string)
    requires StrLt(a, b)
    ensures !StrLt(b, a)
  {
    if StrLt(b, a) {
      StrLtTransitive(a, b, a);
      StrLtIrreflexive(a);
    }
  }

  // ---------------------------------------------------------------------------
  // sorted() on strings
  // ---------------------------------------------------------------------------

  /** `a <= b` on strings. */
  predicate StrLe(a: string, b: string)
  {
    a == b || StrLt(a, b)
  }

  lemma StrLeTransitive(a: string, b: string, c: string)
    requires StrLe(a, b) && StrLe(b, c)
    ensures StrLe(a, c)
  {
    if StrLt(a, b) && StrLt(b, c) { StrLtTransitive(a, b, c); }
  }

  predicate SortedStrings(s: seq<string>)
  {
    forall i, j :: 0 <= i < j < |s| ==> StrLe(s[i], s[j])
  }

  /** Every string in `s` is at least `lo`. */
  predicate AllAtLeast(s: seq<string>, lo: string)
  {
    forall i :: 0 <= i < |s| ==> StrLe(lo, s[i])
  }

  /** `x` placed before the first string not less than it. */
  function InsertString(s: seq<string>, x: string): (t: seq<string>)
    ensures multiset(t) == multiset(s) + multiset{x}
  {
    if s == [] then [x]
    else if !StrLt(s[0], x) then [x] + s
    else
      assert s == [s[0]] + s[1..];
      [s[0]] + InsertString(s[1..], x)
  }

  /** `sorted(strings)`: an insertion sort by Python's string order. */
  function SortStrings(s: seq<string>): (t: seq<string>)
    ensures multiset(t) == multiset(s)
  {
    if s == [] then []
    else
      assert s == s[..|s| - 1] + [s[|s| - 1]];
      InsertString(SortStrings(s[..|s| - 1]), s[|s| - 1])
  }

  lemma {:induction false} InsertAtLeast(s: seq<string>, x: string, lo: string)
    requires AllAtLeast(s, lo) && StrLe(lo, x)
    ensures AllAtLeast(InsertString(s, x), lo)
    decreases |s|
  {
    if s != [] && StrLt(s[0], x) {
      InsertAtLeast(s[1..], x, lo);
    }
  }

  lemma {:induction false} InsertSortedString(s: seq<string>, x: string)
    requires SortedStrings(s)
    ensures SortedStrings(InsertString(s, x))
    decreases |s|
  {
    if s != [] {
      if StrLt(s[0], x) {
        InsertSortedString(s[1..], x);
        InsertAtLeast(s[1..], x, s[0]);
      } else {
        StrLtTotal(s[0], x);
        forall j | 0 <= j < |s| ensures StrLe(x, s[j]) {
          StrLeTransitive(x, s[0], s[j]);
        }
      }
    }
  }

  /** The sorted strings are in order and are the input's strings. */
  lemma {:induction false} SortStringsSpec(s: seq<string>)
    ensures SortedStrings(SortStrings(s))
    ensures forall f :: f in SortStrings(s) <==> f in s
  {
    if s != [] {
      SortStringsSpec(s[..|s| - 1]);
      InsertSortedString(SortStrings(s[..|s| - 1]), s[|s| - 1]);
    }
    forall f ensures f in SortStrings(s) <==> f in s {
      assert f in SortStrings(s) <==> f in multiset(SortStrings(s));
      assert f in s <==> f in multiset(s);
    }
  }
}
