/**
 * The pure parts of the FBref scraper: column-name cleaning, the choice of the
 * stat tables to scrape, and the parsing of the `--tables` option.
 */
module FbrefScraper {
  import opened Python
  import opened Strings

  // ---------------------------------------------------------------------------
  // clean_column_name
  // ---------------------------------------------------------------------------

  const Underscore: string := "_"
  const DoubleUnderscore: string := "__"

  /** The single-character replacements, in the order they are applied after
      lower-casing. */
  const Steps: seq<(char, string)> :=
    [(' ', "_"), ('/', "_per_"), ('(', ""), (')', ""), ('%', "pct"), ('+', "plus"), ('-', "_"), ('.', "")]

  /** The characters the replacements remove. */
  const Removed: set<char> := {' ', '/', '(', ')', '%', '+', '-', '.'}

  /** Applies `s.replace(c, rep)` for each step, in order. */
  function ApplySteps(s: string, steps: seq<(char, string)>): string
    decreases |steps|
  {
    if steps == [] then s else ApplySteps(Replace(s, [steps[0].0], steps[0].1), steps[1..])
  }

  /** The characters replaced by some step. */
  function Patterns(steps: seq<(char, string)>): set<char>
    decreases |steps|
  {
    if steps == [] then {} else {steps[0].0} + Patterns(steps[1..])
  }

  /** The repeated `replace('__', '_')`, which runs while a double underscore is left. */
  function Collapse(s: string): string
    decreases |s|
  {
    if Contains(s, DoubleUnderscore) then
      ReplaceLength(s, DoubleUnderscore, Underscore);
      Collapse(Replace(s, DoubleUnderscore, Underscore))
    else s
  }

  /** What `clean_column_name(col)` returns. */
  function Cleaned(col: string): string
  {
    Collapse(ApplySteps(Lower(col), Steps))
  }

  /** `clean_column_name(col)`: lower-case, the eight replacements one after the
      other, then halve runs of underscores until no two are adjacent. */
  method CleanColumnName(name: string) returns (col: string)
    ensures col == Cleaned(name)
  {
    col := Lower(name);
    ghost var lowered := col;
    col := Replace(col, " ", "_");
    col := Replace(col, "/", "_per_");
    col := Replace(col, "(", "");
    col := Replace(col, ")", "");
    col := Replace(col, "%", "pct");
    col := Replace(col, "+", "plus");
    col := Replace(col, "-", "_");
    col := Replace(col, ".", "");
    assert col == ApplySteps(lowered, Steps) by { StepsUnfold(lowered); }
    while Contains(col, DoubleUnderscore)
      invariant Collapse(col) == Cleaned(name)
      decreases |col|
    {
      ReplaceLength(col, DoubleUnderscore, Underscore);
      col := Replace(col, DoubleUnderscore, Underscore);
    }
  }

  /** The eight steps, spelled out. */
  lemma StepsUnfold(s: string)
    ensures ApplySteps(s, Steps) ==
      var s1 := Replace(s, " ", "_");
      var s2 := Replace(s1, "/", "_per_");
      var s3 := Replace(s2, "(", "");
      var s4 := Replace(s3, ")", "");
      var s5 := Replace(s4, "%", "pct");
      var s6 := Replace(s5, "+", "plus");
      var s7 := Replace(s6, "-", "_");
      Replace(s7, ".", "")
  {
    var steps := Steps;
    var i := 0;
    var t := s;
    while i < |Steps|
      invariant 0 <= i <= |Steps|
      invariant ApplySteps(s, Steps) == ApplySteps(t, Steps[i..])
    {
      assert Steps[i..][1..] == Steps[i + 1..];
      t := Replace(t, [Steps[i].0], Steps[i].1);
      i := i + 1;
    }
  }

  /** No character of `s` is an upper-case letter or one of `cs`. */
  ghost predicate Avoids(s: string, cs: set<char>)
  {
    forall c :: c in s ==> !IsUpper(c) && c !in cs
  }

  /** The replacements remove every pattern character and bring in nothing that
      was to be avoided. */
  lemma {:induction false} StepsAvoid(s: string, steps: seq<(char, string)>, cs: set<char>)
    requires Avoids(s, cs)
    requires forall k :: 0 <= k < |steps| ==> Avoids(steps[k].1, cs + Patterns(steps))
    ensures Avoids(ApplySteps(s, steps), cs + Patterns(steps))
    decreases |steps|
  {
    if steps != [] {
      var c := steps[0].0;
      var rep := steps[0].1;
      var rest := steps[1..];
      assert Avoids(rep, cs + Patterns(steps));
      var t := Replace(s, [c], rep);
      ReplaceChars(s, [c], rep);
      ReplaceRemoves(s, c, rep);
      assert Avoids(t, cs + {c});
      assert cs + {c} + Patterns(rest) == cs + Patterns(steps);
      forall k | 0 <= k < |rest| ensures Avoids(rest[k].1, cs + {c} + Patterns(rest)) {
        assert rest[k] == steps[k + 1];
      }
      StepsAvoid(t, rest, cs + {c});
    }
  }

  /** Text without any pattern character goes through the replacements unchanged. */
  lemma {:induction false} StepsAbsent(s: string, steps: seq<(char, string)>)
    requires forall k :: 0 <= k < |steps| ==> steps[k].0 !in s
    ensures ApplySteps(s, steps) == s
    decreases |steps|
  {
    if steps != [] {
      ContainsChar(s, steps[0].0);
      ReplaceAbsent(s, [steps[0].0], steps[0].1);
      forall k | 0 <= k < |steps[1..]| ensures steps[1..][k].0 !in s {
        assert steps[1..][k] == steps[k + 1];
      }
      StepsAbsent(s, steps[1..]);
    }
  }

  /** The patterns are the removed characters. */
  lemma StepsPatterns()
    ensures Patterns(Steps) == Removed
  {
    var ps := Steps;
    assert Patterns(ps[7..]) == {'.'};
    assert Patterns(ps[6..]) == {'-', '.'};
    assert Patterns(ps[4..]) == {'%', '+', '-', '.'};
    assert Patterns(ps[2..]) == {'(', ')', '%', '+', '-', '.'};
  }

  /** No replacement brings in a removed character or an upper-case letter. */
  lemma StepsReplacements()
    ensures forall k :: 0 <= k < |Steps| ==> Avoids(Steps[k].1, Removed)
  {
    forall k | 0 <= k < |Steps| ensures Avoids(Steps[k].1, Removed) {
      var rep := Steps[k].1;
      assert rep == "_" || rep == "_per_" || rep == "" || rep == "pct" || rep == "plus";
    }
  }

  /** Collapsing underscores keeps out what was kept out, provided that is not
      the underscore. */
  lemma {:induction false} CollapseAvoids(s: string, cs: set<char>)
    requires Avoids(s, cs) && '_' !in cs
    ensures Avoids(Collapse(s), cs)
    decreases |s|
  {
    if Contains(s, DoubleUnderscore) {
      ReplaceLength(s, DoubleUnderscore, Underscore);
      ReplaceChars(s, DoubleUnderscore, Underscore);
      CollapseAvoids(Replace(s, DoubleUnderscore, Underscore), cs);
    }
  }

  /** Collapsing leaves no double underscore. */
  lemma {:induction false} CollapseFree(s: string)
    ensures !Contains(Collapse(s), DoubleUnderscore)
    decreases |s|
  {
    if Contains(s, DoubleUnderscore) {
      ReplaceLength(s, DoubleUnderscore, Underscore);
      CollapseFree(Replace(s, DoubleUnderscore, Underscore));
    }
  }

  /** A cleaned name has no upper-case letter and none of ' ', '/', '(', ')',
      '%', '+', '-', '.', and no two adjacent underscores. */
  lemma CleanedShape(col: string)
    ensures Avoids(Cleaned(col), Removed)
    ensures !Contains(Cleaned(col), DoubleUnderscore)
  {
    var lowered := Lower(col);
    assert Avoids(lowered, {});
    StepsPatterns();
    StepsReplacements();
    assert {} + Removed == Removed;
    StepsAvoid(lowered, Steps, {});
    CollapseAvoids(ApplySteps(lowered, Steps), Removed);
    CollapseFree(ApplySteps(lowered, Steps));
  }

  /** Cleaning a cleaned name changes nothing. */
  lemma CleanedIdempotent(col: string)
    ensures Cleaned(Cleaned(col)) == Cleaned(col)
  {
    var r := Cleaned(col);
    CleanedShape(col);
    forall i | 0 <= i < |r| ensures !IsUpper(r[i]) { assert r[i] in r; }
    LowerNoUpper(r);
    StepsPatterns();
    forall k | 0 <= k < |Steps| ensures Steps[k].0 !in r {
      assert Steps[k].0 in Patterns(Steps) by { PatternsHold(Steps, k); }
    }
    StepsAbsent(r, Steps);
  }

  lemma {:induction false} PatternsHold(steps: seq<(char, string)>, k: nat)
    requires k < |steps|
    ensures steps[k].0 in Patterns(steps)
    decreases k
  {
    if k > 0 {
      PatternsHold(steps[1..], k - 1);
    }
  }

  // ---------------------------------------------------------------------------
  // Table selection in `main`
  // ---------------------------------------------------------------------------

  /** `url_map`: the stat tables of the 2023-24 Premier League season, in order. */
  const UrlMap: seq<(string, string)> := [
    ("standard", "https://fbref.com/en/comps/9/2023-2024/stats/2023-2024-Premier-League-Stats"),
    ("shooting", "https://fbref.com/en/comps/9/2023-2024/shooting/2023-2024-Premier-League-Stats"),
    ("passing", "https://fbref.com/en/comps/9/2023-2024/passing/2023-2024-Premier-League-Stats"),
    ("passing_types", "https://fbref.com/en/comps/9/2023-2024/passing_types/2023-2024-Premier-League-Stats"),
    ("gca", "https://fbref.com/en/comps/9/2023-2024/gca/2023-2024-Premier-League-Stats"),
    ("defense", "https://fbref.com/en/comps/9/2023-2024/defense/2023-2024-Premier-League-Stats"),
    ("possession", "https://fbref.com/en/comps/9/2023-2024/possession/2023-2024-Premier-League-Stats"),
    ("playing_time", "https://fbref.com/en/comps/9/2023-2024/playingtime/2023-2024-Premier-League-Stats"),
    ("misc", "https://fbref.com/en/comps/9/2023-2024/misc/2023-2024-Premier-League-Stats")
  ]

  /** `{k: v for k, v in entries if k in requested}`. */
  function SelectTables(entries: seq<(string, string)>, requested: seq<string>): (r: seq<(string, string)>)
    ensures forall e :: e in r <==> e in entries && e.0 in requested
    ensures IsSubsequence(r, entries)
    decreases |entries|
  {
    if entries == [] then []
    else if entries[0].0 in requested then [entries[0]] + SelectTables(entries[1..], requested)
    else SelectTables(entries[1..], requested)
  }

  /** What `main` goes on to scrape, or why it stops first. */
  datatype Selection =
    | Inaccessible
    | NoneFound
    | Tables(entries: seq<(string, string)>)

  /** The selection in `main`: stop when FBref cannot be reached; an absent or
      empty list means every table; otherwise the listed tables in `url_map`
      order, and a stop when none of them is known. */
  function TablesToScrape(accessible: bool, requested: Option<seq<string>>): Selection
  {
    if !accessible then Inaccessible
    else if requested.Some? && requested.value != [] then
      var filtered := SelectTables(UrlMap, requested.value);
      if filtered == [] then NoneFound else Tables(filtered)
    else Tables(UrlMap)
  }

  /** With a non-empty request the scraper takes exactly the known tables that were
      asked for, in `url_map` order, and stops when no name is known. */
  lemma SelectionSpec(requested: seq<string>)
    requires requested != []
    ensures var sel := TablesToScrape(true, Some(requested));
      (sel == NoneFound <==> forall e :: e in UrlMap ==> e.0 !in requested) &&
      (sel.Tables? ==> (IsSubsequence(sel.entries, UrlMap) &&
                        forall e :: e in sel.entries <==> e in UrlMap && e.0 in requested))
  {
    var filtered := SelectTables(UrlMap, requested);
    if filtered == [] {
      forall e | e in UrlMap ensures e.0 !in requested {
        assert e !in filtered;
      }
    } else {
      assert filtered[0] in filtered;
    }
  }

  /** Without a list, or with an empty one, every table is scraped. */
  lemma SelectAll(requested: Option<seq<string>>)
    requires requested.None? || requested.value == []
    ensures TablesToScrape(true, requested) == Tables(UrlMap)
    ensures TablesToScrape(false, requested) == Inaccessible
  {
  }

  // ---------------------------------------------------------------------------
  // --tables
  // ---------------------------------------------------------------------------

  const Comma: string := ","

  /** `[t.strip() for t in args.tables.split(',')]` when the option is given and
      not empty, and None otherwise. */
  function ParseTables(arg: Option<string>): Option<seq<string>>
  {
    match arg
    case None => None
    case Some(a) =>
      if a == [] then None
      else
        var parts := Split(a, Comma);
        Some(seq(|parts|, i requires 0 <= i < |parts| => Strip(parts[i])))
  }

  /** Stripping each part of a split keeps it free of the separator and leaves
      no white space at either end. */
  lemma StripParts(parts: seq<string>, sep: string)
    requires forall i :: 0 <= i < |parts| ==> !Contains(parts[i], sep)
    ensures forall i :: 0 <= i < |parts| ==>
      var n := Strip(parts[i]);
      !Contains(n, sep) && (n == [] || (!IsSpace(n[0]) && !IsSpace(n[|n| - 1])))
  {
    forall i | 0 <= i < |parts|
      ensures var n := Strip(parts[i]);
        !Contains(n, sep) && (n == [] || (!IsSpace(n[0]) && !IsSpace(n[|n| - 1])))
    {
      StripFree(parts[i], sep);
      StripBounds(parts[i]);
    }
  }

  /** A given option yields one name per comma-separated part, that part with
      its surrounding white space removed, holding no comma. */
  lemma ParseTablesSpec(a: string)
    requires a != []
    ensures var names := ParseTables(Some(a));
      names.Some? && |names.value| == |Split(a, Comma)| &&
      forall i :: 0 <= i < |names.value| ==>
        !Contains(names.value[i], Comma) &&
        (names.value[i] == [] || (!IsSpace(names.value[i][0]) && !IsSpace(names.value[i][|names.value[i]| - 1])))
  {
    var parts := Split(a, Comma);
    SplitPartsFree(a, Comma);
    StripParts(parts, Comma);
  }

  /** An option without a comma names one table. */
  lemma ParseSingle(a: string)
    requires a != [] && !Contains(a, Comma)
    ensures ParseTables(Some(a)) == Some([Strip(a)])
  {
    SplitSingle(a, Comma);
    var names := ParseTables(Some(a)).value;
    assert |names| == 1;
    assert names[0] == Strip(a);
    assert names == [Strip(a)];
  }
}
