/**
 * The citation verifier (scripts/cite_verify.py): it asks the model to check the
 * merged document's claims, pulls a CSV table and a cleaned Markdown body out of
 * the fenced answer, and writes them with their metadata. The input file, the
 * model and the file system are parameters.
 */
module CiteVerify {
  import opened Python
  import opened Strings
  import Paths
  import OpenAiClient

  const ParagraphBreak: string := "\n\n"
  const DocumentHeading: string := "### Document to Verify\n\n"
  const Fence: string := "```"
  const CsvFence: string := "```csv"
  const Comma: string := ","
  const ClaimId: string := "claim_id"

  // ---------------------------------------------------------------------------
  // create_citation_prompt
  // ---------------------------------------------------------------------------

  /** `create_citation_prompt(input_content, template)`. */
  function CitationPrompt(content: string, template: string): string
  {
    template + ParagraphBreak + DocumentHeading + content
  }

  /** The prompt starts with the template, and the document follows the fixed
      heading unchanged: dropping the prefix gives it back. */
  lemma CitationPromptParts(content: string, template: string)
    ensures StartsWith(CitationPrompt(content, template), template)
    ensures var p := CitationPrompt(content, template);
      |p| == |template| + |ParagraphBreak| + |DocumentHeading| + |content| &&
      p[|template| + |ParagraphBreak| + |DocumentHeading|..] == content
  {
    var p := CitationPrompt(content, template);
    assert p[..|template|] == template;
  }

  // ---------------------------------------------------------------------------
  // extract_csv_from_response
  // ---------------------------------------------------------------------------

  /** A fenced segment is taken for the CSV when it holds a comma and, ignoring
      case, "claim_id". */
  predicate LooksLikeCsv(seg: string)
  {
    Contains(seg, Comma) && Contains(Lower(seg), ClaimId)
  }

  /** The first of `parts[i]`, `parts[i + 2]`, ... that looks like CSV, stripped. */
  function FirstCsvSegment(parts: seq<string>, i: nat): Option<string>
    decreases |parts| - i
  {
    if i >= |parts| then None
    else if LooksLikeCsv(parts[i]) then Some(Strip(parts[i]))
    else FirstCsvSegment(parts, i + 2)
  }

  /** `extract_csv_from_response(response)`: the block after the first "```csv"
      fence; failing that, the first fenced block that looks like CSV. */
  function ExtractCsv(response: string): Option<string>
  {
    if Contains(response, CsvFence) then
      var parts := Split(response, CsvFence);
      if |parts| > 1 then Some(Strip(Split(parts[1], Fence)[0]))
      else FirstFenced(response)
    else FirstFenced(response)
  }

  /** The fallback of `extract_csv_from_response`: the odd-numbered fence segments,
      that is the fenced blocks. */
  function FirstFenced(response: string): Option<string>
  {
    if Contains(response, Fence) then FirstCsvSegment(Split(response, Fence), 1) else None
  }

  /** The search starting at `i` visits `k`. */
  predicate Visits(i: nat, k: nat)
  {
    i <= k && (k - i) % 2 == 0
  }

  lemma VisitsStep(i: nat, k: nat)
    ensures Visits(i, k) <==> k == i || Visits(i + 2, k)
  {
  }

  /** `parts[k]` is the first of the segments `parts[i]`, `parts[i + 2]`, ... that
      looks like CSV. */
  predicate FirstCsvAt(parts: seq<string>, i: nat, k: nat)
  {
    k < |parts| && Visits(i, k) && LooksLikeCsv(parts[k]) &&
    forall j: nat :: j < k && Visits(i, j) ==> !LooksLikeCsv(parts[j])
  }

  /** The search finds nothing exactly when no segment it visits looks like CSV,
      and otherwise the first one that does. */
  lemma {:induction false} FirstCsvSegmentSpec(parts: seq<string>, i: nat)
    ensures FirstCsvSegment(parts, i).None? <==>
      forall k: nat :: k < |parts| && Visits(i, k) ==> !LooksLikeCsv(parts[k])
    ensures FirstCsvSegment(parts, i).Some? ==>
      exists k: nat :: FirstCsvAt(parts, i, k) && FirstCsvSegment(parts, i).value == Strip(parts[k])
    decreases |parts| - i
  {
    forall k: nat ensures Visits(i, k) <==> k == i || Visits(i + 2, k) {
      VisitsStep(i, k);
    }
    if i < |parts| {
      if LooksLikeCsv(parts[i]) {
        assert FirstCsvAt(parts, i, i);
      } else {
        FirstCsvSegmentSpec(parts, i + 2);
        if FirstCsvSegment(parts, i + 2).Some? {
          var k: nat :| FirstCsvAt(parts, i + 2, k) && FirstCsvSegment(parts, i + 2).value == Strip(parts[k]);
          assert FirstCsvAt(parts, i, k);
        }
      }
    }
  }

  /** Joining parts that start with a part that contains `q` gives text that
      contains `q`. */
  lemma JoinHead(parts: seq<string>, sep: string)
    requires |parts| >= 1
    ensures Join(parts, sep) == parts[0] + (if |parts| > 1 then sep + Join(parts[1..], sep) else "")
  {
  }

  /** The text is its first part, then the separator and the rest, or the first
      part alone when it is the only one. */
  lemma SplitFirst(s: string, sep: string) returns (rest: string)
    requires |sep| > 0
    ensures s == Split(s, sep)[0] + rest
    ensures rest == [] || StartsWith(rest, sep)
    ensures |Split(s, sep)| > 1 ==> rest == sep + Join(Split(s, sep)[1..], sep)
  {
    SplitHead(s, sep);
    var parts := Split(s, sep);
    if |parts| > 1 {
      rest := sep + Join(parts[1..], sep);
      assert rest[..|sep|] == sep;
    } else {
      rest := [];
    }
  }

  /** "```csv" starts with a fence. */
  lemma CsvFenceIsFenced(t: string)
    requires StartsWith(t, CsvFence)
    ensures StartsWith(t, Fence)
  {
    assert t[..|Fence|] == t[..|CsvFence|][..|Fence|];
  }

  /** A text with a "```csv" fence: what precedes the first one, the part up to the
      next "```csv" (or the end), and the rest. */
  lemma CsvParts(response: string) returns (p1: string, tail: string)
    requires Contains(response, CsvFence)
    ensures |Split(response, CsvFence)| > 1 && p1 == Split(response, CsvFence)[1]
    ensures response == Split(response, CsvFence)[0] + (CsvFence + (p1 + tail))
    ensures tail == [] || StartsWith(tail, CsvFence)
    ensures !Contains(Split(response, CsvFence)[0], CsvFence)
  {
    var parts := Split(response, CsvFence);
    SplitCount(response, CsvFence);
    SplitPartsFree(response, CsvFence);
    var afterCsv := SplitFirst(response, CsvFence);
    p1 := parts[1];
    tail := if |parts| > 2 then CsvFence + Join(parts[2..], CsvFence) else [];
    assert Join(parts[1..], CsvFence) == p1 + tail by {
      JoinHead(parts[1..], CsvFence);
      assert parts[1..][1..] == parts[2..];
    }
    if tail != [] { assert tail[..|CsvFence|] == CsvFence; }
  }

  /** The first fenced-off part of a text and what follows it, which is empty or
      starts with a fence. */
  lemma FenceParts(p1: string) returns (after: string)
    ensures p1 == Split(p1, Fence)[0] + after
    ensures after == [] || StartsWith(after, Fence)
    ensures !Contains(Split(p1, Fence)[0], Fence)
  {
    after := SplitFirst(p1, Fence);
    SplitPartsFree(p1, Fence);
  }

  /** Regrouping `pre + (f + ((seg + after) + tail))`. */
  lemma Regroup(pre: string, f: string, seg: string, after: string, tail: string)
    ensures pre + (f + ((seg + after) + tail)) == pre + f + seg + (after + tail)
  {
    AppendAssoc(seg, after, tail);
    AppendAssoc(f, seg, after + tail);
    AppendAssoc(pre, f + seg, after + tail);
    AppendAssoc(pre, f, seg);
  }

  /** A CSV-tagged answer: the table is the text between the first "```csv" and the
      next fence (or the end), stripped; it holds no fence. */
  lemma ExtractCsvTagged(response: string) returns (pre: string, seg: string, post: string)
    requires Contains(response, CsvFence)
    ensures ExtractCsv(response).Some? && ExtractCsv(response).value == Strip(seg)
    ensures response == pre + CsvFence + seg + post
    ensures !Contains(pre, CsvFence) && !Contains(seg, Fence)
    ensures post == [] || StartsWith(post, Fence)
    ensures !Contains(ExtractCsv(response).value, Fence)
  {
    pre := Split(response, CsvFence)[0];
    var p1, tail := CsvParts(response);
    seg := Split(p1, Fence)[0];
    var after := FenceParts(p1);
    Regroup(pre, CsvFence, seg, after, tail);
    post := after + tail;
    if after == [] {
      assert post == tail;
      if tail != [] { CsvFenceIsFenced(tail); }
    } else {
      assert post[..|Fence|] == after[..|Fence|];
    }
    StripFree(seg, Fence);
  }

  /** An answer without a "```csv" fence: the table is the first fenced block that
      looks like CSV, and there is none when no block does. */
  lemma ExtractCsvUntagged(response: string)
    requires !Contains(response, CsvFence)
    ensures ExtractCsv(response).None? <==>
      !Contains(response, Fence) ||
      forall k: nat :: k < |Split(response, Fence)| && Visits(1, k) ==> !LooksLikeCsv(Split(response, Fence)[k])
    ensures ExtractCsv(response).Some? ==>
      exists k: nat :: FirstCsvAt(Split(response, Fence), 1, k) && ExtractCsv(response).value == Strip(Split(response, Fence)[k])
  {
    if Contains(response, Fence) {
      var parts := Split(response, Fence);
      FirstCsvSegmentSpec(parts, 1);
    }
  }

  /** `extract_csv_from_response` as written: the tagged block, else a search over
      the fence segments 1, 3, 5, ... that returns at the first one that looks
      like CSV. */
  method ExtractCsvFromResponse(response: string) returns (csv: Option<string>)
    ensures csv == ExtractCsv(response)
  {
    if Contains(response, CsvFence) {
      var parts := Split(response, CsvFence);
      if |parts| > 1 {
        return Some(Strip(Split(parts[1], Fence)[0]));
      }
    }
    if Contains(response, Fence) {
      var parts := Split(response, Fence);
      if |parts| > 1 {
        var i := 1;
        while i < |parts|
          invariant 1 <= i
          invariant FirstCsvSegment(parts, i) == FirstFenced(response)
          decreases |parts| - i
        {
          if LooksLikeCsv(parts[i]) {
            return Some(Strip(parts[i]));
          }
          i := i + 2;
        }
        return None;
      }
    }
    return None;
  }

  // ---------------------------------------------------------------------------
  // extract_markdown_from_response
  // ---------------------------------------------------------------------------

  /** `extract_markdown_from_response(response)`: what follows the last fence,
      stripped, when the answer has at least two fences. */
  function ExtractMarkdown(response: string): Option<string>
  {
    if Contains(response, Fence) then
      var parts := Split(response, Fence);
      if |parts| > 2 then Some(Strip(parts[|parts| - 1])) else None
    else None
  }

  /** A text that splits into more than two parts at its fences is the text up to
      its last fence, which holds a fence, that fence, and the last part. */
  lemma MarkdownParts(response: string) returns (pre: string)
    requires |Split(response, Fence)| > 2
    ensures var parts := Split(response, Fence);
      response == pre + Fence + parts[|parts| - 1] && Contains(pre, Fence) &&
      !Contains(parts[|parts| - 1], Fence)
  {
    var parts := Split(response, Fence);
    SplitLast(response, Fence);
    SplitPartsFree(response, Fence);
    var init := parts[..|parts| - 1];
    pre := Join(init, Fence);
    JoinHead(init, Fence);
    assert Contains(Fence, Fence) by { assert StartsWith(Fence, Fence); }
    ContainsInfix(init[0], Fence, Join(init[1..], Fence), Fence);
  }

  /** The Markdown is found exactly when the answer splits into more than two
      parts at its fences, and it is then the stripped text after the last fence,
      which holds no fence. */
  lemma ExtractMarkdownSpec(response: string)
    ensures ExtractMarkdown(response).Some? <==> |Split(response, Fence)| > 2
    ensures ExtractMarkdown(response).Some? ==>
      exists pre, last :: response == pre + Fence + last && !Contains(last, Fence) &&
        Contains(pre, Fence) && ExtractMarkdown(response).value == Strip(last)
  {
    SplitCount(response, Fence);
    var parts := Split(response, Fence);
    if |parts| > 2 {
      var pre := MarkdownParts(response);
      var last := parts[|parts| - 1];
      assert ExtractMarkdown(response).value == Strip(last);
    }
  }

  // ---------------------------------------------------------------------------
  // verify_citations
  // ---------------------------------------------------------------------------

  const CsvFile: string := "citation_table.csv"
  const VerifiedFile: string := "design_decisions_verified.md"
  const MetaFile: string := "citation_meta.json"

  /** The input document: absent, present but unreadable, or its text. */
  datatype Input = Missing | Unreadable | Contents(text: string)

  /** The environment of a verification: the process environment, the model's
      answer to each attempt, and which writes fail. */
  datatype World = World(environ: map<string, string>, chat: nat -> Result<OpenAiClient.Response>,
                         writeFails: string -> bool)

  datatype CitationMeta = CitationMeta(model: string, tokenUsage: OpenAiClient.Usage,
                                       inputFile: string, outputFiles: seq<string>)

  datatype Write =
    | CsvWrite(path: string, text: string)
    | DocumentWrite(path: string, text: string)
    | MetaWrite(path: string, meta: CitationMeta)

  /** The dictionary `verify_citations` returns: the three paths, the failure to
      find a table, or the exception caught around the call and the writes. */
  datatype Verification =
    | Verified(csvPath: string, verifiedPath: string, metaPath: string)
    | NoCsv
    | VerificationFailed(error: Exception)

  /** What `verify_citations` returns (None for a missing input or a dry run), the
      exception it lets escape, and the files it writes, in order. */
  datatype Outcome = Outcome(result: Result<Option<Verification>>, writes: seq<Write>)

  /** The file paths of a verification. */
  datatype Paths3 = Paths3(csv: string, verified: string, meta: string)

  function OutputPaths(outputDir: string): Paths3
  {
    Paths3(Paths.Join(outputDir, CsvFile), Paths.Join(outputDir, VerifiedFile), Paths.Join(outputDir, MetaFile))
  }

  /** The client's answer: the constructor's key check, then the call with its
      retries. */
  function Answer(world: World): Result<OpenAiClient.Response>
  {
    match OpenAiClient.NewClient(None, world.environ)
    case Raised(e) => Raised(e)
    case Ok(_) => OpenAiClient.Retry(world.chat, 1)
  }

  /** A missing or empty extraction counts as not found (`if not csv_content`). */
  predicate Found(x: Option<string>)
  {
    x.Some? && x.value != []
  }

  /** The three writes: the table, the document, then the metadata; a failed write
      ends the sequence with that failure. */
  function Persist(csv: string, markdown: string, meta: CitationMeta, paths: Paths3, world: World): (o: Outcome)
    ensures o.result.Ok? && o.result.value.Some? && !o.result.value.value.NoCsv?
  {
    if world.writeFails(paths.csv) then Outcome(Ok(Some(VerificationFailed(IOError(paths.csv)))), [])
    else if world.writeFails(paths.verified) then
      Outcome(Ok(Some(VerificationFailed(IOError(paths.verified)))), [CsvWrite(paths.csv, csv)])
    else if world.writeFails(paths.meta) then
      Outcome(Ok(Some(VerificationFailed(IOError(paths.meta)))),
              [CsvWrite(paths.csv, csv), DocumentWrite(paths.verified, markdown)])
    else
      Outcome(Ok(Some(Verified(paths.csv, paths.verified, paths.meta))),
              [CsvWrite(paths.csv, csv), DocumentWrite(paths.verified, markdown), MetaWrite(paths.meta, meta)])
  }

  /** The answer's table and document, given what was extracted from it: fails
      without a table, falls back to the whole answer without a document. */
  function Store(csv: Option<string>, md: Option<string>, response: OpenAiClient.Response,
                 inputPath: string, model: string, paths: Paths3, world: World): (o: Outcome)
    ensures o.result.Ok? && o.result.value.Some?
  {
    if !Found(csv) then Outcome(Ok(Some(NoCsv)), [])
    else
      var markdown := if Found(md) then md.value else response.content;
      var meta := CitationMeta(model, response.usage, Paths.Basename(inputPath),
                               [Paths.Basename(paths.csv), Paths.Basename(paths.verified)]);
      Persist(csv.value, markdown, meta, paths, world)
  }

  /** What happens to the model's answer. */
  function Handle(response: OpenAiClient.Response, inputPath: string, model: string, paths: Paths3, world: World): (o: Outcome)
    ensures o.result.Ok? && o.result.value.Some?
  {
    Store(ExtractCsv(response.content), ExtractMarkdown(response.content), response, inputPath, model, paths, world)
  }

  /** `verify_citations(...)`. The template is what `load_prompt_template`
      returned; the prompt is sent to the model, whose answer is `world.chat`. */
  function VerifyCitations(inputPath: string, input: Input, outputDir: string, model: string,
                           dryRun: bool, world: World): Outcome
  {
    match input
    case Missing => Outcome(Ok(None), [])
    case Unreadable => Outcome(Raised(IOError(inputPath)), [])
    case Contents(_) =>
      if dryRun then Outcome(Ok(None), [])
      else
        Respond(Answer(world), inputPath, model, OutputPaths(outputDir), world)
  }

  /** The client's failure is caught and returned; an answer is handled. */
  function Respond(answer: Result<OpenAiClient.Response>, inputPath: string, model: string, paths: Paths3,
                   world: World): Outcome
  {
    match answer
    case Raised(e) => Outcome(Ok(Some(VerificationFailed(e))), [])
    case Ok(response) => Handle(response, inputPath, model, paths, world)
  }

  /** A missing input returns None before any call or write, whatever the model
      would answer. */
  lemma MissingInput(inputPath: string, outputDir: string, model: string, dryRun: bool, world: World, other: World)
    ensures VerifyCitations(inputPath, Missing, outputDir, model, dryRun, world) == Outcome(Ok(None), [])
    ensures VerifyCitations(inputPath, Missing, outputDir, model, dryRun, world) ==
            VerifyCitations(inputPath, Missing, outputDir, model, dryRun, other)
  {
  }

  /** Without a table in the answer nothing is written and the result is the
      failure to extract it; with one, the table is written first, exactly as
      extracted, and then the document: the extracted Markdown, or the whole
      answer when there is none. */
  lemma HandleWrites(response: OpenAiClient.Response, inputPath: string, model: string, paths: Paths3, world: World)
    ensures var o := Handle(response, inputPath, model, paths, world);
      var csv := ExtractCsv(response.content);
      var md := ExtractMarkdown(response.content);
      (!Found(csv) <==> o == Outcome(Ok(Some(NoCsv)), [])) &&
      (|o.writes| >= 1 ==> o.writes[0] == CsvWrite(paths.csv, csv.value)) &&
      (|o.writes| >= 2 ==> o.writes[1] == DocumentWrite(paths.verified, if Found(md) then md.value else response.content)) &&
      (o.result.value.value.Verified? <==> |o.writes| == 3)
  {
    StoreWrites(ExtractCsv(response.content), ExtractMarkdown(response.content), response, inputPath, model, paths, world);
  }

  lemma StoreWrites(csv: Option<string>, md: Option<string>, response: OpenAiClient.Response,
                    inputPath: string, model: string, paths: Paths3, world: World)
    ensures var o := Store(csv, md, response, inputPath, model, paths, world);
      (!Found(csv) <==> o == Outcome(Ok(Some(NoCsv)), [])) &&
      (|o.writes| >= 1 ==> o.writes[0] == CsvWrite(paths.csv, csv.value)) &&
      (|o.writes| >= 2 ==> o.writes[1] == DocumentWrite(paths.verified, if Found(md) then md.value else response.content)) &&
      (o.result.value.value.Verified? <==> |o.writes| == 3)
  {
  }

  /** A verification that succeeds wrote the table, the document and the metadata,
      in that order; its metadata names the input's basename and the two output
      files. */
  lemma VerifiedWrites(inputPath: string, input: Input, outputDir: string, model: string, world: World)
    requires var o := VerifyCitations(inputPath, input, outputDir, model, false, world);
      o.result.Ok? && o.result.value.Some? && o.result.value.value.Verified?
    ensures var o := VerifyCitations(inputPath, input, outputDir, model, false, world);
      |o.writes| == 3 && o.writes[0].CsvWrite? && o.writes[1].DocumentWrite? && o.writes[2].MetaWrite? &&
      o.writes[2].meta.inputFile == Paths.Basename(inputPath) &&
      o.writes[2].meta.outputFiles == [CsvFile, VerifiedFile]
  {
    var paths := OutputPaths(outputDir);
    RespondVerified(Answer(world), inputPath, model, paths, world);
    OutputNames(outputDir);
  }

  /** The output files are named as the metadata lists them. */
  lemma OutputNames(outputDir: string)
    ensures Paths.Basename(OutputPaths(outputDir).csv) == CsvFile
    ensures Paths.Basename(OutputPaths(outputDir).verified) == VerifiedFile
  {
    Paths.BasenameJoin(outputDir, CsvFile);
    Paths.BasenameJoin(outputDir, VerifiedFile);
  }

  /** A verification that completes has written the table, the document and the
      metadata, which names the input file and the two output files. */
  lemma RespondVerified(answer: Result<OpenAiClient.Response>, inputPath: string, model: string, paths: Paths3,
                        world: World)
    requires Respond(answer, inputPath, model, paths, world).result.value.value.Verified?
    ensures var o := Respond(answer, inputPath, model, paths, world);
      |o.writes| == 3 && o.writes[0].CsvWrite? && o.writes[1].DocumentWrite? && o.writes[2].MetaWrite? &&
      o.writes[2].meta.inputFile == Paths.Basename(inputPath) &&
      o.writes[2].meta.outputFiles == [Paths.Basename(paths.csv), Paths.Basename(paths.verified)]
  {
    var response := answer.value;
    StoreVerified(ExtractCsv(response.content), ExtractMarkdown(response.content), response, inputPath, model, paths, world);
  }

  lemma StoreVerified(csv: Option<string>, md: Option<string>, response: OpenAiClient.Response,
                      inputPath: string, model: string, paths: Paths3, world: World)
    requires Store(csv, md, response, inputPath, model, paths, world).result.value.value.Verified?
    ensures var o := Store(csv, md, response, inputPath, model, paths, world);
      |o.writes| == 3 && o.writes[0].CsvWrite? && o.writes[1].DocumentWrite? && o.writes[2].MetaWrite? &&
      o.writes[2].meta.inputFile == Paths.Basename(inputPath) &&
      o.writes[2].meta.outputFiles == [Paths.Basename(paths.csv), Paths.Basename(paths.verified)]
  {
  }

  /** A dry run, or a failing client, writes nothing. */
  lemma NoWritesWithoutAnswer(inputPath: string, input: Input, outputDir: string, model: string,
                              dryRun: bool, world: World)
    requires dryRun || Answer(world).Raised?
    ensures VerifyCitations(inputPath, input, outputDir, model, dryRun, world).writes == []
  {
  }
}
