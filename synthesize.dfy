/**
 * The synthesizer (scripts/synthesize.py): it picks the executor's result files
 * out of a directory listing, loads each with the title its metadata names,
 * assembles the merged prompt, and asks the model for one merged document.
 * The directory listing, the files' contents and the model are parameters.
 */
module Synthesize {
  import opened Python
  import opened Strings
  import Paths
  import OpenAiClient

  const MetaSuffix: string := "_meta.json"
  const DashMetaSuffix: string := "-meta.json"
  const SummaryFile: string := "summary.json"

  // ---------------------------------------------------------------------------
  // Which files are results
  // ---------------------------------------------------------------------------

  /** A listed file is a result unless it ends in "_meta.json" or is the run's
      summary file. */
  predicate IsResultFile(f: string, inputDir: string)
  {
    !EndsWith(f, MetaSuffix) && f != Paths.Join(inputDir, SummaryFile)
  }

  /** The result files among the listed ones, in listing order. */
  function ResultFiles(files: seq<string>, inputDir: string): (rs: seq<string>)
    ensures forall f :: f in rs <==> f in files && IsResultFile(f, inputDir)
    ensures |rs| <= |files|
  {
    if files == [] then []
    else
      var init := ResultFiles(files[..|files| - 1], inputDir);
      var f := files[|files| - 1];
      assert files == files[..|files| - 1] + [f];
      if IsResultFile(f, inputDir) then init + [f] else init
  }

  /** A joined path ends with its last part, when that part is relative. */
  lemma JoinEnds(dir: string, name: string)
    requires name != [] && name[0] != '/'
    ensures EndsWith(Paths.Join(dir, name), name)
  {
    assert !StartsWith(name, "/") by { assert name[..1][0] == name[0]; }
    var p := Paths.Join(dir, name);
    assert p[|p| - |name|..] == name;
  }

  /** The executor's metadata files end in "-meta.json", which the filter does not
      recognise: they are listed as results. */
  lemma DashMetaKept(files: seq<string>, inputDir: string, f: string)
    requires f in files && EndsWith(f, DashMetaSuffix)
    ensures f in ResultFiles(files, inputDir)
  {
    assert DashMetaSuffix != MetaSuffix by { assert DashMetaSuffix[0] != MetaSuffix[0]; }
    assert f[|f| - 10] == '-';
    JoinEnds(inputDir, SummaryFile);
    var s := Paths.Join(inputDir, SummaryFile);
    assert s[|s| - 10] == SummaryFile[2];
  }

  // ---------------------------------------------------------------------------
  // Loading one output
  // ---------------------------------------------------------------------------

  /** The `task` entry of a metadata file: an object with or without a title, or
      something without `.get` (a list, a string, null). */
  datatype TaskJson = TaskObject(title: Option<Value>) | TaskOther

  /** A parsed metadata file: an object with or without a `task` entry, or a JSON
      value without `.get`. */
  datatype MetaJson = MetaObject(task: Option<TaskJson>) | MetaOther

  /** The files under the input directory: `text(p)` is None when reading fails,
      `json(p)` None when the file is not valid JSON or cannot be read. */
  datatype Disk = Disk(exists_: string -> bool, text: string -> Option<string>, json: string -> Option<MetaJson>)

  /** One loaded subagent output. */
  datatype Output = Output(title: Value, content: string, format: string, filePath: string)

  /** `file_path.replace(ext, "_meta.json")`: every occurrence of the extension
      text, and before every character when there is no extension. */
  function MetaPathOf(path: string): string
  {
    Replace(path, Paths.SplitExt(path).1, MetaSuffix)
  }

  /** `ext.lstrip(".")`. */
  function LStripDots(s: string): (r: string)
    ensures |r| <= |s| && r == s[|s| - |r|..] && (r == [] || r[0] != '.')
  {
    if s != [] && s[0] == '.' then LStripDots(s[1..]) else s
  }

  /** `task.get("title", os.path.basename(file_path))` after the metadata lookup:
      the basename without a metadata file, an AttributeError when the metadata or
      its task is not an object. */
  function TitleOf(path: string, metaPath: string, disk: Disk): Result<Value>
  {
    var fallback := Str(Paths.Basename(path));
    if !disk.exists_(metaPath) then Ok(fallback)
    else
      match disk.json(metaPath)
      case None => Raised(IOError(metaPath))
      case Some(MetaOther) => Raised(AttributeError)
      case Some(MetaObject(None)) => Ok(fallback)
      case Some(MetaObject(Some(TaskOther))) => Raised(AttributeError)
      case Some(MetaObject(Some(TaskObject(None)))) => Ok(fallback)
      case Some(MetaObject(Some(TaskObject(Some(t))))) => Ok(t)
  }

  /** The body of the loading loop for one file; an exception means the file is
      skipped. */
  function LoadOne(path: string, disk: Disk): Result<Output>
  {
    LoadFile(path, MetaPathOf(path), Paths.SplitExt(path).1, disk)
  }

  /** Loading a file given its metadata path and its extension. */
  function LoadFile(path: string, metaPath: string, ext: string, disk: Disk): Result<Output>
  {
    match disk.text(path)
    case None => Raised(IOError(path))
    case Some(content) =>
      match TitleOf(path, metaPath, disk)
      case Raised(e) => Raised(e)
      case Ok(title) => Ok(Output(title, content, LStripDots(ext), path))
  }

  /** Loading from the given files. */
  function Loader(disk: Disk): string -> Result<Output>
  {
    path => LoadOne(path, disk)
  }

  /** The outputs loaded from `files` in order by `load`, skipping files that
      raise. */
  function LoadAll(files: seq<string>, load: string -> Result<Output>): seq<Output>
  {
    if files == [] then []
    else
      var init := LoadAll(files[..|files| - 1], load);
      match load(files[|files| - 1])
      case Raised(_) => init
      case Ok(o) => init + [o]
  }

  /** `load_subagent_outputs(input_dir)`: loads the result files in sorted order,
      appending each that loads and skipping each that raises. */
  method LoadSubagentOutputs(listing: seq<string>, inputDir: string, disk: Disk)
    returns (outputs: seq<Output>)
    ensures outputs == LoadAll(SortStrings(ResultFiles(listing, inputDir)), Loader(disk))
  {
    var resultFiles := ResultFiles(listing, inputDir);
    if resultFiles == [] {
      return [];
    }
    var files := SortStrings(resultFiles);
    outputs := [];
    for i := 0 to |files|
      invariant outputs == LoadAll(files[..i], Loader(disk))
    {
      assert files[..i + 1][..i] == files[..i];
      var loaded := LoadOne(files[i], disk);
      if loaded.Ok? {
        outputs := outputs + [loaded.value];
      }
    }
    assert files[..|files|] == files;
  }

  /** An output's format is its extension without the dot, and its file path is
      the file it came from. */
  lemma LoadOneShape(path: string, disk: Disk)
    requires LoadOne(path, disk).Ok?
    ensures var o := LoadOne(path, disk).value;
      o.filePath == path && o.content == disk.text(path).value &&
      var ext := Paths.SplitExt(path).1;
      o.format == (if ext == [] then [] else ext[1..])
  {
    var ext := Paths.SplitExt(path).1;
    if ext != [] {
      assert LStripDots(ext) == LStripDots(ext[1..]);
      assert ext[1..] == [] || ext[1..][0] != '.';
    }
  }

  /** Without a metadata file, or when it names no title, the title is the file's
      basename. */
  lemma TitleFallback(path: string, disk: Disk)
    requires disk.text(path).Some?
    requires !disk.exists_(MetaPathOf(path)) ||
      disk.json(MetaPathOf(path)) == Some(MetaObject(None)) ||
      disk.json(MetaPathOf(path)) == Some(MetaObject(Some(TaskObject(None))))
    ensures LoadOne(path, disk).Ok? && LoadOne(path, disk).value.title == Str(Paths.Basename(path))
  {
    FallbackTitle(path, MetaPathOf(path), disk);
    LoadOneTitle(path, disk);
  }

  lemma FallbackTitle(path: string, metaPath: string, disk: Disk)
    requires !disk.exists_(metaPath) ||
      disk.json(metaPath) == Some(MetaObject(None)) ||
      disk.json(metaPath) == Some(MetaObject(Some(TaskObject(None))))
    ensures TitleOf(path, metaPath, disk) == Ok(Str(Paths.Basename(path)))
  {
  }

  /** A readable file whose title is found loads with that title. */
  lemma LoadOneTitle(path: string, disk: Disk)
    requires disk.text(path).Some? && TitleOf(path, MetaPathOf(path), disk).Ok?
    ensures LoadOne(path, disk).Ok? && LoadOne(path, disk).value.title == TitleOf(path, MetaPathOf(path), disk).value
  {
    LoadFileTitle(path, MetaPathOf(path), Paths.SplitExt(path).1, disk);
  }

  lemma LoadFileTitle(path: string, metaPath: string, ext: string, disk: Disk)
    requires disk.text(path).Some? && TitleOf(path, metaPath, disk).Ok?
    ensures LoadFile(path, metaPath, ext, disk).Ok?
    ensures LoadFile(path, metaPath, ext, disk).value.title == TitleOf(path, metaPath, disk).value
  {
  }

  /** A file is skipped exactly when reading it, or reading or using its metadata,
      raises. */
  lemma LoadOneFails(path: string, disk: Disk)
    ensures LoadOne(path, disk).Raised? <==>
      disk.text(path).None? || TitleOf(path, MetaPathOf(path), disk).Raised?
  {
  }

  /** The loaded outputs are those of the files that load, in file order. */
  lemma {:induction false} LoadAllMembers(files: seq<string>, load: string -> Result<Output>)
    ensures |LoadAll(files, load)| <= |files|
    ensures forall o :: o in LoadAll(files, load) <==>
      exists i :: 0 <= i < |files| && load(files[i]) == Ok(o)
  {
    if files != [] {
      var init := files[..|files| - 1];
      LoadAllMembers(init, load);
      assert forall i :: 0 <= i < |init| ==> init[i] == files[i];
    }
  }

  /** When every file loads, nothing is skipped: output i is file i's. */
  lemma {:induction false} LoadAllNoneSkipped(files: seq<string>, load: string -> Result<Output>)
    requires forall i :: 0 <= i < |files| ==> load(files[i]).Ok?
    ensures |LoadAll(files, load)| == |files|
    ensures forall i :: 0 <= i < |files| ==> load(files[i]) == Ok(LoadAll(files, load)[i])
  {
    if files != [] {
      LoadAllNoneSkipped(files[..|files| - 1], load);
    }
  }

  /** Each output names the file it was loaded from. */
  ghost predicate KeepsPath(load: string -> Result<Output>)
  {
    forall p :: load(p).Ok? ==> load(p).value.filePath == p
  }

  lemma LoaderKeepsPath(disk: Disk)
    ensures KeepsPath(Loader(disk))
  {
  }

  /** Outputs keep the order of their files: loaded from sorted paths, their paths
      are sorted. */
  lemma {:induction false} LoadAllSorted(files: seq<string>, load: string -> Result<Output>)
    requires SortedStrings(files) && KeepsPath(load)
    ensures forall i, j :: 0 <= i < j < |LoadAll(files, load)| ==>
      StrLe(LoadAll(files, load)[i].filePath, LoadAll(files, load)[j].filePath)
  {
    if files != [] {
      var init := files[..|files| - 1];
      var last := files[|files| - 1];
      LoadAllSorted(init, load);
      LoadAllMembers(init, load);
      var done := LoadAll(init, load);
      if load(last).Ok? {
        forall i | 0 <= i < |done| ensures StrLe(done[i].filePath, last) {
          assert done[i] in done;
          var k :| 0 <= k < |init| && load(init[k]) == Ok(done[i]);
          assert files[k] == init[k];
        }
      }
    }
  }

  /** The metadata path of a file whose extension text occurs only at its end is
      the file's path with "_meta.json" in place of the extension. */
  lemma MetaPathSingle(path: string)
    requires Paths.SplitExt(path).1 != []
    requires var ext := Paths.SplitExt(path).1;
      forall i: nat :: i < |path| - |ext| ==> NoMatchAt(path, ext, i)
    ensures var ext := Paths.SplitExt(path).1;
      MetaPathOf(path) == path[..|path| - |ext|] + MetaSuffix
  {
    var ext := Paths.SplitExt(path).1;
    var k := |path| - |ext|;
    ReplaceSkip(path, ext, MetaSuffix, k);
    assert path[k..] == ext;
    assert Replace(ext, ext, MetaSuffix) == MetaSuffix by {
      assert ext[..|ext|] == ext && ext[|ext|..] == [];
    }
  }

  /** The executor writes `NN_slug-meta.json` beside `NN_slug.md`; the synthesizer
      looks for `NN_slug_meta.json`, so it never finds that metadata and titles the
      output with the file's basename. */
  lemma MetaPathMissesExecutorMeta(path: string)
    requires Paths.SplitExt(path).1 != []
    requires var ext := Paths.SplitExt(path).1;
      forall i: nat :: i < |path| - |ext| ==> NoMatchAt(path, ext, i)
    ensures !EndsWith(MetaPathOf(path), DashMetaSuffix)
  {
    MetaPathSingle(path);
    var m := MetaPathOf(path);
    assert m[|m| - 10] == '_';
  }

  /** A path without an extension gets "_meta.json" before each of its characters
      and at its end. */
  lemma {:induction false} MetaPathNoExtension(s: string)
    ensures |Replace(s, [], MetaSuffix)| == |s| + (|s| + 1) * |MetaSuffix|
    ensures StartsWith(Replace(s, [], MetaSuffix), MetaSuffix)
  {
    if s != [] {
      MetaPathNoExtension(s[1..]);
    }
    assert Replace(s, [], MetaSuffix)[..|MetaSuffix|] == MetaSuffix;
  }

  // ---------------------------------------------------------------------------
  // The merged prompt
  // ---------------------------------------------------------------------------

  const ParagraphBreak: string := "\n\n"
  const OutputsHeading: string := "### Subagent Outputs\n\n"
  const SectionMark: string := "#### "
  const NumberEnd: string := ". "
  const FenceOpen: string := "```"
  const FenceClose: string := "\n```\n\n"

  /** The heading of output i: "#### {i+1}. {title}" and a blank line. */
  function SectionHeading(i: nat, o: Output): string
  {
    SectionMark + NatToString(i + 1) + NumberEnd + ToStr(o.title) + ParagraphBreak
  }

  /** The output's content in a fence tagged with its format, and a blank line. */
  function SectionBody(o: Output): string
  {
    FenceOpen + o.format + "\n" + o.content + FenceClose
  }

  /** The section of output i. */
  function Section(i: nat, o: Output): string
  {
    SectionHeading(i, o) + SectionBody(o)
  }

  /** The sections of the given outputs, numbered from 1 in order. */
  function Sections(outs: seq<Output>): string
  {
    if outs == [] then []
    else
      var n := |outs| - 1;
      Sections(outs[..n]) + Section(n, outs[n])
  }

  /** The prompt `create_synthesis_prompt` returns. */
  function SynthesisPrompt(outs: seq<Output>, template: string): string
  {
    template + ParagraphBreak + OutputsHeading + Sections(outs)
  }

  /** `create_synthesis_prompt(outputs, template)`: the template, the heading, then
      one section per output, appended in turn. */
  method CreateSynthesisPrompt(outputs: seq<Output>, template: string) returns (prompt: string)
    ensures prompt == SynthesisPrompt(outputs, template)
  {
    prompt := template + ParagraphBreak;
    prompt := prompt + OutputsHeading;
    for i := 0 to |outputs|
      invariant prompt == template + ParagraphBreak + OutputsHeading + Sections(outputs[..i])
    {
      assert outputs[..i + 1][..i] == outputs[..i];
      ghost var before := Sections(outputs[..i]);
      prompt := prompt + SectionHeading(i, outputs[i]);
      prompt := prompt + SectionBody(outputs[i]);
      AppendAssoc(template + ParagraphBreak + OutputsHeading + before, SectionHeading(i, outputs[i]), SectionBody(outputs[i]));
      AppendAssoc(template + ParagraphBreak + OutputsHeading, before, Section(i, outputs[i]));
    }
    assert outputs[..|outputs|] == outputs;
  }

  /** Output i's section follows the sections of outputs 0 to i - 1 in the prompt:
      every output appears, in order, under its own number. */
  lemma SectionsInOrder(outs: seq<Output>, i: nat)
    requires i < |outs|
    ensures StartsWith(Sections(outs), Sections(outs[..i]) + Section(i, outs[i]))
  {
    var after := SectionsAround(outs, i);
    StartsWithAppend(Sections(outs[..i]) + Section(i, outs[i]), Sections(outs[..i]) + Section(i, outs[i]), after);
  }

  lemma StartsWithAppend(a: string, p: string, b: string)
    requires p == a || StartsWith(a, p)
    ensures StartsWith(a + b, p)
  {
    assert (a + b)[..|p|] == a[..|p|];
  }

  /** The prompt starts with the template and the heading. */
  lemma PromptStartsWithTemplate(outs: seq<Output>, template: string)
    ensures StartsWith(SynthesisPrompt(outs, template), template + ParagraphBreak + OutputsHeading)
  {
    var pre := template + ParagraphBreak + OutputsHeading;
    assert (pre + Sections(outs))[..|pre|] == pre;
  }

  /** The prompt holds output i's section: its number, title, format and
      content. */
  lemma PromptHoldsOutput(outs: seq<Output>, template: string, i: nat)
    requires i < |outs|
    ensures Contains(SynthesisPrompt(outs, template), Section(i, outs[i]))
  {
    var pre := template + ParagraphBreak + OutputsHeading;
    var sec := Section(i, outs[i]);
    var before := Sections(outs[..i]);
    var after := SectionsAround(outs, i);
    assert Contains(sec, sec) by { assert sec[..|sec|] == sec; }
    ContainsInfix(pre + before, sec, after, sec);
    AppendAssoc(pre, before + sec, after);
    AppendAssoc(pre, before, sec);
  }

  /** The sections are those before output i, its own, and those after. */
  lemma {:induction false} SectionsAround(outs: seq<Output>, i: nat) returns (after: string)
    requires i < |outs|
    ensures Sections(outs) == (Sections(outs[..i]) + Section(i, outs[i])) + after
    decreases |outs|
  {
    var n := |outs| - 1;
    var last := Section(n, outs[n]);
    if i == n {
      after := [];
      assert outs[..i] == outs[..n];
    } else {
      var x := Sections(outs[..i]) + Section(i, outs[i]);
      var before := SectionsAround(outs[..n], i);
      assert outs[..n][..i] == outs[..i] && outs[..n][i] == outs[i];
      assert Sections(outs) == (x + before) + last;
      AppendAssoc(x, before, last);
      after := before + last;
    }
  }

  // ---------------------------------------------------------------------------
  // synthesize
  // ---------------------------------------------------------------------------

  const DocumentFile: string := "design_decisions.md"
  const MetaFile: string := "synthesis_meta.json"

  /** The environment of a synthesis: the process environment, the model's answer
      to each attempt, and which writes fail. */
  datatype World = World(environ: map<string, string>, chat: nat -> Result<OpenAiClient.Response>,
                         writeFails: string -> bool)

  /** The metadata written beside the document. */
  datatype SynthesisMeta = SynthesisMeta(model: string, tokenUsage: OpenAiClient.Usage,
                                         inputFiles: seq<string>, outputFile: string)

  datatype Write = DocumentWrite(path: string, text: string) | MetaWrite(path: string, meta: SynthesisMeta)

  /** The dictionary `synthesize` returns. */
  datatype Synthesis = Synthesized(outputPath: string, metaPath: string) | SynthesisFailed(error: Exception)

  /** What `synthesize` returns (None for no outputs and for a dry run) and the
      files it writes, in order. */
  datatype Outcome = Outcome(result: Option<Synthesis>, writes: seq<Write>)

  /** The basenames of the outputs' files. */
  function InputFiles(outs: seq<Output>): (names: seq<string>)
    ensures |names| == |outs|
    ensures forall i :: 0 <= i < |outs| ==> names[i] == Paths.Basename(outs[i].filePath)
  {
    seq(|outs|, i requires 0 <= i < |outs| => Paths.Basename(outs[i].filePath))
  }

  /** Writing the document and then its metadata. */
  function Persist(content: string, meta: SynthesisMeta, outputPath: string, metaPath: string, world: World): Outcome
  {
    if world.writeFails(outputPath) then Outcome(Some(SynthesisFailed(IOError(outputPath))), [])
    else if world.writeFails(metaPath) then
      Outcome(Some(SynthesisFailed(IOError(metaPath))), [DocumentWrite(outputPath, content)])
    else Outcome(Some(Synthesized(outputPath, metaPath)), [DocumentWrite(outputPath, content), MetaWrite(metaPath, meta)])
  }

  /** The client's answer: the constructor's key check, then the call with its
      retries. */
  function Answer(world: World): Result<OpenAiClient.Response>
  {
    match OpenAiClient.NewClient(None, world.environ)
    case Raised(e) => Raised(e)
    case Ok(_) => OpenAiClient.Retry(world.chat, 1)
  }

  /** `synthesize` once the outputs are loaded and the prompt built: nothing in a dry
      run; otherwise the answer and the two writes, any exception of which becomes
      a failure result. */
  function SynthesizeLoaded(outs: seq<Output>, outputDir: string, model: string, dryRun: bool, world: World): Outcome
  {
    if dryRun then Outcome(None, [])
    else
      var outputPath := Paths.Join(outputDir, DocumentFile);
      match Answer(world)
      case Raised(e) => Outcome(Some(SynthesisFailed(e)), [])
      case Ok(response) =>
        var meta := SynthesisMeta(model, response.usage, InputFiles(outs), Paths.Basename(outputPath));
        Persist(response.content, meta, outputPath, Paths.Join(outputDir, MetaFile), world)
  }

  /** `synthesize(...)` over a directory listing. */
  function SynthesizeSpec(listing: seq<string>, inputDir: string, disk: Disk, outputDir: string,
                          model: string, dryRun: bool, world: World): Outcome
  {
    var outs := LoadAll(SortStrings(ResultFiles(listing, inputDir)), Loader(disk));
    if outs == [] then Outcome(None, [])
    else SynthesizeLoaded(outs, outputDir, model, dryRun, world)
  }

  /** `synthesize(...)`: loads the outputs, returns None when there are none,
      builds the prompt and runs the synthesis. The template is what
      `load_prompt_template` returned. */
  method Synthesize(listing: seq<string>, inputDir: string, disk: Disk, template: string,
                    outputDir: string, model: string, dryRun: bool, world: World)
    returns (outcome: Outcome, prompt: Option<string>)
    ensures outcome == SynthesizeSpec(listing, inputDir, disk, outputDir, model, dryRun, world)
    ensures var outs := LoadAll(SortStrings(ResultFiles(listing, inputDir)), Loader(disk));
      prompt == if outs == [] then None else Some(SynthesisPrompt(outs, template))
  {
    var outputs := LoadSubagentOutputs(listing, inputDir, disk);
    if outputs == [] {
      return Outcome(None, []), None;
    }
    var p := CreateSynthesisPrompt(outputs, template);
    prompt := Some(p);
    outcome := SynthesizeLoaded(outputs, outputDir, model, dryRun, world);
  }

  /** No outputs, or a dry run, means no result and no file written. */
  lemma SynthesizeNothing(listing: seq<string>, inputDir: string, disk: Disk, outputDir: string,
                          model: string, dryRun: bool, world: World)
    requires LoadAll(SortStrings(ResultFiles(listing, inputDir)), Loader(disk)) == [] || dryRun
    ensures SynthesizeSpec(listing, inputDir, disk, outputDir, model, dryRun, world) == Outcome(None, [])
  {
  }

  /** The document is written before its metadata, so metadata never exists
      without the document; a success wrote both, a failure at most the document. */
  lemma PersistWrites(content: string, meta: SynthesisMeta, outputPath: string, metaPath: string, world: World)
    ensures var o := Persist(content, meta, outputPath, metaPath, world);
      o.result.Some? && |o.writes| <= 2 &&
      (o.result.value.Synthesized? <==> |o.writes| == 2) &&
      (|o.writes| >= 1 ==> o.writes[0] == DocumentWrite(outputPath, content)) &&
      (|o.writes| == 2 ==> o.writes[1] == MetaWrite(metaPath, meta)) &&
      (o.result.value.SynthesisFailed? ==> o.result.value.error == IOError(if |o.writes| == 0 then outputPath else metaPath))
  {
  }

  /** A run that is not dry always returns a result; it fails without writing when
      the client or the call raises, and otherwise writes the answer as the
      document, then metadata listing the basename of every merged output's file,
      in order, and naming the document's file. */
  lemma SynthesizeWrites(outs: seq<Output>, outputDir: string, model: string, world: World)
    ensures var o := SynthesizeLoaded(outs, outputDir, model, false, world);
      o.result.Some? &&
      (Answer(world).Raised? ==> o == Outcome(Some(SynthesisFailed(Answer(world).error)), [])) &&
      (|o.writes| >= 1 ==> o.writes[0] == DocumentWrite(Paths.Join(outputDir, DocumentFile), Answer(world).value.content)) &&
      (|o.writes| == 2 ==>
        o.writes[1].MetaWrite? && o.writes[1].meta.inputFiles == InputFiles(outs) &&
        o.writes[1].meta.outputFile == DocumentFile)
  {
    Paths.BasenameJoin(outputDir, DocumentFile);
    if Answer(world).Ok? {
      var outputPath := Paths.Join(outputDir, DocumentFile);
      var meta := SynthesisMeta(model, Answer(world).value.usage, InputFiles(outs), Paths.Basename(outputPath));
      PersistWrites(Answer(world).value.content, meta, outputPath, Paths.Join(outputDir, MetaFile), world);
    }
  }
}
