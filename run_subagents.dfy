/**
 * The task executor of scripts/run_subagents.py: how one task of the research plan
 * becomes a prompt, a pair of file names and a success or failure record, and how
 * the records of all tasks are gathered, ordered and summarised.
 *
 * Everything outside the process is an oracle held in a `World`: the environment
 * variables the client reads its key from, the outcome of each chat attempt, and
 * which file writes fail. The thread pool is modelled by an arbitrary completion
 * order of the tasks.
 */
module RunSubagents {
  import opened Python
  import opened Strings
  import IoHelpers
  import Paths
  import OpenAiClient

  /** A task of the plan: a JSON object. */
  type Task = map<string, Value>

  // ---------------------------------------------------------------------------
  // create_subagent_prompt
  // ---------------------------------------------------------------------------

  const TitleTag: string := "<TASK_TITLE>"
  const ScopeTag: string := "<TASK_SCOPE>"
  const FormatTag: string := "<TASK_FORMAT>"
  const ToolsTag: string := "<TASK_TOOLS>"
  const StopTag: string := "<TASK_STOP_CONDITION>"
  const ToolSeparator: string := ", "
  const DefaultFormat: string := "markdown"

  /** `task.get(key, default)` passed to `str.replace`: a string value, the default
      when the key is absent; any other value makes `replace` raise TypeError. */
  function TextField(task: Task, key: string, default: string): Result<string>
  {
    if key !in task then Ok(default)
    else match task[key]
      case Str(s) => Ok(s)
      case _ => Raised(TypeError)
  }

  /** The one-character strings of `s`: what iterating over a string yields. */
  function Chars(s: string): seq<string>
  {
    seq(|s|, i requires 0 <= i < |s| => [s[i]])
  }

  /** `", ".join(task.get("tools", []))`. A string is joined character by character
      and an object by its keys; a value that is not an iterable of strings makes
      `join` raise TypeError. */
  function ToolsText(task: Task): Result<string>
  {
    if "tools" !in task then Ok("")
    else match task["tools"]
      case Str(s) => Ok(Join(Chars(s), ToolSeparator))
      case StrList(items, _) => Ok(Join(items, ToolSeparator))
      case Object(keys, _) => Ok(Join(keys, ToolSeparator))
      case NonStr(_) => Raised(TypeError)
  }

  /** The five literal replacements, in the order the source makes them. */
  function Fill(template: string, title: string, scope: string, format: string,
                tools: string, stop: string): string
  {
    Replace(Replace(Replace(Replace(Replace(template, TitleTag, title), ScopeTag, scope),
      FormatTag, format), ToolsTag, tools), StopTag, stop)
  }

  /** `create_subagent_prompt(task, template)`. */
  function CreatePrompt(task: Task, template: string): Result<string>
  {
    var tools := ToolsText(task);
    var title := TextField(task, "title", "");
    var scope := TextField(task, "scope", "");
    var format := TextField(task, "format", DefaultFormat);
    var stop := TextField(task, "stop_condition", "");
    if tools.Raised? || title.Raised? || scope.Raised? || format.Raised? || stop.Raised? then
      Raised(TypeError)
    else Ok(Fill(template, title.value, scope.value, format.value, tools.value, stop.value))
  }

  /** The key is absent or holds a string. */
  predicate TextOrAbsent(task: Task, key: string)
  {
    key !in task || task[key].Str?
  }

  /** The prompt is built exactly when the four text fields are strings or absent and
      the tools are a string, a list of strings, an object or absent; otherwise
      TypeError. */
  lemma CreatePromptFails(task: Task, template: string)
    ensures CreatePrompt(task, template).Ok? <==>
      TextOrAbsent(task, "title") && TextOrAbsent(task, "scope") &&
      TextOrAbsent(task, "format") && TextOrAbsent(task, "stop_condition") &&
      ("tools" !in task || !task["tools"].NonStr?)
    ensures CreatePrompt(task, template).Raised? ==> CreatePrompt(task, template).error == TypeError
  {
  }

  /** Python's `s.replace(p, r)` where `s` is `p` itself. */
  lemma ReplaceWhole(pat: string, rep: string)
    requires |pat| > 0
    ensures Replace(pat, pat, rep) == rep
  {
    assert pat[..|pat|] == pat;
    assert pat[|pat|..] == [];
  }

  /** A text shorter than the pattern is left as it is. */
  lemma ReplaceAbsentShort(s: string, pat: string, rep: string)
    requires |s| < |pat|
    ensures Replace(s, pat, rep) == s
  {
  }

  /** A text without the pattern's first character does not contain it. */
  lemma {:induction false} NoFirstChar(x: string, pat: string)
    requires |pat| > 0 && pat[0] !in x
    ensures !Contains(x, pat)
    decreases |x|
  {
    if x != [] {
      assert forall c :: c in x[1..] ==> c in x;
      NoFirstChar(x[1..], pat);
      if |pat| <= |x| { assert x[..|pat|][0] == x[0]; }
    }
  }

  /** A tag opens with '<'. A text that has no '<' after its first character and
      differs from the tag at index `d` does not contain it, so replacing it changes
      nothing. */
  lemma TagAbsent(s: string, tag: string, rep: string, d: nat)
    requires d < |s| && d < |tag| && s[d] != tag[d]
    requires tag[0] == '<' && '<' !in s[1..]
    ensures Replace(s, tag, rep) == s
  {
    if |tag| <= |s| { assert s[..|tag|][d] == s[d]; }
    NoFirstChar(s[1..], tag);
    ReplaceAbsent(s, tag, rep);
  }

  /** The prompt of a task without any fields. */
  lemma EmptyTaskPrompt(template: string)
    ensures CreatePrompt(map[], template) == Ok(Fill(template, "", "", DefaultFormat, "", ""))
  {
  }

  /** A missing format reads as "markdown". */
  lemma FormatDefault()
    ensures CreatePrompt(map[], FormatTag) == Ok(DefaultFormat)
  {
    EmptyTaskPrompt(FormatTag);
    TagAbsent(FormatTag, TitleTag, "", 6);
    TagAbsent(FormatTag, ScopeTag, "", 6);
    ReplaceWhole(FormatTag, DefaultFormat);
    ReplaceAbsentShort(DefaultFormat, ToolsTag, "");
    ReplaceAbsentShort(DefaultFormat, StopTag, "");
  }

  /** A missing title reads as the empty string. */
  lemma TitleDefault()
    ensures CreatePrompt(map[], TitleTag) == Ok("")
  {
    EmptyTaskPrompt(TitleTag);
    ReplaceWhole(TitleTag, "");
  }

  /** Whatever the template, a task holding only tools fills `<TASK_TOOLS>` with
      them joined by ", ": the items of a list, the keys of an object, the
      characters of a string; the other tags get their defaults. */
  lemma ToolsJoined(template: string, items: seq<string>, keys: seq<string>, s: string, text: string)
    ensures CreatePrompt(map["tools" := StrList(items, text)], template) ==
      Ok(Fill(template, "", "", DefaultFormat, Join(items, ToolSeparator), ""))
    ensures CreatePrompt(map["tools" := Object(keys, text)], template) ==
      Ok(Fill(template, "", "", DefaultFormat, Join(keys, ToolSeparator), ""))
    ensures CreatePrompt(map["tools" := Str(s)], template) ==
      Ok(Fill(template, "", "", DefaultFormat, Join(Chars(s), ToolSeparator), ""))
  {
  }

  /** Two tools fill the bare tools tag as "a, b". */
  lemma ToolsJoinedPair(a: string, b: string)
    requires '<' !in a && '<' !in b
    ensures CreatePrompt(map["tools" := StrList([a, b], "")], ToolsTag) == Ok(a + ToolSeparator + b)
  {
    var task := map["tools" := StrList([a, b], "")];
    assert ToolsText(task) == Ok(a + ToolSeparator + b) by {
      assert "tools" in task && task["tools"] == StrList([a, b], "");
      assert [a, b][1..] == [b];
      assert Join([a, b], ToolSeparator) == a + ToolSeparator + Join([b], ToolSeparator);
    }
    assert CreatePrompt(task, ToolsTag) == Ok(Fill(ToolsTag, "", "", DefaultFormat, a + ToolSeparator + b, ""));
    TagAbsent(ToolsTag, TitleTag, "", 7);
    TagAbsent(ToolsTag, ScopeTag, "", 6);
    ReplaceAbsentShort(ToolsTag, FormatTag, DefaultFormat);
    ReplaceWhole(ToolsTag, a + ToolSeparator + b);
    NoFirstChar(a + ToolSeparator + b, StopTag);
    ReplaceAbsent(a + ToolSeparator + b, StopTag, "");
  }

  /** A template without any of the five tags comes back unchanged. */
  lemma CreatePromptNoTags(task: Task, template: string)
    requires CreatePrompt(task, template).Ok?
    requires !Contains(template, TitleTag) && !Contains(template, ScopeTag) &&
      !Contains(template, FormatTag) && !Contains(template, ToolsTag) &&
      !Contains(template, StopTag)
    ensures CreatePrompt(task, template) == Ok(template)
  {
    ReplaceAbsent(template, TitleTag, TextField(task, "title", "").value);
    ReplaceAbsent(template, ScopeTag, TextField(task, "scope", "").value);
    ReplaceAbsent(template, FormatTag, TextField(task, "format", DefaultFormat).value);
    ReplaceAbsent(template, ToolsTag, ToolsText(task).value);
    ReplaceAbsent(template, StopTag, TextField(task, "stop_condition", "").value);
  }

  const TitleTagOpen: string := "<TASK_TITLE"

  /** Literal replacement can create a tag at the seam of a removed one: with no
      title, "<TASK_TITLE<TASK_TITLE>>" becomes "<TASK_TITLE>", although no field
      value contains a tag. */
  lemma CreatePromptLeavesTag()
    ensures CreatePrompt(map[], TitleTagOpen + TitleTag + ">") == Ok(TitleTag)
  {
    var t := TitleTagOpen + TitleTag + ">";
    EmptyTaskPrompt(t);
    assert Replace(t, TitleTag, "") == TitleTag by {
      SeamReplace();
    }
    TagAbsent(TitleTag, ScopeTag, "", 6);
    ReplaceAbsentShort(TitleTag, FormatTag, DefaultFormat);
    TagAbsent(TitleTag, ToolsTag, "", 7);
    ReplaceAbsentShort(TitleTag, StopTag, "");
  }

  /** The title tag is removed from the middle of "<TASK_TITLE<TASK_TITLE>>". */
  lemma SeamReplace()
    ensures Replace(TitleTagOpen + TitleTag + ">", TitleTag, "") == TitleTag
  {
    var t := TitleTagOpen + TitleTag + ">";
    var k := |TitleTagOpen|;
    forall i | 0 <= i < k ensures NoMatchAt(t, TitleTag, i) {
      if i + |TitleTag| <= |t| {
        if i == 0 {
          assert t[i..i + |TitleTag|][11] == t[11];
        } else {
          assert t[i..i + |TitleTag|][0] == t[i];
        }
      }
    }
    ReplaceSkip(t, TitleTag, "", k);
    assert t[k..] == TitleTag + ">";
    assert Replace(TitleTag + ">", TitleTag, "") == ">" by {
      assert (TitleTag + ">")[..|TitleTag|] == TitleTag;
      assert (TitleTag + ">")[|TitleTag|..] == ">";
    }
    assert t[..k] == TitleTagOpen;
    assert TitleTagOpen + ">" == TitleTag;
  }

  // ---------------------------------------------------------------------------
  // File names
  // ---------------------------------------------------------------------------

  /** The result file extension for a declared format. */
  function ExtensionFor(format: string): (e: string)
    ensures e == "json" <==> Contains(Lower(format), "json")
    ensures e == "json" || e == "md"
  {
    if Contains(Lower(format), "json") then "json" else "md"
  }

  /** `f"{task_index+1:02d}"`: the one-based task number in decimal, padded with a
      zero to two digits. */
  function Prefix(index: nat): (p: string)
    ensures AllDigits(p) && |p| >= 2 && DecimalValue(p) == index + 1
    ensures index < 99 ==> |p| == 2
    ensures |p| > 2 ==> p[0] != '0'
  {
    var s := NatToString(index + 1);
    DecimalRoundTrip(index + 1);
    LeadingZero(s);
    NatToStringLength(index + 1);
    if |s| < 2 then "0" + s else s
  }

  /** A number below ten has one digit, one below a hundred at most two, and one of
      at least ten at least two. */
  lemma {:induction false} NatToStringLength(n: nat)
    ensures n < 10 <==> |NatToString(n)| == 1
    ensures n < 100 ==> |NatToString(n)| <= 2
    decreases n
  {
    if n >= 10 { NatToStringLength(n / 10); }
  }

  /** Distinct task numbers have distinct prefixes. */
  lemma PrefixInjective(i: nat, j: nat)
    requires Prefix(i) == Prefix(j)
    ensures i == j
  {
  }

  /** `safe_filename(prefix, task["title"], extension)`. */
  function ResultName(index: nat, title: string, ext: string): string
  {
    IoHelpers.SafeFilename(Prefix(index), title, ext)
  }

  /** `safe_filename(prefix, f"{task['title']}_meta", "json")`. */
  function MetaName(index: nat, title: string): string
  {
    IoHelpers.SafeFilename(Prefix(index), title + "_meta", "json")
  }

  const DashMetaJson: string := "-meta.json"
  const UnderscoreMetaJson: string := "_meta.json"

  /** The suffix a metadata name gets after the slug. */
  lemma DashMetaJsonLiteral()
    ensures "-meta" + "." + "json" == DashMetaJson
    ensures DashMetaJson[0] != UnderscoreMetaJson[0] && |DashMetaJson| == |UnderscoreMetaJson|
  {
  }

  /** A text ends with what was appended to it. */
  lemma EndsWithAppended(x: string, y: string)
    ensures EndsWith(x + y, y)
  {
    assert (x + y)[|x + y| - |y|..] == y;
  }

  /** For a title whose slug is not empty and leaves room for "-meta" below the
      fifty-character cut, the metadata name ends in "-meta.json" and not in
      "_meta.json": slugify turns the underscore into a dash. */
  lemma MetaNameDashed(index: nat, title: string)
    requires 1 <= |IoHelpers.FullSlug(title)| && |IoHelpers.FullSlug(title)| + 5 <= IoHelpers.SlugMax
    ensures EndsWith(MetaName(index, title), DashMetaJson)
    ensures !EndsWith(MetaName(index, title), UnderscoreMetaJson)
  {
    var q := MetaNameParts(index, title);
    var n := MetaName(index, title);
    EndsWithAppended(q, DashMetaJson);
    DashMetaJsonLiteral();
    assert n[|n| - |UnderscoreMetaJson|..][0] == DashMetaJson[0];
  }

  /** Such a metadata name is the prefix, the slug, then "-meta.json". */
  lemma MetaNameParts(index: nat, title: string) returns (q: string)
    requires 1 <= |IoHelpers.FullSlug(title)| && |IoHelpers.FullSlug(title)| + 5 <= IoHelpers.SlugMax
    ensures MetaName(index, title) == q + DashMetaJson
  {
    var f := IoHelpers.FullSlug(title);
    IoHelpers.MetaSlug(title);
    var slug := IoHelpers.Slugify(title + "_meta");
    assert slug == f + "-meta" by {
      assert (f + "-meta")[..|f| + 5] == f + "-meta";
    }
    var p := Prefix(index) + "_";
    q := p + f;
    assert MetaName(index, title) == p + slug + "." + "json";
    DashMetaJsonLiteral();
    AppendAssoc(p, f, "-meta");
    AppendAssoc(p + f, "-meta", ".");
    AppendAssoc(p + f, "-meta" + ".", "json");
  }

  /** When the title's untruncated slug has fifty characters or more, the metadata
      name of the task is the result name of a JSON task: the metadata overwrites
      the result. */
  lemma MetaNameCollides(index: nat, title: string)
    requires |IoHelpers.FullSlug(title)| >= IoHelpers.SlugMax
    ensures MetaName(index, title) == ResultName(index, title, "json")
  {
    IoHelpers.MetaSlugCollides(title);
  }

  /** Distinct task indices give distinct result names, whatever the titles and
      formats: the digit prefix is recovered from the name. */
  lemma ResultNamesDistinct(i: nat, t1: string, e1: string, j: nat, t2: string, e2: string)
    requires i != j
    ensures ResultName(i, t1, e1) != ResultName(j, t2, e2)
  {
    if ResultName(i, t1, e1) == ResultName(j, t2, e2) {
      IoHelpers.FilenamePrefixDetermined(Prefix(i), t1, e1, Prefix(j), t2, e2);
      PrefixInjective(i, j);
    }
  }

  // ---------------------------------------------------------------------------
  // The code fence around JSON results
  // ---------------------------------------------------------------------------

  const Fence: string := "```"
  const JsonTag: string := "json"

  /** The content is wrapped in a fence: once stripped it starts and ends with one. */
  predicate Fenced(content: string)
  {
    StartsWith(Strip(content), Fence) && EndsWith(Strip(content), Fence)
  }

  /** A text starting with a fence splits into an empty first part and at least one
      more. */
  lemma SplitAfterFence(s: string)
    requires StartsWith(s, Fence)
    ensures |Split(s, Fence)| >= 2 && Split(s, Fence) == [""] + Split(s[|Fence|..], Fence)
  {
    assert s[..|Fence|] == Fence;
  }

  /** The text between the first fence and the next one (or the end). */
  function FenceInner(content: string): (inner: string)
    requires Fenced(content)
  {
    SplitAfterFence(Strip(content));
    Split(Strip(content), Fence)[1]
  }

  /** What a JSON task persists: for fenced content the text between the first two
      fences, without a leading "json" tag and then stripped when the tag was there;
      any other content verbatim. */
  function StripFence(content: string): (r: string)
    ensures !Fenced(content) ==> r == content
  {
    if Fenced(content) then
      var inner := FenceInner(content);
      if StartsWith(inner, JsonTag) then Strip(inner[|JsonTag|..]) else inner
    else content
  }

  /** The inner text follows the opening fence, holds no fence itself, and is
      followed by a fence unless it runs to the end of the stripped content. */
  lemma FenceInnerPlace(content: string)
    requires Fenced(content)
    ensures var s := Strip(content); var inner := FenceInner(content);
      StartsWith(s, Fence + inner) && !Contains(inner, Fence) &&
      (|s| == |Fence| + |inner| || StartsWith(s[|Fence| + |inner|..], Fence))
  {
    SecondPartPlace(Strip(content));
  }

  /** In a text opening with a fence, the second part of the split follows that
      fence, holds no fence, and is followed by a fence or the end. */
  lemma SecondPartPlace(s: string)
    requires StartsWith(s, Fence)
    ensures |Split(s, Fence)| >= 2
    ensures var inner := Split(s, Fence)[1];
      StartsWith(s, Fence + inner) && !Contains(inner, Fence) &&
      (|s| == |Fence| + |inner| || StartsWith(s[|Fence| + |inner|..], Fence))
  {
    SplitAfterFence(s);
    var rest := s[|Fence|..];
    var parts := Split(rest, Fence);
    SplitHead(rest, Fence);
    SplitPartsFree(rest, Fence);
    var inner := parts[0];
    assert Split(s, Fence)[1] == inner;
    assert s == Fence + rest;
    assert rest[..|inner|] == inner;
    assert s[..|Fence| + |inner|] == Fence + inner;
    if |parts| > 1 {
      assert rest[|inner|..] == Fence + Join(parts[1..], Fence);
      assert s[|Fence| + |inner|..] == rest[|inner|..];
    }
  }

  // ---------------------------------------------------------------------------
  // execute_task
  // ---------------------------------------------------------------------------

  /** Everything outside the process. `chat(i)` is the chat attempt oracle for the
      task with index `i`; `writeFails(p)` says that writing the file `p` raises. */
  datatype World = World(
    environ: map<string, string>,
    chat: int -> nat -> Result<OpenAiClient.Response>,
    writeFails: string -> bool)

  /** The arguments shared by every task of a run. */
  datatype Config = Config(template: string, model: string, outputDir: string, dryRun: bool, world: World)

  /** The records `execute_task` and `run_subagents` return: a success carries the two
      paths and no error, a failure the error and no paths. */
  datatype Record =
    | Success(taskIndex: int, title: Value, resultPath: string, metaPath: string)
    | Failure(taskIndex: int, title: Value, error: Exception)

  /** The metadata file of a task. The timestamp, elapsed time and prompt hash are
      not modelled. */
  datatype Meta = Meta(task: Task, model: string, tokenUsage: OpenAiClient.Usage,
                       prompt: Result<seq<OpenAiClient.Message>>, resultFile: string)

  datatype FileWrite = TextFile(path: string, text: string) | JsonFile(path: string, meta: Meta)

  /** What one call of `execute_task` returns or raises, and the files it writes in
      order. */
  datatype Effects = Effects(outcome: Result<Option<Record>>, writes: seq<FileWrite>)

  /** The two messages sent to the model. */
  function Messages(prompt: string, title: string): seq<OpenAiClient.Message>
  {
    [map["role" := "system", "content" := prompt],
     map["role" := "user", "content" := "Research task: " + title + ". Follow the instructions above."]]
  }

  /** `execute_task(task, task_index, ...)`. The prompt, the format and the title are
      read before the `try`, so their exceptions escape; everything after is caught
      and becomes a failure record. */
  function ExecuteTask(task: Task, index: nat, cfg: Config): Effects
  {
    match CreatePrompt(task, cfg.template)
    case Raised(e) => Effects(Raised(e), [])
    case Ok(prompt) =>
      // A built prompt means the format and the title are strings or absent.
      match TextField(task, "format", DefaultFormat)
      case Raised(_) => assert false; Effects(Raised(TypeError), [])
      case Ok(format) =>
        if "title" !in task then Effects(Raised(KeyError("title")), [])
        else match task["title"]
          case Str(title) => Attempt(task, index, title, prompt, ExtensionFor(format), cfg)
          case _ => assert false; Effects(Raised(TypeError), [])
  }

  /** The result path of a task. */
  function ResultPath(index: nat, title: string, ext: string, cfg: Config): string
  {
    Paths.Join(cfg.outputDir, ResultName(index, title, ext))
  }

  /** The metadata path of a task. */
  function MetaPath(index: nat, title: string, cfg: Config): string
  {
    Paths.Join(cfg.outputDir, MetaName(index, title))
  }

  /** `execute_task` from the dry-run check on, for a task whose prompt was built:
      the client, then the chat call; their exceptions become failure records. */
  function Attempt(task: Task, index: nat, title: string, prompt: string, ext: string,
                   cfg: Config): Effects
  {
    if cfg.dryRun then Effects(Ok(None), [])
    else
      match OpenAiClient.NewClient(None, cfg.world.environ)
      case Raised(e) => Effects(Ok(Some(Failure(index, Str(title), e))), [])
      case Ok(_) =>
        match OpenAiClient.Retry(cfg.world.chat(index), 1)
        case Raised(e) => Effects(Ok(Some(Failure(index, Str(title), e))), [])
        case Ok(response) =>
          Persist(index, title, ResultPath(index, title, ext, cfg), MetaPath(index, title, cfg),
                  Persisted(response.content, ext), MetaOf(task, title, prompt, ext, index, response, cfg),
                  cfg.world)
  }

  /** What a JSON task persists of the content, and a markdown task. */
  function Persisted(content: string, ext: string): string
  {
    if ext == "json" then StripFence(content) else content
  }

  /** The metadata of a task the model answered. */
  function MetaOf(task: Task, title: string, prompt: string, ext: string, index: nat,
                  response: OpenAiClient.Response, cfg: Config): Meta
  {
    Meta(task, cfg.model, response.usage, OpenAiClient.SanitizeAll(Messages(prompt, title)),
         ResultName(index, title, ext))
  }

  /** `execute_task` once the model has answered: the result file is written, then
      the metadata file; a failing write becomes a failure record. */
  function Persist(index: nat, title: string, resultPath: string, metaPath: string,
                   text: string, meta: Meta, world: World): Effects
  {
    if world.writeFails(resultPath) then
      Effects(Ok(Some(Failure(index, Str(title), IOError(resultPath)))), [])
    else
      var written := [TextFile(resultPath, text)];
      if world.writeFails(metaPath) then
        Effects(Ok(Some(Failure(index, Str(title), IOError(metaPath)))), written)
      else
        Effects(Ok(Some(Success(index, Str(title), resultPath, metaPath))),
                written + [JsonFile(metaPath, meta)])
  }

  /** The writes of one task: none, the result alone, or the result and then the
      metadata. */
  predicate WritesInOrder(w: seq<FileWrite>)
  {
    w == [] || (|w| == 1 && w[0].TextFile?) || (|w| == 2 && w[0].TextFile? && w[1].JsonFile?)
  }

  /** A record returned for task `index` with title `title`: a success wrote the
      result and then the metadata, to the record's paths; a failure never wrote the
      metadata. */
  predicate RecordFor(eff: Effects, index: nat, title: string, resultPath: string, metaPath: string)
  {
    eff.outcome.Ok? && eff.outcome.value.Some? && WritesInOrder(eff.writes) &&
    var rec := eff.outcome.value.value;
    rec.taskIndex == index && rec.title == Str(title) &&
    (rec.Success? ==>
      |eff.writes| == 2 && rec.resultPath == resultPath && rec.metaPath == metaPath &&
      eff.writes[0].path == resultPath && eff.writes[1].path == metaPath) &&
    (rec.Failure? ==> |eff.writes| <= 1)
  }

  /** Once the model has answered, the task yields its record. */
  lemma PersistShape(index: nat, title: string, resultPath: string, metaPath: string,
                     text: string, meta: Meta, world: World)
    ensures RecordFor(Persist(index, title, resultPath, metaPath, text, meta, world), index, title,
                      resultPath, metaPath)
  {
  }

  /** Past the title check, a dry run returns None and writes nothing; a real run
      yields the task's record. */
  lemma AttemptShape(task: Task, index: nat, title: string, prompt: string, ext: string, cfg: Config)
    ensures var eff := Attempt(task, index, title, prompt, ext, cfg);
      if cfg.dryRun then eff == Effects(Ok(None), [])
      else RecordFor(eff, index, title, ResultPath(index, title, ext, cfg), MetaPath(index, title, cfg))
  {
    if !cfg.dryRun {
      var client := OpenAiClient.NewClient(None, cfg.world.environ);
      if client.Ok? {
        var chat := OpenAiClient.Retry(cfg.world.chat(index), 1);
        if chat.Ok? {
          PersistShape(index, title, ResultPath(index, title, ext, cfg), MetaPath(index, title, cfg),
                       Persisted(chat.value.content, ext),
                       MetaOf(task, title, prompt, ext, index, chat.value, cfg), cfg.world);
        }
      }
    }
  }

  /** The format read for the extension, once the prompt was built. */
  function Format(task: Task): string
  {
    if "format" in task && task["format"].Str? then task["format"].s else DefaultFormat
  }

  /** `execute_task` raises exactly when the prompt cannot be built or the title is
      missing, and then has written nothing; otherwise the title is a string and the
      rest is `Attempt`. */
  lemma ExecuteTaskRaises(task: Task, index: nat, cfg: Config)
    ensures var eff := ExecuteTask(task, index, cfg);
      (eff.outcome.Raised? <==> CreatePrompt(task, cfg.template).Raised? || "title" !in task) &&
      (eff.outcome.Raised? ==> eff.writes == [])
    ensures CreatePrompt(task, cfg.template).Ok? && "title" in task ==>
      task["title"].Str? &&
      ExecuteTask(task, index, cfg) ==
        Attempt(task, index, task["title"].s, CreatePrompt(task, cfg.template).value,
                ExtensionFor(Format(task)), cfg)
  {
    CreatePromptFails(task, cfg.template);
  }

  /** The shape of what `execute_task` does: it raises exactly when the prompt cannot
      be built or the title is missing, writing nothing; in a dry run it otherwise
      returns None and writes nothing; in a real run it returns the record of its own
      task index and title, and a success wrote the result and then the metadata to
      the paths derived from the index, title and format. */
  lemma ExecuteTaskShape(task: Task, index: nat, cfg: Config)
    ensures var eff := ExecuteTask(task, index, cfg);
      (eff.outcome.Raised? <==> CreatePrompt(task, cfg.template).Raised? || "title" !in task) &&
      (eff.outcome.Raised? ==> eff.writes == [])
    ensures var eff := ExecuteTask(task, index, cfg);
      eff.outcome.Ok? ==>
        task["title"].Str? &&
        if cfg.dryRun then eff == Effects(Ok(None), [])
        else RecordFor(eff, index, task["title"].s,
                       ResultPath(index, task["title"].s, ExtensionFor(Format(task)), cfg),
                       MetaPath(index, task["title"].s, cfg))
  {
    ExecuteTaskRaises(task, index, cfg);
    if CreatePrompt(task, cfg.template).Ok? && "title" in task {
      AttemptShape(task, index, task["title"].s, CreatePrompt(task, cfg.template).value,
                   ExtensionFor(Format(task)), cfg);
    }
  }

  /** When the client is built and the model answers, the task goes on to persist
      the answer. */
  lemma AttemptAnswered(task: Task, index: nat, title: string, prompt: string, ext: string,
                        cfg: Config)
    requires !cfg.dryRun && OpenAiClient.NewClient(None, cfg.world.environ).Ok?
    requires OpenAiClient.Retry(cfg.world.chat(index), 1).Ok?
    ensures var response := OpenAiClient.Retry(cfg.world.chat(index), 1).value;
      Attempt(task, index, title, prompt, ext, cfg) ==
        Persist(index, title, ResultPath(index, title, ext, cfg), MetaPath(index, title, cfg),
                Persisted(response.content, ext), MetaOf(task, title, prompt, ext, index, response, cfg),
                cfg.world)
  {
  }

  /** A result write that succeeds writes the persisted text first; the metadata,
      when written, is the one built from the answer. */
  lemma PersistWrites(index: nat, title: string, resultPath: string, metaPath: string,
                      text: string, meta: Meta, world: World)
    requires !world.writeFails(resultPath)
    ensures var w := Persist(index, title, resultPath, metaPath, text, meta, world).writes;
      |w| >= 1 && w[0] == TextFile(resultPath, text) && (|w| == 2 ==> w[1] == JsonFile(metaPath, meta))
  {
  }

  /** The metadata logs the two prompt messages unchanged, since neither is an
      assistant message. */
  lemma MetaLogsPrompt(task: Task, title: string, prompt: string, ext: string, index: nat,
                       response: OpenAiClient.Response, cfg: Config)
    ensures MetaOf(task, title, prompt, ext, index, response, cfg).prompt == Ok(Messages(prompt, title))
  {
    OpenAiClient.SanitizeKeepsNonAssistant(Messages(prompt, title));
  }

  /** A markdown task persists the model's content verbatim; a JSON task persists it
      verbatim unless it is fenced. */
  lemma PersistedVerbatim(content: string, ext: string)
    requires ext != "json" || !Fenced(content)
    ensures Persisted(content, ext) == content
  {
  }

  // ---------------------------------------------------------------------------
  // run_subagents
  // ---------------------------------------------------------------------------

  /** A task submitted to the pool, with the index its records carry. */
  datatype Job = Job(index: nat, task: Task)

  /** `plan.get("plan", [])`. */
  function TasksOf(plan: Option<seq<Task>>): seq<Task>
  {
    if plan.None? then [] else plan.value
  }

  /** The selected task index is out of range. */
  predicate BadIndex(tasks: seq<Task>, taskIndex: Option<int>)
  {
    taskIndex.Some? && (taskIndex.value < 0 || taskIndex.value >= |tasks|)
  }

  /** The jobs submitted: every task under its position, or only the selected task
      under the selected index. */
  function Jobs(tasks: seq<Task>, taskIndex: Option<int>): (jobs: seq<Job>)
    requires !BadIndex(tasks, taskIndex)
    ensures |jobs| == if taskIndex.Some? then 1 else |tasks|
    ensures forall a, b :: 0 <= a < b < |jobs| ==> jobs[a].index < jobs[b].index
    ensures taskIndex.None? ==> forall i :: 0 <= i < |tasks| ==> jobs[i] == Job(i, tasks[i])
    ensures taskIndex.Some? ==> jobs == [Job(taskIndex.value, tasks[taskIndex.value])]
  {
    if taskIndex.Some? then [Job(taskIndex.value, tasks[taskIndex.value])]
    else seq(|tasks|, i requires 0 <= i < |tasks| => Job(i, tasks[i]))
  }

  /** `min(max_workers, len(tasks))`. */
  function Workers(maxWorkers: int, count: nat): int
  {
    if maxWorkers < count then maxWorkers else count
  }

  /** What the completion loop makes of one finished job: the record it returned,
      nothing for a dry run, or a failure record built from `task["title"]` when it
      raised, which raises KeyError in turn when the task has no title. */
  function Completed(job: Job, cfg: Config): Result<Option<Record>>
  {
    match ExecuteTask(job.task, job.index, cfg).outcome
    case Ok(r) => Ok(r)
    case Raised(e) =>
      if "title" in job.task then Ok(Some(Failure(job.index, job.task["title"], e)))
      else Raised(KeyError("title"))
  }

  /** The completion-loop outcome of every job, by submission position. */
  function Outcomes(jobs: seq<Job>, cfg: Config): (outs: seq<Outcome>)
    ensures |outs| == |jobs|
  {
    seq(|jobs|, i requires 0 <= i < |jobs| => Completed(jobs[i], cfg))
  }

  type Outcome = Result<Option<Record>>

  /** The positions `ps` index `outs`. */
  predicate Positions(outs: seq<Outcome>, ps: seq<nat>)
  {
    forall i :: 0 <= i < |ps| ==> ps[i] < |outs|
  }

  /** The results list after the jobs at positions `ps` complete in that order, or
      the exception that ends the loop. */
  function CollectIn(outs: seq<Outcome>, ps: seq<nat>): Result<seq<Record>>
    requires Positions(outs, ps)
  {
    if ps == [] then Ok([])
    else
      match CollectIn(outs, ps[..|ps| - 1])
      case Raised(e) => Raised(e)
      case Ok(done) =>
        match outs[ps[|ps| - 1]]
        case Raised(e) => Raised(e)
        case Ok(None) => Ok(done)
        case Ok(Some(r)) => Ok(done + [r])
  }

  /** The positions 0 to n - 1 in order: the sequential map. */
  function Range(n: nat): (r: seq<nat>)
    ensures |r| == n && forall i :: 0 <= i < n ==> r[i] == i
  {
    seq(n, i requires 0 <= i < n => i)
  }

  /** An order in which n jobs can complete: each position exactly once. */
  predicate IsPermutation(order: seq<nat>, n: nat)
  {
    |order| == n &&
    (forall i :: 0 <= i < n ==> order[i] < n) &&
    (forall i, j :: 0 <= i < j < n ==> order[i] != order[j]) &&
    (forall p :: 0 <= p < n ==> p in order)
  }

  datatype Summary = Summary(model: string, tasksTotal: nat, tasksSuccessful: nat, results: seq<Record>)

  /** What `run_subagents` returns or raises, and the summary it writes, if any. */
  datatype Run = Run(result: Result<seq<Record>>, summary: Option<Summary>)

  const SummaryFile: string := "summary.json"
  const NoWorkersMessage: string := "max_workers must be greater than 0"

  /** `sum(1 for r in results if r.get("success", False))`. */
  function CountSuccess(rs: seq<Record>): (n: nat)
    ensures n <= |rs|
  {
    if rs == [] then 0
    else CountSuccess(rs[..|rs| - 1]) + (if rs[|rs| - 1].Success? then 1 else 0)
  }

  /** The run after collection: in a dry run the results alone, otherwise the
      summary written next to the records, or the failed write. */
  function Finish(results: seq<Record>, total: nat, cfg: Config): Run
  {
    if cfg.dryRun then Run(Ok(results), None)
    else
      var path := Paths.Join(cfg.outputDir, SummaryFile);
      if cfg.world.writeFails(path) then Run(Raised(IOError(path)), None)
      else Run(Ok(results), Some(Summary(cfg.model, total, CountSuccess(results), results)))
  }

  /** `run_subagents(...)` with the jobs run one after the other in submission order:
      the reference the concurrent run is proved equal to. */
  function RunSpec(plan: Option<seq<Task>>, taskIndex: Option<int>, maxWorkers: int, cfg: Config): Run
  {
    var tasks := TasksOf(plan);
    if tasks == [] || BadIndex(tasks, taskIndex) then Run(Ok([]), None)
    else
      var jobs := Jobs(tasks, taskIndex);
      if Workers(maxWorkers, |jobs|) <= 0 then Run(Raised(ValueError(NoWorkersMessage)), None)
      else
        Completion(jobs, cfg)
  }

  /** The run once the jobs are submitted: the first exception in submission order,
      or the finished run over the collected records. */
  function Completion(jobs: seq<Job>, cfg: Config): Run
  {
    match CollectIn(Outcomes(jobs, cfg), Range(|jobs|))
    case Raised(e) => Run(Raised(e), None)
    case Ok(results) => Finish(results, |jobs|, cfg)
  }

  /** The number of jobs a run submits when it gets that far. */
  function JobCount(plan: Option<seq<Task>>, taskIndex: Option<int>): nat
  {
    if taskIndex.Some? then 1 else |TasksOf(plan)|
  }

  /** `run_subagents(...)`. The pool finishes the jobs in the arbitrary order `order`;
      the loop appends each record as its job completes, then the list is sorted by
      task index. Whatever the order, the outcome is the sequential one. */
  method RunSubagents(plan: Option<seq<Task>>, taskIndex: Option<int>, maxWorkers: int,
                      cfg: Config, order: seq<nat>) returns (run: Run)
    requires IsPermutation(order, JobCount(plan, taskIndex))
    ensures run == RunSpec(plan, taskIndex, maxWorkers, cfg)
  {
    var tasks := TasksOf(plan);
    if tasks == [] || BadIndex(tasks, taskIndex) {
      return Run(Ok([]), None);
    }
    var jobs := Jobs(tasks, taskIndex);
    if Workers(maxWorkers, |jobs|) <= 0 {
      return Run(Raised(ValueError(NoWorkersMessage)), None);
    }
    run := CompleteJobs(jobs, cfg, order);
  }

  /** The `as_completed` loop over the submitted jobs, finishing in the order
      `order`, then the sort and the summary. */
  method CompleteJobs(jobs: seq<Job>, cfg: Config, order: seq<nat>) returns (run: Run)
    requires IsPermutation(order, |jobs|)
    requires forall a, b :: 0 <= a < b < |jobs| ==> jobs[a].index < jobs[b].index
    ensures run == Completion(jobs, cfg)
  {
    var outs := Outcomes(jobs, cfg);
    var results: seq<Record> := [];
    for k := 0 to |order|
      invariant Positions(outs, order[..k])
      invariant CollectIn(outs, order[..k]) == Ok(results)
    {
      CollectStep(outs, order, k, results);
      match outs[order[k]] {
        case Raised(e) =>
          CompletionRaises(jobs, cfg, order, k);
          return Run(Raised(e), None);
        case Ok(None) =>
        case Ok(Some(r)) =>
          results := results + [r];
      }
    }
    assert order[..|order|] == order;
    var sorted := SortByIndex(results);
    CompletionFinishes(jobs, cfg, order, sorted);
    run := Finish(sorted, |jobs|, cfg);
  }

  /** One completion more: the collection over `order[..k + 1]` extends the one over
      `order[..k]` by the outcome of job `order[k]`. */
  lemma CollectStep(outs: seq<Outcome>, order: seq<nat>, k: nat, results: seq<Record>)
    requires k < |order| && order[k] < |outs|
    requires Positions(outs, order[..k]) && CollectIn(outs, order[..k]) == Ok(results)
    ensures Positions(outs, order[..k + 1])
    ensures CollectIn(outs, order[..k + 1]) ==
      match outs[order[k]]
      case Raised(e) => Raised(e)
      case Ok(None) => Ok(results)
      case Ok(Some(r)) => Ok(results + [r])
  {
    assert order[..k + 1][..k] == order[..k];
  }

  /** A job that raised on completion decides the run: its exception is the one
      the sequential run raises too. */
  lemma CompletionRaises(jobs: seq<Job>, cfg: Config, order: seq<nat>, k: nat)
    requires IsPermutation(order, |jobs|) && k < |order|
    requires forall a, b :: 0 <= a < b < |jobs| ==> jobs[a].index < jobs[b].index
    requires Outcomes(jobs, cfg)[order[k]].Raised?
    ensures Completion(jobs, cfg) == Run(Raised(Outcomes(jobs, cfg)[order[k]].error), None)
  {
    OutcomesKeyed(jobs, cfg);
    OrderIndependentRaise(Outcomes(jobs, cfg), order, k);
  }

  /** When the loop gets through every job, the records it collected, sorted by
      index, are the sequential run's. */
  lemma CompletionFinishes(jobs: seq<Job>, cfg: Config, order: seq<nat>, sorted: seq<Record>)
    requires IsPermutation(order, |jobs|)
    requires forall a, b :: 0 <= a < b < |jobs| ==> jobs[a].index < jobs[b].index
    requires CollectIn(Outcomes(jobs, cfg), order).Ok?
    requires multiset(sorted) == multiset(CollectIn(Outcomes(jobs, cfg), order).value)
    requires DistinctIndices(CollectIn(Outcomes(jobs, cfg), order).value) ==> StrictlyByIndex(sorted)
    ensures Completion(jobs, cfg) == Finish(sorted, |jobs|, cfg)
  {
    OutcomesKeyed(jobs, cfg);
    OrderIndependentResults(Outcomes(jobs, cfg), order, sorted);
  }

  // ---------------------------------------------------------------------------
  // results.sort(key=lambda x: x["task_index"])
  // ---------------------------------------------------------------------------

  predicate SortedByIndex(rs: seq<Record>)
  {
    forall a, b :: 0 <= a < b < |rs| ==> rs[a].taskIndex <= rs[b].taskIndex
  }

  predicate StrictlyByIndex(rs: seq<Record>)
  {
    forall a, b :: 0 <= a < b < |rs| ==> rs[a].taskIndex < rs[b].taskIndex
  }

  predicate DistinctIndices(rs: seq<Record>)
  {
    forall a, b :: 0 <= a < b < |rs| ==> rs[a].taskIndex != rs[b].taskIndex
  }

  /** Every record's index is at least `lo`, or above it when `strict`. */
  predicate Above(rs: seq<Record>, lo: int, strict: bool)
  {
    forall a :: 0 <= a < |rs| ==> lo < rs[a].taskIndex || (!strict && lo == rs[a].taskIndex)
  }

  /** `r` placed after every record whose index is not greater: the step of a
      stable insertion sort. */
  function InsertByIndex(s: seq<Record>, r: Record): (t: seq<Record>)
    ensures multiset(t) == multiset(s) + multiset{r}
  {
    if s == [] then [r]
    else if r.taskIndex < s[0].taskIndex then [r] + s
    else
      assert s == [s[0]] + s[1..];
      [s[0]] + InsertByIndex(s[1..], r)
  }

  /** Insertion keeps a lower bound that the new record meets. */
  lemma {:induction false} InsertAbove(s: seq<Record>, r: Record, lo: int, strict: bool)
    requires Above(s, lo, strict) && Above([r], lo, strict)
    ensures Above(InsertByIndex(s, r), lo, strict)
    decreases |s|
  {
    if s != [] && r.taskIndex >= s[0].taskIndex {
      InsertAbove(s[1..], r, lo, strict);
    }
  }

  /** Insertion keeps a list sorted. */
  lemma {:induction false} InsertSorted(s: seq<Record>, r: Record)
    requires SortedByIndex(s)
    ensures SortedByIndex(InsertByIndex(s, r))
    decreases |s|
  {
    if s != [] && r.taskIndex >= s[0].taskIndex {
      InsertSorted(s[1..], r);
      InsertAbove(s[1..], r, s[0].taskIndex, false);
    }
  }

  /** Insertion keeps a list strictly sorted when the new index is not there yet. */
  lemma {:induction false} InsertStrict(s: seq<Record>, r: Record)
    requires StrictlyByIndex(s)
    requires forall a :: 0 <= a < |s| ==> s[a].taskIndex != r.taskIndex
    ensures StrictlyByIndex(InsertByIndex(s, r))
    decreases |s|
  {
    if s != [] && r.taskIndex >= s[0].taskIndex {
      InsertStrict(s[1..], r);
      InsertAbove(s[1..], r, s[0].taskIndex, true);
    }
  }

  /** `results.sort(key=...)`: an insertion sort by task index. It returns a
      permutation of its input, sorted by task index, strictly so when the indices
      are distinct. */
  method SortByIndex(rs: seq<Record>) returns (sorted: seq<Record>)
    ensures multiset(sorted) == multiset(rs)
    ensures SortedByIndex(sorted)
    ensures DistinctIndices(rs) ==> StrictlyByIndex(sorted)
  {
    sorted := [];
    for i := 0 to |rs|
      invariant multiset(sorted) == multiset(rs[..i])
      invariant SortedByIndex(sorted)
      invariant DistinctIndices(rs) ==> StrictlyByIndex(sorted)
    {
      assert rs[..i + 1] == rs[..i] + [rs[i]];
      InsertSorted(sorted, rs[i]);
      if DistinctIndices(rs) {
        forall a | 0 <= a < |sorted| ensures sorted[a].taskIndex != rs[i].taskIndex {
          assert sorted[a] in multiset(rs[..i]);
        }
        InsertStrict(sorted, rs[i]);
      }
      sorted := InsertByIndex(sorted, rs[i]);
    }
    assert rs[..|rs|] == rs;
  }

  /** Two lists strictly sorted by index with the same members are equal. */
  lemma {:induction false} StrictlySortedUnique(a: seq<Record>, b: seq<Record>)
    requires StrictlyByIndex(a) && StrictlyByIndex(b)
    requires forall x :: x in a <==> x in b
    ensures a == b
    decreases |a|
  {
    assert a == [] <==> b == [] by {
      if a != [] { assert a[0] in b; }
      if b != [] { assert b[0] in a; }
    }
    if a != [] {
      assert a[0] in a && b[0] in b;
      assert a[0] == b[0] by {
        var i :| 0 <= i < |b| && b[i] == a[0];
        var j :| 0 <= j < |a| && a[j] == b[0];
        assert i == 0 || j == 0;
      }
      forall x ensures x in a[1..] <==> x in b[1..] {
        TailMember(a, x);
        TailMember(b, x);
      }
      StrictlySortedUnique(a[1..], b[1..]);
      assert a == [a[0]] + a[1..] && b == [b[0]] + b[1..];
    }
  }

  /** In a strictly sorted list, the members after the head are the others. */
  lemma TailMember(a: seq<Record>, x: Record)
    requires StrictlyByIndex(a) && a != []
    ensures x in a[1..] <==> x in a && x != a[0]
  {
    if x in a && x != a[0] {
      var i :| 0 <= i < |a| && a[i] == x;
      assert a[1..][i - 1] == x;
    }
    if x in a[1..] {
      var i :| 0 <= i < |a[1..]| && a[1..][i] == x;
      assert a[i + 1] == x;
    }
  }

  // ---------------------------------------------------------------------------
  // Order independence
  // ---------------------------------------------------------------------------

  /** The loop raises only KeyError('title'), and records are produced in
      increasing task-index order of submission. */
  predicate Keyed(outs: seq<Outcome>)
  {
    (forall i :: 0 <= i < |outs| && outs[i].Raised? ==> outs[i] == Raised(KeyError("title"))) &&
    (forall i, j :: 0 <= i < j < |outs| && Produces(outs[i]) && Produces(outs[j]) ==>
      outs[i].value.value.taskIndex < outs[j].value.value.taskIndex)
  }

  predicate Produces(o: Outcome)
  {
    o.Ok? && o.value.Some?
  }

  /** A completed job's record carries the job's index, and the loop raises
      KeyError('title') exactly for a task without a title. */
  lemma CompletedShape(job: Job, cfg: Config)
    ensures Completed(job, cfg).Raised? <==> "title" !in job.task
    ensures Completed(job, cfg).Raised? ==> Completed(job, cfg) == Raised(KeyError("title"))
    ensures Produces(Completed(job, cfg)) ==> Completed(job, cfg).value.value.taskIndex == job.index
    ensures cfg.dryRun && Produces(Completed(job, cfg)) ==> Completed(job, cfg).value.value.Failure?
    ensures !cfg.dryRun && Completed(job, cfg).Ok? ==> Produces(Completed(job, cfg))
  {
    ExecuteTaskShape(job.task, job.index, cfg);
  }

  /** The outcomes of the submitted jobs are keyed. */
  lemma OutcomesKeyed(jobs: seq<Job>, cfg: Config)
    requires forall a, b :: 0 <= a < b < |jobs| ==> jobs[a].index < jobs[b].index
    ensures Keyed(Outcomes(jobs, cfg))
  {
    var outs := Outcomes(jobs, cfg);
    forall i | 0 <= i < |outs|
      ensures outs[i].Raised? ==> outs[i] == Raised(KeyError("title"))
      ensures Produces(outs[i]) ==> outs[i].value.value.taskIndex == jobs[i].index
    {
      CompletedShape(jobs[i], cfg);
    }
  }

  /** The collection raises exactly when a job it reaches raised, and then with
      KeyError('title'). */
  lemma {:induction false} CollectRaises(outs: seq<Outcome>, ps: seq<nat>)
    requires Positions(outs, ps) && Keyed(outs)
    ensures CollectIn(outs, ps).Raised? <==> exists i :: 0 <= i < |ps| && outs[ps[i]].Raised?
    ensures CollectIn(outs, ps).Raised? ==> CollectIn(outs, ps) == Raised(KeyError("title"))
  {
    if ps != [] {
      var init := ps[..|ps| - 1];
      CollectRaises(outs, init);
      assert forall i :: 0 <= i < |init| ==> init[i] == ps[i];
    }
  }

  /** The members of the collected list are the records of the jobs reached. */
  lemma {:induction false} CollectMembers(outs: seq<Outcome>, ps: seq<nat>)
    requires Positions(outs, ps) && CollectIn(outs, ps).Ok?
    ensures forall r :: r in CollectIn(outs, ps).value <==>
      exists i :: 0 <= i < |ps| && outs[ps[i]] == Ok(Some(r))
  {
    if ps != [] {
      var init := ps[..|ps| - 1];
      CollectMembers(outs, init);
      assert forall i :: 0 <= i < |init| ==> init[i] == ps[i];
    }
  }

  /** A position's record has a larger index than every record collected before it
      from other positions, or just a different one. */
  lemma CollectBefore(outs: seq<Outcome>, ps: seq<nat>, p: nat, a: nat)
    requires Positions(outs, ps) && CollectIn(outs, ps).Ok? && Keyed(outs)
    requires p < |outs| && Produces(outs[p]) && p !in ps
    requires a < |CollectIn(outs, ps).value|
    ensures CollectIn(outs, ps).value[a].taskIndex != outs[p].value.value.taskIndex
    ensures (forall i :: 0 <= i < |ps| ==> ps[i] < p) ==>
      CollectIn(outs, ps).value[a].taskIndex < outs[p].value.value.taskIndex
  {
    var x := CollectIn(outs, ps).value[a];
    CollectMembers(outs, ps);
    var i :| 0 <= i < |ps| && outs[ps[i]] == Ok(Some(x));
    assert ps[i] != p;
  }

  /** Collecting distinct positions gives distinct indices; collecting increasing
      positions gives increasing indices. */
  lemma {:induction false} CollectDistinct(outs: seq<Outcome>, ps: seq<nat>)
    requires Positions(outs, ps) && CollectIn(outs, ps).Ok? && Keyed(outs)
    requires forall i, j :: 0 <= i < j < |ps| ==> ps[i] != ps[j]
    ensures DistinctIndices(CollectIn(outs, ps).value)
    ensures (forall i, j :: 0 <= i < j < |ps| ==> ps[i] < ps[j]) ==>
      StrictlyByIndex(CollectIn(outs, ps).value)
  {
    if ps != [] {
      var init := ps[..|ps| - 1];
      var last := ps[|ps| - 1];
      assert forall i :: 0 <= i < |init| ==> init[i] == ps[i];
      CollectDistinct(outs, init);
      if Produces(outs[last]) {
        var done := CollectIn(outs, init).value;
        var all := done + [outs[last].value.value];
        assert last !in init;
        forall a | 0 <= a < |done|
          ensures done[a].taskIndex != all[|done|].taskIndex
          ensures (forall i, j :: 0 <= i < j < |ps| ==> ps[i] < ps[j]) ==> done[a].taskIndex < all[|done|].taskIndex
        {
          CollectBefore(outs, init, last, a);
        }
      }
    }
  }

  /** A job that raises in the completion loop makes the sequential run raise the
      same exception. */
  lemma OrderIndependentRaise(outs: seq<Outcome>, order: seq<nat>, k: nat)
    requires IsPermutation(order, |outs|) && Keyed(outs) && k < |order|
    requires outs[order[k]].Raised?
    ensures CollectIn(outs, Range(|outs|)) == Raised(outs[order[k]].error)
  {
    var r := Range(|outs|);
    assert r[order[k]] == order[k];
    CollectRaises(outs, r);
  }

  /** Over any completion order the collection raises exactly when the sequential
      one does. */
  lemma SameRaise(outs: seq<Outcome>, order: seq<nat>)
    requires IsPermutation(order, |outs|) && Keyed(outs)
    ensures CollectIn(outs, order).Raised? <==> CollectIn(outs, Range(|outs|)).Raised?
  {
    var r := Range(|outs|);
    CollectRaises(outs, order);
    CollectRaises(outs, r);
    if CollectIn(outs, r).Raised? {
      var i :| 0 <= i < |r| && outs[r[i]].Raised?;
      assert i in order;
      var k :| 0 <= k < |order| && order[k] == i;
      assert outs[order[k]].Raised?;
    }
    if CollectIn(outs, order).Raised? {
      var k :| 0 <= k < |order| && outs[order[k]].Raised?;
      assert outs[r[order[k]]].Raised?;
    }
  }

  /** Over any completion order that does not raise, the collection gathers the
      records of the sequential one. */
  lemma SameMembers(outs: seq<Outcome>, order: seq<nat>)
    requires IsPermutation(order, |outs|)
    requires CollectIn(outs, order).Ok? && CollectIn(outs, Range(|outs|)).Ok?
    ensures forall x :: x in CollectIn(outs, order).value <==> x in CollectIn(outs, Range(|outs|)).value
  {
    var r := Range(|outs|);
    CollectMembers(outs, order);
    CollectMembers(outs, r);
    forall x ensures x in CollectIn(outs, order).value ==> x in CollectIn(outs, r).value {
      if x in CollectIn(outs, order).value {
        var i :| 0 <= i < |order| && outs[order[i]] == Ok(Some(x));
        assert r[order[i]] == order[i];
      }
    }
    forall x ensures x in CollectIn(outs, r).value ==> x in CollectIn(outs, order).value {
      if x in CollectIn(outs, r).value {
        var i :| 0 <= i < |r| && outs[r[i]] == Ok(Some(x));
        assert i in order;
        var k :| 0 <= k < |order| && order[k] == i;
      }
    }
  }

  /** Lists with the same multiset have the same members. */
  lemma MultisetMembers(a: seq<Record>, b: seq<Record>)
    requires multiset(a) == multiset(b)
    ensures forall x :: x in a <==> x in b
  {
    forall x ensures x in a <==> x in b {
      assert x in a <==> x in multiset(a);
      assert x in b <==> x in multiset(b);
    }
  }

  /** When the loop finishes over a completion order, the sorted results are the
      records of the sequential run. */
  lemma OrderIndependentResults(outs: seq<Outcome>, order: seq<nat>, sorted: seq<Record>)
    requires IsPermutation(order, |outs|) && Keyed(outs)
    requires CollectIn(outs, order).Ok?
    requires multiset(sorted) == multiset(CollectIn(outs, order).value)
    requires DistinctIndices(CollectIn(outs, order).value) ==> StrictlyByIndex(sorted)
    ensures CollectIn(outs, Range(|outs|)) == Ok(sorted)
  {
    var r := Range(|outs|);
    var byOrder := CollectIn(outs, order).value;
    SameRaise(outs, order);
    var bySeq := CollectIn(outs, r).value;
    SameMembers(outs, order);
    assert forall i, j :: 0 <= i < j < |r| ==> r[i] < r[j];
    CollectDistinct(outs, order);
    CollectDistinct(outs, r);
    MultisetMembers(sorted, byOrder);
    StrictlySortedUnique(sorted, bySeq);
  }

  // ---------------------------------------------------------------------------
  // Properties of a run
  // ---------------------------------------------------------------------------

  /** The run gets past its early returns and submits its jobs. */
  predicate Started(plan: Option<seq<Task>>, taskIndex: Option<int>, maxWorkers: int)
  {
    TasksOf(plan) != [] && !BadIndex(TasksOf(plan), taskIndex) &&
    Workers(maxWorkers, JobCount(plan, taskIndex)) > 0
  }

  /** An empty plan or an index out of range returns an empty list and writes no
      summary; a pool with no workers raises ValueError. */
  lemma RunEarlyExits(plan: Option<seq<Task>>, taskIndex: Option<int>, maxWorkers: int, cfg: Config)
    ensures !Started(plan, taskIndex, maxWorkers) ==>
      RunSpec(plan, taskIndex, maxWorkers, cfg) == Run(Ok([]), None) ||
      RunSpec(plan, taskIndex, maxWorkers, cfg) == Run(Raised(ValueError(NoWorkersMessage)), None)
    ensures TasksOf(plan) == [] ==> RunSpec(plan, taskIndex, maxWorkers, cfg) == Run(Ok([]), None)
    ensures maxWorkers <= 0 ==> RunSpec(plan, taskIndex, maxWorkers, cfg).summary.None?
  {
  }

  /** When the first `n` outcomes all produce a record, collecting them in order
      lists exactly those records. */
  lemma {:induction false} CollectAll(outs: seq<Outcome>, n: nat)
    requires n <= |outs| && forall i :: 0 <= i < n ==> Produces(outs[i])
    ensures CollectIn(outs, Range(n)).Ok?
    ensures |CollectIn(outs, Range(n)).value| == n
    ensures forall i :: 0 <= i < n ==> outs[i] == Ok(Some(CollectIn(outs, Range(n)).value[i]))
  {
    if n > 0 {
      assert Range(n)[..n - 1] == Range(n - 1);
      CollectAll(outs, n - 1);
    }
  }

  /** A started run raises KeyError('title') exactly when a submitted task has no
      title; no summary is written then. */
  lemma RunRaisesForUntitled(plan: Option<seq<Task>>, taskIndex: Option<int>, maxWorkers: int, cfg: Config)
    requires Started(plan, taskIndex, maxWorkers)
    ensures var jobs := Jobs(TasksOf(plan), taskIndex);
      (exists i :: 0 <= i < |jobs| && "title" !in jobs[i].task) <==>
      RunSpec(plan, taskIndex, maxWorkers, cfg) == Run(Raised(KeyError("title")), None)
  {
    var jobs := Jobs(TasksOf(plan), taskIndex);
    var outs := Outcomes(jobs, cfg);
    var r := Range(|jobs|);
    OutcomesKeyed(jobs, cfg);
    CollectRaises(outs, r);
    if exists i :: 0 <= i < |jobs| && "title" !in jobs[i].task {
      var i :| 0 <= i < |jobs| && "title" !in jobs[i].task;
      CompletedShape(jobs[i], cfg);
      assert outs[r[i]].Raised?;
    } else {
      forall i | 0 <= i < |r| ensures !outs[r[i]].Raised? {
        CompletedShape(jobs[i], cfg);
      }
    }
  }

  /** A run that is not a dry run and returns lists one record per submitted task,
      in submission order, each the record of that task, and writes the summary of
      exactly those records. */
  lemma RunRecords(plan: Option<seq<Task>>, taskIndex: Option<int>, maxWorkers: int, cfg: Config)
    requires Started(plan, taskIndex, maxWorkers) && !cfg.dryRun
    requires RunSpec(plan, taskIndex, maxWorkers, cfg).result.Ok?
    ensures var jobs := Jobs(TasksOf(plan), taskIndex);
      var rs := RunSpec(plan, taskIndex, maxWorkers, cfg).result.value;
      |rs| == |jobs| &&
      (forall i :: 0 <= i < |jobs| ==> rs[i].taskIndex == jobs[i].index && Completed(jobs[i], cfg) == Ok(Some(rs[i]))) &&
      RunSpec(plan, taskIndex, maxWorkers, cfg).summary == Some(Summary(cfg.model, |jobs|, CountSuccess(rs), rs))
  {
    var jobs := Jobs(TasksOf(plan), taskIndex);
    var outs := Outcomes(jobs, cfg);
    var r := Range(|jobs|);
    OutcomesKeyed(jobs, cfg);
    CollectRaises(outs, r);
    forall i | 0 <= i < |jobs| ensures Produces(outs[i]) && outs[i].value.value.taskIndex == jobs[i].index {
      assert outs[r[i]].Ok?;
      CompletedShape(jobs[i], cfg);
    }
    CollectAll(outs, |jobs|);
  }

  /** A dry run writes no summary, lists only failure records (tasks whose prompt
      or format could not be built), and raises only KeyError('title'). */
  lemma RunDry(plan: Option<seq<Task>>, taskIndex: Option<int>, maxWorkers: int, cfg: Config)
    requires Started(plan, taskIndex, maxWorkers) && cfg.dryRun
    ensures RunSpec(plan, taskIndex, maxWorkers, cfg).summary.None?
    ensures var res := RunSpec(plan, taskIndex, maxWorkers, cfg).result;
      (res.Ok? ==> forall i :: 0 <= i < |res.value| ==> res.value[i].Failure?) &&
      (res.Raised? ==> res.error == KeyError("title"))
  {
    var jobs := Jobs(TasksOf(plan), taskIndex);
    var outs := Outcomes(jobs, cfg);
    var r := Range(|jobs|);
    OutcomesKeyed(jobs, cfg);
    CollectRaises(outs, r);
    var c := CollectIn(outs, r);
    if c.Ok? {
      CollectMembers(outs, r);
      forall i | 0 <= i < |c.value| ensures c.value[i].Failure? {
        var x := c.value[i];
        assert x in c.value;
        var k :| 0 <= k < |r| && outs[r[k]] == Ok(Some(x));
        CompletedShape(jobs[k], cfg);
      }
    }
  }

  /** A dry run over tasks that all have a title and whose prompts can be built
      returns an empty list and writes no summary. */
  lemma RunDryEmpty(plan: Option<seq<Task>>, taskIndex: Option<int>, maxWorkers: int, cfg: Config)
    requires Started(plan, taskIndex, maxWorkers) && cfg.dryRun
    requires var jobs := Jobs(TasksOf(plan), taskIndex);
      forall i :: 0 <= i < |jobs| ==> "title" in jobs[i].task && CreatePrompt(jobs[i].task, cfg.template).Ok?
    ensures RunSpec(plan, taskIndex, maxWorkers, cfg) == Run(Ok([]), None)
  {
    var jobs := Jobs(TasksOf(plan), taskIndex);
    var outs := Outcomes(jobs, cfg);
    forall i | 0 <= i < |jobs| ensures outs[i] == Ok(None) {
      ExecuteTaskShape(jobs[i].task, jobs[i].index, cfg);
    }
    CollectNothing(outs, |jobs|);
  }

  /** Outcomes without a record collect to the empty list. */
  lemma {:induction false} CollectNothing(outs: seq<Outcome>, n: nat)
    requires n <= |outs| && forall i :: 0 <= i < n ==> outs[i] == Ok(None)
    ensures CollectIn(outs, Range(n)) == Ok([])
  {
    if n > 0 {
      assert Range(n)[..n - 1] == Range(n - 1);
      CollectNothing(outs, n - 1);
    }
  }

  /** The list a run returns is strictly increasing in task index. */
  lemma RunSorted(plan: Option<seq<Task>>, taskIndex: Option<int>, maxWorkers: int, cfg: Config)
    requires RunSpec(plan, taskIndex, maxWorkers, cfg).result.Ok?
    ensures StrictlyByIndex(RunSpec(plan, taskIndex, maxWorkers, cfg).result.value)
  {
    if Started(plan, taskIndex, maxWorkers) {
      var jobs := Jobs(TasksOf(plan), taskIndex);
      var r := Range(|jobs|);
      OutcomesKeyed(jobs, cfg);
      assert forall i, j :: 0 <= i < j < |r| ==> r[i] < r[j];
      CollectDistinct(Outcomes(jobs, cfg), r);
    }
  }

  /** The summary counts successes among the records it lists. */
  lemma {:induction false} CountSuccessBounds(rs: seq<Record>)
    ensures CountSuccess(rs) == |rs| <==> forall i :: 0 <= i < |rs| ==> rs[i].Success?
    ensures CountSuccess(rs) == 0 <==> forall i :: 0 <= i < |rs| ==> rs[i].Failure?
  {
    if rs != [] {
      var init := rs[..|rs| - 1];
      CountSuccessBounds(init);
      assert forall i :: 0 <= i < |init| ==> init[i] == rs[i];
    }
  }
}
