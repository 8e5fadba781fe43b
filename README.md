# pl-role-discovery research pipeline and app helpers, in Dafny

This project models the sequential logic of the pl-role-discovery repository and proves properties of it:

- **The research pipeline.**
  - `scripts/run_subagents.py` turns each task of a research plan into a prompt and a pair of file names. It runs the tasks on a thread pool and gathers the success and failure records, sorted by task index, into a summary.
  - `scripts/synthesize.py` loads the task results and merges them into one prompt.
  - `scripts/cite_verify.py` extracts a CSV citation table and a Markdown document from the model's answer.
- **The helpers it rests on.**
  - `slugify` and `safe_filename` (`utils/io_helpers.py`).
  - `sanitize_prompt`, the client's key check and the retry policy of `chat` (`utils/openai_client.py`).
- **The scraper's pure parts.** Column-name cleaning, table filtering and `--tables` parsing (`build_fbref_scraper.py`).
- **The app's validators and player queries.**
  - `validate_dataframe` and `safe_get` (`app/utils/error_handlers.py`).
  - `get_player_list`, `get_player_data` and `get_similar_players` (`app/utils/data_loader.py`). These work over a table passed in as a parameter.

## How the model is built

- **One module per source file.** Shared modules hold the Python semantics the source relies on:
  - `Strings`: `str.replace`, `split`, `join`, `strip`, `lower`, `in`, and `sorted` on strings. Characters are ASCII.
  - `Paths`: `os.path.join`, `basename`, `splitext`.
  - `Python`: `Option`, `Result` (a value or the exception raised), JSON values, exception kinds.
  - `Frames`: a pandas table as a sequence of rows. A missing cell is `Missing`; it equals nothing, as NaN does.
- **Pure code** becomes functions and lemmas.
- **Loops that build a result step by step** become methods with loop invariants, each proved equal to a specification function:
  - `sanitize_prompt`, the retry loop and the completion loop;
  - the sort by task index, `load_subagent_outputs` and `create_synthesis_prompt`;
  - the CSV search loop and the `while '__' in col` loop.
- **Everything outside the process** is a parameter: the environment variables, the answer of each chat attempt, which file writes fail, and the directory listing and file contents.
- **Straight-line `try`/`except` code** (`execute_task`, `synthesize`, `verify_citations`) returns its result or exception together with the list of files it writes, in order.
- **The thread pool** is an arbitrary completion order: any permutation of the submitted jobs. The method `RunSubagents.RunSubagents` is proved to give, for every order, the same result and summary as running the tasks one after the other in plan order.

Where the code and its documentation disagree, the model follows the code:

- The metadata name is `slugify(title + "_meta")`, so it ends in `-meta.json`, while `synthesize.py` filters out `_meta.json` names.
- When a title's slug is 50 characters or longer, the metadata name equals the result name of a JSON task.
- An empty plan or an out-of-range task index returns `[]` without a summary.
- A dry run returns only failure records, one for each task whose prompt cannot be built. The list is empty when every task has a title and its prompt can be built (`RunDryEmpty`).
- A task without a `"title"` raises `KeyError` a second time inside the `except` of the completion loop, so the run raises.
- `max_workers <= 0` makes the pool raise `ValueError`.
- With no key passed and neither `OPENAI_API_KEY` nor `OPEN_API_KEY` set, the client constructor fails with the library's `OpenAIError`, because it builds the library client before its own key check. Its own `ValueError` is raised only when a variable is set to an empty string.
- Three-attempt retry exhaustion raises tenacity's `RetryError`, not the last transient error.
- `get_similar_players` builds its placeholder frame only for `n == 5`: the team list has five entries, and any other `n` makes pandas raise, which is caught.
- A template like `"<TASK_TITLE<TASK_TITLE>>"` still holds a placeholder after filling, although no task field contains one (`CreatePromptLeavesTag`).

## Model

| member | source | states |
|---|---|---|
| RunSubagents.TextField | scripts/run_subagents.py:128-132 | `task.get(key, default)` handed to `replace`: a string, the default when absent, TypeError for any other value (stated through CreatePromptFails) |
| RunSubagents.ToolsText | scripts/run_subagents.py:125 | `", ".join(task.get("tools", []))`: a string joined by characters, a list by items, an object by keys, TypeError otherwise (stated through ToolsJoined and CreatePromptFails) |
| RunSubagents.Fill | scripts/run_subagents.py:128-132 | the five chained `replace` calls in source order (its seam behaviour is CreatePromptLeavesTag) |
| RunSubagents.CreatePrompt | scripts/run_subagents.py:113-134 | `create_subagent_prompt`; its properties are CreatePromptFails, EmptyTaskPrompt, ToolsJoined, CreatePromptNoTags and CreatePromptLeavesTag |
| RunSubagents.CreatePromptFails | scripts/run_subagents.py:113-134 | the prompt is built exactly when title, scope, format and stop_condition are strings or absent and tools are a string, a list of strings, a JSON object or absent; otherwise `replace`/`join` raise TypeError |
| RunSubagents.EmptyTaskPrompt | scripts/run_subagents.py:125-132 | a task without fields fills title, scope, tools and stop condition with "" and the format with "markdown" |
| RunSubagents.FormatDefault | scripts/run_subagents.py:130 | a missing format fills `<TASK_FORMAT>` with "markdown" |
| RunSubagents.TitleDefault | scripts/run_subagents.py:128 | a missing title fills `<TASK_TITLE>` with "" |
| RunSubagents.ToolsJoinedPair | scripts/run_subagents.py:125 | example: two tools without '<' fill the bare tools tag as "a, b" |
| RunSubagents.ToolsJoined | scripts/run_subagents.py:125-132 | for every template, a task holding only tools fills `<TASK_TOOLS>` with the list's items, the object's keys or the string's characters joined by ", ", and the other tags with their defaults |
| RunSubagents.CreatePromptNoTags | scripts/run_subagents.py:128-132 | a template with none of the five placeholders is returned unchanged |
| RunSubagents.CreatePromptLeavesTag | scripts/run_subagents.py:128-132 | counterexample: with no field holding a placeholder, the template "<TASK_TITLE<TASK_TITLE>>" still yields a prompt containing "<TASK_TITLE>" |
| RunSubagents.ExtensionFor | scripts/run_subagents.py:166-170 | the extension is "json" exactly when the lowercased format contains "json", and "md" otherwise |
| RunSubagents.Prefix | scripts/run_subagents.py:160 | the prefix is the decimal digits of index+1: exactly two (zero-padded) below index 99, and without a leading zero when longer |
| RunSubagents.PrefixInjective | scripts/run_subagents.py:160 | distinct task indices give distinct prefixes |
| RunSubagents.ResultName | scripts/run_subagents.py:173 | the result file name `safe_filename(prefix, title, extension)` (stated through ResultNamesDistinct and MetaNameCollides) |
| RunSubagents.MetaName | scripts/run_subagents.py:174 | the metadata file name `safe_filename(prefix, title + "_meta", "json")` (stated through MetaNameDashed and MetaNameCollides) |
| RunSubagents.MetaNameDashed | scripts/run_subagents.py:174 | for a short non-empty slug the metadata name ends in "-meta.json" and not in "_meta.json" |
| RunSubagents.MetaNameCollides | scripts/run_subagents.py:173-174 | when the title's slug has 50 or more characters, the metadata name equals the result name of a JSON task |
| RunSubagents.ResultNamesDistinct | scripts/run_subagents.py:160-173 | distinct task indices give distinct result names, whatever the titles and extensions |
| RunSubagents.StripFence | scripts/run_subagents.py:206-212 | content that is not wrapped in a fence is persisted unchanged |
| RunSubagents.FenceInnerPlace | scripts/run_subagents.py:209-210 | the text kept from fenced content follows the opening fence, holds no fence, and is followed by a fence or the end |
| RunSubagents.PersistedVerbatim | scripts/run_subagents.py:205-215 | a markdown task, or unfenced JSON content, is written verbatim |
| RunSubagents.ExecuteTask | scripts/run_subagents.py:137-250 | `execute_task` as its outcome and writes (stated through ExecuteTaskRaises and ExecuteTaskShape) |
| RunSubagents.Attempt | scripts/run_subagents.py:180-250 | the part of `execute_task` from the dry-run check on, inside the `try` (stated through AttemptShape and AttemptAnswered) |
| RunSubagents.Persist | scripts/run_subagents.py:204-250 | writing the result and the metadata and building the record (stated through PersistShape and PersistWrites) |
| RunSubagents.ExecuteTaskRaises | scripts/run_subagents.py:160-183 | `execute_task` raises exactly when the prompt cannot be built or the task has no title, and then writes nothing; otherwise it continues from the dry-run check with the task's title, prompt and extension |
| RunSubagents.ExecuteTaskShape | scripts/run_subagents.py:137-250 | a dry run returns None and writes nothing; otherwise the result is a success record carrying both paths or a failure record carrying the error, under the task's index and title |
| RunSubagents.AttemptShape | scripts/run_subagents.py:180-250 | from the dry-run check on: None for a dry run, else a record for this index, title and pair of paths |
| RunSubagents.AttemptAnswered | scripts/run_subagents.py:187-241 | once the client exists and the model answers, the persisted text, metadata and record are those of that answer |
| RunSubagents.PersistShape | scripts/run_subagents.py:215-250 | a success record has both paths and no error, a failure record the error and no paths |
| RunSubagents.PersistWrites | scripts/run_subagents.py:215-231 | the result file is written first, the metadata only after it |
| RunSubagents.MetaLogsPrompt | scripts/run_subagents.py:219-228 | the metadata logs the sanitized system and user messages |
| RunSubagents.Jobs | scripts/run_subagents.py:286-312 | without a selected index, job i carries plan task i; with one, the only job carries the selected task under the selected index; indices ascend |
| RunSubagents.Workers | scripts/run_subagents.py:299 | `min(max_workers, len(tasks))`, whose non-positive value makes the pool raise (stated through RunEarlyExits) |
| RunSubagents.Completed | scripts/run_subagents.py:320-332 | what the loop makes of one finished future (stated through CompletedShape) |
| RunSubagents.Finish | scripts/run_subagents.py:334-348 | the sort, the summary and the return (stated through RunRecords and RunDry) |
| RunSubagents.RunSpec | scripts/run_subagents.py:253-348 | `run_subagents` run sequentially in plan order, the reference the method RunSubagents is proved equal to; its properties are RunEarlyExits, RunRaisesForUntitled, RunRecords, RunDry, RunDryEmpty and RunSorted |
| RunSubagents.CountSuccess | scripts/run_subagents.py:343 | the success count is at most the number of records |
| RunSubagents.CountSuccessBounds | scripts/run_subagents.py:343 | the count equals the number of records exactly when all succeeded, and is zero exactly when all failed |
| RunSubagents.RunSubagents | scripts/run_subagents.py:253-348 | for every completion order of the pool, the returned list or exception and the summary are those of the sequential run in plan order |
| RunSubagents.CompleteJobs | scripts/run_subagents.py:304-346 | the `as_completed` loop, the sort and the summary, over any completion order, equal the sequential completion |
| RunSubagents.CompletionRaises | scripts/run_subagents.py:320-332 | a job that raises in the loop raises the same exception as the sequential run |
| RunSubagents.CompletionFinishes | scripts/run_subagents.py:320-346 | records gathered in any order and sorted by index are the sequential run's, and finish the same way |
| RunSubagents.SortByIndex | scripts/run_subagents.py:335 | the sort returns a permutation sorted by task index, strictly so when the indices are distinct |
| RunSubagents.CompletedShape | scripts/run_subagents.py:320-332 | a finished job raises only KeyError('title'), only when its task has no title; a record carries the job's index, and a dry run yields only failure records |
| RunSubagents.CollectRaises | scripts/run_subagents.py:320-332 | the loop raises exactly when a job it reaches raised, and then with KeyError('title') |
| RunSubagents.CollectMembers | scripts/run_subagents.py:321-324 | the collected records are exactly the records returned by the completed jobs |
| RunSubagents.CollectDistinct | scripts/run_subagents.py:320-332 | collected records have distinct task indices, ascending when the jobs complete in order |
| RunSubagents.OrderIndependentRaise | scripts/run_subagents.py:315-332 | whichever raising job completes first, the exception is the sequential run's |
| RunSubagents.SameRaise | scripts/run_subagents.py:315-332 | the loop raises in some completion order exactly when it raises in plan order |
| RunSubagents.SameMembers | scripts/run_subagents.py:315-324 | any two completion orders collect the same records |
| RunSubagents.OrderIndependentResults | scripts/run_subagents.py:315-335 | records gathered in any order, once sorted by index, are the records in plan order |
| RunSubagents.StrictlySortedUnique | scripts/run_subagents.py:335 | two lists strictly sorted by index with the same members are equal |
| RunSubagents.RunEarlyExits | scripts/run_subagents.py:281-305 | a run that does not start returns [] or raises the no-workers ValueError, without a summary; an empty plan returns []; max_workers <= 0 never writes a summary |
| RunSubagents.RunRaisesForUntitled | scripts/run_subagents.py:320-332 | a started run raises KeyError('title') exactly when a submitted task has no title |
| RunSubagents.RunRecords | scripts/run_subagents.py:304-346 | a run that is not a dry run returns one record per submitted task in index order, and writes a summary with the task total, the success count and those records |
| RunSubagents.RunDry | scripts/run_subagents.py:180-183 | a dry run writes no summary, lists only failure records, and raises only KeyError('title') |
| RunSubagents.RunDryEmpty | scripts/run_subagents.py:160-183 | a dry run over titled tasks whose prompts can be built returns [] and writes no summary |
| RunSubagents.RunSorted | scripts/run_subagents.py:335 | every returned list is strictly increasing in task index |
| IoHelpers.Collapse | utils/io_helpers.py:33 | the replacement is empty only for empty text and starts with '-' exactly when the text starts outside [a-z0-9] |
| IoHelpers.FullSlug | utils/io_helpers.py:31-35 | the untruncated slug neither starts nor ends with '-' |
| IoHelpers.StripDashes | utils/io_helpers.py:35 | `strip('-')` leaves no '-' at either end |
| IoHelpers.Slugify | utils/io_helpers.py:20-37 | the slug is a prefix of the untruncated slug of at most 50 characters (all of it when shorter), does not start with '-', and ends with '-' only when truncated |
| IoHelpers.CollapseShape | utils/io_helpers.py:33 | the substitution leaves only [a-z0-9-] and never "--" |
| IoHelpers.FullSlugShape | utils/io_helpers.py:31-35 | the untruncated slug holds only [a-z0-9-] and never "--" |
| IoHelpers.SlugShape | utils/io_helpers.py:20-37 | a slug holds only [a-z0-9-], never "--" and never '_' |
| IoHelpers.CollapseFixed | utils/io_helpers.py:33 | text already in slug form is unchanged by the substitution |
| IoHelpers.SlugifyFixedPoint | utils/io_helpers.py:20-37 | a slug-shaped text of at most 50 characters without dashes at its ends is its own slug |
| IoHelpers.SlugifyIdempotent | utils/io_helpers.py:20-37 | slugifying a slug that does not end in '-' gives it back |
| IoHelpers.ShortSlugIsFull | utils/io_helpers.py:35-37 | an untruncated slug of at most 50 characters is the slug and does not end with '-' |
| IoHelpers.CollapseAppendMeta | utils/io_helpers.py:33 | the substitution of title + "_meta" is the title's followed by "-meta", or by "meta" after a trailing '-' |
| IoHelpers.FullSlugMeta | utils/io_helpers.py:31-35 | the untruncated slug of title + "_meta" is the title's followed by "-meta", or "meta" alone |
| IoHelpers.MetaSlug | utils/io_helpers.py:31-37 | the metadata slug is the first 50 characters of the title's untruncated slug followed by "-meta" |
| IoHelpers.MetaSlugCollides | utils/io_helpers.py:31-37 | when the title's untruncated slug has 50 or more characters, the metadata slug equals the title's slug |
| IoHelpers.SafeFilename | utils/io_helpers.py:158-171 | `safe_filename`: prefix, '_', slug, '.', extension (stated through DigitPrefixUnique and FilenamePrefixDetermined) |
| IoHelpers.DigitPrefixUnique | utils/io_helpers.py:171 | two names made of a digit prefix, '_' and a slug are equal only with equal prefixes |
| IoHelpers.FilenamePrefixDetermined | utils/io_helpers.py:170-171 | equal safe filenames with digit-only prefixes have equal prefixes |
| OpenAiClient.SanitizeMessage | utils/openai_client.py:133-138 | the copy and truncation of one message (stated through SanitizeMessageEffect, SanitizeMessageFails and SanitizeMessageIdempotent) |
| OpenAiClient.SanitizeAll | utils/openai_client.py:120-142 | the messages sanitized one by one, or the first KeyError; the reference the method SanitizePrompt is proved equal to |
| OpenAiClient.SanitizePrompt | utils/openai_client.py:120-142 | the copying loop returns exactly the message-by-message sanitized list, or the KeyError of the first message without the keys it reads |
| OpenAiClient.SanitizeAbort | utils/openai_client.py:131-137 | a message that raises aborts the whole call with its exception |
| OpenAiClient.SanitizeAllPointwise | utils/openai_client.py:130-142 | the result has the input's length, and each message is sanitized on its own in order |
| OpenAiClient.SanitizeMessageEffect | utils/openai_client.py:133-138 | keys and role are kept; only an assistant content over 100 characters changes, to its first 100 characters + "... [truncated]" |
| OpenAiClient.SanitizeMessageFails | utils/openai_client.py:137 | a message raises exactly when it has no role, or is an assistant message without content |
| OpenAiClient.SanitizeMessageIdempotent | utils/openai_client.py:137-138 | sanitizing a sanitized message changes nothing |
| OpenAiClient.SanitizeAllIdempotent | utils/openai_client.py:130-142 | sanitizing a sanitized list changes nothing |
| OpenAiClient.SanitizeKeepsNonAssistant | utils/openai_client.py:135-140 | a list without assistant messages is returned unchanged |
| OpenAiClient.ResolveKey | utils/openai_client.py:40 | the `or` chain over the argument, OPENAI_API_KEY and OPEN_API_KEY (stated through NewClientKey) |
| OpenAiClient.NewClient | utils/openai_client.py:32-45 | the constructor raises only the library's OpenAIError or ValueError with its message |
| OpenAiClient.NewClientKey | utils/openai_client.py:40-45 | it raises exactly when the argument, OPENAI_API_KEY and OPEN_API_KEY are all missing or empty: with OpenAIError (from building the library client at line 41) exactly when neither variable is set, else with ValueError; otherwise the key is the first of them that is set |
| OpenAiClient.Retry | utils/openai_client.py:47-59 | the tenacity policy from attempt n on; the reference the method Chat is proved equal to, with RetryBudget, RetrySucceeds and NonRetryablePropagates |
| OpenAiClient.Chat | utils/openai_client.py:47-117 | at most 3 attempts; only the four transient errors cause another; the outcome is the last attempt's, or RetryError after three transient failures |
| OpenAiClient.RetryBudget | utils/openai_client.py:47-57 | three transient failures raise RetryError carrying the third |
| OpenAiClient.RetrySucceeds | utils/openai_client.py:47-59 | the call succeeds exactly when an attempt within the budget answers after transient failures only, and returns that answer |
| OpenAiClient.NonRetryablePropagates | utils/openai_client.py:50-57 | any other exception propagates from the first attempt |
| Paths.SplitExt | scripts/synthesize.py:110 | `splitext` splits a path into a root and an extension that is empty or starts with '.' and holds no further '.' or '/' |
| Paths.Basename | scripts/synthesize.py:122 | the basename is a suffix of the path without '/' |
| Paths.BasenameJoin | scripts/cite_verify.py:249-253 | the basename of a joined file name is that name |
| Paths.SplitExtFile | scripts/synthesize.py:110 | a file named stem.ext in a directory splits at its last dot |
| Synthesize.ResultFiles | scripts/synthesize.py:100 | the result files are exactly the listed files not ending in "_meta.json" other than input_dir/summary.json |
| Synthesize.DashMetaKept | scripts/synthesize.py:100 | listed names ending in "-meta.json" (the executor's metadata files) are kept as results |
| Synthesize.LStripDots | scripts/synthesize.py:128 | the format is a suffix of the extension that does not start with '.' |
| Synthesize.MetaPathOf | scripts/synthesize.py:116 | `file_path.replace(ext, "_meta.json")` (stated through MetaPathSingle, MetaPathMissesExecutorMeta and MetaPathNoExtension) |
| Synthesize.TitleOf | scripts/synthesize.py:116-126 | the title from the metadata file, or the basename (stated through TitleFallback and FallbackTitle) |
| Synthesize.LoadOne | scripts/synthesize.py:108-131 | the body of the loop for one file (stated through LoadOneShape, LoadOneTitle and LoadOneFails) |
| Synthesize.LoadAll | scripts/synthesize.py:106-136 | the loop, skipping the files whose load raised; the reference LoadSubagentOutputs is proved equal to (stated through LoadAllMembers, LoadAllNoneSkipped and LoadAllSorted) |
| Synthesize.LoadSubagentOutputs | scripts/synthesize.py:86-136 | the loading loop returns the outputs of the result files in sorted order, skipping the ones that raise |
| Synthesize.LoadOneShape | scripts/synthesize.py:110-131 | a loaded output carries its path, the file's content and the extension without its dot |
| Synthesize.TitleFallback | scripts/synthesize.py:116-126 | without a metadata file, or without a task or title in it, the title is the file's basename |
| Synthesize.FallbackTitle | scripts/synthesize.py:117-126 | the title lookup falls back to the basename in those cases |
| Synthesize.LoadOneTitle | scripts/synthesize.py:116-126 | a loaded output's title is the one found through its metadata path |
| Synthesize.LoadFileTitle | scripts/synthesize.py:112-131 | a readable file with a title loads with that title |
| Synthesize.LoadOneFails | scripts/synthesize.py:108-134 | a file fails to load exactly when it cannot be read or its metadata raises |
| Synthesize.LoadAllMembers | scripts/synthesize.py:106-136 | the outputs are exactly the successful loads, no more than the files |
| Synthesize.LoadAllNoneSkipped | scripts/synthesize.py:106-136 | when every file loads, there is one output per file in order |
| Synthesize.LoaderKeepsPath | scripts/synthesize.py:129 | every output records the path it was loaded from |
| Synthesize.LoadAllSorted | scripts/synthesize.py:107 | the outputs come in sorted path order |
| Synthesize.MetaPathSingle | scripts/synthesize.py:116 | when the extension text occurs only at the end, the metadata path is the root + "_meta.json" |
| Synthesize.MetaPathMissesExecutorMeta | scripts/synthesize.py:116 | such a metadata path never ends in "-meta.json", the executor's suffix |
| Synthesize.MetaPathNoExtension | scripts/synthesize.py:110-116 | without an extension, `replace("", "_meta.json")` starts with the suffix and adds one copy of it before, between and after the characters |
| Synthesize.SynthesisPrompt | scripts/synthesize.py:139-160 | the template, the heading and the numbered sections (stated through PromptStartsWithTemplate, PromptHoldsOutput and SectionsInOrder) |
| Synthesize.CreateSynthesisPrompt | scripts/synthesize.py:139-160 | the accumulating loop returns the template, the heading, and one section per output |
| Synthesize.PromptStartsWithTemplate | scripts/synthesize.py:151-154 | the prompt starts with the template, a blank line and "### Subagent Outputs" |
| Synthesize.PromptHoldsOutput | scripts/synthesize.py:151-160 | every output's numbered section, with its title and fenced content, is in the prompt |
| Synthesize.SectionsInOrder | scripts/synthesize.py:156-158 | output i's section directly follows the sections of outputs 0 to i-1 |
| Synthesize.SectionsAround | scripts/synthesize.py:156-158 | the sections split into those before output i, its own section, and the rest |
| Synthesize.InputFiles | scripts/synthesize.py:237 | the metadata lists each output's basename in order |
| Synthesize.Persist | scripts/synthesize.py:226-257 | writing the document and its metadata (stated through PersistWrites) |
| Synthesize.SynthesizeLoaded | scripts/synthesize.py:197-257 | `synthesize` once the outputs are loaded (stated through SynthesizeNothing and SynthesizeWrites) |
| Synthesize.SynthesizeSpec | scripts/synthesize.py:163-257 | `synthesize`, the reference the method Synthesize is proved equal to |
| Synthesize.Synthesize | scripts/synthesize.py:163-257 | the method returns the specified outcome and builds the merged prompt only when there are outputs |
| Synthesize.SynthesizeNothing | scripts/synthesize.py:184-204 | no outputs, or a dry run, returns None with no write |
| Synthesize.PersistWrites | scripts/synthesize.py:226-257 | the document is written before its metadata; a failed write is returned with the path that failed |
| Synthesize.SynthesizeWrites | scripts/synthesize.py:208-257 | a client failure is returned with no write; the document holds the answer; the metadata lists the input basenames and "design_decisions.md" |
| CiteVerify.CitationPrompt | scripts/cite_verify.py:83-101 | the template, a heading and the document (stated through CitationPromptParts) |
| CiteVerify.CitationPromptParts | scripts/cite_verify.py:83-101 | the prompt is the template, a blank line, "### Document to Verify", a blank line, then the document |
| CiteVerify.ExtractCsv | scripts/cite_verify.py:104-130 | `extract_csv_from_response`; the reference ExtractCsvFromResponse is proved equal to (stated through ExtractCsvTagged and ExtractCsvUntagged) |
| CiteVerify.FirstFenced | scripts/cite_verify.py:122-130 | the search over the untagged fenced segments (stated through FirstCsvSegmentSpec and ExtractCsvUntagged) |
| CiteVerify.ExtractCsvFromResponse | scripts/cite_verify.py:104-130 | the search loop returns the extraction: the tagged fence first, then the fenced segments |
| CiteVerify.ExtractCsvTagged | scripts/cite_verify.py:115-119 | with a "```csv" fence, the CSV is the stripped text from the first such fence to the next fence or the end, and holds no fence |
| CiteVerify.ExtractCsvUntagged | scripts/cite_verify.py:122-130 | otherwise it is the first odd-numbered fenced segment holding ',' and "claim_id" in any case, stripped; None without a fence or a match |
| CiteVerify.FirstCsvSegmentSpec | scripts/cite_verify.py:126-128 | the search finds nothing exactly when no visited segment looks like CSV, else the first one that does |
| CiteVerify.ExtractMarkdown | scripts/cite_verify.py:133-151 | `extract_markdown_from_response` (stated through ExtractMarkdownSpec) |
| CiteVerify.ExtractMarkdownSpec | scripts/cite_verify.py:133-151 | Markdown is found exactly when the answer has at least two fences, and is then the stripped text after the last fence |
| CiteVerify.MarkdownParts | scripts/cite_verify.py:144-148 | with more than two fenced parts, the answer is a text holding a fence, then a fence, then the last part, which holds none |
| CiteVerify.Persist | scripts/cite_verify.py:234-298 | writing the table, the document and the metadata ends in success or a caught failure, never in a missing table |
| CiteVerify.Store | scripts/cite_verify.py:223-298 | handling the extracted parts always returns a verification dictionary |
| CiteVerify.Handle | scripts/cite_verify.py:217-298 | handling an answer always returns a verification dictionary |
| CiteVerify.VerifyCitations | scripts/cite_verify.py:154-298 | `verify_citations` as its result and writes (stated through MissingInput, NoWritesWithoutAnswer and VerifiedWrites) |
| CiteVerify.Respond | scripts/cite_verify.py:201-298 | the `try` block from the chat call on (stated through RespondVerified) |
| CiteVerify.MissingInput | scripts/cite_verify.py:174-177 | a missing input returns None with no write, whatever the model would answer |
| CiteVerify.HandleWrites | scripts/cite_verify.py:219-257 | no table means success=false with no write; otherwise the table is written first as extracted, then the Markdown or the whole answer; success means three writes |
| CiteVerify.StoreWrites | scripts/cite_verify.py:223-257 | the same, for any extracted table and document |
| CiteVerify.VerifiedWrites | scripts/cite_verify.py:188-257 | a success wrote the table, the document and the metadata, which names the input's basename and the two output files |
| CiteVerify.OutputNames | scripts/cite_verify.py:190-191 | the output paths have basenames "citation_table.csv" and "design_decisions_verified.md" |
| CiteVerify.RespondVerified | scripts/cite_verify.py:201-257 | a success after an answer wrote the three files and names the inputs and outputs |
| CiteVerify.StoreVerified | scripts/cite_verify.py:223-257 | a stored success wrote the three files in order with the metadata naming them |
| CiteVerify.NoWritesWithoutAnswer | scripts/cite_verify.py:194-215 | a dry run or a failed client call writes nothing |
| FbrefScraper.ApplySteps | build_fbref_scraper.py:77-88 | the chained single-character replacements (stated through StepsUnfold, StepsAvoid and StepsAbsent) |
| FbrefScraper.Collapse | build_fbref_scraper.py:91-92 | the `while '__' in col` loop as a function (stated through CollapseAvoids and CollapseFree) |
| FbrefScraper.Cleaned | build_fbref_scraper.py:63-94 | `clean_column_name`; the reference CleanColumnName is proved equal to (stated through CleanedShape and CleanedIdempotent) |
| FbrefScraper.CleanColumnName | build_fbref_scraper.py:63-94 | the step-by-step reassignments and the `while '__'` loop compute the cleaned name |
| FbrefScraper.StepsUnfold | build_fbref_scraper.py:76-88 | the replacement table is the eight replacements in source order |
| FbrefScraper.StepsAvoid | build_fbref_scraper.py:77-88 | after the replacements none of the replaced characters remain |
| FbrefScraper.StepsAbsent | build_fbref_scraper.py:77-88 | text without the replaced characters is unchanged |
| FbrefScraper.StepsPatterns | build_fbref_scraper.py:77-88 | the replaced characters are ' ', '/', '(', ')', '%', '+', '-', '.' |
| FbrefScraper.StepsReplacements | build_fbref_scraper.py:77-88 | no replacement text reintroduces a replaced character or an upper-case letter |
| FbrefScraper.CollapseAvoids | build_fbref_scraper.py:91-92 | collapsing underscores introduces no other character |
| FbrefScraper.CollapseFree | build_fbref_scraper.py:91-92 | after the loop there is no "__" |
| FbrefScraper.CleanedShape | build_fbref_scraper.py:63-94 | a cleaned name has no upper-case letter, none of the eight characters and no "__" |
| FbrefScraper.CleanedIdempotent | build_fbref_scraper.py:63-94 | cleaning a cleaned name changes nothing |
| FbrefScraper.SelectTables | build_fbref_scraper.py:335 | the kept entries are exactly the url_map entries whose key was requested, in url_map order |
| FbrefScraper.TablesToScrape | build_fbref_scraper.py:328-341 | the choice of tables in `main` (stated through SelectionSpec and SelectAll) |
| FbrefScraper.SelectionSpec | build_fbref_scraper.py:328-341 | with a requested list, nothing is scraped exactly when no url_map key was requested; otherwise the requested tables in url_map order |
| FbrefScraper.SelectAll | build_fbref_scraper.py:328-341 | no list or an empty one scrapes all of url_map; an inaccessible site scrapes nothing |
| FbrefScraper.ParseTables | build_fbref_scraper.py:370-373 | the `--tables` option (stated through ParseTablesSpec and ParseSingle) |
| FbrefScraper.ParseTablesSpec | build_fbref_scraper.py:371-373 | `--tables` gives one name per comma-separated part, stripped, none holding a comma |
| FbrefScraper.ParseSingle | build_fbref_scraper.py:373 | a value without a comma names one table, stripped |
| FbrefScraper.StripParts | build_fbref_scraper.py:373 | stripping the comma-free parts leaves them comma-free, with no white space at either end |
| ErrorHandlers.MissingColumns | app/utils/error_handlers.py:88 | a column is missing exactly when it is required and not in the frame |
| ErrorHandlers.ValidateDataframe | app/utils/error_handlers.py:63-93 | `validate_dataframe` (stated through ValidateSpec, NoRequiredColumns and EmptyFrameRejected) |
| ErrorHandlers.ValidateSpec | app/utils/error_handlers.py:63-93 | valid exactly when there is a frame with at least min_rows rows holding every required column |
| ErrorHandlers.NoRequiredColumns | app/utils/error_handlers.py:87 | absent or empty required columns skip the column check |
| ErrorHandlers.EmptyFrameRejected | app/utils/error_handlers.py:63-85 | with min_rows=1 a frame without rows is invalid |
| ErrorHandlers.IsInstance | app/utils/error_handlers.py:115 | `isinstance` with bool a subclass of int (stated through BoolIsInt) |
| ErrorHandlers.SafeGet | app/utils/error_handlers.py:95-122 | `safe_get` (stated through SafeGetAbsent, SafeGetPresent and SafeGetNone) |
| ErrorHandlers.SafeGetAbsent | app/utils/error_handlers.py:113 | an absent key gives the default |
| ErrorHandlers.SafeGetPresent | app/utils/error_handlers.py:113-122 | a present value is returned unless a type is given and a non-None value fails it, when the default is returned |
| ErrorHandlers.SafeGetNone | app/utils/error_handlers.py:115 | a present None is returned whatever type is asked for |
| ErrorHandlers.BoolIsInt | app/utils/error_handlers.py:115 | a bool passes a check for int, but an int does not pass one for bool |
| DataLoader.PlayerNames | app/utils/data_loader.py:321 | one name per row, its player cell as text |
| DataLoader.Unique | app/utils/data_loader.py:321 | `unique()` keeps each name once and loses none |
| Strings.Lower | utils/io_helpers.py:31 | `lower()` maps each character to its lower-case form and leaves no upper-case letter |
| Strings.LowerNoUpper | build_fbref_scraper.py:74 | `lower()` leaves text without upper-case letters unchanged |
| Strings.ReplaceIsSplitJoin | scripts/run_subagents.py:128-132 | `str.replace` equals splitting at the pattern and joining with the replacement |
| Strings.ReplaceAbsent | scripts/run_subagents.py:128-132 | `str.replace` leaves text without the pattern unchanged |
| Strings.ReplaceRemoves | build_fbref_scraper.py:77-88 | replacing a character by text without it leaves none of it |
| Strings.JoinSplit | scripts/cite_verify.py:116-117 | joining the parts of `split` with the separator gives the text back |
| Strings.SplitPartsFree | scripts/cite_verify.py:122-123 | no part of `split` holds the separator |
| Strings.SplitCount | scripts/cite_verify.py:116-117 | `split` gives two parts or more exactly when the separator occurs |
| Strings.StripBounds | scripts/cite_verify.py:118 | `strip()` returns a slice of the text with no white space at either end |
| Strings.DecimalRoundTrip | scripts/run_subagents.py:160 | the decimal rendering of a number reads back as that number |
| Strings.SortStringsSpec | app/utils/data_loader.py:322 | `sorted` returns an ordered permutation of its input |
| DataLoader.GetPlayerList | app/utils/data_loader.py:307-325 | `get_player_list` (stated through PlayerListSpec) |
| DataLoader.PlayerListSpec | app/utils/data_loader.py:307-325 | the list is strictly increasing and holds exactly the players' names; empty without a table or a "player" column |
| DataLoader.FirstMatch | app/utils/data_loader.py:342-347 | the first row of the player at or after a position, if any |
| DataLoader.GetPlayerData | app/utils/data_loader.py:327-350 | `get_player_data` (stated through PlayerDataSpec) |
| DataLoader.PlayerDataSpec | app/utils/data_loader.py:327-350 | a row is returned exactly when the player has one, and it is the first |
| DataLoader.ClusterRows | app/utils/data_loader.py:392-395 | exactly the rows of other players of the cluster, in table order, each as many times as it occurs in the table |
| DataLoader.Head | app/utils/data_loader.py:407 | `head(n)` keeps the first n rows, or drops -n rows from the end for negative n |
| DataLoader.GetSimilarPlayers | app/utils/data_loader.py:352-410 | `get_similar_players` (stated through SimilarNeedsPlayer, SimilarAlone, SimilarSpec and SimilarExcludesPlayer) |
| DataLoader.SimilarNeedsPlayer | app/utils/data_loader.py:370-373 | an unknown player gets None |
| DataLoader.SimilarAlone | app/utils/data_loader.py:398-400 | with no other player in the cluster the answer is None |
| DataLoader.SimilarSpec | app/utils/data_loader.py:388-407 | the answer has columns player, team and, when present, role_name; its rows are the projections of `head(n)` of the other players of the target's cluster in table order (the first min(n, k) of them for n >= 0), so at most n rows, and at least one when n >= 1 |
| DataLoader.SimilarExcludesPlayer | app/utils/data_loader.py:392-395 | no row of the answer is the player's own |

## Left out

- Concurrency: the thread pool, `as_completed` and tqdm are an arbitrary completion order of the jobs. Each job is run exactly once.
- The OpenAI call is an oracle: the outcome of attempt n for each task. The response keeps its content, token usage, model and finish reason, and drops the other fields of the library's response.
- Tenacity's wait durations and sleeps, `time.time`, elapsed times and timestamps. The metadata does not carry them.
- `hashlib.md5` prompt hashes are not modelled. The metadata does not carry them.
- File-system I/O is oracles: the directory listing, file contents, JSON files and which writes fail. `ensure_directory`, dotenv, argparse, the `main` functions and `sys.exit` are not modelled.
- `load_prompt_template`: the template is a parameter.
- pandas CSV parsing and the claim statistics of `verify_citations`, including their second write of the metadata file. A failure there is caught and does not change the result.
- BeautifulSoup scraping, `fetch_url`, `test_url_access` and the per-table scrape loop: site access is a boolean.
- The `st.cache` loaders of the app: the table is a parameter.
- DataLoader.GetSimilarPlayers: the placeholder frame's contents are not modelled, only when it is returned.
- DataLoader.PlayerNames: `astype(str)` of floating-point cells is not modelled. A cell is text, an integer or missing ("nan").
- Strings.Lower: Unicode case mapping is not modelled. Only ASCII letters are lowered, and character classes are ASCII.
- Logging, the Streamlit UI, plotting, settings, tests and launchers.
- OpenAiClient.Response: its content is always text. The library types `message.content` as optional, and it is None on a refusal, but the model does not cover that case. With None, `content.strip()` in a JSON task of `execute_task` raises AttributeError. `write_text(None, …)` in a markdown task and in `synthesize` raises TypeError after the file has been opened and truncated. `"```csv" in None` in `verify_citations` raises TypeError. Each of these is caught and becomes a failure result. The model's RunSubagents.Attempt, AttemptAnswered, PersistShape, Synthesize.SynthesizeLoaded, SynthesizeWrites, CiteVerify.Respond and HandleWrites describe only a text answer, so they promise the writes and the success that a text answer gives.
- RunSubagents.StripFence: its contract covers only unfenced content. The fenced case is characterised by FenceInnerPlace.
