# Legacy-code migration assistant: the analysis and annotation core in Dafny

This project models the deterministic core of a Python tool that inventories a
VB.NET code base before it is migrated. The tool has seven parts:

- **Router** (`agents/router_agent.py`). Maps each walked file's lower-cased
  extension to a language label through a fixed table. Counts the labels,
  picks the most common one as primary (the first seen wins ties) and lists
  the rest as secondary, in first-seen order.
- **Analyser** (`agents/analyser_agent.py`). Finds the line-anchored
  `Imports` declarations of VB.NET files. Builds two indexes over the walk:
  extension → relative paths (in walk order) and `.vb` path → its imports
  (only when the list is non-empty).
- **Annotator** (`agents/annotator_agent.py`). Summarises each allowed file
  whose absolute path is not yet a key of the cache loaded from the previous
  run. Writes the whole map back after every new entry and pauses two seconds.
  Failures come back as `⚠` strings and are cached like answers.
- **Provider** (`ai_provider.py`). Dispatches on the lower-cased provider
  name. For Gemini it does three things:
  - cleans the prompt (fences, NUL and carriage returns, then the first 10000
    characters);
  - sends up to three requests, retrying only on HTTP 429 and sleeping 8·k
    seconds after the k-th one;
  - turns every other outcome into a reply string.
- **Ingest** (`ingest_codebase.py`). `chunk_text`, the overlapping window
  loop.
- **Pair programmer** (`ai_pair_programmer.py`):
  - splits the code base into fixed 6000-character chunks;
  - ranks them by a case-insensitive count of the question's occurrences,
    using a stable descending sort, and keeps the first three;
  - assembles the prompt, with the context cut to 15000 characters.
- **VB parser** (`vb_parser.py`). Finds every leftmost, non-overlapping,
  lazy match of `(Public|Private|Protected|Friend)\s+Sub\s+…End\s+Sub` in each
  `.vb` file and records it with its file path.

There is one Dafny module per source file, plus `Common` for the pieces of
Python they share:

- `str.lower` on ASCII and the `\s` / `str.isspace` character set;
- `strip`, `splitext`, POSIX `join` and `relpath`;
- the `errors="ignore"` decoder and the universal-newline translation of
  text-mode reads;
- `Counter` occurrence counts and first-occurrence order;
- `str.replace` (leftmost, non-overlapping).

The environment becomes input, not I/O:

- **Directory walk.** A sequence of `WalkFile(dirs, name, content)` in walk
  order. `dirs` are the directory components below the root.
- **File content.** Either `Unreadable(reason)` or the decoder's units. A
  unit is a character or an undecodable byte.
- **Summariser.** `llm.generate` is a function from (index of the file being
  summarised, prompt) to `Returned(text)` or `Raised(message)`.
- **HTTP.** `requests.post` is a function from the attempt number to a
  `Response`.
- **Sleeps.** Recorded as a sequence of seconds.
- **Cache file.** Each write is recorded as a snapshot of the whole map.

The code is imperative in a few places, and each of those is a Dafny `method`
with a loop. The method is proved equal to a specification function, and the
lemmas are about that function. The places are:

- the label walk of the router;
- the index-building walk of the analyser;
- the cache loop of the annotator;
- the Gemini attempt loop;
- `chunk_text`;
- the file loop of the VB parser.

The rest is written as functions.

Some behaviours of the code worth knowing:

- A cached key is never summarised again.
- Only HTTP 429 is retried. Timeouts, other transport errors and error
  statuses end the call at once with a `⚠` string.
- A malformed cache file makes `json.load` raise; this is not modelled.
- A missing repository root is an empty walk.
- `chunk_text` can loop for ever when `overlap >= size` and the text is
  longer than `size`: `chunk_text("abc", 1, 1)` restarts at 0 after every
  chunk (ingest_codebase.py:54). A text of at most `size` characters still
  ends after one chunk (ingest_codebase.py:52-53), so `chunk_text("abc", 5, 5)`
  is `["abc"]`. The model requires `0 < size && overlap < size`. That holds for
  the defaults (1500 and 200) and for the only call, `chunk_text(full)`
  (ingest_codebase.py:61). It also excludes some inputs on which the code
  ends, such as `("abc", 5, 5)`, or a `size <= 0` with a negative overlap.

## Model

| member | source | states |
|---|---|---|
| Common.Lower | agents/router_agent.py:26 | `str.lower` on ASCII: same length, each upper-case letter shifted, every other character kept |
| Common.LowerIdempotent | agents/router_agent.py:26 | lower-casing twice is lower-casing once |
| Common.SkipSpaces | agents/analyser_agent.py:11 | greedy `\s*`: stops at the end or at the first non-space, and everything skipped is whitespace |
| Common.Strip | ai_provider.py:74 | `str.strip`: a contiguous slice of the input with only whitespace before and after it, no whitespace at either end of it; all-whitespace input gives `""` |
| Common.Take | agents/annotator_agent.py:17 | `s[:n]` for `n >= 0`: the prefix of length `min(n, len(s))` |
| Common.Ext | agents/router_agent.py:26 | `os.path.splitext(f)[-1]`: either empty or a suffix of the name that starts with `.` and has no other `.` or `/` |
| Common.ExtCharacterised | agents/router_agent.py:26 | a non-empty extension has a non-dot character before it in the last component; an empty one means every dot of the last component has only dots before it there |
| Common.ExtOfName | agents/router_agent.py:26 | a name `stem.x` (stem not all dots, no dot in `x`, no `/`) has the extension `.x` |
| Common.JoinPath | agents/annotator_agent.py:46 | `os.path.join` discards the left part when the right part is absolute |
| Common.Basename | agents/analyser_agent.py:36 | `os.path.basename`: the suffix of the path after its last `/` (the whole path when it has none), itself without `/` |
| Common.DecodeIgnoring | agents/analyser_agent.py:17 | `errors="ignore"`: never longer than the input, equal to the characters when every unit decodes |
| Common.DecodeAppend | agents/analyser_agent.py:17 | decoding distributes over concatenation |
| Common.DecodeDropsBadBytes | agents/analyser_agent.py:17 | an undecodable byte at either end contributes nothing, so decoding never fails |
| Common.Newlines | agents/analyser_agent.py:17-18 | universal newlines: never longer, no `\r` left, a text without `\r` unchanged |
| Common.NewlinesPrefix | agents/analyser_agent.py:17-18 | text holding no `\r` passes through the translation unchanged, whatever follows it |
| Common.NewlinesCrLf | agents/analyser_agent.py:17-18 | a `\r\n` pair after `\r`-free text becomes one `\n` |
| Common.NewlinesCr | vb_parser.py:7-8 | a lone `\r` after `\r`-free text becomes `\n` |
| Common.ReadText | vb_parser.py:7-8 | a text-mode read with `errors="ignore"`: no longer than the units, and no `\r` in it |
| Common.RelRoot | agents/analyser_agent.py:46 | `os.path.relpath(root, repo)` is `.` at the root |
| Common.RelPathAtRoot | agents/analyser_agent.py:55 | a file directly under the root gets the relative path `./name` |
| Common.Distinct | agents/router_agent.py:33 | `Counter` key order: no duplicates, and exactly the elements of the input |
| Common.DistinctOrder | agents/router_agent.py:35 | the distinct keys are in order of first occurrence |
| Common.FirstIndex | agents/router_agent.py:33-34 | the first index of an element, none before it equal |
| Common.ExtsOf | agents/router_agent.py:24-26 | one lower-cased extension per walked file, in walk order |
| Common.CountsSumToLength | agents/router_agent.py:33 | the counts of the distinct elements add up to the length |
| Router.LabelsFor | agents/router_agent.py:27-28 | only table values, no more labels than extensions; a single extension gives its `LANG_MAP` value when it is a key and nothing otherwise |
| Router.LabelsForEmpty | agents/router_agent.py:27-29 | no label iff no extension is a key of `LANG_MAP` |
| Router.LabelsEmpty | agents/router_agent.py:24-31 | no label iff no walked file is recognised |
| Router.LabelsAppend | agents/router_agent.py:24-28 | the label list of a walk is the concatenation of those of its parts |
| Router.UnknownContributesNothing | agents/router_agent.py:27 | removing a file with an unknown extension from anywhere in the walk leaves the labels unchanged |
| Router.CaseInsensitiveLookup | agents/router_agent.py:26 | renaming a file to another extension with the same lower-case form leaves the labels unchanged |
| Router.CollectLabels | agents/router_agent.py:23-28 | the loop appends exactly `Labels(files)` |
| Router.Tally | agents/router_agent.py:33 | `Counter`: keys are the labels seen, each mapped to its number of occurrences, at least 1 |
| Router.MostCommonIndex | agents/router_agent.py:34 | `most_common(1)`: a key with the maximum count, strictly above every key before it |
| Router.Without | agents/router_agent.py:35 | the keys other than primary, without duplicates |
| Router.Summarise | agents/router_agent.py:29-37 | None iff no label; otherwise the primary has the maximum count and the earliest first occurrence among ties, the primary is not in secondary, secondary has no duplicates, and primary plus secondary are exactly the count keys |
| Router.PrimaryTieBreak | agents/router_agent.py:33-34 | every label with the primary's count first occurs no earlier than the primary |
| Router.SecondaryOrder | agents/router_agent.py:35 | secondary languages are in order of first occurrence |
| Router.DetectLanguages | agents/router_agent.py:21-45 | the report of the walk; None iff no file is recognised; every count key is a `LANG_MAP` value |
| Router.ReportCounts | agents/router_agent.py:7-33 | every count is at least 1 and a table value, and the counts add up to the number of recognised files |
| Router.LabelsCount | agents/router_agent.py:24-28 | there is one label per walked file whose extension is a `LANG_MAP` key |
| Router.ExampleSummary | agents/router_agent.py:33-37 | two Python and two VB.NET labels give primary Python (first seen), secondary VB.NET, counts 2 and 2 |
| Router.TieBreakExample | agents/router_agent.py:24-37 | the walk `a.py, a.vb, a.py, a.vb` reports Python as primary (seen first among two languages tied at 2), VB.NET as secondary |
| Analyser.SkipSymbol | agents/analyser_agent.py:11 | greedy `[A-Za-z0-9_.]+` run: maximal, and every character skipped is in the class |
| Analyser.ImportAt | agents/analyser_agent.py:11 | a match at a position ends after it, captures a non-empty maximal symbol run that ends the match |
| Analyser.ImportAtSound | agents/analyser_agent.py:11 | a match begins at a line start and reads spaces, `Imports`, at least one space, the symbol |
| Analyser.ImportAtComplete | agents/analyser_agent.py:11 | every such line-start text with a maximal symbol is matched, capturing that symbol |
| Analyser.Scan | agents/analyser_agent.py:19 | `findall`: every span found is a match at its start, and the spans are in order and do not overlap |
| Analyser.ScanLeftmost | agents/analyser_agent.py:19 | no match starts at a position the scan skipped |
| Analyser.Symbols | agents/analyser_agent.py:19 | one captured group per match, in order |
| Analyser.FindImports | agents/analyser_agent.py:19 | every import is a non-empty run of `[A-Za-z0-9_.]` |
| Analyser.ExtractImports | agents/analyser_agent.py:14-21 | an unreadable file gives `[]`; otherwise every import is a non-empty run of `[A-Za-z0-9_.]` |
| Analyser.ScenarioImports | agents/analyser_agent.py:11 | two `Imports` lines (one indented) yield both symbols in order, and the commented line `' Imports Fake.Thing` yields nothing |
| Analyser.ScenarioLineEndings | agents/analyser_agent.py:11-19 | the same lines ended by `\r\n` and a lone `\r` still yield both symbols in order, because the read turns the endings into `\n` |
| Analyser.LowerCaseKeyword | agents/analyser_agent.py:11 | `imports A` yields nothing: the keyword is case-sensitive |
| Analyser.Append | agents/analyser_agent.py:57 | `defaultdict(list)` append: that key gains the value at the end, every other key unchanged, key order kept sound |
| Analyser.Put | agents/analyser_agent.py:70 | dictionary assignment: that key holds the value, every other key unchanged |
| Analyser.VbImports | agents/analyser_agent.py:67-68 | only `.vb` files are scanned, and they are scanned with `extract_imports_from_vb` |
| Analyser.Records | agents/analyser_agent.py:52-55 | one record per walked file, in walk order |
| Analyser.RecordExts | agents/analyser_agent.py:53 | the records carry the walk's lower-cased extensions |
| Analyser.AnalyzeRepoStructure | agents/analyser_agent.py:35-70 | the summary: root is the basename; extension keys are the walk's distinct extensions in first-seen order; each bucket is the relative paths with that extension in walk order; the dependency index is that of the records |
| Analyser.AddRecord | agents/analyser_agent.py:57 | one loop step keeps the extension index equal to the buckets of the records seen so far |
| Analyser.BucketSize | agents/analyser_agent.py:57 | a bucket has as many paths as the walk has files with that extension |
| Analyser.BucketHolds | agents/analyser_agent.py:57 | every walked file's relative path is in its extension's bucket |
| Analyser.ExtensionIndexCoversWalk | agents/analyser_agent.py:52-57 | the bucket sizes add up to the number of walked files, so each file is listed exactly once |
| Analyser.DepKeys | agents/analyser_agent.py:69-70 | a dependency key exists iff some record has that path and a non-empty import list |
| Analyser.DepEntry | agents/analyser_agent.py:70 | the entry of a path is the import list of its last record |
| Analyser.DependencySources | agents/analyser_agent.py:67-70 | a dependency key exists iff some walked `.vb` file has that relative path and a non-empty import list |
| Annotator.SplitLines | agents/annotator_agent.py:17 | `splitlines()`: no line holds a line break |
| Annotator.JoinSplitLines | agents/annotator_agent.py:17 | joining the lines of a `\n`-only text with `\n` gives the text without its final newline |
| Annotator.Excerpt | agents/annotator_agent.py:17 | the excerpt is at most 6000 characters |
| Annotator.ShortFileExcerpt | agents/annotator_agent.py:17 | a file of at most 200 lines gives its first 6000 characters (final newline dropped) |
| Annotator.Prompt | agents/annotator_agent.py:18-21 | the prompt opens with the instruction, then two newlines and the opening `vbnet` fence line, then the excerpt unchanged, and ends with a newline and the closing fence: 15 characters more than instruction and excerpt |
| Annotator.SummarizeFile | agents/annotator_agent.py:11-27 | never empty; a read failure or an exception gives the `⚠ Exception while summarizing:` message; an empty reply gives `⚠ No summary generated.`; any other reply is returned |
| Annotator.FailuresAreMarked | agents/annotator_agent.py:24-27 | every result that is not the summariser's own reply starts with `⚠` |
| Annotator.AnnotateRepository | agents/annotator_agent.py:30-57 | the loop returns the map, the summarised paths, the snapshots written and the pauses of `Run` |
| Annotator.RunConsistent | agents/annotator_agent.py:43-54 | the run keeps its invariant: the map keeps every cached value, its keys are the cache's and the summarised paths, no cached path is summarised, none twice, and there is one save and one 2-second pause per summarised path |
| Annotator.CachedPathsUntouched | agents/annotator_agent.py:47-49 | a cached path is never summarised and keeps its stored value, `⚠` placeholders included |
| Annotator.RunGrows | agents/annotator_agent.py:43-49 | a longer walk extends the map and the list of summarised paths |
| Annotator.EligibleCovered | agents/annotator_agent.py:45-49 | every allowed walked path is a key of the result |
| Annotator.SummarizedEligible | agents/annotator_agent.py:45-48 | every summarised path is an allowed walked path |
| Annotator.AnnotationKeys | agents/annotator_agent.py:38-57 | the result's keys are exactly the cache's keys and the allowed walked paths |
| Annotator.NothingToDo | agents/annotator_agent.py:47 | when every allowed path is cached, nothing is summarised, saved or paused, and the cache is returned |
| Annotator.Idempotent | agents/annotator_agent.py:47 | a second run from the returned map makes no summariser call and returns the same map |
| Annotator.SaveContents | agents/annotator_agent.py:48-54 | the k-th save holds the cache plus the first k+1 new paths, each with its final value |
| Annotator.SavesAreIncremental | agents/annotator_agent.py:49-54 | each save is the previous one (the loaded cache for the first) plus the next summarised entry |
| Annotator.Resume | agents/annotator_agent.py:38-54 | restarting from the k-th save — with a summariser that answers as the remaining calls would — summarises exactly the unsaved paths and ends with the same map |
| Annotator.DefaultAllowList | agents/annotator_agent.py:30 | with the default allow-list a `.txt` file is not eligible |
| AiProvider.FromEnvironment | ai_provider.py:11-14 | the provider is `AI_PROVIDER` when set, else `gemini`; the model is `MODEL` when set, else `gemini-2.0-flash-lite`; the key is `GEMINI_API_KEY` when truthy, else `OPENROUTER_API_KEY` |
| AiProvider.DefaultSettings | ai_provider.py:12-48 | with neither `AI_PROVIDER` nor `MODEL` set, the call goes to the Gemini backend at the lite model's URL |
| AiProvider.ReplaceCharGone | ai_provider.py:44-45 | replacing every occurrence of a character by text without it removes it |
| AiProvider.ReplaceCharMap | ai_provider.py:45 | replacing `\r` by a space maps the string character by character |
| AiProvider.LeadTicksUnfenced | ai_provider.py:43 | removing fences leaves the leading run of backticks modulo 3 |
| AiProvider.UnfencedHasNoFence | ai_provider.py:43 | after `replace("```", "")` no three backticks remain |
| AiProvider.CleanPrompt | ai_provider.py:42-46 | the cleaning as written: at most 10000 characters, no NUL, no `\r` |
| AiProvider.FenceSurvivesAsWritten | ai_provider.py:42-46 | as written, the prompt `` ``\0` `` is cleaned to a fence |
| AiProvider.CleanPromptFenceFree | ai_provider.py:42-46 | the corrected cleaning: at most 10000 characters, no NUL, no `\r` and no fence |
| AiProvider.SanitisersAgreeWithoutNul | ai_provider.py:42-46 | without NUL characters the corrected cleaning equals the one written |
| AiProvider.NoMatchUnchanged | ai_provider.py:44 | a single-character replace that finds nothing leaves the string unchanged |
| AiProvider.DecimalString | ai_provider.py:67 | the decimal form of a status code is non-empty |
| AiProvider.Interpret | ai_provider.py:70-80 | an unparsable body gives the network-error message; the first part's text is returned stripped; an `error` body gives `⚠ Gemini API error: ` followed by its message, or `unknown error` when it has none; any other body gives the 300-character dump; every non-answer starts with `⚠` |
| AiProvider.StatusError | ai_provider.py:65-67 | an error status gives a `⚠` message |
| AiProvider.Backoff | ai_provider.py:63 | the k-th pause is 8·(k+1) seconds |
| AiProvider.TriesAfterRateLimits | ai_provider.py:60-64 | after `a` rate-limited attempts, the call continues as from attempt `a`, with `a` more requests and pauses 8, …, 8·a before it |
| AiProvider.GeminiReply | ai_provider.py:35-82 | a missing key gives the key-missing message with no request; otherwise reply, pauses and request count are those of the attempts from 0, and every request goes to the model's URL with the prompt cleaned as written |
| AiProvider.CallGemini | ai_provider.py:35-82 | the loop's reply, requests sent and pauses are those of `GeminiReply` |
| AiProvider.SentBounds | ai_provider.py:60 | from attempt `a`, at least one and at most `3 - a` requests are sent |
| AiProvider.OnlyRateLimitsRetry | ai_provider.py:62-64 | every attempt followed by another one was answered with 429 |
| AiProvider.PauseSchedule | ai_provider.py:62-64 | the pauses are 8·k for the k-th 429, each follows a 429, and the last attempt pauses only if it too was a 429 |
| AiProvider.ThreeRateLimits | ai_provider.py:60-82 | three 429s give `⚠ Gemini returned no content.` after three requests and pauses 8, 16, 24 |
| AiProvider.ErrorStatusEndsCall | ai_provider.py:65-67 | an error status other than 429 ends the call with its message, with no further request |
| AiProvider.FailuresAreMarked | ai_provider.py:59-82 | when no attempt yields a text answer, the reply starts with `⚠` |
| AiProvider.MissingKeySendsNothing | ai_provider.py:40-41 | a missing key gives the key-missing message, with no request and no pause |
| AiProvider.RequestsCarryCleanPrompt | ai_provider.py:42-61 | every request carries the prompt cleaned as written: at most 10000 characters, no NUL, no `\r`, and no fence when the prompt had no NUL |
| AiProvider.GeminiReplyBounds | ai_provider.py:59-64 | with a key, one to three requests and at most three pauses |
| AiProvider.Generate | ai_provider.py:22-33 | gemini runs the Gemini call; the other three names go to their backends with no Gemini request; any other name raises `Unknown AI provider: <name>` |
| AiProvider.DispatchIgnoresCase | ai_provider.py:23-26 | `Gemini` and `GEMINI` reach the Gemini backend, `Ollama` another backend, because the name is lower-cased first; unlowered, `Gemini` matches nothing |
| AiProvider.DispatchNames | ai_provider.py:24-33 | a backend is found iff the lower-cased name is gemini, openrouter, huggingface or ollama |
| Ingest.Windows | ingest_codebase.py:46-55 | no chunk iff the start is at or past the end, so an empty text gives no chunk |
| Ingest.ChunkText | ingest_codebase.py:41-55 | the loop appends exactly the windows from 0; it ends because `overlap < size` |
| Ingest.WindowAt | ingest_codebase.py:49-54 | the k-th window from a start begins k strides in and is the text up to `min(p + size, len)`; only the last reaches the end |
| Ingest.ChunkAt | ingest_codebase.py:46-54 | chunk k starts at k·(size-overlap); it is at most `size` long, exactly `size` unless last, and the last ends at `len(text)` when overlap ≥ 0 |
| Ingest.FirstChunk | ingest_codebase.py:46-50 | the first chunk is the text's first `min(size, len)` characters |
| Ingest.SharedOverlap | ingest_codebase.py:54 | consecutive chunks share exactly `overlap` characters |
| Ingest.NegativeOverlapSkips | ingest_codebase.py:54 | with a negative overlap `chunk_text("abcd", 2, -2)` is `["ab"]`: text is skipped |
| Ingest.ChunkRoundTrip | ingest_codebase.py:46-54 | the first chunk followed by each later chunk without its first `overlap` characters is the text |
| Ingest.TilesWithoutOverlap | ingest_codebase.py:46-54 | with overlap 0 the chunks concatenate to the text |
| PairProgrammer.SplitIsWindows | ai_pair_programmer.py:16 | the fixed split is `chunk_text` with size 6000 and no overlap |
| PairProgrammer.FixedChunksTile | ai_pair_programmer.py:8-16 | the chunks concatenate to the code text; each is 1 to 6000 characters long; all but the last are 6000 |
| PairProgrammer.Count | ai_pair_programmer.py:21 | `str.count` of the empty string is `len + 1` |
| PairProgrammer.CountMatchesReplace | ai_pair_programmer.py:21 | the count is the number of non-overlapping occurrences that `replace` rewrites |
| PairProgrammer.CountFits | ai_pair_programmer.py:21 | the occurrences counted fit in the text side by side |
| PairProgrammer.ScoreIgnoresCase | ai_pair_programmer.py:21 | the score does not change when chunk and query are lower-cased |
| PairProgrammer.Scores | ai_pair_programmer.py:21 | one scored entry per chunk, in chunk order |
| PairProgrammer.Insert | ai_pair_programmer.py:22 | insertion adds exactly the one element |
| PairProgrammer.SortByCount | ai_pair_programmer.py:22 | the sort is a permutation |
| PairProgrammer.InsertDescending | ai_pair_programmer.py:22 | insertion keeps scores non-increasing |
| PairProgrammer.InsertStable | ai_pair_programmer.py:22 | inserting a later chunk keeps equal scores in chunk order |
| PairProgrammer.SortOrder | ai_pair_programmer.py:22 | stable `sort(reverse=True)`: scores non-increasing, ties in chunk order |
| PairProgrammer.RelevantChunks | ai_pair_programmer.py:19-23 | `min(3, len(chunks))` texts, the k-th being the text of the k-th entry of the ranking |
| PairProgrammer.RelevantAreChunks | ai_pair_programmer.py:19-23 | the k-th result is the chunk whose index the k-th ranked entry carries, with that chunk's score |
| PairProgrammer.RankedEntries | ai_pair_programmer.py:21-22 | the ranking holds each chunk exactly once, with its index and score |
| PairProgrammer.RelevantOrder | ai_pair_programmer.py:21-23 | of two results, each is the chunk its ranked entry names, the earlier scores at least as high, and on equal scores it comes earlier among the chunks |
| PairProgrammer.LeftOutScoresLower | ai_pair_programmer.py:22-23 | a chunk left out means three were chosen, and it scores no more than the last of them |
| PairProgrammer.AskPrompt | ai_pair_programmer.py:29-33 | the prompt's length is the fixed parts plus the question plus `min(15000, len(context))` |
| PairProgrammer.PromptLayout | ai_pair_programmer.py:29-33 | the prompt starts with the intro, holds the question at its offset, and ends with the context's first characters |
| PairProgrammer.ContextLength | ai_pair_programmer.py:28 | the context is the chunks plus one separator between each two |
| PairProgrammer.ContextStartsWithBest | ai_pair_programmer.py:28 | the context starts with the best chunk |
| VbParser.ModifierAt | vb_parser.py:10 | a keyword is found iff one of the four starts there |
| VbParser.ModifierUnique | vb_parser.py:10 | the keyword starting at a position is the one found |
| VbParser.HeaderAt | vb_parser.py:10 | a header is a keyword, at least one space, `Sub`, at least one space (greedily skipped) |
| VbParser.HeaderAtComplete | vb_parser.py:10 | every keyword–spaces–`Sub`–space text is recognised as a header |
| VbParser.EndSubAt | vb_parser.py:10 | an end is `End`, at least one space, `Sub` |
| VbParser.FirstEndSub | vb_parser.py:10 | the lazy body: the first `End\s+Sub` with none before it, or none at all |
| VbParser.MethodAt | vb_parser.py:10 | a match ends after its start, within the text |
| VbParser.MethodShape | vb_parser.py:10 | a match is a header followed by the body up to the first end after it |
| VbParser.NeedsModifier | vb_parser.py:10 | no match starts without one of the four keywords |
| VbParser.Scan | vb_parser.py:9-11 | `findall`: every span is a match at its start, in order and not overlapping |
| VbParser.ScanLeftmost | vb_parser.py:9-11 | no match starts at a position the scan skipped |
| VbParser.Texts | vb_parser.py:9-11 | the texts are the spans' slices, in order |
| VbParser.FindMethods | vb_parser.py:9-11 | one method text per match |
| VbParser.MethodsFraming | vb_parser.py:10 | every extracted method opens with one of the four keywords and ends with `Sub` |
| VbParser.SharedIsNotAHeader | vb_parser.py:10 | `Public Shared Sub A()` does not start a match |
| VbParser.LowerCaseIsNotAHeader | vb_parser.py:10 | `public sub a()` does not start a match |
| VbParser.RecordsOf | vb_parser.py:12-13 | one record per match, with the file's path |
| VbParser.FileMethodsHaveNoCr | vb_parser.py:7-11 | the method texts of a file read in text mode hold no `\r`, whatever its line endings |
| VbParser.ExtractVbMethods | vb_parser.py:4-15 | the loop yields exactly `Extracted(files)`, including the failure at the first unreadable file |
| VbParser.FailureSticks | vb_parser.py:7-8 | once a file fails to open, the whole extraction fails with that error |
| VbParser.SucceedsIffReadable | vb_parser.py:6-8 | extraction succeeds iff every file can be opened |
| VbParser.RecordsAccount | vb_parser.py:12-14 | the record count is the sum of per-file matches, and each record is a match of the file whose path it carries |

## Left out

- The directory walk order of `os.walk` and the file list of `glob` are inputs (the sequence of walked or globbed files), not computed.
- Opening and reading files is an input too: content is either a read failure or the decoder's output units. Grouping bytes into UTF-8 characters is not modelled; what is modelled is that `errors="ignore"` drops the undecodable units.
- JSON loading and dumping: the cache file is the `cache` map given to a run, and each write is a snapshot of the map. Key order in the written JSON is not modelled, because Dafny maps are unordered. A malformed cache file makes `json.load` raise; that path is not modelled.
- `time.sleep` is a recorded list of seconds; the clock, the `timeout=60` of each request and the `analyzed_at` timestamp are not modelled.
- HTTP: `requests.post` is a function from attempt number to a response (a transport error, or a status, reason, text and parsed body). `r.raise_for_status()` can only pass after the `>= 400` check, so it is not modelled. An unparsable body is a `requests` exception, as `JSONDecodeError` is in `requests`.
- Interpret: a body whose parts are not dictionaries, whose text is not a string, or that is not a dictionary at all (which raise `AttributeError` or `TypeError` in the code) is not modelled. An `error` value that is not a dictionary (which raises `AttributeError`) is not modelled either. An error `message` that is JSON `null` is printed as `None` by the code; the model's `Option<string>` message does not tell it from an absent one, so both give `unknown error`. The JSON dump of the body is an input string.
- `_call_openrouter`, `_call_huggingface` and `_call_ollama` are one outcome function passed to `Generate` (thin JSON wrappers over HTTP).
- Lower-casing covers ASCII only: non-ASCII letters are kept as they are. This affects `str.lower` in the router and analyser, and `.lower()` of chunks and queries in the pair programmer.
- The rich console output, the directory `Tree` and its text cleanup (agents/analyser_agent.py:42-50, 59-64, 72-80), `return_tree`, and the printed method count (vb_parser.py:14) are not modelled.
- The report files written by the router and analyser (`reports/*.json`) are not modelled; their content is the returned value, which is modelled.
- ask_ai's request payload, the POST to OpenRouter and the reading of its answer (ai_pair_programmer.py:35-55) are not modelled. The loading of `codebase_digest.txt` is the `text` input.
- `ingest_digest`, the chromadb setup and the embedding function in `ingest_codebase.py` are not modelled.
- The code base digest read by the pair programmer and the files read by `ingest_codebase.py` are taken as already read text, that is after newline translation; the readers of the analyser, annotator and VB parser model that translation (ReadText).
- Ingest.ChunkAt: the end-of-text clause holds only for `overlap >= 0`. With a negative overlap the code skips text (NegativeOverlapSkips).

## Findings

| source | as written | input that shows it | evidently intended | confidence | as-written member | corrected member |
|---|---|---|---|---|---|---|
| ai_provider.py:42-46 | fences are removed before NUL characters, so removing a NUL can join backticks into a new fence | the prompt `` ``\0` `` (two backticks, NUL, backtick) is cleaned to ```` ``` ```` | the cleaned prompt holds no code fence | not executed | AiProvider.FenceSurvivesAsWritten | AiProvider.CleanPromptFenceFree |
