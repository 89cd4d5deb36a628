/** The annotator agent (agents/annotator_agent.py): a one-line summary per
    source file, kept in a cache keyed by absolute path that is loaded at
    the start, extended only with missing paths, and saved after every new
    entry. */
module Annotator {
  import opened Common

  // ---------------------------------------------------------------- excerpt

  /** The line boundaries of `str.splitlines()`. */
  predicate IsLineBreak(c: char) {
    c == '\n' || c == '\r' || c == '\U{B}' || c == '\U{C}' || c == '\U{1C}' || c == '\U{1D}' ||
    c == '\U{1E}' || c == '\U{85}' || c == '\U{2028}' || c == '\U{2029}'
  }

  predicate NoLineBreak(s: string) {
    forall i :: 0 <= i < |s| ==> !IsLineBreak(s[i])
  }

  /** The first line boundary at or after `i`, or the end of the text. */
  function NextBreak(s: string, i: nat): (j: nat)
    requires i <= |s|
    ensures i <= j <= |s|
    ensures NoLineBreak(s[i..j])
    ensures j < |s| ==> IsLineBreak(s[j])
    decreases |s| - i
  {
    if i == |s| || IsLineBreak(s[i]) then i else NextBreak(s, i + 1)
  }

  /** The lines from position `i`: a `\r\n` pair is one boundary, and a
      final boundary does not open an empty last line. */
  function SplitFrom(s: string, i: nat): (lines: seq<string>)
    requires i <= |s|
    ensures forall k :: 0 <= k < |lines| ==> NoLineBreak(lines[k])
    decreases |s| - i
  {
    if i == |s| then []
    else
      var j := NextBreak(s, i);
      if j == |s| then [s[i..]]
      else
        var next := if s[j] == '\r' && j + 1 < |s| && s[j + 1] == '\n' then j + 2 else j + 1;
        [s[i..j]] + SplitFrom(s, next)
  }

  /** `str.splitlines()`. */
  function SplitLines(s: string): (lines: seq<string>)
    ensures forall k :: 0 <= k < |lines| ==> NoLineBreak(lines[k])
  {
    SplitFrom(s, 0)
  }

  /** The only line boundaries of `s` are `\n`. */
  predicate UnixText(s: string) {
    forall i :: 0 <= i < |s| ==> IsLineBreak(s[i]) ==> s[i] == '\n'
  }

  /** `s` without one trailing `\n`. */
  function Chomp(s: string): string {
    if s != [] && s[|s| - 1] == '\n' then s[..|s| - 1] else s
  }

  /** A line that ends at a `\n` is followed by the lines after it. */
  lemma SplitAtNewline(s: string, i: nat)
    requires i < |s| && NextBreak(s, i) < |s| && s[NextBreak(s, i)] == '\n'
    ensures SplitFrom(s, i) == [s[i..NextBreak(s, i)]] + SplitFrom(s, NextBreak(s, i) + 1)
  {
  }

  lemma ChompLine(s: string, i: nat, j: nat)
    requires i <= j && j + 1 == |s| && s[j] == '\n'
    ensures Chomp(s[i..]) == s[i..j]
  {
  }

  lemma ChompAfterLine(s: string, i: nat, j: nat)
    requires i <= j && j + 1 < |s| && s[j] == '\n'
    ensures Chomp(s[i..]) == s[i..j] + "\n" + Chomp(s[j + 1..])
  {
    assert s[i..] == s[i..j] + "\n" + s[j + 1..];
  }

  lemma {:induction false} JoinSplitFrom(s: string, i: nat)
    requires i <= |s| && UnixText(s)
    ensures Join("\n", SplitFrom(s, i)) == Chomp(s[i..])
    decreases |s| - i
  {
    if i < |s| {
      var j := NextBreak(s, i);
      if j < |s| {
        assert s[j] == '\n';
        SplitAtNewline(s, i);
        JoinSplitFrom(s, j + 1);
        if j + 1 == |s| {
          ChompLine(s, i, j);
        } else {
          JoinCons("\n", s[i..j], SplitFrom(s, j + 1));
          ChompAfterLine(s, i, j);
        }
      }
    }
  }

  /** Joining the lines of a text whose only boundaries are `\n` gives the
      text back, less one trailing `\n`. */
  lemma JoinSplitLines(s: string)
    requires UnixText(s)
    ensures Join("\n", SplitLines(s)) == Chomp(s)
  {
    JoinSplitFrom(s, 0);
    assert s[0..] == s;
  }

  const MaxLines := 200
  const MaxExcerpt := 6000

  /** `"\n".join(content.splitlines()[:200])[:6000]`. */
  function Excerpt(content: string): (snippet: string)
    ensures |snippet| <= MaxExcerpt
  {
    Take(Join("\n", Take(SplitLines(content), MaxLines)), MaxExcerpt)
  }

  /** A file of at most 200 `\n`-separated lines is sent as it is, cut to 6000
      characters (and less a final newline). */
  lemma ShortFileExcerpt(content: string)
    requires UnixText(content) && |SplitLines(content)| <= MaxLines
    ensures Excerpt(content) == Take(Chomp(content), MaxExcerpt)
  {
    JoinSplitLines(content);
  }

  const Instruction: string :=
    "Summarize in one clear English line what this VB.NET or C# file does. Keep it under 20 words, no code."

  function Prompt(snippet: string): (p: string)
    ensures |p| == |Instruction| + |snippet| + 15
    ensures p[..|Instruction|] == Instruction
    ensures p[|Instruction|..|Instruction| + 11] == "\n\n```vbnet\n"
    ensures p[|Instruction| + 11..|Instruction| + 11 + |snippet|] == snippet
    ensures p[|p| - 4..] == "\n```"
  {
    Instruction + "\n\n```vbnet\n" + snippet + "\n```"
  }

  const NoSummary: string := Warn + "No summary generated."
  const ExceptionPrefix: string := Warn + "Exception while summarizing: "

  /** The summariser behind the k-th call of `summarize_file` in one run. */
  type Summarizer = (nat, string) -> Outcome

  /** `summarize_file` as the `call`-th call of a run: `service(call, ·)` is
      `llm.generate`. A failure to read the file or an exception from the
      summariser is caught and reported, and an empty answer is replaced. */
  function SummarizeFile(content: FileContent, service: Summarizer, call: nat): (summary: string)
    ensures summary != []
    ensures content.Unreadable? ==> summary == ExceptionPrefix + content.reason
    ensures content.Readable? ==>
              match service(call, Prompt(Excerpt(ReadText(content.units))))
              case Raised(e) => summary == ExceptionPrefix + e
              case Returned(t) => summary == if t == [] then NoSummary else t
  {
    match content
    case Unreadable(reason) => ExceptionPrefix + reason
    case Readable(units) =>
      match service(call, Prompt(Excerpt(ReadText(units))))
      case Raised(e) => ExceptionPrefix + e
      case Returned(t) => if t == [] then NoSummary else t
  }

  /** A failure is reported with a placeholder that starts with the warning sign. */
  lemma FailuresAreMarked(content: FileContent, service: Summarizer, call: nat)
    requires content.Unreadable? ||
             service(call, Prompt(Excerpt(ReadText(content.units)))) != Returned(SummarizeFile(content, service, call))
    ensures SummarizeFile(content, service, call)[..|Warn|] == Warn
  {
  }

  // ---------------------------------------------------------------- the cache loop

  const DefaultExtensions: seq<string> := [".vb", ".cs", ".py"]

  /** What a run has produced so far: the annotations, the paths summarised
      in order, the saved cache after each new entry and the pauses taken. */
  datatype RunState = RunState(
    annotations: map<string, string>,
    summarized: seq<string>,
    saves: seq<map<string, string>>,
    pauses: seq<nat>)

  const Pause: nat := 2

  predicate Eligible(extensions: seq<string>, f: WalkFile) {
    LowerExt(f.name) in extensions
  }

  /** A new entry: the annotations gain it, and it is recorded, saved and
      followed by a pause. */
  function Add(st: RunState, abs: string, summary: string): RunState {
    var ann := st.annotations[abs := summary];
    RunState(ann, st.summarized + [abs], st.saves + [ann], st.pauses + [Pause])
  }

  /** One walked file: summarise it when its extension is allowed and its
      absolute path is not yet a key. */
  function Step(repo: string, extensions: seq<string>, service: Summarizer, st: RunState, f: WalkFile): RunState {
    var abs := AbsPath(repo, f);
    if Eligible(extensions, f) && abs !in st.annotations then
      Add(st, abs, SummarizeFile(f.content, service, |st.summarized|))
    else st
  }

  function Run(repo: string, files: seq<WalkFile>, extensions: seq<string>,
               cache: map<string, string>, service: Summarizer): RunState
    decreases |files|
  {
    if files == [] then RunState(cache, [], [], [])
    else Step(repo, extensions, service, Run(repo, files[..|files| - 1], extensions, cache, service), files[|files| - 1])
  }

  /** `annotate_repository`: `cache` is what the saved file held when the run
      started, `files` the walk. */
  method AnnotateRepository(repo: string, files: seq<WalkFile>, extensions: seq<string>,
                            cache: map<string, string>, service: Summarizer)
    returns (annotations: map<string, string>, summarized: seq<string>,
             saves: seq<map<string, string>>, pauses: seq<nat>)
    ensures RunState(annotations, summarized, saves, pauses) == Run(repo, files, extensions, cache, service)
  {
    annotations := cache;
    summarized := [];
    saves := [];
    pauses := [];
    var i := 0;
    while i < |files|
      invariant 0 <= i <= |files|
      invariant RunState(annotations, summarized, saves, pauses) == Run(repo, files[..i], extensions, cache, service)
    {
      var file := files[i];
      var ext := LowerExt(file.name);
      var absPath := AbsPath(repo, file);
      RunLast(repo, files, extensions, cache, service, i + 1);
      if ext in extensions && absPath !in annotations {
        StepAdds(repo, extensions, service, Run(repo, files[..i], extensions, cache, service), file);
        var k := |summarized|;
        var summary := SummarizeFile(file.content, service, k);
        annotations := annotations[absPath := summary];
        summarized := summarized + [absPath];
        pauses := pauses + [Pause];
        saves := saves + [annotations];
      } else {
        StepSkips(repo, extensions, service, Run(repo, files[..i], extensions, cache, service), file);
      }
      i := i + 1;
    }
    assert files[..i] == files;
  }

  // ---------------------------------------------------------------- properties

  /** `a` is contained in `b`, values included. */
  ghost predicate Extends(b: map<string, string>, a: map<string, string>) {
    forall k :: k in a ==> k in b && b[k] == a[k]
  }

  /** What a save holds when `done` are the paths summarised so far: the
      cache and those paths, with their values in `ann`. */
  function Saved(cache: map<string, string>, ann: map<string, string>, done: seq<string>): map<string, string> {
    map key | key in ann && (key in cache || key in done) :: ann[key]
  }

  /** Facts every run keeps: the loaded cache is kept as it was, the keys are
      the cache's and the summarised paths, no cached path is summarised, no
      path is summarised twice, there is one save and one pause per new entry,
      and the k-th save holds the cache and the first k+1 summarised paths,
      each with its final value. */
  ghost predicate Consistent(cache: map<string, string>, st: RunState) {
    Extends(st.annotations, cache) &&
    (forall k :: k in st.annotations <==> k in cache || k in st.summarized) &&
    (forall i :: 0 <= i < |st.summarized| ==> st.summarized[i] !in cache) &&
    NoDuplicates(st.summarized) &&
    |st.saves| == |st.summarized| && |st.pauses| == |st.summarized| &&
    (forall i :: 0 <= i < |st.pauses| ==> st.pauses[i] == Pause) &&
    (forall k :: 0 <= k < |st.saves| ==> st.saves[k] == Saved(cache, st.annotations, st.summarized[..k + 1]))
  }

  /** A save only depends on the values of the paths it holds. */
  lemma SavedFrame(cache: map<string, string>, a: map<string, string>, b: map<string, string>, done: seq<string>)
    requires forall key :: (key in cache || key in done) ==> (key in a <==> key in b)
    requires forall key :: key in a && key in b ==> a[key] == b[key]
    ensures Saved(cache, a, done) == Saved(cache, b, done)
  {
  }

  /** With every key accounted for, the save is the whole map. */
  lemma SavedWhole(cache: map<string, string>, ann: map<string, string>, done: seq<string>)
    requires forall key :: key in ann <==> key in cache || key in done
    ensures Saved(cache, ann, done) == ann
  {
  }

  lemma AddKeepsConsistent(cache: map<string, string>, st: RunState, abs: string, summary: string)
    requires Consistent(cache, st) && abs !in st.annotations
    ensures Consistent(cache, Add(st, abs, summary))
    ensures Extends(Add(st, abs, summary).annotations, st.annotations)
  {
    var s := Add(st, abs, summary);
    var n := |st.summarized|;
    assert abs !in st.summarized && abs !in cache;
    forall i, j | 0 <= i < j < |s.summarized| ensures s.summarized[i] != s.summarized[j] {
      if j == n {
        assert s.summarized[i] == st.summarized[i];
      }
    }
    forall k | 0 <= k < |s.saves| ensures s.saves[k] == Saved(cache, s.annotations, s.summarized[..k + 1]) {
      if k < n {
        assert s.summarized[..k + 1] == st.summarized[..k + 1];
        assert s.saves[k] == st.saves[k];
        SavedFrame(cache, st.annotations, s.annotations, st.summarized[..k + 1]);
      } else {
        assert s.summarized[..k + 1] == s.summarized;
        SavedWhole(cache, s.annotations, s.summarized);
      }
    }
  }

  lemma StepKeepsConsistent(repo: string, extensions: seq<string>, service: Summarizer,
                            cache: map<string, string>, st: RunState, f: WalkFile)
    requires Consistent(cache, st)
    ensures Consistent(cache, Step(repo, extensions, service, st, f))
    ensures Extends(Step(repo, extensions, service, st, f).annotations, st.annotations)
  {
    var abs := AbsPath(repo, f);
    if Eligible(extensions, f) && abs !in st.annotations {
      AddKeepsConsistent(cache, st, abs, SummarizeFile(f.content, service, |st.summarized|));
    }
  }

  lemma {:induction false} RunConsistent(repo: string, files: seq<WalkFile>, extensions: seq<string>,
                                         cache: map<string, string>, service: Summarizer)
    ensures Consistent(cache, Run(repo, files, extensions, cache, service))
    decreases |files|
  {
    if files != [] {
      RunConsistent(repo, files[..|files| - 1], extensions, cache, service);
      StepKeepsConsistent(repo, extensions, service, cache,
                          Run(repo, files[..|files| - 1], extensions, cache, service), files[|files| - 1]);
    }
  }

  /** A path already in the cache is never summarised and keeps its value,
      whatever that value is (a `⚠` placeholder included). */
  lemma CachedPathsUntouched(repo: string, files: seq<WalkFile>, extensions: seq<string>,
                             cache: map<string, string>, service: Summarizer, k: string)
    requires k in cache
    ensures var r := Run(repo, files, extensions, cache, service);
            k !in r.summarized && k in r.annotations && r.annotations[k] == cache[k]
  {
    RunConsistent(repo, files, extensions, cache, service);
  }

  /** The annotations only grow along the walk. */
  lemma {:induction false} RunGrows(repo: string, files: seq<WalkFile>, extensions: seq<string>,
                                    cache: map<string, string>, service: Summarizer, n: nat)
    requires n <= |files|
    ensures Extends(Run(repo, files, extensions, cache, service).annotations,
                    Run(repo, files[..n], extensions, cache, service).annotations)
    ensures Run(repo, files[..n], extensions, cache, service).summarized <=
            Run(repo, files, extensions, cache, service).summarized
    decreases |files|
  {
    if n < |files| {
      var p := files[..|files| - 1];
      assert files[..n] == p[..n];
      RunGrows(repo, p, extensions, cache, service, n);
      RunConsistent(repo, p, extensions, cache, service);
      StepKeepsConsistent(repo, extensions, service, cache, Run(repo, p, extensions, cache, service), files[|files| - 1]);
    } else {
      assert files[..n] == files;
    }
  }

  /** The run over the first n files is the run over the first n-1 and one more step. */
  lemma RunLast(repo: string, files: seq<WalkFile>, extensions: seq<string>,
                cache: map<string, string>, service: Summarizer, n: nat)
    requires 0 < n <= |files|
    ensures Run(repo, files[..n], extensions, cache, service) ==
            Step(repo, extensions, service, Run(repo, files[..n - 1], extensions, cache, service), files[n - 1])
  {
    assert files[..n][..n - 1] == files[..n - 1];
  }

  lemma StepCovers(repo: string, extensions: seq<string>, service: Summarizer, st: RunState, f: WalkFile)
    requires Eligible(extensions, f)
    ensures AbsPath(repo, f) in Step(repo, extensions, service, st, f).annotations
  {
  }

  /** Every file with an allowed extension ends up with an entry. */
  lemma {:induction false} EligibleCovered(repo: string, files: seq<WalkFile>, extensions: seq<string>,
                                           cache: map<string, string>, service: Summarizer, i: nat)
    requires i < |files| && Eligible(extensions, files[i])
    ensures AbsPath(repo, files[i]) in Run(repo, files, extensions, cache, service).annotations
  {
    RunLast(repo, files, extensions, cache, service, i + 1);
    StepCovers(repo, extensions, service, Run(repo, files[..i], extensions, cache, service), files[i]);
    RunGrows(repo, files, extensions, cache, service, i + 1);
  }

  /** Every summarised path is that of a walked file with an allowed extension. */
  lemma {:induction false} SummarizedEligible(repo: string, files: seq<WalkFile>, extensions: seq<string>,
                                              cache: map<string, string>, service: Summarizer, k: nat)
    requires k < |Run(repo, files, extensions, cache, service).summarized|
    ensures exists i :: 0 <= i < |files| && Eligible(extensions, files[i]) &&
                        AbsPath(repo, files[i]) == Run(repo, files, extensions, cache, service).summarized[k]
    decreases |files|
  {
    var p := files[..|files| - 1];
    var f := files[|files| - 1];
    var st := Run(repo, p, extensions, cache, service);
    if k < |st.summarized| {
      SummarizedEligible(repo, p, extensions, cache, service, k);
      var i :| 0 <= i < |p| && Eligible(extensions, p[i]) && AbsPath(repo, p[i]) == st.summarized[k];
      assert files[i] == p[i];
    } else {
      assert Eligible(extensions, f);
    }
  }

  /** The returned map holds the cache and exactly the eligible walked paths besides. */
  lemma AnnotationKeys(repo: string, files: seq<WalkFile>, extensions: seq<string>,
                       cache: map<string, string>, service: Summarizer, k: string)
    ensures k in Run(repo, files, extensions, cache, service).annotations <==>
            k in cache || exists i :: 0 <= i < |files| && Eligible(extensions, files[i]) && AbsPath(repo, files[i]) == k
  {
    var r := Run(repo, files, extensions, cache, service);
    RunConsistent(repo, files, extensions, cache, service);
    if k in r.annotations && k !in cache {
      var n :| 0 <= n < |r.summarized| && r.summarized[n] == k;
      SummarizedEligible(repo, files, extensions, cache, service, n);
    }
    if exists i :: 0 <= i < |files| && Eligible(extensions, files[i]) && AbsPath(repo, files[i]) == k {
      var i :| 0 <= i < |files| && Eligible(extensions, files[i]) && AbsPath(repo, files[i]) == k;
      EligibleCovered(repo, files, extensions, cache, service, i);
    }
  }

  /** A cache that already holds every eligible path makes the run do nothing. */
  lemma {:induction false} NothingToDo(repo: string, files: seq<WalkFile>, extensions: seq<string>,
                                       cache: map<string, string>, service: Summarizer)
    requires forall i :: 0 <= i < |files| && Eligible(extensions, files[i]) ==> AbsPath(repo, files[i]) in cache
    ensures Run(repo, files, extensions, cache, service) == RunState(cache, [], [], [])
    decreases |files|
  {
    if files != [] {
      var p := files[..|files| - 1];
      forall i | 0 <= i < |p| && Eligible(extensions, p[i]) ensures AbsPath(repo, p[i]) in cache {
        assert p[i] == files[i];
      }
      NothingToDo(repo, p, extensions, cache, service);
    }
  }

  /** Idempotence: a second run over the same walk, starting from what the
      first one saved, calls the summariser zero times and returns the same map. */
  lemma Idempotent(repo: string, files: seq<WalkFile>, extensions: seq<string>,
                   cache: map<string, string>, service: Summarizer, again: Summarizer)
    ensures var first := Run(repo, files, extensions, cache, service).annotations;
            Run(repo, files, extensions, first, again) == RunState(first, [], [], [])
  {
    var first := Run(repo, files, extensions, cache, service).annotations;
    forall i | 0 <= i < |files| && Eligible(extensions, files[i]) ensures AbsPath(repo, files[i]) in first {
      EligibleCovered(repo, files, extensions, cache, service, i);
    }
    NothingToDo(repo, files, extensions, first, again);
  }

  /** The k-th save holds the cache and the first k+1 summarised paths, each
      with its final value. */
  lemma SaveContents(repo: string, files: seq<WalkFile>, extensions: seq<string>,
                     cache: map<string, string>, service: Summarizer, k: nat)
    requires k < |Run(repo, files, extensions, cache, service).saves|
    ensures var r := Run(repo, files, extensions, cache, service);
            k < |r.summarized| &&
            (forall key :: key in r.saves[k] <==> key in cache || key in r.summarized[..k + 1]) &&
            (forall key :: key in r.saves[k] ==> key in r.annotations && r.saves[k][key] == r.annotations[key])
  {
    RunConsistent(repo, files, extensions, cache, service);
  }

  /** Each save is the one before (the loaded cache for the first) with one
      more entry: the next summarised path with its final value. */
  lemma SavesAreIncremental(repo: string, files: seq<WalkFile>, extensions: seq<string>,
                            cache: map<string, string>, service: Summarizer, k: nat)
    requires k < |Run(repo, files, extensions, cache, service).saves|
    ensures var r := Run(repo, files, extensions, cache, service);
            k < |r.summarized| && r.summarized[k] in r.annotations &&
            r.saves[k] == (if k == 0 then cache else r.saves[k - 1])[r.summarized[k] := r.annotations[r.summarized[k]]]
  {
    RunConsistent(repo, files, extensions, cache, service);
    SaveChain(cache, Run(repo, files, extensions, cache, service), k);
  }

  lemma SaveChain(cache: map<string, string>, st: RunState, k: nat)
    requires Consistent(cache, st) && k < |st.saves|
    ensures k < |st.summarized| && st.summarized[k] in st.annotations
    ensures st.saves[k] == (if k == 0 then cache else st.saves[k - 1])[st.summarized[k] := st.annotations[st.summarized[k]]]
  {
    var x := st.summarized[k];
    assert st.summarized[..k + 1] == st.summarized[..k] + [x];
    if k == 0 {
      assert st.summarized[..1] == [x];
      assert Saved(cache, st.annotations, [x]) == cache[x := st.annotations[x]];
    } else {
      var d := st.summarized[..k];
      assert Saved(cache, st.annotations, d + [x]) == Saved(cache, st.annotations, d)[x := st.annotations[x]];
    }
  }

  /** How a run restarted from the save `mid` (the k-th of the run `r`)
      relates, after the same files, to the run `s` that wrote it. */
  ghost predicate Resumed(r: RunState, mid: map<string, string>, k: nat, s: RunState, t: RunState) {
    (forall key :: key in t.annotations <==> key in s.annotations || key in mid) &&
    (forall key :: key in t.annotations ==> key in r.annotations && t.annotations[key] == r.annotations[key]) &&
    t.summarized == (if |s.summarized| <= k + 1 then [] else s.summarized[k + 1..])
  }

  /** Which keys the k-th save of a consistent run holds. */
  lemma InSave(cache: map<string, string>, r: RunState, k: nat, x: string)
    requires Consistent(cache, r) && k < |r.saves|
    ensures x in r.saves[k] <==> x in cache || x in r.summarized[..k + 1]
  {
  }

  /** An entry the first run made at or before its k-th save is skipped by
      the restarted run. */
  lemma ResumeAddSaved(cache: map<string, string>, k: nat, r: RunState, s: RunState, t: RunState,
                       abs: string, v: string)
    requires Consistent(cache, r) && k < |r.saves|
    requires abs !in s.annotations && |s.summarized| <= k
    requires Extends(r.annotations, Add(s, abs, v).annotations) && s.summarized + [abs] <= r.summarized
    requires Resumed(r, r.saves[k], k, s, t)
    ensures abs in t.annotations && Resumed(r, r.saves[k], k, Add(s, abs, v), t)
  {
    var m := |s.summarized|;
    assert r.summarized[m] == (s.summarized + [abs])[m] == abs;
    assert r.summarized[..k + 1][m] == abs;
    InSave(cache, r, k, abs);
  }

  /** An entry the first run made after its k-th save is made again, with
      the same value. */
  lemma ResumeAddNew(cache: map<string, string>, k: nat, r: RunState, s: RunState, t: RunState,
                     abs: string, v: string)
    requires Consistent(cache, r) && k < |r.saves|
    requires abs !in s.annotations && k < |s.summarized|
    requires Extends(r.annotations, Add(s, abs, v).annotations) && s.summarized + [abs] <= r.summarized
    requires Resumed(r, r.saves[k], k, s, t)
    ensures abs !in t.annotations && |t.summarized| + k + 1 == |s.summarized|
    ensures Resumed(r, r.saves[k], k, Add(s, abs, v), Add(t, abs, v))
  {
    var m := |s.summarized|;
    assert r.summarized[m] == (s.summarized + [abs])[m] == abs;
    assert forall j :: 0 <= j <= k ==> r.summarized[j] != r.summarized[m];
    assert abs !in r.summarized[..k + 1];
    InSave(cache, r, k, abs);
    assert s.summarized[k + 1..] + [abs] == (s.summarized + [abs])[k + 1..];
  }

  /** A new entry of the first run is skipped by the restarted run when it
      was already saved, and added with the same value otherwise. */
  lemma ResumeAdd(cache: map<string, string>, k: nat, r: RunState, s: RunState, t: RunState,
                  abs: string, v: string)
    requires Consistent(cache, r) && k < |r.saves|
    requires abs !in s.annotations
    requires Extends(r.annotations, Add(s, abs, v).annotations) && s.summarized + [abs] <= r.summarized
    requires Resumed(r, r.saves[k], k, s, t)
    ensures abs in t.annotations <==> |s.summarized| <= k
    ensures abs in t.annotations ==> Resumed(r, r.saves[k], k, Add(s, abs, v), t)
    ensures abs !in t.annotations ==>
              |t.summarized| + k + 1 == |s.summarized| && Resumed(r, r.saves[k], k, Add(s, abs, v), Add(t, abs, v))
  {
    if |s.summarized| <= k {
      ResumeAddSaved(cache, k, r, s, t, abs, v);
    } else {
      ResumeAddNew(cache, k, r, s, t, abs, v);
    }
  }

  /** The restarted run's calls are the first run's, shifted by k+1. */
  lemma ShiftedSummary(content: FileContent, service: Summarizer, again: Summarizer, k: nat, m: nat)
    requires forall j: nat, p: string :: again(j, p) == service(j + k + 1, p)
    requires k + 1 <= m
    ensures SummarizeFile(content, again, m - (k + 1)) == SummarizeFile(content, service, m)
  {
    if content.Readable? {
      var q := Prompt(Excerpt(ReadText(content.units)));
      assert again(m - (k + 1), q) == service(m, q);
    }
  }

  /** Before any file, the restarted run holds the save and the first run the cache. */
  lemma ResumeStart(cache: map<string, string>, r: RunState, k: nat)
    requires Consistent(cache, r) && k < |r.saves|
    ensures Resumed(r, r.saves[k], k, RunState(cache, [], [], []), RunState(r.saves[k], [], [], []))
  {
    forall key | key in r.saves[k] ensures key in r.annotations && r.saves[k][key] == r.annotations[key] {
      InSave(cache, r, k, key);
    }
  }

  lemma StepAdds(repo: string, extensions: seq<string>, service: Summarizer, st: RunState, f: WalkFile)
    requires Eligible(extensions, f) && AbsPath(repo, f) !in st.annotations
    ensures Step(repo, extensions, service, st, f) ==
            Add(st, AbsPath(repo, f), SummarizeFile(f.content, service, |st.summarized|))
  {
  }

  lemma StepSkips(repo: string, extensions: seq<string>, service: Summarizer, st: RunState, f: WalkFile)
    requires !Eligible(extensions, f) || AbsPath(repo, f) in st.annotations
    ensures Step(repo, extensions, service, st, f) == st
  {
  }

  /** The restarted run summarises a missing file as the first run's call would. */
  lemma StepAgain(repo: string, extensions: seq<string>, service: Summarizer, again: Summarizer,
                  k: nat, t: RunState, f: WalkFile, m: nat)
    requires forall j: nat, p: string :: again(j, p) == service(j + k + 1, p)
    requires Eligible(extensions, f) && AbsPath(repo, f) !in t.annotations
    requires |t.summarized| + k + 1 == m
    ensures Step(repo, extensions, again, t, f) == Add(t, AbsPath(repo, f), SummarizeFile(f.content, service, m))
  {
    ShiftedSummary(f.content, service, again, k, m);
    StepAdds(repo, extensions, again, t, f);
  }

  lemma ResumeStep(repo: string, extensions: seq<string>, cache: map<string, string>,
                   service: Summarizer, again: Summarizer, k: nat,
                   r: RunState, s: RunState, t: RunState, f: WalkFile)
    requires forall j: nat, p: string :: again(j, p) == service(j + k + 1, p)
    requires Consistent(cache, r) && k < |r.saves|
    requires var s' := Step(repo, extensions, service, s, f);
             Extends(r.annotations, s'.annotations) && s'.summarized <= r.summarized
    requires Resumed(r, r.saves[k], k, s, t)
    ensures Resumed(r, r.saves[k], k, Step(repo, extensions, service, s, f), Step(repo, extensions, again, t, f))
  {
    var abs := AbsPath(repo, f);
    if Eligible(extensions, f) && abs !in s.annotations {
      var m := |s.summarized|;
      var v := SummarizeFile(f.content, service, m);
      StepAdds(repo, extensions, service, s, f);
      ResumeAdd(cache, k, r, s, t, abs, v);
      if abs !in t.annotations {
        StepAgain(repo, extensions, service, again, k, t, f, m);
      } else {
        StepSkips(repo, extensions, again, t, f);
      }
    } else {
      StepSkips(repo, extensions, service, s, f);
      StepSkips(repo, extensions, again, t, f);
    }
  }

  lemma {:induction false} ResumeFrom(repo: string, files: seq<WalkFile>, extensions: seq<string>,
                                      cache: map<string, string>, service: Summarizer, k: nat,
                                      again: Summarizer, n: nat)
    requires k < |Run(repo, files, extensions, cache, service).saves|
    requires forall j: nat, p: string :: again(j, p) == service(j + k + 1, p)
    requires n <= |files|
    ensures var r := Run(repo, files, extensions, cache, service);
            Resumed(r, r.saves[k], k, Run(repo, files[..n], extensions, cache, service),
                    Run(repo, files[..n], extensions, r.saves[k], again))
    decreases n
  {
    var r := Run(repo, files, extensions, cache, service);
    RunConsistent(repo, files, extensions, cache, service);
    if n == 0 {
      assert files[..0] == [];
      ResumeStart(cache, r, k);
    } else {
      var p := files[..n - 1];
      var s := Run(repo, p, extensions, cache, service);
      var t := Run(repo, p, extensions, r.saves[k], again);
      ResumeFrom(repo, files, extensions, cache, service, k, again, n - 1);
      RunLast(repo, files, extensions, cache, service, n);
      RunLast(repo, files, extensions, r.saves[k], again, n);
      RunGrows(repo, files, extensions, cache, service, n);
      ResumeStep(repo, extensions, cache, service, again, k, r, s, t, files[n - 1]);
    }
  }

  /** Resumability: after the k-th save, a run restarted on the same walk from
      that save, with a summariser that answers as the remaining calls would
      have, summarises exactly the paths the first run had not yet saved and
      ends with the same map. */
  lemma Resume(repo: string, files: seq<WalkFile>, extensions: seq<string>,
               cache: map<string, string>, service: Summarizer, k: nat, again: Summarizer)
    requires k < |Run(repo, files, extensions, cache, service).saves|
    requires forall j: nat, p: string :: again(j, p) == service(j + k + 1, p)
    ensures var r := Run(repo, files, extensions, cache, service);
            var t := Run(repo, files, extensions, r.saves[k], again);
            k < |r.summarized| && t.annotations == r.annotations && t.summarized == r.summarized[k + 1..]
  {
    var r := Run(repo, files, extensions, cache, service);
    ResumeFrom(repo, files, extensions, cache, service, k, again, |files|);
    assert files[..|files|] == files;
    RunConsistent(repo, files, extensions, cache, service);
  }

  /** Only the default allow-list applies when none is given. */
  lemma DefaultAllowList(f: WalkFile)
    requires LowerExt(f.name) == ".txt"
    ensures !Eligible(DefaultExtensions, f)
  {
  }
}
