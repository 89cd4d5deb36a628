/** The question-answering helper of ai_pair_programmer.py: the digest is cut
    into fixed 6000-character chunks, the chunks are ranked by how often the
    question occurs in them, and the best three become the prompt context. */
module PairProgrammer {
  import opened Common
  import Ingest

  const ChunkLimit: nat := 6000
  const TopN: nat := 3
  const ContextLimit: nat := 15000
  const Separator: string := "\n\n---\n\n"

  // ---------------------------------------------------------------- fixed chunks

  /** The slices of 6000 characters that start at `i`, `i + 6000`, ... while
      the start is inside the text; the last one may be shorter. The digest
      is split from 0. */
  function SplitFrom(text: string, i: nat): seq<string>
    decreases |text| - i
  {
    if i >= |text| then [] else [text[i..Ingest.Min(i + ChunkLimit, |text|)]] + SplitFrom(text, i + ChunkLimit)
  }

  function FixedChunks(text: string): seq<string> {
    SplitFrom(text, 0)
  }

  /** The fixed split is the overlapping chunker with no overlap. */
  lemma {:induction false} SplitIsWindows(text: string, i: nat)
    ensures SplitFrom(text, i) == Ingest.Windows(text, ChunkLimit, 0, i)
    decreases |text| - i
  {
    if i < |text| {
      SplitIsWindows(text, i + ChunkLimit);
      if i + ChunkLimit >= |text| {
        assert text[i..Ingest.Min(i + ChunkLimit, |text|)] == text[i..];
      }
    }
  }

  /** The chunks tile the digest: joined they give it back, and each is 6000
      characters long except the last, which may be shorter. */
  lemma FixedChunksTile(text: string)
    ensures Concat(FixedChunks(text)) == text
    ensures forall k :: 0 <= k < |FixedChunks(text)| ==> 0 < |FixedChunks(text)[k]| <= ChunkLimit
    ensures forall k :: 0 <= k < |FixedChunks(text)| - 1 ==> |FixedChunks(text)[k]| == ChunkLimit
  {
    SplitIsWindows(text, 0);
    Ingest.TilesWithoutOverlap(text, ChunkLimit);
    var cs := FixedChunks(text);
    forall k | 0 <= k < |cs|
      ensures 0 < |cs[k]| <= ChunkLimit
      ensures k < |cs| - 1 ==> |cs[k]| == ChunkLimit
    {
      Ingest.ChunkAt(text, ChunkLimit, 0, k);
    }
  }

  // ---------------------------------------------------------------- str.count

  /** `s.count(sub)`: occurrences found left to right, never overlapping; an
      empty `sub` is found at every one of the `|s| + 1` positions. */
  function Count(s: string, sub: string): (n: nat)
    ensures sub == [] ==> n == |s| + 1
    decreases |s|
  {
    if sub == [] then |s| + 1
    else if |s| < |sub| then 0
    else if s[..|sub|] == sub then 1 + Count(s[|sub|..], sub)
    else Count(s[1..], sub)
  }

  /** `count` and `replace` find the same occurrences: replacing each one
      changes the length by the difference in lengths. */
  lemma {:induction false} CountMatchesReplace(s: string, sub: string, rep: string)
    requires sub != []
    ensures |Replace(s, sub, rep)| == |s| + Count(s, sub) * (|rep| - |sub|)
    decreases |s|
  {
    if |s| >= |sub| {
      if s[..|sub|] == sub {
        var t := s[|sub|..];
        CountMatchesReplace(t, sub, rep);
        var n := Count(t, sub);
        var d := |rep| - |sub|;
        assert |Replace(s, sub, rep)| == |rep| + |Replace(t, sub, rep)|;
        assert Count(s, sub) == 1 + n;
        MulStep(n, d);
      } else {
        CountMatchesReplace(s[1..], sub, rep);
      }
    }
  }

  lemma MulStep(n: int, d: int)
    ensures (1 + n) * d == n * d + d
  {
  }

  /** The occurrences counted fit in the text side by side. */
  lemma {:induction false} CountFits(s: string, sub: string)
    requires sub != []
    ensures Count(s, sub) * |sub| <= |s|
    decreases |s|
  {
    if |s| >= |sub| {
      if s[..|sub|] == sub {
        CountFits(s[|sub|..], sub);
        MulStep(Count(s[|sub|..], sub), |sub|);
      } else {
        CountFits(s[1..], sub);
      }
    }
  }

  /** `chunk.lower().count(query.lower())`. */
  function Score(chunk: string, query: string): nat {
    Count(Lower(chunk), Lower(query))
  }

  /** The score ignores ASCII case in the chunk and in the query. */
  lemma ScoreIgnoresCase(chunk: string, query: string)
    ensures Score(Lower(chunk), Lower(query)) == Score(chunk, query)
  {
    LowerIdempotent(chunk);
    LowerIdempotent(query);
  }

  // ---------------------------------------------------------------- ranking

  /** An entry of `scored`: the count and the chunk, with the chunk's
      position, which the sort key does not look at. */
  datatype Scored = Scored(score: nat, index: nat, text: string)

  function Scores(chunks: seq<string>, query: string): (xs: seq<Scored>)
    ensures |xs| == |chunks|
    ensures forall i :: 0 <= i < |xs| ==> xs[i] == Scored(Score(chunks[i], query), i, chunks[i])
  {
    seq(|chunks|, i requires 0 <= i < |chunks| => Scored(Score(chunks[i], query), i, chunks[i]))
  }

  predicate Descending(r: seq<Scored>) {
    forall i, j :: 0 <= i < j < |r| ==> r[i].score >= r[j].score
  }

  /** Entries with equal counts are in the order of their positions. */
  predicate Stable(r: seq<Scored>) {
    forall i, j :: 0 <= i < j < |r| && r[i].score == r[j].score ==> r[i].index < r[j].index
  }

  /** Places `x` after every entry counting at least as much. */
  function Insert(x: Scored, ys: seq<Scored>): (r: seq<Scored>)
    ensures multiset(r) == multiset(ys) + multiset{x}
    decreases |ys|
  {
    if ys == [] || ys[0].score < x.score then [x] + ys
    else
      assert ys == [ys[0]] + ys[1..];
      [ys[0]] + Insert(x, ys[1..])
  }

  /** `scored.sort(reverse=True, key=lambda x: x[0])`: a stable sort on the
      count, largest first. */
  function SortByCount(xs: seq<Scored>): (r: seq<Scored>)
    ensures multiset(r) == multiset(xs)
    decreases |xs|
  {
    if xs == [] then []
    else
      assert xs == xs[..|xs| - 1] + [xs[|xs| - 1]];
      Insert(xs[|xs| - 1], SortByCount(xs[..|xs| - 1]))
  }

  lemma InsertMembers(x: Scored, ys: seq<Scored>, z: Scored)
    ensures z in Insert(x, ys) <==> z == x || z in ys
  {
    assert z in Insert(x, ys) <==> z in multiset(Insert(x, ys));
  }

  lemma {:induction false} InsertDescending(x: Scored, ys: seq<Scored>)
    requires Descending(ys)
    ensures Descending(Insert(x, ys))
    decreases |ys|
  {
    if ys != [] && ys[0].score >= x.score {
      var t := Insert(x, ys[1..]);
      InsertDescending(x, ys[1..]);
      forall j | 0 <= j < |t| ensures ys[0].score >= t[j].score {
        InsertMembers(x, ys[1..], t[j]);
      }
    }
  }

  lemma {:induction false} InsertStable(x: Scored, ys: seq<Scored>)
    requires Descending(ys) && Stable(ys)
    requires forall y :: y in ys ==> y.index < x.index
    ensures Stable(Insert(x, ys))
    decreases |ys|
  {
    if ys != [] && ys[0].score >= x.score {
      var t := Insert(x, ys[1..]);
      InsertStable(x, ys[1..]);
      forall j | 0 <= j < |t| && ys[0].score == t[j].score ensures ys[0].index < t[j].index {
        InsertMembers(x, ys[1..], t[j]);
      }
    } else if ys != [] {
      var r := [x] + ys;
      forall i, j | 0 <= i < j < |r| && r[i].score == r[j].score ensures r[i].index < r[j].index {
        if i > 0 {
          assert r[i] == ys[i - 1] && r[j] == ys[j - 1];
        }
      }
    }
  }

  /** Positions strictly increase along the sequence. */
  predicate InPositionOrder(xs: seq<Scored>) {
    forall i, j :: 0 <= i < j < |xs| ==> xs[i].index < xs[j].index
  }

  /** The sort puts larger counts first and keeps equal counts in their
      original order. */
  lemma {:induction false} SortOrder(xs: seq<Scored>)
    requires InPositionOrder(xs)
    ensures Descending(SortByCount(xs)) && Stable(SortByCount(xs))
    decreases |xs|
  {
    if xs != [] {
      var init := xs[..|xs| - 1];
      var last := xs[|xs| - 1];
      SortOrder(init);
      var s := SortByCount(init);
      forall y | y in s ensures y.index < last.index {
        assert y in multiset(s);
        var m :| 0 <= m < |init| && init[m] == y;
      }
      InsertDescending(last, s);
      InsertStable(last, s);
    }
  }

  /** `scored`, sorted. */
  function Ranked(chunks: seq<string>, query: string): (r: seq<Scored>)
    ensures |r| == |chunks|
  {
    var xs := Scores(chunks, query);
    var r := SortByCount(xs);
    assert |r| == |multiset(r)| == |multiset(xs)| == |xs|;
    r
  }

  /** `get_relevant_chunks`: the texts of the first three ranked entries. */
  function RelevantChunks(chunks: seq<string>, query: string): (top: seq<string>)
    ensures |top| == Ingest.Min(TopN, |chunks|)
    ensures forall k :: 0 <= k < |top| ==> top[k] == Ranked(chunks, query)[k].text
  {
    var r := Ranked(chunks, query);
    seq(Ingest.Min(TopN, |r|), k requires 0 <= k < Ingest.Min(TopN, |r|) => r[k].text)
  }

  /** Every ranked entry is one chunk with its own count, and every chunk is
      ranked exactly once. */
  lemma RankedEntries(chunks: seq<string>, query: string)
    ensures var r := Ranked(chunks, query);
            |r| == |chunks| &&
            (forall k :: 0 <= k < |r| ==>
               r[k].index < |chunks| && r[k].text == chunks[r[k].index] &&
               r[k].score == Score(chunks[r[k].index], query)) &&
            (forall i :: 0 <= i < |chunks| ==> multiset(r)[Scores(chunks, query)[i]] == 1)
  {
    var xs := Scores(chunks, query);
    var r := Ranked(chunks, query);
    assert |r| == |multiset(r)| == |multiset(xs)| == |xs|;
    forall k | 0 <= k < |r|
      ensures r[k].index < |chunks| && r[k].text == chunks[r[k].index]
      ensures r[k].score == Score(chunks[r[k].index], query)
    {
      assert r[k] in multiset(xs);
    }
    forall i | 0 <= i < |chunks| ensures multiset(r)[xs[i]] == 1 {
      DistinctCount(xs, i);
    }
  }

  lemma {:induction false} DistinctCount(xs: seq<Scored>, i: nat)
    requires i < |xs| && forall a, b :: 0 <= a < b < |xs| ==> xs[a].index != xs[b].index
    ensures multiset(xs)[xs[i]] == 1
    decreases |xs|
  {
    var init := xs[..|xs| - 1];
    assert xs == init + [xs[|xs| - 1]];
    if i < |xs| - 1 {
      DistinctCount(init, i);
      assert xs[|xs| - 1] != xs[i];
    } else {
      assert xs[i] !in init;
    }
  }

  /** Each chosen text is a chunk of the digest, the one ranked at that place,
      with its own count. */
  lemma RelevantAreChunks(chunks: seq<string>, query: string, k: nat)
    requires k < |RelevantChunks(chunks, query)|
    ensures var r := Ranked(chunks, query);
            r[k].index < |chunks| && RelevantChunks(chunks, query)[k] == chunks[r[k].index] &&
            r[k].score == Score(chunks[r[k].index], query)
  {
    RankedEntries(chunks, query);
  }

  /** The chosen chunks come in non-increasing order of count, and chunks
      with equal counts in the order they have in the digest. */
  lemma RelevantOrder(chunks: seq<string>, query: string, i: nat, j: nat)
    requires i < j < |RelevantChunks(chunks, query)|
    ensures var r := Ranked(chunks, query);
            r[i].index < |chunks| && r[j].index < |chunks| &&
            RelevantChunks(chunks, query)[i] == chunks[r[i].index] &&
            RelevantChunks(chunks, query)[j] == chunks[r[j].index] &&
            Score(chunks[r[i].index], query) >= Score(chunks[r[j].index], query) &&
            (Score(chunks[r[i].index], query) == Score(chunks[r[j].index], query) ==> r[i].index < r[j].index)
  {
    RankedEntries(chunks, query);
    SortOrder(Scores(chunks, query));
  }

  /** A chunk left out counts no more than the last chunk chosen. */
  lemma LeftOutScoresLower(chunks: seq<string>, query: string, c: nat)
    requires c < |chunks|
    requires forall k :: 0 <= k < |RelevantChunks(chunks, query)| ==> Ranked(chunks, query)[k].index != c
    ensures var n := |RelevantChunks(chunks, query)|;
            n == TopN &&
            Score(chunks[c], query) <= Score(RelevantChunks(chunks, query)[n - 1], query)
  {
    var xs := Scores(chunks, query);
    var r := Ranked(chunks, query);
    RankedEntries(chunks, query);
    SortOrder(xs);
    assert xs[c] in multiset(r);
    var m :| 0 <= m < |r| && r[m] == xs[c];
    assert TopN <= m;
  }

  // ---------------------------------------------------------------- the prompt

  const Intro: string := "You are an expert code migration assistant.\n\n"

  function Context(top: seq<string>): string {
    Join(Separator, top)
  }

  /** The prompt `ask_ai` sends: the fixed introduction, the question and at
      most 15000 characters of context. */
  function AskPrompt(question: string, context: string): (prompt: string)
    ensures |prompt| == |Intro| + 15 + |question| + 2 + 31 + Ingest.Min(ContextLimit, |context|)
  {
    Intro + "User question:\n" + question + "\n\n" + "Relevant project code context:\n" + Take(context, ContextLimit)
  }

  /** The prompt opens with the introduction and the question, and ends with
      the start of the context. */
  lemma PromptLayout(question: string, context: string)
    ensures var prompt := AskPrompt(question, context);
            var head := |Intro| + 15;
            var tail := head + |question| + 33;
            prompt[..|Intro|] == Intro &&
            prompt[head..head + |question|] == question &&
            tail <= |prompt| && prompt[tail..] == context[..|prompt| - tail]
  {
  }

  /** The context holds every chosen chunk, each followed by the separator
      except the last. */
  lemma {:induction false} ContextLength(top: seq<string>)
    requires top != []
    ensures |Context(top)| == |Concat(top)| + (|top| - 1) * |Separator|
    decreases |top|
  {
    if |top| > 1 {
      ContextLength(top[1..]);
      assert top == [top[0]] + top[1..];
      JoinCons(Separator, top[0], top[1..]);
      assert Concat(top) == top[0] + Concat(top[1..]);
    } else {
      assert Concat(top) == top[0] + Concat(top[1..]);
    }
  }

  /** The first chosen chunk opens the context. */
  lemma ContextStartsWithBest(top: seq<string>)
    requires top != []
    ensures Context(top)[..|top[0]|] == top[0]
  {
    if |top| > 1 {
      JoinCons(Separator, top[0], top[1..]);
      assert top == [top[0]] + top[1..];
    }
  }
}
