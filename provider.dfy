/** The model client (ai_provider.py): settings read once from the
    environment, dispatch on the provider name, and the Gemini call with its
    prompt sanitiser and its rate-limit retry loop. HTTP is an input: the
    response the k-th attempt would receive. */
module AiProvider {
  import opened Common

  // ---------------------------------------------------------------- settings

  datatype LlmProvider = LlmProvider(provider: string, apiKey: Option<string>, model: string)

  const DefaultModel: string := "gemini-2.0-flash-lite"
  const GeminiBase: string := "https://generativelanguage.googleapis.com/v1beta/models"

  /** `os.getenv(name)`. */
  function Getenv(env: map<string, string>, name: string): Option<string> {
    if name in env then Some(env[name]) else None
  }

  /** Python truthiness of an optional string. */
  predicate Truthy(s: Option<string>) {
    s.Some? && s.value != []
  }

  /** `LLMProvider.__init__`: `AI_PROVIDER` defaults to gemini, the key is
      `GEMINI_API_KEY or OPENROUTER_API_KEY`, `MODEL` defaults to the lite model. */
  function FromEnvironment(env: map<string, string>): (p: LlmProvider)
    ensures "AI_PROVIDER" in env ==> p.provider == env["AI_PROVIDER"]
    ensures "AI_PROVIDER" !in env ==> p.provider == "gemini"
    ensures Truthy(Getenv(env, "GEMINI_API_KEY")) ==> p.apiKey == Getenv(env, "GEMINI_API_KEY")
    ensures !Truthy(Getenv(env, "GEMINI_API_KEY")) ==> p.apiKey == Getenv(env, "OPENROUTER_API_KEY")
    ensures "MODEL" in env ==> p.model == env["MODEL"]
    ensures "MODEL" !in env ==> p.model == DefaultModel
  {
    var gemini := Getenv(env, "GEMINI_API_KEY");
    LlmProvider(
      if "AI_PROVIDER" in env then env["AI_PROVIDER"] else "gemini",
      if Truthy(gemini) then gemini else Getenv(env, "OPENROUTER_API_KEY"),
      if "MODEL" in env then env["MODEL"] else DefaultModel)
  }

  // ---------------------------------------------------------------- str.replace

  /** Every character of the result comes from the text or the replacement. */
  lemma {:induction false} ReplaceChars(s: string, pat: string, rep: string, c: char)
    requires pat != [] && c !in s && c !in rep
    ensures c !in Replace(s, pat, rep)
    decreases |s|
  {
    if |s| >= |pat| {
      if s[..|pat|] == pat {
        assert c !in s[|pat|..];
        ReplaceChars(s[|pat|..], pat, rep, c);
      } else {
        assert c !in s[1..];
        ReplaceChars(s[1..], pat, rep, c);
      }
    }
  }

  /** Replacing a single character removes it, unless the replacement holds it. */
  lemma {:induction false} ReplaceCharGone(s: string, c: char, rep: string)
    requires c !in rep
    ensures c !in Replace(s, [c], rep)
    decreases |s|
  {
    if |s| >= 1 {
      if s[..1] == [c] {
        ReplaceCharGone(s[1..], c, rep);
      } else {
        ReplaceCharGone(s[1..], c, rep);
        assert s[0] != c;
      }
    }
  }

  /** Replacing one character by another is a character-wise map. */
  lemma {:induction false} ReplaceCharMap(s: string, c: char, d: char)
    ensures |Replace(s, [c], [d])| == |s|
    ensures forall i :: 0 <= i < |s| ==> Replace(s, [c], [d])[i] == if s[i] == c then d else s[i]
    decreases |s|
  {
    if |s| >= 1 {
      ReplaceCharMap(s[1..], c, d);
      var r := Replace(s, [c], [d]);
      assert r == (if s[0] == c then [d] else [s[0]]) + Replace(s[1..], [c], [d]);
    }
  }

  // ---------------------------------------------------------------- code fences

  const Fence: string := "```"

  /** A code fence starts at position `i`. */
  predicate FenceAt(s: string, i: int) {
    0 <= i && i + 3 <= |s| && s[i] == '`' && s[i + 1] == '`' && s[i + 2] == '`'
  }

  predicate NoFence(s: string) {
    forall i :: 0 <= i < |s| ==> !FenceAt(s, i)
  }

  lemma FencePrefix(s: string)
    requires |s| >= 3
    ensures s[..3] == Fence <==> FenceAt(s, 0)
  {
    assert s[..3] == [s[0], s[1], s[2]];
  }

  /** The number of backticks `s` starts with. */
  function LeadTicks(s: string): (n: nat)
    ensures n <= |s|
    decreases |s|
  {
    if s != [] && s[0] == '`' then 1 + LeadTicks(s[1..]) else 0
  }

  lemma LeadTicksFence(s: string)
    ensures LeadTicks(s) >= 3 ==> FenceAt(s, 0)
  {
    if LeadTicks(s) >= 3 {
      var s1 := s[1..];
      var s2 := s1[1..];
      assert LeadTicks(s) == 1 + LeadTicks(s1);
      assert LeadTicks(s1) == 1 + LeadTicks(s2);
      assert s1[0] == s[1] && s2[0] == s[2];
    }
  }

  lemma TwoTicks(t: string)
    ensures |t| >= 2 && t[0] == '`' && t[1] == '`' ==> LeadTicks(t) >= 2
  {
    if |t| >= 2 {
      assert t[1..][0] == t[1];
    }
  }

  lemma LeadTicksAfterFence(s: string)
    requires FenceAt(s, 0)
    ensures LeadTicks(s) == 3 + LeadTicks(s[3..])
  {
    var s1 := s[1..];
    var s2 := s1[1..];
    assert s1[0] == s[1] && s2[0] == s[2] && s2[1..] == s[3..];
    assert LeadTicks(s2) == 1 + LeadTicks(s[3..]);
    assert LeadTicks(s1) == 1 + LeadTicks(s2);
  }

  /** Removing fences leaves as many leading backticks as were left over
      after taking them three at a time. */
  lemma {:induction false} LeadTicksUnfenced(s: string)
    ensures LeadTicks(Replace(s, Fence, "")) == LeadTicks(s) % 3
    decreases |s|
  {
    if |s| >= 3 {
      FencePrefix(s);
      if s[..3] == Fence {
        LeadTicksAfterFence(s);
        LeadTicksUnfenced(s[3..]);
        assert Replace(s, Fence, "") == Replace(s[3..], Fence, "");
      } else {
        LeadTicksFence(s);
        LeadTicksUnfenced(s[1..]);
        var r := Replace(s, Fence, "");
        assert r == [s[0]] + Replace(s[1..], Fence, "");
        assert r[1..] == Replace(s[1..], Fence, "");
      }
    }
  }

  /** `replace("```", "")` leaves no fence: what is kept before a removed
      fence cannot end with a backtick, or the fence would have started there. */
  lemma {:induction false} UnfencedHasNoFence(s: string)
    ensures NoFence(Replace(s, Fence, ""))
    decreases |s|
  {
    if |s| >= 3 {
      if s[..3] == Fence {
        UnfencedHasNoFence(s[3..]);
        assert Replace(s, Fence, "") == Replace(s[3..], Fence, "");
      } else {
        UnfencedHasNoFence(s[1..]);
        var tail := Replace(s[1..], Fence, "");
        var r := [s[0]] + tail;
        assert Replace(s, Fence, "") == r;
        forall i | 0 <= i < |r| ensures !FenceAt(r, i) {
          if i == 0 {
            FencePrefix(s);
            LeadTicksFence(s);
            LeadTicksUnfenced(s[1..]);
            TwoTicks(tail);
          } else {
            assert !FenceAt(tail, i - 1);
          }
        }
      }
    }
  }

  // ---------------------------------------------------------------- the sanitiser

  const Nul: char := '\U{0}'
  const MaxPrompt := 10000

  /** The sanitiser as written: fences, then NUL characters, are removed,
      carriage returns become spaces, and the result is cut to 10000 characters. */
  function CleanPrompt(prompt: string): (clean: string)
    ensures |clean| <= MaxPrompt
    ensures Nul !in clean && '\r' !in clean
  {
    var a := Replace(prompt, Fence, "");
    var b := Replace(a, [Nul], "");
    var c := Replace(b, "\r", " ");
    ReplaceCharGone(a, Nul, "");
    ReplaceChars(b, "\r", " ", Nul);
    ReplaceCharGone(b, '\r', " ");
    Take(c, MaxPrompt)
  }

  /** Removing a NUL after the fences can join backticks into a new fence. */
  lemma FenceSurvivesAsWritten()
    ensures CleanPrompt("``" + [Nul] + "`") == Fence
  {
    var p := "``" + [Nul] + "`";
    FencePrefix(p);
    FencePrefix(p[1..]);
    assert Replace(p[2..], Fence, "") == p[2..];
    assert Replace(p[1..], Fence, "") == [p[1]] + p[2..];
    assert Replace(p, Fence, "") == p;
    var q := Replace(p, [Nul], "");
    assert p[3..][..1] == "`" && p[3..][1..] == [];
    assert Replace(p[3..], [Nul], "") == "`";
    assert p[2..][..1] == [Nul] && p[2..][1..] == p[3..];
    assert Replace(p[2..], [Nul], "") == "`";
    assert p[1..][..1] == "`" && p[1..][1..] == p[2..];
    assert Replace(p[1..], [Nul], "") == "``";
    assert p[..1] == "`";
    assert q == Fence;
    NoMatchUnchanged(Fence, "\r", " ");
  }

  /** The sanitiser with the NUL removal moved first, so that nothing can
      join up after the fences are gone. */
  function CleanPromptFenceFree(prompt: string): (clean: string)
    ensures |clean| <= MaxPrompt
    ensures Nul !in clean && '\r' !in clean
    ensures NoFence(clean)
  {
    var a := Replace(prompt, [Nul], "");
    var b := Replace(a, Fence, "");
    var c := Replace(b, "\r", " ");
    ReplaceCharGone(prompt, Nul, "");
    ReplaceChars(a, Fence, "", Nul);
    ReplaceChars(b, "\r", " ", Nul);
    ReplaceCharGone(b, '\r', " ");
    UnfencedHasNoFence(a);
    ReplaceCharMap(b, '\r', ' ');
    assert NoFence(c) by {
      forall i | 0 <= i < |c| ensures !FenceAt(c, i) {
        assert !FenceAt(b, i);
      }
    }
    var r := Take(c, MaxPrompt);
    assert NoFence(r) by {
      forall i | 0 <= i < |r| ensures !FenceAt(r, i) {
        assert !FenceAt(c, i);
      }
    }
    r
  }

  /** Both sanitisers agree on prompts without NUL characters. */
  lemma {:induction false} SanitisersAgreeWithoutNul(prompt: string)
    requires Nul !in prompt
    ensures CleanPrompt(prompt) == CleanPromptFenceFree(prompt)
  {
    NoMatchUnchanged(prompt, [Nul], "");
    ReplaceChars(prompt, Fence, "", Nul);
    NoMatchUnchanged(Replace(prompt, Fence, ""), [Nul], "");
  }

  lemma {:induction false} NoMatchUnchanged(s: string, c: seq<char>, rep: string)
    requires |c| == 1 && c[0] !in s
    ensures Replace(s, c, rep) == s
    decreases |s|
  {
    if |s| >= 1 {
      assert s[..1] != c by { assert s[..1][0] == s[0]; }
      assert c[0] !in s[1..];
      NoMatchUnchanged(s[1..], c, rep);
    }
  }

  // ---------------------------------------------------------------- responses

  datatype Part = Part(text: Option<string>)
  datatype Candidate = Candidate(parts: seq<Part>)
  datatype ErrorInfo = ErrorInfo(message: Option<string>)

  /** A decoded JSON body: `candidates` and `error` when present, and what
      `json.dumps` would print for it. */
  datatype Body = Body(candidates: Option<seq<Candidate>>, error: Option<ErrorInfo>, dump: string)

  datatype Json = Parsed(body: Body) | Unparsable(message: string)

  /** What one `requests.post` gives: a `RequestException`, or a response. */
  datatype Response =
    | Failed(message: string)
    | Http(status: nat, reason: string, text: string, json: Json)

  datatype Request = Request(url: string, text: string)

  function Digit(d: nat): char
    requires d < 10
  {
    "0123456789"[d]
  }

  /** `str(n)`. */
  function DecimalString(n: nat): (s: string)
    ensures s != []
    decreases n
  {
    if n < 10 then [Digit(n)] else DecimalString(n / 10) + [Digit(n % 10)]
  }

  const KeyMissing: string := Warn + "Gemini API key missing in environment."
  const NetworkError: string := Warn + "Gemini network error: "
  const ApiError: string := Warn + "Gemini API error: "
  const Unexpected: string := Warn + "Unexpected Gemini response: "
  const NoContent: string := Warn + "Gemini returned no content."
  const RateLimited: nat := 429
  const Attempts: nat := 3

  /** The body carries a first candidate with a first text part. */
  predicate HasText(b: Body) {
    b.candidates.Some? && |b.candidates.value| > 0 && |b.candidates.value[0].parts| > 0 &&
    b.candidates.value[0].parts[0].text.Some?
  }

  /** A reply marked as a failure. */
  predicate Marked(reply: string) {
    |Warn| <= |reply| && reply[..|Warn|] == Warn
  }

  lemma MarkedPrefix(rest: string)
    ensures Marked(Warn + rest)
  {
    assert (Warn + rest)[..|Warn|] == Warn;
  }

  /** What a decoded body turns into: the first candidate's first text part,
      stripped, or else the API's error message, or else a dump of the body
      cut to 300 characters. A body that is not JSON raises an exception the
      loop catches like a network error. Every outcome but the text is marked. */
  function Interpret(json: Json): (reply: string)
    ensures json.Unparsable? ==> reply == NetworkError + json.message
    ensures json.Parsed? && HasText(json.body) ==>
              reply == Strip(json.body.candidates.value[0].parts[0].text.value)
    ensures json.Parsed? && !HasText(json.body) && json.body.error.Some? ==>
              reply == ApiError + (if json.body.error.value.message.Some? then json.body.error.value.message.value
                                   else "unknown error")
    ensures json.Parsed? && !HasText(json.body) && json.body.error.None? ==>
              reply == Unexpected + Take(json.body.dump, 300) && |reply| <= |Unexpected| + 300
    ensures !(json.Parsed? && HasText(json.body)) ==> Marked(reply)
  {
    match json
    case Unparsable(m) =>
      MarkedPrefix("Gemini network error: " + m);
      assert NetworkError + m == Warn + ("Gemini network error: " + m);
      NetworkError + m
    case Parsed(b) =>
      if HasText(b) then Strip(b.candidates.value[0].parts[0].text.value)
      else if b.error.Some? then
        var m := if b.error.value.message.Some? then b.error.value.message.value else "unknown error";
        MarkedPrefix("Gemini API error: " + m);
        assert ApiError + m == Warn + ("Gemini API error: " + m);
        assert (ApiError + m)[..|ApiError|] == ApiError;
        ApiError + m
      else
        var d := Take(b.dump, 300);
        MarkedPrefix("Unexpected Gemini response: " + d);
        assert Unexpected + d == Warn + ("Unexpected Gemini response: " + d);
        Unexpected + d
  }

  function StatusError(status: nat, reason: string, text: string): (reply: string)
    ensures Marked(reply)
  {
    var rest := "Gemini network error: " + DecimalString(status) + " " + reason + " | " + Take(text, 200);
    MarkedPrefix(rest);
    assert NetworkError + DecimalString(status) + " " + reason + " | " + Take(text, 200) == Warn + rest;
    NetworkError + DecimalString(status) + " " + reason + " | " + Take(text, 200)
  }

  /** How the attempts from `attempt` on end: the reply, how many requests
      were sent and the pauses taken. */
  datatype Tries = Tries(reply: string, sent: nat, sleeps: seq<nat>)

  function TriesFrom(post: nat -> Response, attempt: nat): (t: Tries)
    requires attempt <= Attempts
    decreases Attempts - attempt
  {
    if attempt == Attempts then Tries(NoContent, 0, [])
    else
      match post(attempt)
      case Failed(m) => Tries(NetworkError + m, 1, [])
      case Http(status, reason, text, json) =>
        if status == RateLimited then
          var rest := TriesFrom(post, attempt + 1);
          Tries(rest.reply, rest.sent + 1, [8 * (attempt + 1)] + rest.sleeps)
        else if status >= 400 then Tries(StatusError(status, reason, text), 1, [])
        else Tries(Interpret(json), 1, [])
  }

  predicate IsRateLimited(r: Response) {
    r.Http? && r.status == RateLimited
  }

  /** The pauses 8, 16, 24, ... taken after the first `n` attempts. */
  function Backoff(n: nat): (s: seq<nat>)
    ensures |s| == n
    ensures forall k :: 0 <= k < n ==> s[k] == 8 * (k + 1)
  {
    seq(n, k requires 0 <= k < n => 8 * (k + 1))
  }

  /** After `a` rate-limited attempts, the rest of the run decides the reply. */
  lemma {:induction false} TriesAfterRateLimits(post: nat -> Response, a: nat)
    requires a <= Attempts
    requires forall j :: 0 <= j < a ==> IsRateLimited(post(j))
    ensures TriesFrom(post, 0) ==
            Tries(TriesFrom(post, a).reply, a + TriesFrom(post, a).sent, Backoff(a) + TriesFrom(post, a).sleeps)
    decreases a
  {
    if a > 0 {
      TriesAfterRateLimits(post, a - 1);
      TriesStep(post, a - 1);
      var t := TriesFrom(post, a);
      BackoffStep(a, t.sleeps);
    }
  }

  /** A rate-limited attempt pauses and hands over to the next one. */
  lemma TriesStep(post: nat -> Response, a: nat)
    requires a < Attempts && IsRateLimited(post(a))
    ensures var t := TriesFrom(post, a + 1);
            TriesFrom(post, a) == Tries(t.reply, t.sent + 1, [8 * (a + 1)] + t.sleeps)
  {
  }

  lemma BackoffStep(a: nat, rest: seq<nat>)
    requires a > 0
    ensures Backoff(a - 1) + ([8 * a] + rest) == Backoff(a) + rest
  {
    assert Backoff(a) == Backoff(a - 1) + [8 * a];
  }

  function GeminiUrl(p: LlmProvider, key: string): string {
    GeminiBase + "/" + (if p.model == [] then DefaultModel else p.model) + ":generateContent?key=" + key
  }

  /** `_call_gemini` as a function of the responses: the reply, the requests
      sent and the pauses taken. Without a key nothing is sent; with one,
      every request posts the sanitised prompt to the model's URL, and the
      reply and the pauses are those of the attempts. */
  function GeminiReply(p: LlmProvider, prompt: string, post: nat -> Response): (r: (string, seq<Request>, seq<nat>))
    ensures !Truthy(p.apiKey) ==> r == (KeyMissing, [], [])
    ensures Truthy(p.apiKey) ==>
              r.0 == TriesFrom(post, 0).reply && r.2 == TriesFrom(post, 0).sleeps &&
              |r.1| == TriesFrom(post, 0).sent
    ensures forall k :: 0 <= k < |r.1| ==>
              p.apiKey.Some? && r.1[k] == Request(GeminiUrl(p, p.apiKey.value), CleanPrompt(prompt))
  {
    if !Truthy(p.apiKey) then (KeyMissing, [], [])
    else
      var t := TriesFrom(post, 0);
      var req := Request(GeminiUrl(p, p.apiKey.value), CleanPrompt(prompt));
      (t.reply, seq(t.sent, _ => req), t.sleeps)
  }

  /** `_call_gemini`: without a key nothing is sent; otherwise up to three
      attempts, where a 429 answer is followed by a pause of 8, 16 or 24
      seconds and another attempt, and any other outcome is the reply. */
  method CallGemini(p: LlmProvider, prompt: string, post: nat -> Response)
    returns (reply: string, sent: seq<Request>, sleeps: seq<nat>)
    ensures (reply, sent, sleeps) == GeminiReply(p, prompt, post)
  {
    sent := [];
    sleeps := [];
    if !Truthy(p.apiKey) {
      return KeyMissing, sent, sleeps;
    }
    var key := p.apiKey.value;
    var clean := CleanPrompt(prompt);
    var url := GeminiUrl(p, key);
    var attempt := 0;
    while attempt < Attempts
      invariant 0 <= attempt <= Attempts
      invariant forall j :: 0 <= j < attempt ==> IsRateLimited(post(j))
      invariant sent == seq(attempt, _ => Request(url, clean))
      invariant sleeps == Backoff(attempt)
    {
      var r := post(attempt);
      sent := sent + [Request(url, clean)];
      if r.Http? && r.status == RateLimited {
        sleeps := sleeps + [8 * (attempt + 1)];
        attempt := attempt + 1;
        continue;
      }
      TriesAfterRateLimits(post, attempt);
      assert sent == seq(attempt + 1, _ => Request(url, clean));
      assert TriesFrom(post, attempt).sent == 1 && TriesFrom(post, attempt).sleeps == [];
      assert Backoff(attempt) + [] == Backoff(attempt);
      if r.Failed? {
        return NetworkError + r.message, sent, sleeps;
      }
      if r.status >= 400 {
        assert TriesFrom(post, attempt).reply == StatusError(r.status, r.reason, r.text);
        return StatusError(r.status, r.reason, r.text), sent, sleeps;
      }
      assert TriesFrom(post, attempt).reply == Interpret(r.json);
      return Interpret(r.json), sent, sleeps;
    }
    TriesAfterRateLimits(post, Attempts);
    assert Backoff(Attempts) + [] == Backoff(Attempts);
    reply := NoContent;
  }

  // ---------------------------------------------------------------- retry properties

  /** Between one and three requests are sent. */
  lemma {:induction false} SentBounds(post: nat -> Response, a: nat)
    requires a <= Attempts
    ensures a < Attempts ==> 1 <= TriesFrom(post, a).sent
    ensures TriesFrom(post, a).sent <= Attempts - a
    decreases Attempts - a
  {
    if a < Attempts && IsRateLimited(post(a)) {
      SentBounds(post, a + 1);
    }
  }

  /** Only a 429 answer leads to another attempt: every request but the last
      was rate-limited. */
  lemma {:induction false} OnlyRateLimitsRetry(post: nat -> Response, a: nat, j: nat)
    requires a <= Attempts && a <= j && j + 1 < a + TriesFrom(post, a).sent
    ensures IsRateLimited(post(j))
    decreases Attempts - a
  {
    if j > a {
      OnlyRateLimitsRetry(post, a + 1, j);
    }
  }

  /** The pauses follow the attempts: 8·k seconds after the k-th 429, and one
      pause per rate-limited request. */
  lemma {:induction false} PauseSchedule(post: nat -> Response, a: nat)
    requires a <= Attempts
    ensures var t := TriesFrom(post, a);
            (forall k :: 0 <= k < |t.sleeps| ==> t.sleeps[k] == 8 * (a + k + 1)) &&
            (forall k :: a <= k < a + |t.sleeps| ==> IsRateLimited(post(k))) &&
            (|t.sleeps| == t.sent || |t.sleeps| + 1 == t.sent)
    decreases Attempts - a
  {
    if a < Attempts && IsRateLimited(post(a)) {
      PauseSchedule(post, a + 1);
      var t := TriesFrom(post, a);
      var rest := TriesFrom(post, a + 1);
      assert t.sleeps == [8 * (a + 1)] + rest.sleeps;
      forall k | 0 < k < |t.sleeps| ensures t.sleeps[k] == 8 * (a + k + 1) {
        assert t.sleeps[k] == rest.sleeps[k - 1];
      }
    }
  }

  /** Three 429 answers in a row give the no-content placeholder, after
      pauses of 8, 16 and 24 seconds. */
  lemma ThreeRateLimits(post: nat -> Response)
    requires IsRateLimited(post(0)) && IsRateLimited(post(1)) && IsRateLimited(post(2))
    ensures TriesFrom(post, 0) == Tries(NoContent, 3, [8, 16, 24])
  {
    TriesAfterRateLimits(post, 3);
    assert Backoff(3) == [8, 16, 24];
  }

  /** Any other error status ends the call at once, with no retry. */
  lemma ErrorStatusEndsCall(post: nat -> Response, a: nat)
    requires a < Attempts
    requires forall j :: 0 <= j < a ==> IsRateLimited(post(j))
    requires post(a).Http? && post(a).status >= 400 && post(a).status != RateLimited
    ensures TriesFrom(post, 0) ==
            Tries(StatusError(post(a).status, post(a).reason, post(a).text), a + 1, Backoff(a))
  {
    TriesAfterRateLimits(post, a);
  }

  /** An attempt that yields the text the caller wants. */
  predicate Succeeds(r: Response) {
    r.Http? && r.status < 400 && r.json.Parsed? && HasText(r.json.body)
  }

  /** Unless some attempt yields text, the reply is marked as a failure. */
  lemma {:induction false} FailuresAreMarked(post: nat -> Response, a: nat)
    requires a <= Attempts
    requires forall j :: a <= j < Attempts ==> !Succeeds(post(j))
    ensures Marked(TriesFrom(post, a).reply)
    decreases Attempts - a
  {
    if a == Attempts {
      MarkedPrefix("Gemini returned no content.");
    } else {
      match post(a)
      case Failed(m) =>
        MarkedPrefix("Gemini network error: " + m);
        assert NetworkError + m == Warn + ("Gemini network error: " + m);
      case Http(status, reason, text, json) =>
        if status == RateLimited {
          FailuresAreMarked(post, a + 1);
        }
    }
  }

  /** A missing or empty key answers at once and sends nothing. */
  lemma MissingKeySendsNothing(p: LlmProvider, prompt: string, post: nat -> Response)
    requires !Truthy(p.apiKey)
    ensures GeminiReply(p, prompt, post) == (KeyMissing, [], [])
  {
  }

  /** Every request sent carries the sanitised prompt: at most 10000
      characters, no NUL and no carriage return, and no code fence when the
      prompt held no NUL (a NUL can join backticks into a fence, see
      `FenceSurvivesAsWritten`). */
  lemma RequestsCarryCleanPrompt(p: LlmProvider, prompt: string, post: nat -> Response, k: nat)
    requires k < |GeminiReply(p, prompt, post).1|
    ensures var q := GeminiReply(p, prompt, post).1[k];
            q.text == CleanPrompt(prompt) &&
            |q.text| <= MaxPrompt && Nul !in q.text && '\r' !in q.text &&
            (Nul !in prompt ==> NoFence(q.text))
  {
    if Nul !in prompt {
      SanitisersAgreeWithoutNul(prompt);
    }
  }

  /** With a key, the reply is what the attempts end with, and at most three
      requests go out. */
  lemma GeminiReplyBounds(p: LlmProvider, prompt: string, post: nat -> Response)
    requires Truthy(p.apiKey)
    ensures var (reply, sent, sleeps) := GeminiReply(p, prompt, post);
            1 <= |sent| <= Attempts && |sleeps| <= Attempts && reply == TriesFrom(post, 0).reply
  {
    SentBounds(post, 0);
    PauseSchedule(post, 0);
  }

  // ---------------------------------------------------------------- dispatch

  /** `generate`: the lower-cased provider name picks the backend; the other
      three backends are `others(name, prompt)`; an unknown name raises
      `ValueError`. */
  method Generate(p: LlmProvider, prompt: string, post: nat -> Response,
                  others: (string, string) -> Outcome)
    returns (r: Outcome, sent: seq<Request>, sleeps: seq<nat>)
    ensures DispatchName(Lower(p.provider)) == GeminiBackend ==>
              r == Returned(GeminiReply(p, prompt, post).0) &&
              sent == GeminiReply(p, prompt, post).1 && sleeps == GeminiReply(p, prompt, post).2
    ensures DispatchName(Lower(p.provider)) == OtherBackend ==>
              r == others(Lower(p.provider), prompt) && sent == [] && sleeps == []
    ensures DispatchName(Lower(p.provider)) == NoBackend ==>
              r == Raised("Unknown AI provider: " + Lower(p.provider)) && sent == [] && sleeps == []
  {
    var provider := Lower(p.provider);
    sent := [];
    sleeps := [];
    if provider == "gemini" {
      var reply;
      reply, sent, sleeps := CallGemini(p, prompt, post);
      r := Returned(reply);
    } else if provider == "openrouter" || provider == "huggingface" || provider == "ollama" {
      r := others(provider, prompt);
    } else {
      r := Raised("Unknown AI provider: " + provider);
    }
  }

  datatype Backend = GeminiBackend | OtherBackend | NoBackend

  function DispatchName(name: string): Backend {
    if name == "gemini" then GeminiBackend
    else if name == "openrouter" || name == "huggingface" || name == "ollama" then OtherBackend
    else NoBackend
  }

  /** The name is lower-cased before it is matched: capitalised spellings
      reach the same backends as the lower-case ones. */
  lemma DispatchIgnoresCase()
    ensures DispatchName(Lower("Gemini")) == GeminiBackend
    ensures DispatchName(Lower("GEMINI")) == GeminiBackend
    ensures DispatchName(Lower("Ollama")) == OtherBackend
    ensures DispatchName("Gemini") == NoBackend
  {
    assert Lower("Gemini") == "gemini";
    assert Lower("GEMINI") == "gemini";
    assert Lower("Ollama") == "ollama";
  }
  /** With neither `AI_PROVIDER` nor `MODEL` set, the settings dispatch to
      Gemini and post to the lite model's URL. */
  lemma DefaultSettings(env: map<string, string>, key: string)
    requires "AI_PROVIDER" !in env && "MODEL" !in env
    ensures DispatchName(Lower(FromEnvironment(env).provider)) == GeminiBackend
    ensures GeminiUrl(FromEnvironment(env), key) ==
            GeminiBase + "/" + DefaultModel + ":generateContent?key=" + key
  {
    assert Lower("gemini") == "gemini";
    assert FromEnvironment(env).model == DefaultModel != [];
  }


  /** Exactly four names are served. */
  lemma DispatchNames(name: string)
    ensures DispatchName(name) != NoBackend <==>
            name in ["gemini", "openrouter", "huggingface", "ollama"]
  {
  }
}
