/** The VB.NET method extractor of vb_parser.py: every match of
    `(?:Public|Private|Protected|Friend)\s+Sub\s+[\s\S]*?End\s+Sub` in every
    file, recorded with the file's path. */
module VbParser {
  import opened Common

  const Modifiers: seq<string> := ["Public", "Private", "Protected", "Friend"]

  /** `w` occurs in `s` at position `p`. */
  predicate StartsAt(s: string, p: nat, w: string) {
    p + |w| <= |s| && s[p..p + |w|] == w
  }

  /** The alternation `(?:Public|Private|Protected|Friend)` at `p`, tried in
      that order; the keywords are matched case-sensitively. */
  function ModifierAt(s: string, p: nat): (m: Option<string>)
    ensures m.Some? ==> m.value in Modifiers && StartsAt(s, p, m.value)
    ensures m.None? ==> forall w :: w in Modifiers ==> !StartsAt(s, p, w)
  {
    if StartsAt(s, p, "Public") then Some("Public")
    else if StartsAt(s, p, "Private") then Some("Private")
    else if StartsAt(s, p, "Protected") then Some("Protected")
    else if StartsAt(s, p, "Friend") then Some("Friend")
    else None
  }

  /** At most one keyword starts at a position, so the order of the
      alternatives does not matter. */
  lemma ModifierUnique(s: string, p: nat, w: string)
    requires w in Modifiers && StartsAt(s, p, w)
    ensures ModifierAt(s, p) == Some(w)
  {
    assert s[p..p + |w|][0] == s[p] && s[p..p + |w|][1] == s[p + 1] && s[p..p + |w|][2] == s[p + 2];
  }

  /** Where the header of a match ends: the modifier, then whitespace, then
      `Sub` at `sub`, then whitespace up to `body`. */
  datatype Header = Header(modifier: string, sub: nat, body: nat)

  /** `(?:Public|Private|Protected|Friend)\s+Sub\s+` at `p`. Each `\s+` takes
      the whole run of whitespace: giving any back would leave a space where
      `S` or the body's first `End` is needed. */
  function HeaderAt(s: string, p: nat): (h: Option<Header>)
    requires p <= |s|
    ensures h.Some? ==>
              var a := p + |h.value.modifier|;
              h.value.modifier in Modifiers && StartsAt(s, p, h.value.modifier) &&
              a < h.value.sub && StartsAt(s, h.value.sub, "Sub") && AllSpaces(s[a..h.value.sub]) &&
              h.value.sub + 3 < h.value.body <= |s| && AllSpaces(s[h.value.sub + 3..h.value.body]) &&
              (h.value.body == |s| || !IsSpace(s[h.value.body]))
  {
    match ModifierAt(s, p)
    case None => None
    case Some(m) => HeaderAfter(s, p, m)
  }

  /** The rest of the header once the keyword `m` has been read at `p`. */
  function HeaderAfter(s: string, p: nat, m: string): (h: Option<Header>)
    requires p + |m| <= |s|
    ensures h.Some? ==>
              var a := p + |m|;
              h.value.modifier == m &&
              a < h.value.sub && StartsAt(s, h.value.sub, "Sub") && AllSpaces(s[a..h.value.sub]) &&
              h.value.sub + 3 < h.value.body <= |s| && AllSpaces(s[h.value.sub + 3..h.value.body]) &&
              (h.value.body == |s| || !IsSpace(s[h.value.body]))
  {
    var a := p + |m|;
    if a < |s| && IsSpace(s[a]) then
      var b := SkipSpaces(s, a);
      if StartsAt(s, b, "Sub") && b + 3 < |s| && IsSpace(s[b + 3]) then
        Some(Header(m, b, SkipSpaces(s, b + 3)))
      else None
    else None
  }

  /** Any text of the header's shape is recognised as one. */
  lemma HeaderAtComplete(s: string, p: nat, m: string, j: nat)
    requires p <= |s| && m in Modifiers && StartsAt(s, p, m)
    requires p + |m| < j && StartsAt(s, j, "Sub") && AllSpaces(s[p + |m|..j])
    requires j + 3 < |s| && IsSpace(s[j + 3])
    ensures HeaderAt(s, p) == Some(Header(m, j, SkipSpaces(s, j + 3)))
  {
    ModifierUnique(s, p, m);
    var a := p + |m|;
    assert IsSpace(s[a..j][0]);
    assert s[j..j + 3][0] == 'S';
    SkipSpacesFrom(s, a, j);
    HeaderAtFound(s, p, m, j);
  }

  /** One unfolding of `HeaderAt` when every test along the way succeeds. */
  lemma HeaderAtFound(s: string, p: nat, m: string, j: nat)
    requires p <= |s| && ModifierAt(s, p) == Some(m)
    requires p + |m| < |s| && IsSpace(s[p + |m|]) && SkipSpaces(s, p + |m|) == j
    requires StartsAt(s, j, "Sub") && j + 3 < |s| && IsSpace(s[j + 3])
    ensures HeaderAt(s, p) == Some(Header(m, j, SkipSpaces(s, j + 3)))
  {
    HeaderAfterFound(s, p, m, j);
  }

  lemma HeaderAfterFound(s: string, p: nat, m: string, j: nat)
    requires p + |m| < |s| && IsSpace(s[p + |m|]) && SkipSpaces(s, p + |m|) == j
    requires StartsAt(s, j, "Sub") && j + 3 < |s| && IsSpace(s[j + 3])
    ensures HeaderAfter(s, p, m) == Some(Header(m, j, SkipSpaces(s, j + 3)))
  {
  }

  /** `End\s+Sub` at `q`: where it ends. */
  function EndSubAt(s: string, q: nat): (e: Option<nat>)
    requires q <= |s|
    ensures e.Some? ==>
              StartsAt(s, q, "End") && q + 3 < e.value - 3 && e.value <= |s| &&
              AllSpaces(s[q + 3..e.value - 3]) && StartsAt(s, e.value - 3, "Sub")
  {
    if StartsAt(s, q, "End") && q + 3 < |s| && IsSpace(s[q + 3]) then
      var e := SkipSpaces(s, q + 3);
      if StartsAt(s, e, "Sub") then Some(e + 3) else None
    else None
  }

  /** The lazy `[\s\S]*?End\s+Sub` from `d`: the first `End\s+Sub` found
      scanning forward, as (where it starts, where it ends). */
  function FirstEndSub(s: string, d: nat): (r: Option<(nat, nat)>)
    requires d <= |s|
    ensures r.Some? ==>
              d <= r.value.0 <= |s| && EndSubAt(s, r.value.0) == Some(r.value.1) &&
              forall q :: d <= q < r.value.0 ==> EndSubAt(s, q).None?
    ensures r.None? ==> forall q :: d <= q <= |s| ==> EndSubAt(s, q).None?
    decreases |s| - d
  {
    if d == |s| then None
    else
      match EndSubAt(s, d)
      case Some(e) => Some((d, e))
      case None => FirstEndSub(s, d + 1)
  }

  /** Where the match starting at `p` ends, if there is one. */
  function MethodAt(s: string, p: nat): (r: Option<nat>)
    requires p <= |s|
    ensures r.Some? ==> p < r.value <= |s|
  {
    match HeaderAt(s, p)
    case None => None
    case Some(h) =>
      match FirstEndSub(s, h.body)
      case None => None
      case Some(found) => Some(found.1)
  }

  /** A match is a header followed by the first `End\s+Sub` after it. */
  lemma MethodShape(s: string, p: nat)
    requires p <= |s| && MethodAt(s, p).Some?
    ensures var h := HeaderAt(s, p).value;
            var e := MethodAt(s, p).value;
            h.modifier in Modifiers && StartsAt(s, p, h.modifier) && StartsAt(s, h.sub, "Sub") &&
            exists q :: h.body <= q <= |s| && EndSubAt(s, q) == Some(e) &&
              (forall q' :: h.body <= q' < q ==> EndSubAt(s, q').None?)
  {
    var h := HeaderAt(s, p).value;
    var found := FirstEndSub(s, h.body).value;
    assert h.body <= found.0 && EndSubAt(s, found.0) == Some(found.1);
  }

  /** Without one of the four keywords, spelt exactly, no match starts. */
  lemma NeedsModifier(s: string, p: nat)
    requires p <= |s| && forall w :: w in Modifiers ==> !StartsAt(s, p, w)
    ensures MethodAt(s, p).None?
  {
  }

  // ---------------------------------------------------------------- findall

  datatype Span = Span(start: nat, end: nat)

  predicate Uncovered(r: seq<Span>, p: nat) {
    forall k :: 0 <= k < |r| ==> !(r[k].start <= p < r[k].end)
  }

  /** `re.findall` from position `i`: leftmost matches, resuming after each. */
  function Scan(s: string, i: nat): (r: seq<Span>)
    requires i <= |s|
    ensures forall k :: 0 <= k < |r| ==> i <= r[k].start < r[k].end <= |s| && MethodAt(s, r[k].start) == Some(r[k].end)
    ensures forall k :: 0 <= k < |r| - 1 ==> r[k].end <= r[k + 1].start
    decreases |s| - i
  {
    if i == |s| then []
    else
      match MethodAt(s, i)
      case Some(e) => [Span(i, e)] + Scan(s, e)
      case None => Scan(s, i + 1)
  }

  /** Every position no match covers starts no match. */
  lemma {:induction false} ScanLeftmost(s: string, i: nat, p: nat)
    requires i <= p <= |s| && Uncovered(Scan(s, i), p)
    ensures MethodAt(s, p).None?
    decreases |s| - i
  {
    if i < |s| {
      var m := MethodAt(s, i);
      ScanStep(s, i);
      if m.Some? {
        UncoveredTail(Scan(s, i), p);
        ScanLeftmost(s, m.value, p);
      } else if i < p {
        ScanLeftmost(s, i + 1, p);
      }
    }
  }

  /** One step of the scan: a match at `i` is taken and the scan resumes at
      its end; otherwise it moves on by one character. */
  lemma ScanStep(s: string, i: nat)
    requires i < |s|
    ensures MethodAt(s, i).Some? ==>
              Scan(s, i) != [] && Scan(s, i)[0] == Span(i, MethodAt(s, i).value) &&
              Scan(s, i)[1..] == Scan(s, MethodAt(s, i).value)
    ensures MethodAt(s, i).None? ==> Scan(s, i) == Scan(s, i + 1)
  {
    var m := MethodAt(s, i);
    if m.Some? {
      assert Scan(s, i) == [Span(i, m.value)] + Scan(s, m.value);
    }
  }

  lemma UncoveredTail(r: seq<Span>, p: nat)
    requires r != [] && Uncovered(r, p)
    ensures !(r[0].start <= p < r[0].end) && Uncovered(r[1..], p)
  {
    forall k | 0 <= k < |r[1..]| ensures !(r[1..][k].start <= p < r[1..][k].end) {
      assert r[1..][k] == r[k + 1];
    }
  }

  function Texts(s: string, r: seq<Span>): (ms: seq<string>)
    requires forall k :: 0 <= k < |r| ==> r[k].start <= r[k].end <= |s|
    ensures |ms| == |r|
    ensures forall k :: 0 <= k < |r| ==> ms[k] == s[r[k].start..r[k].end]
  {
    seq(|r|, k requires 0 <= k < |r| => s[r[k].start..r[k].end])
  }

  /** `re.findall(pattern, content)`. */
  function FindMethods(content: string): (ms: seq<string>)
    ensures |ms| == |Scan(content, 0)|
  {
    var r := Scan(content, 0);
    Texts(content, r)
  }

  /** A matched span opens with a keyword and closes with `Sub`. */
  lemma SpanFraming(s: string, a: nat, e: nat)
    requires a <= |s| && MethodAt(s, a) == Some(e)
    ensures var m := s[a..e];
            (exists w :: w in Modifiers && StartsAt(m, 0, w)) && |m| >= 3 && m[|m| - 3..] == "Sub"
  {
    MethodBounds(s, a, e);
    SliceFraming(s, a, e, HeaderAt(s, a).value.modifier);
  }

  /** A match opens with its header's keyword and ends just after a `Sub`. */
  lemma MethodBounds(s: string, a: nat, e: nat)
    requires a <= |s| && MethodAt(s, a) == Some(e)
    ensures HeaderAt(s, a).Some? && HeaderAt(s, a).value.modifier in Modifiers
    ensures StartsAt(s, a, HeaderAt(s, a).value.modifier)
    ensures a + |HeaderAt(s, a).value.modifier| + 3 < e <= |s| && StartsAt(s, e - 3, "Sub")
  {
    var h := HeaderAt(s, a).value;
    var found := FirstEndSub(s, h.body).value;
    assert found.1 == e && EndSubAt(s, found.0) == Some(e);
  }

  lemma SliceFraming(s: string, a: nat, e: nat, w: string)
    requires w in Modifiers && StartsAt(s, a, w)
    requires a + |w| + 3 < e <= |s| && StartsAt(s, e - 3, "Sub")
    ensures var m := s[a..e];
            (exists w :: w in Modifiers && StartsAt(m, 0, w)) && |m| >= 3 && m[|m| - 3..] == "Sub"
  {
    var m := s[a..e];
    assert m[0..|w|] == s[a..a + |w|];
    assert StartsAt(m, 0, w);
    assert m[|m| - 3..] == s[e - 3..e];
  }

  /** Every extracted method opens with one of the four keywords and closes
      with `Sub` (the full shape of a match is `MethodShape`). */
  lemma MethodsFraming(content: string, k: nat)
    requires k < |FindMethods(content)|
    ensures var m := FindMethods(content)[k];
            (exists w :: w in Modifiers && StartsAt(m, 0, w)) && |m| >= 3 && m[|m| - 3..] == "Sub"
  {
    var sp := Scan(content, 0)[k];
    assert FindMethods(content)[k] == content[sp.start..sp.end];
    SpanFraming(content, sp.start, sp.end);
  }

  // ---------------------------------------------------------------- examples

  const Shared: string := "Public Shared Sub A()"

  /** `Public Shared Sub` has a word between the keyword and `Sub`. */
  lemma SharedIsNotAHeader()
    ensures HeaderAt(Shared, 0).None?
  {
    assert StartsAt(Shared, 0, "Public");
    assert IsSpace(Shared[6]) && !IsSpace(Shared[7]);
    SkipSpacesFrom(Shared, 6, 7);
    assert Shared[7..10][1] == 'h';
  }

  const Lowered: string := "public sub a()"

  /** Keywords are case-sensitive. */
  lemma LowerCaseIsNotAHeader()
    ensures HeaderAt(Lowered, 0).None?
  {
    forall w | w in Modifiers ensures !StartsAt(Lowered, 0, w) {
      assert Lowered[0..|w|][0] == 'p';
    }
  }

  // ---------------------------------------------------------------- files

  /** A file `glob` found: its path and what reading it gives. */
  datatype VbFile = VbFile(path: string, content: FileContent)

  datatype MethodRecord = MethodRecord(file: string, code: string)

  function RecordsOf(path: string, ms: seq<string>): (rs: seq<MethodRecord>)
    ensures |rs| == |ms|
    ensures forall k :: 0 <= k < |ms| ==> rs[k] == MethodRecord(path, ms[k])
  {
    seq(|ms|, k requires 0 <= k < |ms| => MethodRecord(path, ms[k]))
  }

  /** The records of one readable file, read as text: undecodable bytes
      dropped (`errors="ignore"`) and line endings turned into `\n`. */
  function FileMethods(f: VbFile): seq<MethodRecord>
    requires f.content.Readable?
  {
    RecordsOf(f.path, FindMethods(ReadText(f.content.units)))
  }

  /** Read in text mode, a file with `\r\n` or `\r` line endings gives
      method texts without any `\r`. */
  lemma FileMethodsHaveNoCr(f: VbFile)
    requires f.content.Readable?
    ensures forall r :: r in FileMethods(f) ==> '\r' !in r.code
  {
    var t := ReadText(f.content.units);
    var sp := Scan(t, 0);
    var ms := FindMethods(t);
    forall k | 0 <= k < |ms|
      ensures '\r' !in ms[k]
    {
      assert ms[k] == t[sp[k].start..sp[k].end];
    }
  }

  /** What the loop has produced after the given files: the records in file
      order, or the failure of the first file that could not be opened. */
  function Extracted(files: seq<VbFile>): Result<seq<MethodRecord>>
    decreases |files|
  {
    if files == [] then Success([])
    else
      var last := files[|files| - 1];
      match Extracted(files[..|files| - 1])
      case Failure(e) => Failure(e)
      case Success(ms) =>
        if last.content.Unreadable? then Failure(last.content.reason) else Success(ms + FileMethods(last))
  }

  /** `extract_vb_methods` over the files `glob` found. */
  method ExtractVbMethods(files: seq<VbFile>) returns (r: Result<seq<MethodRecord>>)
    ensures r == Extracted(files)
  {
    var methods: seq<MethodRecord> := [];
    var i := 0;
    while i < |files|
      invariant 0 <= i <= |files|
      invariant Extracted(files[..i]) == Success(methods)
    {
      ExtractedPrefix(files, i);
      var f := files[i];
      if f.content.Unreadable? {
        FailureSticks(files, i + 1);
        return Failure(f.content.reason);
      }
      var content := ReadText(f.content.units);
      var matches := FindMethods(content);
      methods := methods + RecordsOf(f.path, matches);
      i := i + 1;
    }
    assert files[..i] == files;
    r := Success(methods);
  }

  /** One more file: a failure so far sticks; otherwise the file's failure
      or its records are added. */
  lemma ExtractedPrefix(files: seq<VbFile>, i: nat)
    requires i < |files|
    ensures Extracted(files[..i]).Failure? ==> Extracted(files[..i + 1]) == Extracted(files[..i])
    ensures Extracted(files[..i]).Success? && files[i].content.Unreadable? ==>
              Extracted(files[..i + 1]) == Failure(files[i].content.reason)
    ensures Extracted(files[..i]).Success? && files[i].content.Readable? ==>
              Extracted(files[..i + 1]) == Success(Extracted(files[..i]).value + FileMethods(files[i]))
  {
    assert files[..i + 1][..i] == files[..i];
    assert files[..i + 1][i] == files[i];
  }

  /** Once a file fails, later files do not change the outcome. */
  lemma {:induction false} FailureSticks(files: seq<VbFile>, n: nat)
    requires 0 < n <= |files| && Extracted(files[..n]).Failure?
    ensures Extracted(files) == Extracted(files[..n])
    decreases |files| - n
  {
    if n < |files| {
      assert files[..|files| - 1][..n] == files[..n];
      FailureSticks(files[..|files| - 1], n);
    } else {
      assert files[..n] == files;
    }
  }

  /** The extraction succeeds exactly when every file could be opened. */
  predicate AllReadable(files: seq<VbFile>) {
    forall k :: 0 <= k < |files| ==> files[k].content.Readable?
  }

  lemma {:induction false} SucceedsIffReadable(files: seq<VbFile>)
    ensures Extracted(files).Success? <==> AllReadable(files)
    decreases |files|
  {
    if files != [] {
      var init := files[..|files| - 1];
      var last := files[|files| - 1];
      SucceedsIffReadable(init);
      ExtractedStep(files);
      AllReadableStep(files);
    }
  }

  lemma ExtractedStep(files: seq<VbFile>)
    requires files != []
    ensures Extracted(files).Success? <==>
            Extracted(files[..|files| - 1]).Success? && files[|files| - 1].content.Readable?
  {
  }

  lemma AllReadableStep(files: seq<VbFile>)
    requires files != []
    ensures AllReadable(files) <==> AllReadable(files[..|files| - 1]) && files[|files| - 1].content.Readable?
  {
    var init := files[..|files| - 1];
    assert forall k :: 0 <= k < |init| ==> init[k] == files[k];
  }

  /** The per-file sum of matches. */
  function MatchCount(files: seq<VbFile>): nat
    decreases |files|
  {
    if files == [] then 0
    else
      var last := files[|files| - 1];
      MatchCount(files[..|files| - 1]) +
        (if last.content.Readable? then |FindMethods(ReadText(last.content.units))| else 0)
  }

  /** On success there is one record per match, each naming the file it came
      from and holding one of that file's matches. */
  lemma {:induction false} RecordsAccount(files: seq<VbFile>)
    requires Extracted(files).Success?
    ensures |Extracted(files).value| == MatchCount(files)
    ensures forall r :: r in Extracted(files).value ==>
              exists k :: 0 <= k < |files| && files[k].path == r.file && files[k].content.Readable? &&
                r.code in FindMethods(ReadText(files[k].content.units))
    decreases |files|
  {
    if files != [] {
      var init := files[..|files| - 1];
      var last := files[|files| - 1];
      RecordsAccount(init);
      var ms := Extracted(init).value;
      var all := Extracted(files).value;
      assert all == ms + FileMethods(last);
      forall r | r in all
        ensures exists k :: 0 <= k < |files| && files[k].path == r.file && files[k].content.Readable? &&
                  r.code in FindMethods(ReadText(files[k].content.units))
      {
        if r in ms {
          var k :| 0 <= k < |init| && init[k].path == r.file && init[k].content.Readable? &&
                   r.code in FindMethods(ReadText(init[k].content.units));
          assert files[k] == init[k];
        } else {
          var j :| 0 <= j < |FileMethods(last)| && FileMethods(last)[j] == r;
          assert files[|files| - 1] == last;
        }
      }
    }
  }
}
