/** The routing agent: classify a walked tree by extension frequency
    (agents/router_agent.py). */
module Router {
  import opened Common

  /** The fixed extension table. */
  const LangMap: map<string, string> := map[
    ".py" := "Python", ".vb" := "VB.NET", ".cs" := "C#", ".js" := "JavaScript",
    ".ts" := "TypeScript", ".java" := "Java", ".cpp" := "C++", ".html" := "HTML",
    ".json" := "JSON", ".xml" := "XML"]

  predicate Recognised(f: WalkFile) {
    LowerExt(f.name) in LangMap
  }

  /** The table's label for each known extension, unknown ones skipped. */
  function LabelsFor(es: seq<string>): (exts: seq<string>)
    ensures |exts| <= |es|
    ensures forall i :: 0 <= i < |exts| ==> exts[i] in LangMap.Values
    ensures |es| == 1 ==> exts == if es[0] in LangMap then [LangMap[es[0]]] else []
    decreases |es|
  {
    if es == [] then []
    else
      var e := es[|es| - 1];
      LabelsFor(es[..|es| - 1]) + (if e in LangMap then [LangMap[e]] else [])
  }

  /** The labels the walk loop appends, in walk order. */
  function Labels(files: seq<WalkFile>): (exts: seq<string>)
    ensures forall i :: 0 <= i < |exts| ==> exts[i] in LangMap.Values
  {
    LabelsFor(ExtsOf(files))
  }

  /** No label at all exactly when no walked file has a known extension. */
  lemma {:induction false} LabelsForEmpty(es: seq<string>)
    ensures LabelsFor(es) == [] <==> forall i :: 0 <= i < |es| ==> es[i] !in LangMap
    decreases |es|
  {
    if es != [] {
      var p := es[..|es| - 1];
      LabelsForEmpty(p);
      forall i | 0 <= i < |p| ensures p[i] == es[i] { }
    }
  }

  lemma LabelsEmpty(files: seq<WalkFile>)
    ensures Labels(files) == [] <==> forall i :: 0 <= i < |files| ==> !Recognised(files[i])
  {
    LabelsForEmpty(ExtsOf(files));
  }

  lemma {:induction false} LabelsForAppend(a: seq<string>, b: seq<string>)
    ensures LabelsFor(a + b) == LabelsFor(a) + LabelsFor(b)
    decreases |b|
  {
    if b == [] {
      assert a + b == a;
    } else {
      var b' := b[..|b| - 1];
      assert (a + b)[..|a + b| - 1] == a + b';
      LabelsForAppend(a, b');
    }
  }

  lemma LabelsAppend(a: seq<WalkFile>, b: seq<WalkFile>)
    ensures Labels(a + b) == Labels(a) + Labels(b)
  {
    ExtsOfAppend(a, b);
    LabelsForAppend(ExtsOf(a), ExtsOf(b));
  }

  lemma UnknownExtSkipped(a: seq<string>, e: string, b: seq<string>)
    requires e !in LangMap
    ensures LabelsFor(a + [e] + b) == LabelsFor(a + b)
  {
    LabelsForAppend(a + [e], b);
    LabelsForAppend(a, [e]);
    LabelsForAppend(a, b);
    assert [e][..0] == [];
    assert LabelsFor([e]) == [];
  }

  lemma ExtsOfSplit(a: seq<WalkFile>, f: WalkFile, b: seq<WalkFile>)
    ensures ExtsOf(a + [f] + b) == ExtsOf(a) + [LowerExt(f.name)] + ExtsOf(b)
  {
    ExtsOfAppend(a + [f], b);
    ExtsOfAppend(a, [f]);
    assert ExtsOf([f]) == [LowerExt(f.name)];
  }

  /** A file whose lower-cased extension is not in the table contributes nothing. */
  lemma UnknownContributesNothing(a: seq<WalkFile>, f: WalkFile, b: seq<WalkFile>)
    requires !Recognised(f)
    ensures Labels(a + [f] + b) == Labels(a + b)
  {
    ExtsOfSplit(a, f, b);
    ExtsOfAppend(a, b);
    UnknownExtSkipped(ExtsOf(a), LowerExt(f.name), ExtsOf(b));
  }

  /** The lookup only sees the lower-cased extension: renaming a file so that
      its extension is spelled with other letter cases changes nothing. */
  lemma CaseInsensitiveLookup(files: seq<WalkFile>, i: nat, name: string)
    requires i < |files|
    requires Lower(Ext(name)) == Lower(Ext(files[i].name))
    ensures Labels(files[i := files[i].(name := name)]) == Labels(files)
  {
    var g := files[i := files[i].(name := name)];
    assert ExtsOf(g) == ExtsOf(files);
  }

  /** The walk loop of `detect_languages`. */
  method CollectLabels(files: seq<WalkFile>) returns (exts: seq<string>)
    ensures exts == Labels(files)
  {
    exts := [];
    var i := 0;
    while i < |files|
      invariant 0 <= i <= |files|
      invariant exts == Labels(files[..i])
    {
      var ext := LowerExt(files[i].name);
      if ext in LangMap {
        exts := exts + [LangMap[ext]];
      }
      assert ExtsOf(files[..i + 1])[..i] == ExtsOf(files[..i]);
      i := i + 1;
    }
    assert files[..i] == files;
  }

  // ---------------------------------------------------------------- the profile

  /** `dict(Counter(exts))`. */
  function Tally(exts: seq<string>): (count: map<string, nat>)
    ensures count.Keys == set l | l in exts
    ensures forall l :: l in count ==> count[l] == Occurrences(exts, l) && count[l] >= 1
  {
    map l | l in exts :: Occurrences(exts, l)
  }

  /** `Counter.most_common(1)`: `max` over the items in insertion order keeps
      the first item with the largest count. */
  function MostCommonIndex(keys: seq<string>, exts: seq<string>): (i: nat)
    requires |keys| > 0
    ensures i < |keys|
    ensures forall k :: 0 <= k < |keys| ==> Occurrences(exts, keys[k]) <= Occurrences(exts, keys[i])
    ensures forall k :: 0 <= k < i ==> Occurrences(exts, keys[k]) < Occurrences(exts, keys[i])
    decreases |keys|
  {
    if |keys| == 1 then 0
    else
      var j := 1 + MostCommonIndex(keys[1..], exts);
      if Occurrences(exts, keys[0]) >= Occurrences(exts, keys[j]) then 0 else j
  }

  /** `[lang for lang in keys if lang != x]`. */
  function Without(keys: seq<string>, x: string): (r: seq<string>)
    ensures forall l :: l in r <==> l in keys && l != x
    ensures NoDuplicates(keys) ==> NoDuplicates(r)
    decreases |keys|
  {
    if keys == [] then []
    else
      var r := Without(keys[..|keys| - 1], x);
      assert NoDuplicates(keys) ==> keys[|keys| - 1] !in keys[..|keys| - 1];
      if keys[|keys| - 1] != x then r + [keys[|keys| - 1]] else r
  }

  /** Without keeps the relative order of what it keeps. */
  lemma {:induction false} WithoutOrder(keys: seq<string>, x: string, i: nat, j: nat)
    requires i < j < |Without(keys, x)|
    ensures exists a, b :: 0 <= a < b < |keys| && keys[a] == Without(keys, x)[i] && keys[b] == Without(keys, x)[j]
    decreases |keys|
  {
    var p := keys[..|keys| - 1];
    var r := Without(p, x);
    if j < |r| {
      WithoutOrder(p, x, i, j);
      var a, b :| 0 <= a < b < |p| && p[a] == r[i] && p[b] == r[j];
      assert keys[a] == p[a] && keys[b] == p[b];
    } else {
      assert Without(keys, x)[i] == r[i];
      assert r[i] in p;
      var a :| 0 <= a < |p| && p[a] == r[i];
      assert keys[a] == p[a];
      assert keys[|keys| - 1] == Without(keys, x)[j];
    }
  }

  datatype LanguageReport = LanguageReport(primary: string, secondary: seq<string>, count: map<string, nat>)

  /** The expressions of `detect_languages` after the walk: no report for an
      empty label list, otherwise the counter, the first most common label
      and the other labels in first-occurrence order. */
  function Summarise(exts: seq<string>): (r: Option<LanguageReport>)
    ensures r.None? <==> exts == []
    ensures r.Some? ==> r.value.count == Tally(exts) && r.value.primary in r.value.count
    ensures r.Some? ==> forall l :: l in r.value.count ==> r.value.count[l] <= r.value.count[r.value.primary]
    ensures r.Some? ==> forall l :: l in r.value.count && r.value.count[l] == r.value.count[r.value.primary] ==>
                          FirstIndex(exts, r.value.primary) <= FirstIndex(exts, l)
    ensures r.Some? ==> r.value.primary !in r.value.secondary && NoDuplicates(r.value.secondary)
    ensures r.Some? ==> forall l :: l in r.value.count <==> l == r.value.primary || l in r.value.secondary
  {
    if exts == [] then None
    else
      var keys := Distinct(exts);
      var i := MostCommonIndex(keys, exts);
      var primary := keys[i];
      PrimaryTieBreak(exts, keys, i);
      Some(LanguageReport(primary, Without(keys, primary), Tally(exts)))
  }

  /** A label tied with the primary one was first seen no earlier. */
  lemma PrimaryTieBreak(exts: seq<string>, keys: seq<string>, i: nat)
    requires keys == Distinct(exts) && |keys| > 0 && i == MostCommonIndex(keys, exts)
    ensures forall l :: l in exts && Occurrences(exts, l) == Occurrences(exts, keys[i]) ==>
              FirstIndex(exts, keys[i]) <= FirstIndex(exts, l)
  {
    forall l | l in exts && Occurrences(exts, l) == Occurrences(exts, keys[i])
      ensures FirstIndex(exts, keys[i]) <= FirstIndex(exts, l)
    {
      assert l in keys;
      var k :| 0 <= k < |keys| && keys[k] == l;
      if k < i {
        assert false;
      } else if i < k {
        DistinctOrder(exts, i, k);
      }
    }
  }

  /** Secondary languages come in the order their first file was walked. */
  lemma SecondaryOrder(exts: seq<string>, i: nat, j: nat)
    requires Summarise(exts).Some?
    requires i < j < |Summarise(exts).value.secondary|
    ensures FirstIndex(exts, Summarise(exts).value.secondary[i]) < FirstIndex(exts, Summarise(exts).value.secondary[j])
  {
    var keys := Distinct(exts);
    var primary := keys[MostCommonIndex(keys, exts)];
    WithoutOrder(keys, primary, i, j);
    var a, b :| 0 <= a < b < |keys| && keys[a] == Without(keys, primary)[i] && keys[b] == Without(keys, primary)[j];
    DistinctOrder(exts, a, b);
  }

  /** `detect_languages` without its console output and JSON file. */
  method DetectLanguages(files: seq<WalkFile>) returns (r: Option<LanguageReport>)
    ensures r == Summarise(Labels(files))
    ensures r.None? <==> forall i :: 0 <= i < |files| ==> !Recognised(files[i])
    ensures r.Some? ==> forall l :: l in r.value.count ==> l in LangMap.Values
  {
    var exts := CollectLabels(files);
    LabelsEmpty(files);
    r := Summarise(exts);
  }

  /** How many walked files have a known extension. */
  function RecognisedCount(files: seq<WalkFile>): nat
    decreases |files|
  {
    if files == [] then 0
    else RecognisedCount(files[..|files| - 1]) + (if Recognised(files[|files| - 1]) then 1 else 0)
  }

  /** One label per recognised file. */
  lemma {:induction false} LabelsCount(files: seq<WalkFile>)
    ensures |Labels(files)| == RecognisedCount(files)
    decreases |files|
  {
    if files != [] {
      var n := |files|;
      var p := files[..n - 1];
      var es := ExtsOf(files);
      LabelsCount(p);
      assert es[..n - 1] == ExtsOf(p);
      assert es[n - 1] == LowerExt(files[n - 1].name);
      assert LabelsFor(es) == LabelsFor(es[..n - 1]) + (if es[n - 1] in LangMap then [LangMap[es[n - 1]]] else []);
    }
  }

  /** The whole report, checked against the walk: counts are positive table
      values that add up to the recognised files. */
  lemma ReportCounts(files: seq<WalkFile>)
    requires Summarise(Labels(files)).Some?
    ensures var rep := Summarise(Labels(files)).value;
            (forall l :: l in rep.count ==> rep.count[l] >= 1 && l in LangMap.Values) &&
            SumCounts(Distinct(Labels(files)), Labels(files)) == RecognisedCount(files)
  {
    CountsSumToLength(Labels(files));
    LabelsCount(files);
  }

  lemma ExampleExt(name: string, e: string)
    requires (name == "a.py" && e == ".py") || (name == "a.vb" && e == ".vb")
    ensures LowerExt(name) == e
  {
    assert "a"[0] != '.';
    if name == "a.py" {
      assert name == "a" + "." + "py";
      ExtOfName("a", "py");
    } else {
      assert name == "a" + "." + "vb";
      ExtOfName("a", "vb");
    }
  }

  lemma ExtsOfFour(files: seq<WalkFile>)
    requires |files| == 4
    ensures ExtsOf(files) == [LowerExt(files[0].name), LowerExt(files[1].name),
                              LowerExt(files[2].name), LowerExt(files[3].name)]
  {
    var es := ExtsOf(files);
    FourElements(es);
    assert es[0] == LowerExt(files[0].name) && es[1] == LowerExt(files[1].name);
    assert es[2] == LowerExt(files[2].name) && es[3] == LowerExt(files[3].name);
  }

  lemma FourElements(s: seq<string>)
    requires |s| == 4
    ensures s == [s[0], s[1], s[2], s[3]]
  {
  }

  lemma ExampleExtensions(files: seq<WalkFile>)
    requires |files| == 4 && files[0].name == "a.py" && files[1].name == "a.vb"
    requires files[2].name == "a.py" && files[3].name == "a.vb"
    ensures ExtsOf(files) == [".py", ".vb", ".py", ".vb"]
  {
    ExtsOfFour(files);
    ExampleExt("a.py", ".py");
    ExampleExt("a.vb", ".vb");
  }

  lemma ExampleLabels(es: seq<string>)
    requires es == [".py", ".vb", ".py", ".vb"]
    ensures LabelsFor(es) == ["Python", "VB.NET", "Python", "VB.NET"]
  {
    assert es[..3] == [".py", ".vb", ".py"];
    assert es[..3][..2] == [".py", ".vb"];
    assert es[..3][..2][..1] == [".py"];
    assert [".py"][..0] == [];
    assert LabelsFor([".py"]) == ["Python"];
    assert LabelsFor([".py", ".vb"]) == ["Python", "VB.NET"];
    assert LabelsFor([".py", ".vb", ".py"]) == ["Python", "VB.NET", "Python"];
  }

  lemma ExampleDistinct(exts: seq<string>)
    requires exts == ["Python", "VB.NET", "Python", "VB.NET"]
    ensures Distinct(exts) == ["Python", "VB.NET"]
  {
    assert exts[..3] == ["Python", "VB.NET", "Python"];
    assert exts[..3][..2] == ["Python", "VB.NET"];
    assert exts[..3][..2][..1] == ["Python"];
    assert ["Python"][..0] == [];
    assert Distinct(["Python"]) == ["Python"];
    assert Distinct(["Python", "VB.NET"]) == ["Python", "VB.NET"];
    assert Distinct(["Python", "VB.NET", "Python"]) == ["Python", "VB.NET"];
  }

  lemma ExampleCounts(exts: seq<string>)
    requires exts == ["Python", "VB.NET", "Python", "VB.NET"]
    ensures Occurrences(exts, "Python") == 2 && Occurrences(exts, "VB.NET") == 2
    ensures MostCommonIndex(["Python", "VB.NET"], exts) == 0
    ensures Tally(exts) == map["Python" := 2, "VB.NET" := 2]
  {
    assert multiset(exts)["Python"] == 2 && multiset(exts)["VB.NET"] == 2;
    assert ["Python", "VB.NET"][1..] == ["VB.NET"];
  }

  lemma ExampleSecondary()
    ensures Without(["Python", "VB.NET"], "Python") == ["VB.NET"]
  {
    assert ["Python", "VB.NET"][..1] == ["Python"];
    assert ["Python"][..0] == [];
  }

  lemma ExampleSummary(exts: seq<string>)
    requires exts == ["Python", "VB.NET", "Python", "VB.NET"]
    ensures Summarise(exts) == Some(LanguageReport("Python", ["VB.NET"], map["Python" := 2, "VB.NET" := 2]))
  {
    ExampleDistinct(exts);
    ExampleCounts(exts);
    ExampleSecondary();
  }

  /** A tie: `a.py, a.vb, a.py, a.vb` makes Python
      primary, the first of the two languages tied at two files. */
  lemma TieBreakExample()
    ensures var files := [WalkFile([], "a.py", Readable([])), WalkFile([], "a.vb", Readable([])),
                          WalkFile([], "a.py", Readable([])), WalkFile([], "a.vb", Readable([]))];
            Summarise(Labels(files)) == Some(LanguageReport("Python", ["VB.NET"], map["Python" := 2, "VB.NET" := 2]))
  {
    var files := [WalkFile([], "a.py", Readable([])), WalkFile([], "a.vb", Readable([])),
                  WalkFile([], "a.py", Readable([])), WalkFile([], "a.vb", Readable([]))];
    ExampleExtensions(files);
    ExampleLabels(ExtsOf(files));
    ExampleSummary(Labels(files));
  }
}
