/** The project analyser agent (agents/analyser_agent.py): the `Imports`
    extractor and the extension and dependency indexes of the structural
    summary. */
module Analyser {
  import opened Common

  // ---------------------------------------------------------------- IMPORT_PATTERN

  /** The class `[A-Za-z0-9_.]`. */
  predicate IsSymbolChar(c: char) {
    ('A' <= c <= 'Z') || ('a' <= c <= 'z') || ('0' <= c <= '9') || c == '_' || c == '.'
  }

  predicate AllSymbolChars(s: string) {
    forall i :: 0 <= i < |s| ==> IsSymbolChar(s[i])
  }

  /** The end of the maximal run of symbol characters from `i` (greedy `[A-Za-z0-9_.]+`). */
  function SkipSymbol(s: string, i: nat): (j: nat)
    requires i <= |s|
    ensures i <= j <= |s|
    ensures AllSymbolChars(s[i..j])
    ensures j == |s| || !IsSymbolChar(s[j])
    decreases |s| - i
  {
    if i < |s| && IsSymbolChar(s[i]) then SkipSymbol(s, i + 1) else i
  }

  lemma {:induction false} SkipSymbolFrom(s: string, i: nat, j: nat)
    requires i <= j <= |s|
    requires AllSymbolChars(s[i..j])
    requires j == |s| || !IsSymbolChar(s[j])
    ensures SkipSymbol(s, i) == j
    decreases j - i
  {
    if i < j {
      assert IsSymbolChar(s[i..j][0]);
      assert s[i + 1..j] == s[i..j][1..];
      SkipSymbolFrom(s, i + 1, j);
    }
  }

  /** `^` under `re.MULTILINE`: the start of the text or just after a newline. */
  predicate LineStart(s: string, p: nat)
    requires p <= |s|
  {
    p == 0 || s[p - 1] == '\n'
  }

  const Keyword: string := "Imports"

  datatype ImportMatch = ImportMatch(end: nat, symbol: string)

  /** One attempt of `^\s*Imports\s+([A-Za-z0-9_.]+)` at position `p`: the end
      of the match and the captured group. A whitespace run can never be cut
      short to let the next element match (`I` and the symbol characters are
      not whitespace), so each greedy run is taken whole. */
  function ImportAt(s: string, p: nat): (r: Option<ImportMatch>)
    requires p <= |s|
    ensures r.Some? ==> p < r.value.end <= |s| && r.value.symbol != [] && AllSymbolChars(r.value.symbol)
    ensures r.Some? ==> |r.value.symbol| < r.value.end && r.value.symbol == s[r.value.end - |r.value.symbol|..r.value.end]
    ensures r.Some? ==> r.value.end == |s| || !IsSymbolChar(s[r.value.end])
  {
    if !LineStart(s, p) then None
    else
      var q := SkipSpaces(s, p);
      if !(q + |Keyword| <= |s| && s[q..q + |Keyword|] == Keyword) then None
      else
        var t := SkipSpaces(s, q + |Keyword|);
        if t == q + |Keyword| then None
        else
          var u := SkipSymbol(s, t);
          if u == t then None else Some(ImportMatch(u, s[t..u]))
  }

  lemma SliceJoin(s: string, a: nat, b: nat, c: nat)
    requires a <= b <= c <= |s|
    ensures s[a..b] + s[b..c] == s[a..c]
  {
  }

  lemma SliceSplit(s: string, p: nat, x: string, y: string)
    requires p + |x| + |y| <= |s| && s[p..p + |x| + |y|] == x + y
    ensures s[p..p + |x|] == x && s[p + |x|..p + |x| + |y|] == y
  {
    var w := s[p..p + |x| + |y|];
    assert s[p..p + |x|] == w[..|x|];
    assert s[p + |x|..p + |x| + |y|] == w[|x|..];
  }

  /** A successful attempt matched, from a line start, optional whitespace, the
      keyword, at least one whitespace character and the symbol. */
  lemma ImportAtSound(s: string, p: nat)
    requires p <= |s| && ImportAt(s, p).Some?
    ensures var m := ImportAt(s, p).value;
            LineStart(s, p) &&
            exists w1, w2 :: s[p..m.end] == w1 + Keyword + w2 + m.symbol &&
                             AllSpaces(w1) && AllSpaces(w2) && w2 != []
  {
    var m := ImportAt(s, p).value;
    var q := SkipSpaces(s, p);
    var k := q + |Keyword|;
    var t := SkipSpaces(s, k);
    assert s[q..k] == Keyword;
    assert s[t..m.end] == m.symbol;
    SliceJoin(s, p, q, k);
    SliceJoin(s, p, k, t);
    SliceJoin(s, p, t, m.end);
    assert s[p..m.end] == s[p..q] + Keyword + s[k..t] + m.symbol;
  }

  /** The four pieces of a text laid out as whitespace, keyword, whitespace
      and symbol. */
  lemma ImportPieces(s: string, p: nat, w1: string, w2: string, sym: string)
    requires p + |w1| + |Keyword| + |w2| + |sym| <= |s|
    requires s[p..p + |w1| + |Keyword| + |w2| + |sym|] == w1 + Keyword + w2 + sym
    ensures var q := p + |w1|; var k := q + |Keyword|; var t := k + |w2|;
            s[p..q] == w1 && s[q..k] == Keyword && s[k..t] == w2 && s[t..t + |sym|] == sym
  {
    SliceSplit(s, p, w1 + Keyword + w2, sym);
    SliceSplit(s, p, w1 + Keyword, w2);
    SliceSplit(s, p, w1, Keyword);
  }

  /** Conversely, every text of that shape at a line start is matched, with
      the maximal symbol run captured. */
  lemma ImportAtComplete(s: string, p: nat, w1: string, w2: string, sym: string)
    requires p + |w1| + |Keyword| + |w2| + |sym| <= |s|
    requires s[p..p + |w1| + |Keyword| + |w2| + |sym|] == w1 + Keyword + w2 + sym
    requires LineStart(s, p) && AllSpaces(w1) && AllSpaces(w2) && w2 != []
    requires sym != [] && AllSymbolChars(sym)
    requires var u := p + |w1| + |Keyword| + |w2| + |sym|; u == |s| || !IsSymbolChar(s[u])
    ensures ImportAt(s, p) == Some(ImportMatch(p + |w1| + |Keyword| + |w2| + |sym|, sym))
  {
    var q := p + |w1|;
    var k := q + |Keyword|;
    var t := k + |w2|;
    var u := t + |sym|;
    ImportPieces(s, p, w1, w2, sym);
    assert s[q] == Keyword[0];
    SkipSpacesFrom(s, p, q);
    assert s[t] == sym[0];
    SkipSpacesFrom(s, k, t);
    SkipSymbolFrom(s, t, u);
    ImportAtWhen(s, p, q, t, u);
  }

  /** The attempt at `p` read off from where each greedy run stops. */
  lemma ImportAtWhen(s: string, p: nat, q: nat, t: nat, u: nat)
    requires p <= q && q + |Keyword| <= |s| && LineStart(s, p)
    requires SkipSpaces(s, p) == q && s[q..q + |Keyword|] == Keyword
    requires SkipSpaces(s, q + |Keyword|) == t && t != q + |Keyword|
    requires SkipSymbol(s, t) == u && u != t
    ensures ImportAt(s, p) == Some(ImportMatch(u, s[t..u]))
  {
  }

  datatype Found = Found(start: nat, end: nat, symbol: string)

  /** No found match covers position `p`. */
  predicate Uncovered(r: seq<Found>, p: nat) {
    forall k :: 0 <= k < |r| ==> !(r[k].start <= p < r[k].end)
  }

  /** `findall` from position `i`: try every position left to right and
      resume after each match, so the matches are the leftmost ones and do
      not overlap. */
  function Scan(s: string, i: nat): (r: seq<Found>)
    requires i <= |s|
    ensures forall k :: 0 <= k < |r| ==>
              i <= r[k].start < r[k].end <= |s| && ImportAt(s, r[k].start) == Some(ImportMatch(r[k].end, r[k].symbol))
    ensures forall k :: 0 <= k < |r| - 1 ==> r[k].end <= r[k + 1].start
    decreases |s| - i
  {
    if i == |s| then []
    else
      match ImportAt(s, i)
      case Some(m) => [Found(i, m.end, m.symbol)] + Scan(s, m.end)
      case None => Scan(s, i + 1)
  }

  /** No match is skipped: every position that no found match covers has none. */
  lemma {:induction false} ScanLeftmost(s: string, i: nat, p: nat)
    requires i <= p <= |s| && Uncovered(Scan(s, i), p)
    ensures ImportAt(s, p).None?
    decreases |s| - i
  {
    if i < |s| {
      var m := ImportAt(s, i);
      ScanStep(s, i);
      if m.Some? {
        UncoveredTail(Scan(s, i), p);
        ScanLeftmost(s, m.value.end, p);
      } else if i < p {
        ScanLeftmost(s, i + 1, p);
      }
    }
  }

  /** One step of the scan: a match at `i` is taken and the scan resumes at
      its end; otherwise it moves on by one character. */
  lemma ScanStep(s: string, i: nat)
    requires i < |s|
    ensures ImportAt(s, i).Some? ==>
              var m := ImportAt(s, i).value;
              Scan(s, i) != [] && Scan(s, i)[0] == Found(i, m.end, m.symbol) && Scan(s, i)[1..] == Scan(s, m.end)
    ensures ImportAt(s, i).None? ==> Scan(s, i) == Scan(s, i + 1)
  {
    var m := ImportAt(s, i);
    if m.Some? {
      assert Scan(s, i) == [Found(i, m.value.end, m.value.symbol)] + Scan(s, m.value.end);
    }
  }

  lemma UncoveredTail(r: seq<Found>, p: nat)
    requires r != [] && Uncovered(r, p)
    ensures !(r[0].start <= p < r[0].end) && Uncovered(r[1..], p)
  {
    forall k | 0 <= k < |r[1..]| ensures !(r[1..][k].start <= p < r[1..][k].end) {
      assert r[1..][k] == r[k + 1];
    }
  }

  function Symbols(r: seq<Found>): (syms: seq<string>)
    ensures |syms| == |r|
    ensures forall k :: 0 <= k < |r| ==> syms[k] == r[k].symbol
  {
    seq(|r|, k requires 0 <= k < |r| => r[k].symbol)
  }

  /** `IMPORT_PATTERN.findall(content)`. */
  function FindImports(text: string): (syms: seq<string>)
    ensures forall k :: 0 <= k < |syms| ==> syms[k] != [] && AllSymbolChars(syms[k])
  {
    Symbols(Scan(text, 0))
  }

  /** `extract_imports_from_vb`: an unreadable file gives no imports;
      otherwise the text is read as `open` reads it (undecodable bytes dropped,
      line endings turned into `\n`) before matching. */
  function ExtractImports(content: FileContent): (syms: seq<string>)
    ensures content.Unreadable? ==> syms == []
    ensures forall k :: 0 <= k < |syms| ==> syms[k] != [] && AllSymbolChars(syms[k])
  {
    match content
    case Unreadable(_) => []
    case Readable(units) => FindImports(ReadText(units))
  }

  // ---------------------------------------------------------------- the summary

  /** A Python dict from strings to lists: its keys in insertion order and its
      entries. */
  datatype Index = Index(keys: seq<string>, entries: map<string, seq<string>>)

  ghost predicate WellFormed(ix: Index) {
    NoDuplicates(ix.keys) && forall k :: k in ix.entries <==> k in ix.keys
  }

  /** `summary` without its timestamp: the root's name, `extensions` and
      `vb_dependencies`. */
  datatype Snapshot = Snapshot(root: string, extensions: Index, vbDependencies: Index)

  const Empty := Index([], map[])

  /** `d[k].append(v)` on a `defaultdict(list)`. */
  function Append(ix: Index, k: string, v: string): (r: Index)
    ensures WellFormed(ix) ==> WellFormed(r)
    ensures k in r.entries && r.entries[k] == (if k in ix.entries then ix.entries[k] else []) + [v]
    ensures forall j :: j in ix.entries && j != k ==> j in r.entries && r.entries[j] == ix.entries[j]
  {
    var old_ := if k in ix.entries then ix.entries[k] else [];
    Index(if k in ix.keys then ix.keys else ix.keys + [k], ix.entries[k := old_ + [v]])
  }

  /** `d[k] = v`: a new key goes last, an existing key keeps its place. */
  function Put(ix: Index, k: string, v: seq<string>): (r: Index)
    ensures WellFormed(ix) ==> WellFormed(r)
    ensures k in r.entries && r.entries[k] == v
    ensures forall j :: j in ix.entries && j != k ==> j in r.entries && r.entries[j] == ix.entries[j]
  {
    Index(if k in ix.keys then ix.keys else ix.keys + [k], ix.entries[k := v])
  }

  /** The imports a walked file contributes: only `.vb` files are read. */
  function VbImports(f: WalkFile): (syms: seq<string>)
    ensures syms != [] ==> LowerExt(f.name) == ".vb"
    ensures LowerExt(f.name) == ".vb" ==> syms == ExtractImports(f.content)
  {
    if LowerExt(f.name) == ".vb" then ExtractImports(f.content) else []
  }

  /** What the loop derives from one walked file: its relative path, its
      lower-cased extension and the imports it contributes. */
  datatype FileRecord = FileRecord(rel: string, ext: string, imports: seq<string>)

  function Record(f: WalkFile): FileRecord {
    FileRecord(RelPath(f), LowerExt(f.name), VbImports(f))
  }

  /** The records of the walked files, in walk order. */
  function Records(files: seq<WalkFile>): (recs: seq<FileRecord>)
    ensures |recs| == |files|
    ensures forall i :: 0 <= i < |files| ==> recs[i] == Record(files[i])
  {
    seq(|files|, i requires 0 <= i < |files| => Record(files[i]))
  }

  function Exts(recs: seq<FileRecord>): (es: seq<string>)
    ensures |es| == |recs|
    ensures forall i :: 0 <= i < |recs| ==> es[i] == recs[i].ext
  {
    seq(|recs|, i requires 0 <= i < |recs| => recs[i].ext)
  }

  lemma RecordExts(files: seq<WalkFile>)
    ensures Exts(Records(files)) == ExtsOf(files)
  {
  }

  /** The relative paths of the records with extension `e`, in walk order. */
  function Bucket(recs: seq<FileRecord>, e: string): seq<string>
    decreases |recs|
  {
    if recs == [] then []
    else
      var r := recs[|recs| - 1];
      Bucket(recs[..|recs| - 1], e) + (if r.ext == e then [r.rel] else [])
  }

  /** The dependency index after the given records: each record with at
      least one import is stored under its relative path. */
  function DepIndex(recs: seq<FileRecord>): (ix: Index)
    ensures WellFormed(ix)
    decreases |recs|
  {
    if recs == [] then Empty
    else
      var r := recs[|recs| - 1];
      var ix := DepIndex(recs[..|recs| - 1]);
      if r.imports != [] then Put(ix, r.rel, r.imports) else ix
  }

  /** `analyze_repo_structure`: one pass over the walk, grouping relative
      paths by lower-cased extension and recording the imports of `.vb` files. */
  method AnalyzeRepoStructure(repo: string, files: seq<WalkFile>) returns (s: Snapshot)
    ensures s.root == Basename(repo)
    ensures s.extensions.keys == Distinct(ExtsOf(files))
    ensures forall e :: e in s.extensions.entries <==> e in ExtsOf(files)
    ensures forall e :: e in s.extensions.entries ==> s.extensions.entries[e] == Bucket(Records(files), e)
    ensures s.vbDependencies == DepIndex(Records(files))
  {
    var extensions := Empty;
    var deps := Empty;
    ghost var recs := Records(files);
    var i := 0;
    while i < |files|
      invariant 0 <= i <= |files|
      invariant ExtensionsInv(recs[..i], extensions)
      invariant deps == DepIndex(recs[..i])
    {
      var f := files[i];
      var ext := LowerExt(f.name);
      var rel := RelPath(f);
      var imports := [];
      if ext == ".vb" {
        imports := ExtractImports(f.content);
      }
      assert recs[i] == FileRecord(rel, ext, imports);
      ExtensionsStep(recs, i, extensions);
      DepIndexStep(recs, i);
      extensions := Append(extensions, ext, rel);
      if imports != [] {
        deps := Put(deps, rel, imports);
      }
      i := i + 1;
    }
    assert recs[..i] == recs;
    RecordExts(files);
    s := Snapshot(Basename(repo), extensions, deps);
  }

  /** One loop step on the extension index. */
  lemma ExtensionsStep(recs: seq<FileRecord>, i: nat, ix: Index)
    requires i < |recs| && ExtensionsInv(recs[..i], ix)
    ensures ExtensionsInv(recs[..i + 1], Append(ix, recs[i].ext, recs[i].rel))
  {
    assert recs[..i + 1] == recs[..i] + [recs[i]];
    AddRecord(recs[..i], recs[i], ix);
  }

  /** One loop step on the dependency index. */
  lemma DepIndexStep(recs: seq<FileRecord>, i: nat)
    requires i < |recs|
    ensures DepIndex(recs[..i + 1]) ==
            if recs[i].imports != [] then Put(DepIndex(recs[..i]), recs[i].rel, recs[i].imports) else DepIndex(recs[..i])
  {
    assert recs[..i + 1][..i] == recs[..i];
  }

  /** The extension index holds exactly the buckets of the records seen. */
  ghost predicate ExtensionsInv(recs: seq<FileRecord>, ix: Index) {
    ix.keys == Distinct(Exts(recs)) &&
    (forall e :: e in ix.entries <==> e in Exts(recs)) &&
    (forall e :: e in ix.entries ==> ix.entries[e] == Bucket(recs, e))
  }

  lemma ExtsSnoc(p: seq<FileRecord>, x: FileRecord)
    ensures Exts(p + [x]) == Exts(p) + [x.ext]
  {
    var a := Exts(p + [x]);
    var b := Exts(p) + [x.ext];
    forall k | 0 <= k < |a| ensures a[k] == b[k] {
      assert (p + [x])[k] == if k < |p| then p[k] else x;
    }
  }

  lemma BucketSnoc(p: seq<FileRecord>, x: FileRecord, e: string)
    ensures Bucket(p + [x], e) == Bucket(p, e) + (if x.ext == e then [x.rel] else [])
  {
    assert (p + [x])[..|p|] == p;
  }

  lemma DistinctSnoc(s: seq<string>, x: string)
    ensures Distinct(s + [x]) == if x in s then Distinct(s) else Distinct(s) + [x]
  {
    assert (s + [x])[..|s|] == s;
  }

  /** `summary["extensions"][ext].append(rel_path)` keeps the extension
      index equal to the buckets of the records seen so far. */
  lemma AddRecord(p: seq<FileRecord>, x: FileRecord, ix: Index)
    requires ExtensionsInv(p, ix)
    ensures ExtensionsInv(p + [x], Append(ix, x.ext, x.rel))
  {
    var r := Append(ix, x.ext, x.rel);
    ExtsSnoc(p, x);
    DistinctSnoc(Exts(p), x.ext);
    assert r.keys == Distinct(Exts(p + [x]));
    forall e | e in r.entries ensures r.entries[e] == Bucket(p + [x], e) {
      BucketSnoc(p, x, e);
      if e == x.ext && e !in ix.entries {
        BucketSize(p, e);
      }
    }
  }

  // ---------------------------------------------------------------- properties

  /** A bucket holds one path per record with that extension. */
  lemma {:induction false} BucketSize(recs: seq<FileRecord>, e: string)
    ensures |Bucket(recs, e)| == Occurrences(Exts(recs), e)
    decreases |recs|
  {
    if recs != [] {
      var p := recs[..|recs| - 1];
      var x := recs[|recs| - 1];
      assert recs == p + [x];
      BucketSize(p, e);
      assert Exts(recs) == Exts(p) + [x.ext];
      assert multiset(Exts(recs)) == multiset(Exts(p)) + multiset{x.ext};
    }
  }

  /** Every walked file's relative path is in the bucket of its extension. */
  lemma {:induction false} BucketHolds(recs: seq<FileRecord>, i: nat)
    requires i < |recs|
    ensures recs[i].rel in Bucket(recs, recs[i].ext)
    decreases |recs|
  {
    var p := recs[..|recs| - 1];
    if i < |p| {
      assert p[i] == recs[i];
      BucketHolds(p, i);
    }
  }

  /** Sum of the sizes of the buckets under `keys`. */
  function BucketTotal(keys: seq<string>, recs: seq<FileRecord>): nat
    decreases |keys|
  {
    if keys == [] then 0 else BucketTotal(keys[..|keys| - 1], recs) + |Bucket(recs, keys[|keys| - 1])|
  }

  lemma {:induction false} BucketTotalIsCount(keys: seq<string>, recs: seq<FileRecord>)
    ensures BucketTotal(keys, recs) == SumCounts(keys, Exts(recs))
    decreases |keys|
  {
    if keys != [] {
      BucketTotalIsCount(keys[..|keys| - 1], recs);
      BucketSize(recs, keys[|keys| - 1]);
    }
  }

  /** The extension index lists every walked file exactly once overall. */
  lemma ExtensionIndexCoversWalk(files: seq<WalkFile>)
    ensures BucketTotal(Distinct(ExtsOf(files)), Records(files)) == |files|
  {
    RecordExts(files);
    BucketTotalIsCount(Distinct(ExtsOf(files)), Records(files));
    CountsSumToLength(ExtsOf(files));
  }

  /** A dependency key is the relative path of a record with imports, and
      every such record has its path among the keys. */
  lemma {:induction false} DepKeys(recs: seq<FileRecord>, k: string)
    ensures k in DepIndex(recs).entries <==>
            exists i :: 0 <= i < |recs| && recs[i].rel == k && recs[i].imports != []
    decreases |recs|
  {
    if recs != [] {
      var n := |recs| - 1;
      var p := recs[..n];
      DepKeys(p, k);
      if k in DepIndex(recs).entries {
        if !(recs[n].rel == k && recs[n].imports != []) {
          var i :| 0 <= i < |p| && p[i].rel == k && p[i].imports != [];
          assert p[i] == recs[i];
        }
      } else {
        forall i | 0 <= i < |recs| && recs[i].rel == k ensures recs[i].imports == [] {
          if i < n { assert p[i] == recs[i]; }
        }
      }
    }
  }

  /** The entry of a record is its own imports when no later record has the
      same relative path (always so for one walk of a real tree). */
  lemma {:induction false} DepEntry(recs: seq<FileRecord>, i: nat)
    requires i < |recs| && recs[i].imports != []
    requires forall j :: i < j < |recs| ==> recs[j].rel != recs[i].rel
    ensures recs[i].rel in DepIndex(recs).entries
    ensures DepIndex(recs).entries[recs[i].rel] == recs[i].imports
    decreases |recs|
  {
    var p := recs[..|recs| - 1];
    if i < |p| {
      assert p[i] == recs[i];
      DepEntry(p, i);
    }
  }

  /** Only `.vb` files with at least one match are dependency sources, and
      they are stored with what the extractor found in them. */
  lemma DependencySources(files: seq<WalkFile>, k: string)
    ensures k in DepIndex(Records(files)).entries <==>
            exists i :: 0 <= i < |files| && RelPath(files[i]) == k &&
                        LowerExt(files[i].name) == ".vb" && ExtractImports(files[i].content) != []
  {
    var recs := Records(files);
    DepKeys(recs, k);
    if k in DepIndex(recs).entries {
      var i :| 0 <= i < |recs| && recs[i].rel == k && recs[i].imports != [];
      assert RelPath(files[i]) == k && LowerExt(files[i].name) == ".vb";
    } else {
      forall i | 0 <= i < |files| && RelPath(files[i]) == k && LowerExt(files[i].name) == ".vb"
        ensures ExtractImports(files[i].content) == []
      {
        assert recs[i].rel == k;
      }
    }
  }

  // ---------------------------------------------------------------- examples

  /** Positions without a match are passed over one by one. */
  lemma {:induction false} ScanSkips(s: string, i: nat, j: nat)
    requires i <= j <= |s|
    requires forall p :: i <= p < j ==> ImportAt(s, p).None?
    ensures Scan(s, i) == Scan(s, j)
    decreases j - i
  {
    if i < j {
      ScanPasses(s, i);
      ScanSkips(s, i + 1, j);
    }
  }

  lemma ScanPasses(s: string, i: nat)
    requires i < |s| && ImportAt(s, i).None?
    ensures Scan(s, i) == Scan(s, i + 1)
  {
  }

  /** Inside a line only its first position can start a match. */
  lemma InsideLine(s: string, i: nat, j: nat)
    requires i <= j <= |s| && '\n' !in s[i..j]
    ensures forall p :: i < p <= j ==> ImportAt(s, p).None?
  {
    forall p | i < p <= j ensures ImportAt(s, p).None? {
      assert s[p - 1] == s[i..j][p - 1 - i];
    }
  }

  const Line1: string := "Imports System.Text"
  const Line2: string := "    Imports Custom.Lib"
  const Line3: string := "' Imports Fake.Thing"

  lemma Line1Matches(s: string)
    requires |s| >= 20 && s[..19] == Line1 && s[19] == '\n'
    ensures ImportAt(s, 0) == Some(ImportMatch(19, "System.Text"))
    ensures forall p :: 0 < p <= 19 ==> ImportAt(s, p).None?
  {
    assert s[0..19] == "" + Keyword + " " + "System.Text";
    ImportAtComplete(s, 0, "", " ", "System.Text");
    assert s[0..19] == Line1;
    InsideLine(s, 0, 19);
  }

  lemma Line2Matches(s: string)
    requires |s| >= 43 && s[19] == '\n' && s[20..42] == Line2 && s[42] == '\n'
    ensures ImportAt(s, 20) == Some(ImportMatch(42, "Custom.Lib"))
    ensures forall p :: 20 < p <= 42 ==> ImportAt(s, p).None?
  {
    assert s[20..42] == "    " + Keyword + " " + "Custom.Lib";
    ImportAtComplete(s, 20, "    ", " ", "Custom.Lib");
    InsideLine(s, 20, 42);
  }

  lemma Line3Skipped(s: string)
    requires |s| >= 63 && s[42] == '\n' && s[43..63] == Line3
    ensures forall p :: 43 <= p <= 63 ==> ImportAt(s, p).None?
  {
    assert s[43] == '\'';
    SkipSpacesFrom(s, 43, 43);
    InsideLine(s, 43, 63);
  }

  /** Where the three lines of the scenario sit in its text. */
  lemma ScenarioLayout(s: string)
    requires s == Line1 + "\n" + Line2 + "\n" + Line3 + "\n"
    ensures |s| == 64 && s[..19] == Line1 && s[19] == '\n' && s[20..42] == Line2 && s[42] == '\n'
    ensures s[43..63] == Line3
  {
    assert |s| == 64;
    assert s[..19] == Line1;
    assert s[20..42] == Line2;
    assert s[43..63] == Line3;
  }

  /** Any text laid out as the scenario holds exactly the two matches. */
  lemma ScenarioScan(s: string)
    requires |s| == 64 && s[..19] == Line1 && s[19] == '\n' && s[20..42] == Line2 && s[42] == '\n'
    requires s[43..63] == Line3
    ensures Scan(s, 0) == [Found(0, 19, "System.Text"), Found(20, 42, "Custom.Lib")]
  {
    Line1Matches(s);
    Line2Matches(s);
    Line3Skipped(s);
    ScanStep(s, 0);
    ScanSkips(s, 19, 20);
    ScanStep(s, 20);
    ScanSkips(s, 42, 64);
    var r := Scan(s, 0);
    assert r[1..][1..] == [];
  }

  /** A text with two `Imports` lines and a commented-out one: the scan finds
      the two, in order, and nothing on the commented line. */
  lemma ScenarioImports()
    ensures FindImports(Line1 + "\n" + Line2 + "\n" + Line3 + "\n") == ["System.Text", "Custom.Lib"]
  {
    var s := Line1 + "\n" + Line2 + "\n" + Line3 + "\n";
    ScenarioLayout(s);
    ScenarioScan(s);
  }

  /** The same lines with Windows and old Mac line endings, read from a file
      whose bytes all decode: the read turns both endings into `\n`, so both
      `Imports` lines still start a line and are found. */
  lemma ScenarioLineEndings(units: seq<Unit>)
    requires |units| == |CrLfText|
    requires forall i :: 0 <= i < |units| ==> units[i] == Scalar(CrLfText[i])
    ensures ExtractImports(Readable(units)) == ["System.Text", "Custom.Lib"]
  {
    DecodeScalars(units, CrLfText);
    CrLfTextRead();
    ScenarioImports();
  }

  const CrLfText: string := Line1 + "\r\n" + Line2 + "\r" + Line3 + "\n"

  lemma CrLfTextRead()
    ensures Newlines(CrLfText) == Line1 + "\n" + Line2 + "\n" + Line3 + "\n"
  {
    var tail := Line3 + "\n";
    assert CrLfText == Line1 + "\r\n" + (Line2 + "\r" + tail);
    NoCrInLines();
    NewlinesCrLf(Line1, Line2 + "\r" + tail);
    NewlinesCr(Line2, tail);
  }

  lemma NoCrInLines()
    ensures '\r' !in Line1 && '\r' !in Line2 && '\r' !in Line3 + "\n" && (Line3 + "\n")[0] != '\n'
  {
  }

  /** The keyword is case-sensitive. */
  lemma LowerCaseKeyword()
    ensures FindImports("imports A") == []
  {
    var s := "imports A";
    assert s[0] != Keyword[0];
    SkipSpacesFrom(s, 0, 0);
    InsideLine(s, 0, 9);
    ScanSkips(s, 0, 9);
  }
}
