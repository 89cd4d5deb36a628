/** Shared vocabulary: optional values, ASCII case folding, Python's
    whitespace class, `os.path.splitext` / `os.path.join` on POSIX paths,
    slicing, joining, first-occurrence ordering and the permissive file
    decoding used by every agent. */
module Common {

  datatype Option<T> = None | Some(value: T)

  datatype Result<T> = Success(value: T) | Failure(error: string)

  /** Outcome of calling a Python function that answers with a string or raises. */
  datatype Outcome = Returned(text: string) | Raised(message: string)

  /** The warning sign every placeholder string starts with. */
  const Warn: string := "⚠ "

  // ---------------------------------------------------------------- characters

  function LowerChar(c: char): (r: char)
    ensures 'A' <= c <= 'Z' ==> r as int == c as int + 32
    ensures !('A' <= c <= 'Z') ==> r == c
  {
    if 'A' <= c <= 'Z' then (c as int + 32) as char else c
  }

  /** `str.lower()`, restricted to ASCII letters. */
  function Lower(s: string): (r: string)
    ensures |r| == |s|
    ensures forall i :: 0 <= i < |s| ==> r[i] == LowerChar(s[i])
  {
    seq(|s|, i requires 0 <= i < |s| => LowerChar(s[i]))
  }

  lemma LowerIdempotent(s: string)
    ensures Lower(Lower(s)) == Lower(s)
  {
  }

  /** The characters Python's `str.isspace()` and the regex class `\s` accept. */
  predicate IsSpace(c: char) {
    ('\U{9}' <= c <= '\U{D}') || ('\U{1C}' <= c <= ' ') || c == '\U{85}' ||
    c == '\U{A0}' || c == '\U{1680}' || ('\U{2000}' <= c <= '\U{200A}') ||
    c == '\U{2028}' || c == '\U{2029}' || c == '\U{202F}' || c == '\U{205F}' ||
    c == '\U{3000}'
  }

  predicate AllSpaces(s: string) {
    forall i :: 0 <= i < |s| ==> IsSpace(s[i])
  }

  /** The end of the maximal run of whitespace starting at `i` (greedy `\s*`). */
  function SkipSpaces(s: string, i: nat): (j: nat)
    requires i <= |s|
    ensures i <= j <= |s|
    ensures AllSpaces(s[i..j])
    ensures j == |s| || !IsSpace(s[j])
    decreases |s| - i
  {
    if i < |s| && IsSpace(s[i]) then SkipSpaces(s, i + 1) else i
  }

  /** Any index inside a whitespace run that ends with a non-space lands on the same end. */
  lemma {:induction false} SkipSpacesFrom(s: string, i: nat, j: nat)
    requires i <= j <= |s|
    requires AllSpaces(s[i..j])
    requires j == |s| || !IsSpace(s[j])
    ensures SkipSpaces(s, i) == j
    decreases j - i
  {
    if i < j {
      assert IsSpace(s[i..j][0]);
      assert s[i + 1..j] == s[i..j][1..];
      SkipSpacesFrom(s, i + 1, j);
    }
  }

  /** `r` is `s` with a run of whitespace cut off at each end. */
  ghost predicate Trimmed(s: string, r: string) {
    exists a, b :: 0 <= a <= b <= |s| && r == s[a..b] &&
                   (forall i :: 0 <= i < a ==> IsSpace(s[i])) &&
                   (forall i :: b <= i < |s| ==> IsSpace(s[i]))
  }

  lemma TrimmedAt(s: string, r: string, a: nat, b: nat)
    requires a <= b <= |s| && r == s[a..b]
    requires forall i :: 0 <= i < a ==> IsSpace(s[i])
    requires forall i :: b <= i < |s| ==> IsSpace(s[i])
    ensures Trimmed(s, r)
  {
  }

  lemma TrimmedFront(s: string, r: string)
    requires s != [] && IsSpace(s[0]) && Trimmed(s[1..], r)
    ensures Trimmed(s, r)
  {
    var t := s[1..];
    var a, b :| 0 <= a <= b <= |t| && r == t[a..b] &&
                (forall i :: 0 <= i < a ==> IsSpace(t[i])) &&
                (forall i :: b <= i < |t| ==> IsSpace(t[i]));
    assert t[a..b] == s[a + 1..b + 1];
    forall i | 0 <= i < a + 1 ensures IsSpace(s[i]) {
      if i > 0 {
        assert s[i] == t[i - 1];
      }
    }
    forall i | b + 1 <= i < |s| ensures IsSpace(s[i]) {
      assert s[i] == t[i - 1];
    }
    TrimmedAt(s, r, a + 1, b + 1);
  }

  lemma TrimmedBack(s: string, r: string)
    requires s != [] && IsSpace(s[|s| - 1]) && Trimmed(s[..|s| - 1], r)
    ensures Trimmed(s, r)
  {
    var t := s[..|s| - 1];
    var a, b :| 0 <= a <= b <= |t| && r == t[a..b] &&
                (forall i :: 0 <= i < a ==> IsSpace(t[i])) &&
                (forall i :: b <= i < |t| ==> IsSpace(t[i]));
    assert t[a..b] == s[a..b];
    forall i | 0 <= i < a ensures IsSpace(s[i]) {
      assert s[i] == t[i];
    }
    forall i | b <= i < |s| ensures IsSpace(s[i]) {
      if i < |t| {
        assert s[i] == t[i];
      }
    }
    TrimmedAt(s, r, a, b);
  }

  lemma TrimmedWhole(s: string)
    ensures Trimmed(s, s)
  {
    TrimmedAt(s, s, 0, |s|);
  }

  /** `str.strip()` with no argument: the text between the leading and the
      trailing whitespace, which neither starts nor ends with whitespace. */
  function Strip(s: string): (r: string)
    ensures |r| <= |s|
    ensures Trimmed(s, r)
    ensures r == [] || (!IsSpace(r[0]) && !IsSpace(r[|r| - 1]))
    ensures AllSpaces(s) ==> r == []
    decreases |s|
  {
    if s == [] then TrimmedWhole(s); []
    else if IsSpace(s[0]) then TrimmedFront(s, Strip(s[1..])); Strip(s[1..])
    else if IsSpace(s[|s| - 1]) then TrimmedBack(s, Strip(s[..|s| - 1])); Strip(s[..|s| - 1])
    else TrimmedWhole(s); s
  }

  // ---------------------------------------------------------------- slicing

  /** `s[:n]` for a non-negative `n`. */
  function Take<T>(s: seq<T>, n: nat): (r: seq<T>)
    ensures |r| == if n < |s| then n else |s|
    ensures r == s[..|r|]
  {
    if n < |s| then s[..n] else s
  }

  /** `sep.join(parts)`. */
  function Join(sep: string, parts: seq<string>): (r: string)
    ensures |parts| == 1 ==> r == parts[0]
    decreases |parts|
  {
    if parts == [] then [] else if |parts| == 1 then parts[0] else parts[0] + sep + Join(sep, parts[1..])
  }

  lemma JoinCons(sep: string, first: string, rest: seq<string>)
    requires rest != []
    ensures Join(sep, [first] + rest) == first + sep + Join(sep, rest)
  {
    assert ([first] + rest)[1..] == rest;
  }

  function Concat<T>(parts: seq<seq<T>>): (r: seq<T>)
    decreases |parts|
  {
    if parts == [] then [] else parts[0] + Concat(parts[1..])
  }

  lemma {:induction false} ConcatAppend<T>(parts: seq<seq<T>>, last: seq<T>)
    ensures Concat(parts + [last]) == Concat(parts) + last
    decreases |parts|
  {
    if parts != [] {
      assert (parts + [last])[1..] == parts[1..] + [last];
      ConcatAppend(parts[1..], last);
    }
  }

  /** `s.replace(pat, rep)`: the leftmost occurrence is replaced and the
      search goes on after it, so occurrences never overlap. */
  function Replace(s: string, pat: string, rep: string): string
    requires pat != []
    decreases |s|
  {
    if |s| < |pat| then s
    else if s[..|pat|] == pat then rep + Replace(s[|pat|..], pat, rep)
    else [s[0]] + Replace(s[1..], pat, rep)
  }

  predicate NoDuplicates<T(==)>(s: seq<T>) {
    forall i, j :: 0 <= i < j < |s| ==> s[i] != s[j]
  }

  // ---------------------------------------------------------------- paths

  /** Index of the last occurrence of `c`, or -1. */
  function LastIndexOf(s: string, c: char): (k: int)
    ensures -1 <= k < |s|
    ensures k >= 0 ==> s[k] == c
    ensures forall i :: k < i < |s| ==> s[i] != c
    decreases |s|
  {
    if s == [] then -1 else if s[|s| - 1] == c then |s| - 1 else LastIndexOf(s[..|s| - 1], c)
  }

  /** `os.path.splitext(p)[-1]` on POSIX: the part from the last dot, unless that
      dot is preceded (within the last path component) only by dots. */
  function Ext(p: string): (e: string)
    ensures e == [] || (e[0] == '.' && |e| <= |p| && e == p[|p| - |e|..])
    ensures e != [] ==> forall i :: 1 <= i < |e| ==> e[i] != '.' && e[i] != '/'
  {
    var sep := LastIndexOf(p, '/');
    var dot := LastIndexOf(p, '.');
    if dot > sep && exists k :: sep < k < dot && p[k] != '.' then p[dot..] else []
  }

  /** When the extension is empty and when not: it is non-empty exactly when
      the last path component has a dot with a character other than a dot
      before it, and it then starts at the last such dot. */
  lemma ExtCharacterised(p: string)
    ensures var e := Ext(p);
            var sep := LastIndexOf(p, '/');
            (e != [] ==> exists k :: sep < k < |p| - |e| && p[k] != '.') &&
            (e == [] ==> forall i, j :: sep < i < j < |p| && p[j] == '.' ==> p[i] == '.')
  {
  }

  /** A name `stem.x` whose stem has a character other than a dot, with no
      further dot in `x` and no directory separator, has the extension `.x`. */
  lemma ExtOfName(stem: string, x: string)
    requires '/' !in stem + x && '.' !in x
    requires exists k :: 0 <= k < |stem| && stem[k] != '.'
    ensures Ext(stem + "." + x) == "." + x
  {
    var p := stem + "." + x;
    var d := |stem|;
    assert '/' !in p;
    assert LastIndexOf(p, '/') == -1;
    assert p[d] == '.';
    forall i | d < i < |p| ensures p[i] != '.' {
      assert p[i] == x[i - d - 1];
    }
    assert LastIndexOf(p, '.') == d;
    var k :| 0 <= k < d && stem[k] != '.';
    assert p[k] == stem[k];
    assert p[d..] == "." + x;
  }

  /** The extension every agent compares: `os.path.splitext(name)[-1].lower()`. */
  function LowerExt(name: string): string {
    Lower(Ext(name))
  }

  /** `os.path.join(a, b)` for one further component. */
  function JoinPath(a: string, b: string): (r: string)
    ensures b != [] && b[0] == '/' ==> r == b
  {
    if b != [] && b[0] == '/' then b
    else if a == [] || a[|a| - 1] == '/' then a + b
    else a + "/" + b
  }

  /** `os.path.join(top, d1, ..., dn)`: the directory `os.walk` reports. */
  function JoinAll(top: string, dirs: seq<string>): string
    decreases |dirs|
  {
    if dirs == [] then top else JoinAll(JoinPath(top, dirs[0]), dirs[1..])
  }

  /** `os.path.basename(p)`. */
  function Basename(p: string): (r: string)
    ensures '/' !in r
    ensures |r| <= |p| && r == p[|p| - |r|..]
    ensures |r| < |p| ==> p[|p| - |r| - 1] == '/'
  {
    p[LastIndexOf(p, '/') + 1..]
  }

  // ---------------------------------------------------------------- files

  /** One value produced by the decoder: a character, or a byte sequence
      that is not valid UTF-8 at that point. */
  datatype Unit = Scalar(c: char) | BadByte(b: bv8)

  datatype FileContent = Unreadable(reason: string) | Readable(units: seq<Unit>)

  /** Reading with `encoding="utf-8", errors="ignore"`: invalid input is dropped. */
  function DecodeIgnoring(units: seq<Unit>): (s: string)
    ensures |s| <= |units|
    ensures (forall i :: 0 <= i < |units| ==> units[i].Scalar?) ==>
              |s| == |units| && forall i :: 0 <= i < |units| ==> s[i] == units[i].c
    decreases |units|
  {
    if units == [] then []
    else UnitText(units[0]) + DecodeIgnoring(units[1..])
  }

  /** Units that are all characters decode to those characters. */
  lemma DecodeScalars(units: seq<Unit>, t: string)
    requires |units| == |t| && forall i :: 0 <= i < |units| ==> units[i] == Scalar(t[i])
    ensures DecodeIgnoring(units) == t
  {
    assert forall i :: 0 <= i < |units| ==> units[i].Scalar?;
  }

  function UnitText(u: Unit): (s: string)
    ensures |s| <= 1
  {
    match u
    case Scalar(c) => [c]
    case BadByte(_) => []
  }

  lemma {:induction false} DecodeAppend(a: seq<Unit>, b: seq<Unit>)
    ensures DecodeIgnoring(a + b) == DecodeIgnoring(a) + DecodeIgnoring(b)
    decreases |a|
  {
    if a != [] {
      assert (a + b)[0] == a[0] && (a + b)[1..] == a[1..] + b;
      DecodeAppend(a[1..], b);
      calc {
        DecodeIgnoring(a + b);
        UnitText(a[0]) + DecodeIgnoring(a[1..] + b);
        UnitText(a[0]) + (DecodeIgnoring(a[1..]) + DecodeIgnoring(b));
      }
    } else {
      assert a + b == b;
    }
  }

  /** Bad bytes never reach the text and never stop the decoding. */
  lemma {:induction false} DecodeDropsBadBytes(units: seq<Unit>, b: bv8)
    ensures DecodeIgnoring(units + [BadByte(b)]) == DecodeIgnoring(units)
    ensures DecodeIgnoring([BadByte(b)] + units) == DecodeIgnoring(units)
  {
    DecodeAppend(units, [BadByte(b)]);
    DecodeAppend([BadByte(b)], units);
    assert DecodeIgnoring([BadByte(b)]) == [];
  }

  /** Universal newlines of a text-mode read: `\r\n` and a lone `\r` both
      become `\n`. */
  function Newlines(s: string): (t: string)
    ensures |t| <= |s|
    ensures '\r' !in t
    ensures '\r' !in s ==> t == s
    decreases |s|
  {
    if s == [] then []
    else if s[0] == '\r' then "\n" + Newlines(if |s| > 1 && s[1] == '\n' then s[2..] else s[1..])
    else [s[0]] + Newlines(s[1..])
  }

  /** Text without `\r` passes through unchanged in front of anything. */
  lemma {:induction false} NewlinesPrefix(a: string, t: string)
    requires '\r' !in a
    ensures Newlines(a + t) == a + Newlines(t)
    decreases |a|
  {
    if a != [] {
      var s := a + t;
      assert s[0] == a[0] && s[1..] == a[1..] + t;
      assert a[0] in a;
      assert Newlines(s) == [a[0]] + Newlines(a[1..] + t);
      NewlinesPrefix(a[1..], t);
      assert a == [a[0]] + a[1..];
    } else {
      assert a + t == t;
    }
  }

  lemma NewlinesPair(b: string)
    ensures Newlines("\r\n" + b) == "\n" + Newlines(b)
  {
    var s := "\r\n" + b;
    assert s[0] == '\r' && s[1] == '\n' && s[2..] == b;
  }

  lemma NewlinesLoneCr(b: string)
    requires b == [] || b[0] != '\n'
    ensures Newlines("\r" + b) == "\n" + Newlines(b)
  {
    var s := "\r" + b;
    assert s[0] == '\r' && s[1..] == b;
    assert |s| > 1 ==> s[1] == b[0];
  }

  /** A `\r\n` pair becomes one `\n`. */
  lemma NewlinesCrLf(a: string, b: string)
    requires '\r' !in a
    ensures Newlines(a + "\r\n" + b) == a + "\n" + Newlines(b)
  {
    assert a + "\r\n" + b == a + ("\r\n" + b);
    NewlinesPrefix(a, "\r\n" + b);
    NewlinesPair(b);
    assert a + ("\n" + Newlines(b)) == a + "\n" + Newlines(b);
  }

  /** A `\r` not followed by `\n` becomes `\n` too. */
  lemma NewlinesCr(a: string, b: string)
    requires '\r' !in a && (b == [] || b[0] != '\n')
    ensures Newlines(a + "\r" + b) == a + "\n" + Newlines(b)
  {
    assert a + "\r" + b == a + ("\r" + b);
    NewlinesPrefix(a, "\r" + b);
    NewlinesLoneCr(b);
    assert a + ("\n" + Newlines(b)) == a + "\n" + Newlines(b);
  }

  /** `open(path, "r", encoding="utf-8", errors="ignore").read()`: the
      decoded text with its line endings translated. */
  function ReadText(units: seq<Unit>): (s: string)
    ensures |s| <= |units| && '\r' !in s
  {
    Newlines(DecodeIgnoring(units))
  }

  /** One file reported by `os.walk(top)`: the directories below `top` that
      lead to it, its name and what reading it would give. */
  datatype WalkFile = WalkFile(dirs: seq<string>, name: string, content: FileContent)

  /** `os.path.join(root, name)` where `root` is the walk's directory. */
  function AbsPath(top: string, f: WalkFile): string {
    JoinPath(JoinAll(top, f.dirs), f.name)
  }

  /** `os.path.relpath(root, top)`: "." for `top` itself. */
  function RelRoot(dirs: seq<string>): (r: string)
    ensures dirs == [] ==> r == "."
  {
    if dirs == [] then "." else JoinAll(dirs[0], dirs[1..])
  }

  /** `os.path.join(os.path.relpath(root, top), name)`. */
  function RelPath(f: WalkFile): string {
    JoinPath(RelRoot(f.dirs), f.name)
  }

  /** Files directly under the root carry a leading "." component. */
  lemma RelPathAtRoot(f: WalkFile)
    requires f.dirs == [] && f.name != [] && f.name[0] != '/'
    ensures RelPath(f) == "./" + f.name
  {
  }

  // ---------------------------------------------------------------- ordering

  /** The distinct elements of `s` in order of first occurrence (the key order
      of a Python dict or `Counter` filled from `s`). */
  function Distinct(s: seq<string>): (d: seq<string>)
    ensures NoDuplicates(d)
    ensures forall x :: x in d <==> x in s
    decreases |s|
  {
    if s == [] then []
    else
      var d := Distinct(s[..|s| - 1]);
      if s[|s| - 1] in d then d else d + [s[|s| - 1]]
  }

  /** Position of the first occurrence of `x` in `s`. */
  function FirstIndex(s: seq<string>, x: string): (k: nat)
    requires x in s
    ensures k < |s| && s[k] == x
    ensures forall i :: 0 <= i < k ==> s[i] != x
    decreases |s|
  {
    if s[0] == x then 0 else 1 + FirstIndex(s[1..], x)
  }

  lemma FirstIndexPrefix(s: seq<string>, x: string, n: nat)
    requires n <= |s| && x in s[..n]
    ensures x in s && FirstIndex(s, x) == FirstIndex(s[..n], x)
  {
    var k := FirstIndex(s[..n], x);
    assert s[k] == x;
  }

  /** Distinct lists elements in the order of their first occurrence. */
  lemma {:induction false} DistinctOrder(s: seq<string>, i: nat, j: nat)
    requires i < j < |Distinct(s)|
    ensures FirstIndex(s, Distinct(s)[i]) < FirstIndex(s, Distinct(s)[j])
    decreases |s|
  {
    var p := s[..|s| - 1];
    var d := Distinct(p);
    var x := s[|s| - 1];
    assert s == p + [x];
    if x in d {
      DistinctOrder(p, i, j);
      FirstIndexPrefix(s, d[i], |p|);
      FirstIndexPrefix(s, d[j], |p|);
    } else if j < |d| {
      DistinctOrder(p, i, j);
      FirstIndexPrefix(s, d[i], |p|);
      FirstIndexPrefix(s, d[j], |p|);
    } else {
      FirstIndexPrefix(s, d[i], |p|);
      assert d[i] in p;
      assert x !in p;
      assert FirstIndex(s, x) == |p|;
    }
  }

  /** The lower-cased extension of every walked file, in walk order. */
  function ExtsOf(files: seq<WalkFile>): (es: seq<string>)
    ensures |es| == |files|
    ensures forall i :: 0 <= i < |files| ==> es[i] == LowerExt(files[i].name)
  {
    seq(|files|, i requires 0 <= i < |files| => LowerExt(files[i].name))
  }

  lemma ExtsOfAppend(a: seq<WalkFile>, b: seq<WalkFile>)
    ensures ExtsOf(a + b) == ExtsOf(a) + ExtsOf(b)
  {
  }

  /** How often `l` occurs in `exts` (what `Counter(exts)` holds for it). */
  function Occurrences(exts: seq<string>, l: string): nat {
    multiset(exts)[l]
  }

  /** Sum of the counts of `keys`, in that order. */
  function SumCounts(keys: seq<string>, exts: seq<string>): nat
    decreases |keys|
  {
    if keys == [] then 0 else SumCounts(keys[..|keys| - 1], exts) + Occurrences(exts, keys[|keys| - 1])
  }

  lemma {:induction false} SumCountsAppend(keys: seq<string>, p: seq<string>, x: string)
    requires NoDuplicates(keys)
    ensures SumCounts(keys, p + [x]) == SumCounts(keys, p) + (if x in keys then 1 else 0)
    decreases |keys|
  {
    if keys != [] {
      var k' := keys[..|keys| - 1];
      assert keys == k' + [keys[|keys| - 1]];
      SumCountsAppend(k', p, x);
      assert multiset(p + [x]) == multiset(p) + multiset{x};
    }
  }

  /** Counting every distinct element once accounts for the whole sequence. */
  lemma {:induction false} CountsSumToLength(exts: seq<string>)
    ensures SumCounts(Distinct(exts), exts) == |exts|
    decreases |exts|
  {
    if exts != [] {
      var p := exts[..|exts| - 1];
      var x := exts[|exts| - 1];
      assert exts == p + [x];
      CountsSumToLength(p);
      var d := Distinct(p);
      SumCountsAppend(d, p, x);
      if x !in d {
        assert x !in p;
        assert multiset(exts)[x] == multiset(p)[x] + 1 == 1;
        assert (d + [x])[..|d + [x]| - 1] == d;
      }
    }
  }

}
