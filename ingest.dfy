/** The overlapping chunker of ingest_codebase.py (`chunk_text`): windows of
    `size` characters, each starting `overlap` characters before the end of
    the previous one, until a window reaches the end of the text. */
module Ingest {
  import opened Common

  const ChunkSize: int := 1500
  const ChunkOverlap: int := 200

  function Min(a: int, b: int): int {
    if a <= b then a else b
  }

  /** The windows the loop emits once `start` has been reached. */
  function Windows(text: string, size: int, overlap: int, start: nat): (cs: seq<string>)
    requires 0 < size && overlap < size
    ensures cs == [] <==> start >= |text|
    decreases |text| - start
  {
    if start >= |text| then []
    else if start + size >= |text| then [text[start..]]
    else [text[start..start + size]] + Windows(text, size, overlap, start + size - overlap)
  }

  /** `chunk_text`, for `0 < size` and `overlap < size` (1500 and 200 by
      default): each window then starts after the one before it, so the loop
      ends. With `overlap >= size` and a text longer than `size` the source
      can loop for ever, for instance on "abc" with size 1 and overlap 1; a
      text no longer than `size` still gives its one chunk. */
  method ChunkText(text: string, size: int, overlap: int) returns (chunks: seq<string>)
    requires 0 < size && overlap < size
    ensures chunks == Windows(text, size, overlap, 0)
  {
    chunks := [];
    var start: nat := 0;
    var length := |text|;
    while start < length
      invariant chunks + Windows(text, size, overlap, start) == Windows(text, size, overlap, 0)
      decreases length - start
    {
      var end := Min(start + size, length);
      var chunk := text[start..end];
      chunks := chunks + [chunk];
      if end == length {
        assert chunk == text[start..];
        assert Windows(text, size, overlap, start) == [chunk];
        break;
      }
      assert Windows(text, size, overlap, start) == [chunk] + Windows(text, size, overlap, end - overlap);
      start := end - overlap;
    }
  }

  /** Where the k-th window after `start` begins, one stride at a time. */
  function Nth(start: int, stride: int, k: nat): int
    decreases k
  {
    if k == 0 then start else Nth(start + stride, stride, k - 1)
  }

  lemma {:induction false} NthIsProduct(start: int, stride: int, k: nat)
    ensures Nth(start, stride, k) == start + k * stride
    decreases k
  {
    if k > 0 {
      NthIsProduct(start + stride, stride, k - 1);
      assert (k - 1) * stride + stride == k * stride;
    }
  }

  /** The k-th window begins k strides of `size - overlap` in, and only the
      last one reaches the end of the text. */
  lemma {:induction false} WindowAt(text: string, size: int, overlap: int, start: nat, k: nat)
    requires 0 < size && overlap < size
    requires k < |Windows(text, size, overlap, start)|
    ensures var p := Nth(start, size - overlap, k);
            0 <= p < |text| &&
            Windows(text, size, overlap, start)[k] == text[p..Min(p + size, |text|)] &&
            (k + 1 < |Windows(text, size, overlap, start)| ==> p + size < |text|) &&
            (k + 1 == |Windows(text, size, overlap, start)| && 0 <= overlap ==> p + size >= |text|)
    decreases k
  {
    var ws := Windows(text, size, overlap, start);
    if k > 0 {
      var next := start + size - overlap;
      assert ws == [text[start..start + size]] + Windows(text, size, overlap, next);
      WindowAt(text, size, overlap, next, k - 1);
    } else if start + size >= |text| {
      assert ws == [text[start..]];
      assert Nth(start, size - overlap, 0) == start;
      assert Min(start + size, |text|) == |text|;
      assert ws[0] == text[start..Min(start + size, |text|)];
    } else {
      assert ws == [text[start..start + size]] + Windows(text, size, overlap, start + size - overlap);
    }
  }

  /** The layout of `chunk_text(text, size, overlap)`: the k-th chunk is the
      text from k·(size - overlap) on, `size` characters long except for the
      last chunk, which ends where the text ends. (That an empty text gives
      no chunk is the contract of `Windows`.) */
  lemma ChunkAt(text: string, size: int, overlap: int, k: nat)
    requires 0 < size && overlap < size
    requires k < |Windows(text, size, overlap, 0)|
    ensures var cs := Windows(text, size, overlap, 0);
            var p := k * (size - overlap);
            0 <= p < |text| && cs[k] == text[p..Min(p + size, |text|)] && |cs[k]| <= size &&
            (k + 1 < |cs| ==> |cs[k]| == size) &&
            (k + 1 == |cs| && 0 <= overlap ==> p + |cs[k]| == |text|)
  {
    WindowAt(text, size, overlap, 0, k);
    NthIsProduct(0, size - overlap, k);
  }

  /** The first chunk is the start of the text. */
  lemma FirstChunk(text: string, size: int, overlap: int)
    requires 0 < size && overlap < size && text != []
    ensures Windows(text, size, overlap, 0)[0] == text[..Min(size, |text|)]
  {
  }

  /** Consecutive chunks share exactly `overlap` characters: the tail of one
      is the head of the next. */
  lemma SharedOverlap(text: string, size: int, overlap: nat, k: nat)
    requires 0 < size && overlap < size
    requires k + 1 < |Windows(text, size, overlap, 0)|
    ensures var cs := Windows(text, size, overlap, 0);
            |cs[k]| == size && overlap <= |cs[k + 1]| &&
            cs[k][size - overlap..] == cs[k + 1][..overlap]
  {
    var cs := Windows(text, size, overlap, 0);
    var step := size - overlap;
    WindowAt(text, size, overlap, 0, k);
    WindowAt(text, size, overlap, 0, k + 1);
    NthAdvance(0, step, k);
    var a := Nth(0, step, k);
    assert cs[k] == text[a..a + size];
    assert cs[k + 1] == text[a + step..Min(a + step + size, |text|)];
    assert a + step + overlap == a + size <= Min(a + step + size, |text|);
    assert cs[k][step..] == text[a + step..a + size];
    assert cs[k + 1][..overlap] == text[a + step..a + size];
  }

  lemma {:induction false} NthAdvance(start: int, stride: int, k: nat)
    ensures Nth(start, stride, k + 1) == Nth(start, stride, k) + stride
    decreases k
  {
    if k > 0 {
      NthAdvance(start + stride, stride, k - 1);
    }
  }

  /** A negative overlap leaves gaps, and the last chunk need not reach the
      end: here the last two characters are never read. */
  lemma NegativeOverlapSkips()
    ensures Windows("abcd", 2, -2, 0) == ["ab"]
  {
    assert Windows("abcd", 2, -2, 4) == [];
    assert "abcd"[0..2] == "ab";
  }

  /** Python's `s[n:]` for `n >= 0`. */
  function Drop(s: string, n: nat): (r: string)
    ensures |r| == if n <= |s| then |s| - n else 0
  {
    if n <= |s| then s[n..] else []
  }

  /** The chunks after the first with their shared prefix dropped. */
  function Glue(cs: seq<string>, overlap: nat): string
    decreases |cs|
  {
    if cs == [] then [] else Drop(cs[0], overlap) + Glue(cs[1..], overlap)
  }

  /** `chunks[0]` followed by `chunks[i][overlap:]` for every later `i`. */
  function Stitch(cs: seq<string>, overlap: nat): string {
    if cs == [] then [] else cs[0] + Glue(cs[1..], overlap)
  }

  lemma {:induction false} GlueWindows(text: string, size: int, overlap: nat, start: nat)
    requires 0 < size && overlap < size && start + overlap < |text|
    ensures Glue(Windows(text, size, overlap, start), overlap) == text[start + overlap..]
    decreases |text| - start
  {
    if start + size >= |text| {
      WindowsLast(text, size, overlap, start);
      GlueCons(text[start..], [], overlap);
      assert Drop(text[start..], overlap) == text[start + overlap..];
    } else {
      var next := start + size - overlap;
      WindowsStep(text, size, overlap, start);
      GlueWindows(text, size, overlap, next);
      GlueStep(text, size, overlap, start, next);
    }
  }

  lemma GlueStep(text: string, size: int, overlap: nat, start: nat, next: nat)
    requires 0 < size && overlap < size && start + size < |text| && next == start + size - overlap
    requires Glue(Windows(text, size, overlap, next), overlap) == text[start + size..]
    ensures Glue([text[start..start + size]] + Windows(text, size, overlap, next), overlap) ==
            text[start + overlap..]
  {
    var rest := Windows(text, size, overlap, next);
    GlueCons(text[start..start + size], rest, overlap);
    var d := Drop(text[start..start + size], overlap);
    assert d == text[start + overlap..start + size];
    assert d + text[start + size..] == text[start + overlap..];
  }

  lemma WindowsLast(text: string, size: int, overlap: int, start: nat)
    requires 0 < size && overlap < size && start < |text| <= start + size
    ensures Windows(text, size, overlap, start) == [text[start..]]
  {
  }

  lemma WindowsStep(text: string, size: int, overlap: int, start: nat)
    requires 0 < size && overlap < size && start + size < |text|
    ensures Windows(text, size, overlap, start) ==
            [text[start..start + size]] + Windows(text, size, overlap, start + size - overlap)
  {
  }

  lemma GlueCons(c: string, cs: seq<string>, overlap: nat)
    ensures Glue([c] + cs, overlap) == Drop(c, overlap) + Glue(cs, overlap)
  {
    assert ([c] + cs)[0] == c && ([c] + cs)[1..] == cs;
  }

  /** Dropping the shared prefix of every chunk after the first and joining
      them gives the text back. */
  lemma ChunkRoundTrip(text: string, size: int, overlap: nat)
    requires 0 < size && overlap < size
    ensures Stitch(Windows(text, size, overlap, 0), overlap) == text
  {
    var ws := Windows(text, size, overlap, 0);
    if text != [] && size < |text| {
      var rest := Windows(text, size, overlap, size - overlap);
      assert ws == [text[..size]] + rest;
      GlueWindows(text, size, overlap, size - overlap);
      assert text[..size] + text[size..] == text;
    }
  }

  /** With no overlap the windows tile the text. */
  lemma TilesWithoutOverlap(text: string, size: int)
    requires 0 < size
    ensures Concat(Windows(text, size, 0, 0)) == text
  {
    ChunkRoundTrip(text, size, 0);
    GlueIsConcat(Windows(text, size, 0, 0));
  }

  lemma {:induction false} GlueIsConcat(cs: seq<string>)
    ensures Stitch(cs, 0) == Concat(cs) && Glue(cs, 0) == Concat(cs)
    decreases |cs|
  {
    if cs != [] {
      GlueIsConcat(cs[1..]);
      assert Concat(cs) == cs[0] + Concat(cs[1..]);
    }
  }
}
