/**
 * The fixed-window chunker of `src/html_paraser.py`: a window of
 * `chunk_size` characters slides over the text in steps of
 * `chunk_size - overlap`, and every window position gives one chunk.
 */
module HtmlParaser {
  import opened PyText
  import opened Records

  /** A Python slice index: negative counts from the end, then clipped to `0..n`. */
  function SliceIndex(i: int, n: nat): (r: nat)
    ensures r <= n
    ensures 0 <= i <= n ==> r == i
  {
    if i < 0 then (if i + n < 0 then 0 else i + n) else if i > n then n else i
  }

  /** `s[a:b]` with Python's slice semantics. */
  function PySlice(s: string, a: int, b: int): (r: string)
    ensures |r| <= |s|
  {
    var lo, hi := SliceIndex(a, |s|), SliceIndex(b, |s|);
    if lo < hi then s[lo..hi] else ""
  }

  /** `s[k:]` for `k >= 0`: empty once `k` reaches the end. */
  function Drop(s: string, k: nat): string {
    if k < |s| then s[k..] else ""
  }

  /** Where window `i` starts: `start` after `i` steps of `chunk_size - overlap`. */
  function Start(i: nat, step: int): int {
    if i == 0 then 0 else Start(i - 1, step) + step
  }

  lemma {:induction false} StartIsProduct(i: nat, step: int)
    ensures Start(i, step) == i * step
  {
    if i > 0 {
      StartIsProduct(i - 1, step);
      assert i * step == (i - 1) * step + step;
    }
  }

  /** With a positive step the starts increase with `i`. */
  lemma {:induction false} StartMonotone(i: nat, j: nat, step: int)
    requires i <= j && step > 0
    ensures 0 <= Start(i, step) <= Start(j, step)
    ensures i < j ==> Start(i, step) + step <= Start(j, step)
    decreases j
  {
    if i < j {
      StartMonotone(i, j - 1, step);
    } else if i > 0 {
      StartMonotone(i - 1, i - 1, step);
    }
  }

  /** The number of window positions `0, step, 2 * step, ...` below `n`. */
  function WindowCount(n: int, step: int): nat
    requires step > 0
    decreases n
  {
    if n <= 0 then 0 else 1 + WindowCount(n - step, step)
  }

  /** The window count `c` of a non-empty text is the one count with `Start(c - 1) < n <= Start(c)`. */
  lemma {:induction false} WindowCountBounds(n: int, step: int)
    requires step > 0 && n > 0
    ensures var c := WindowCount(n, step);
      c >= 1 && Start(c - 1, step) < n <= Start(c, step)
    decreases n
  {
    if n - step > 0 {
      WindowCountBounds(n - step, step);
    }
  }

  lemma WindowCountUnique(n: int, step: int, c: nat)
    requires step > 0 && n > 0
    requires c >= 1 && Start(c - 1, step) < n <= Start(c, step)
    ensures c == WindowCount(n, step)
  {
    var q := WindowCount(n, step);
    WindowCountBounds(n, step);
    if c < q {
      StartMonotone(c, q - 1, step);
      assert false;
    } else if q < c {
      StartMonotone(q, c - 1, step);
      assert false;
    }
  }

  /** In closed form the window count is `ceil(n / step)`. */
  lemma WindowCountFormula(n: nat, step: int)
    requires step > 0
    ensures WindowCount(n, step) == (n + step - 1) / step
  {
    if n > 0 {
      var c := WindowCount(n, step);
      WindowCountBounds(n, step);
      StartIsProduct(c, step);
      StartIsProduct(c - 1, step);
      assert (c - 1) * step == c * step - step;
      DivUnique(n + step - 1, step, c, n + step - 1 - c * step);
    }
  }

  /** Euclidean division has one quotient and remainder. */
  lemma DivUnique(x: int, step: int, q: int, r: int)
    requires step > 0 && x == q * step + r && 0 <= r < step
    ensures x / step == q
  {
    var q0, r0 := x / step, x % step;
    assert x == q0 * step + r0;
    assert (q0 + 1) * step == q0 * step + step;
    assert (q + 1) * step == q * step + step;
    MulLess(q, q0 + 1, step);
    MulLess(q0, q + 1, step);
  }

  lemma MulLess(a: int, b: int, step: int)
    requires step > 0 && a * step < b * step
    ensures a < b
  {
    assert b * step - a * step == (b - a) * step;
  }

  /** The chunk at window position `i`: `text[start : start + chunk_size]`. */
  function Window(text: string, i: nat, chunkSize: int, overlap: int): string {
    var start := Start(i, chunkSize - overlap);
    PySlice(text, start, start + chunkSize)
  }

  /** What `chunk_text(text, chunk_size, overlap)` returns, in closed form. */
  function WindowChunks(text: string, chunkSize: int, overlap: int): (r: seq<string>)
    requires text != "" ==> chunkSize > overlap
  {
    if text == "" then []
    else seq(WindowCount(|text|, chunkSize - overlap), i requires 0 <= i => Window(text, i, chunkSize, overlap))
  }

  /**
   * `chunk_text` (lines 28-43).  The loop only ends when the step
   * `chunk_size - overlap` is positive; an empty text returns before it.
   */
  method ChunkText(text: string, chunkSize: int := 500, overlap: int := 50) returns (chunks: seq<string>)
    requires text != "" ==> chunkSize > overlap
    ensures chunks == WindowChunks(text, chunkSize, overlap)
  {
    chunks := [];
    if text == "" {
      return;
    }
    var step := chunkSize - overlap;
    var start := 0;
    while start < |text|
      invariant start == Start(|chunks|, step)
      invariant |chunks| == 0 || Start(|chunks| - 1, step) < |text|
      invariant forall i :: 0 <= i < |chunks| ==> chunks[i] == Window(text, i, chunkSize, overlap)
      decreases |text| - start
    {
      var end := start + chunkSize;
      chunks := chunks + [PySlice(text, start, end)];
      start := start + step;
    }
    WindowCountUnique(|text|, step, |chunks|);
  }

  // ---------------------------------------------------------------------
  // Properties of the windows
  // ---------------------------------------------------------------------

  /** Empty text gives no chunks. */
  lemma EmptyTextNoChunks(chunkSize: int, overlap: int)
    ensures WindowChunks("", chunkSize, overlap) == []
  {
  }

  function Min(a: int, b: int): int {
    if a < b then a else b
  }

  /** A window that starts inside the text is the slice from its start to its clipped end. */
  lemma WindowIsSlice(text: string, i: nat, chunkSize: int, overlap: int)
    requires chunkSize > 0 && chunkSize > overlap
    requires Start(i, chunkSize - overlap) < |text|
    ensures var start := Start(i, chunkSize - overlap);
      0 <= start && Window(text, i, chunkSize, overlap) == text[start..Min(start + chunkSize, |text|)]
  {
    StartMonotone(0, i, chunkSize - overlap);
  }

  /**
   * With a positive chunk size: there are `ceil(len(text) / step)` chunks,
   * chunk `i` is the slice of at most `chunk_size` characters starting
   * `i * step` characters in, and no chunk is empty.
   */
  lemma ChunkCountAndSize(text: string, chunkSize: int, overlap: int)
    requires text != "" && chunkSize > 0 && chunkSize > overlap
    ensures var chunks := WindowChunks(text, chunkSize, overlap);
      var step := chunkSize - overlap;
      && |chunks| == WindowCount(|text|, step)
      && (|chunks| - 1) * step < |text| <= |chunks| * step
      && forall i :: 0 <= i < |chunks| ==>
           && 0 <= i * step < |text|
           && 1 <= |chunks[i]| <= chunkSize
           && chunks[i] == text[i * step..Min(i * step + chunkSize, |text|)]
  {
    var chunks := WindowChunks(text, chunkSize, overlap);
    var step := chunkSize - overlap;
    var c := |chunks|;
    WindowCountBounds(|text|, step);
    StartIsProduct(c, step);
    StartIsProduct(c - 1, step);
    forall i | 0 <= i < c
      ensures 0 <= i * step < |text| && 1 <= |chunks[i]| <= chunkSize
      ensures chunks[i] == text[i * step..Min(i * step + chunkSize, |text|)]
    {
      WindowAt(text, chunkSize, overlap, i);
    }
  }

  /** Window `i` of a non-empty text starts `i * step` in and is a non-empty slice of at most `chunk_size` characters. */
  lemma WindowAt(text: string, chunkSize: int, overlap: int, i: nat)
    requires text != "" && chunkSize > 0 && chunkSize > overlap
    requires i < WindowCount(|text|, chunkSize - overlap)
    ensures var step, w := chunkSize - overlap, Window(text, i, chunkSize, overlap);
      && 0 <= i * step < |text| && 1 <= |w| <= chunkSize
      && w == text[i * step..Min(i * step + chunkSize, |text|)]
  {
    var step := chunkSize - overlap;
    var c := WindowCount(|text|, step);
    WindowCountBounds(|text|, step);
    StartMonotone(i, c - 1, step);
    StartIsProduct(i, step);
    WindowIsSlice(text, i, chunkSize, overlap);
  }

  /** With `0 <= overlap < chunk_size`, the last chunk runs to the end of the text. */
  lemma LastChunkReachesEnd(text: string, chunkSize: int, overlap: int)
    requires text != "" && 0 <= overlap < chunkSize
    ensures var chunks := WindowChunks(text, chunkSize, overlap);
      var c := |chunks|;
      var start := Start(c - 1, chunkSize - overlap);
      c >= 1 && 0 <= start < |text| && chunks[c - 1] == text[start..]
  {
    var step := chunkSize - overlap;
    var c := WindowCount(|text|, step);
    WindowCountBounds(|text|, step);
    WindowIsSlice(text, c - 1, chunkSize, overlap);
  }

  /** `chunks[0]` followed by `chunks[i][overlap:]` for every later chunk. */
  function Reassemble(chunks: seq<string>, overlap: nat): string {
    if |chunks| == 0 then ""
    else if |chunks| == 1 then chunks[0]
    else Reassemble(chunks[..|chunks| - 1], overlap) + Drop(chunks[|chunks| - 1], overlap)
  }

  /** `chunk` is the slice of `text` that window `i` covers. */
  predicate IsWindow(chunk: string, i: nat, text: string, chunkSize: int, step: int) {
    && chunkSize > 0 && 0 <= Start(i, step) < |text|
    && chunk == text[Start(i, step)..Min(Start(i, step) + chunkSize, |text|)]
  }

  /** Every chunk of the list, and every window of the text, in order: written as the list grows. */
  predicate Windowed(chunks: seq<string>, text: string, chunkSize: int, step: int)
    decreases |chunks|
  {
    chunks == [] ||
    (Windowed(chunks[..|chunks| - 1], text, chunkSize, step)
     && IsWindow(chunks[|chunks| - 1], |chunks| - 1, text, chunkSize, step))
  }

  lemma WindowsAreSlices(text: string, chunkSize: int, overlap: int)
    requires text != "" && chunkSize > 0 && chunkSize > overlap
    ensures var chunks := WindowChunks(text, chunkSize, overlap);
      forall i :: 0 <= i < |chunks| ==> IsWindow(chunks[i], i, text, chunkSize, chunkSize - overlap)
  {
    var chunks := WindowChunks(text, chunkSize, overlap);
    var step := chunkSize - overlap;
    WindowCountBounds(|text|, step);
    forall i | 0 <= i < |chunks|
      ensures IsWindow(chunks[i], i, text, chunkSize, step)
    {
      StartMonotone(i, |chunks| - 1, step);
      WindowIsSlice(text, i, chunkSize, overlap);
    }
  }

  lemma {:induction false} WindowedFromEach(chunks: seq<string>, text: string, chunkSize: int, step: int)
    requires forall i :: 0 <= i < |chunks| ==> IsWindow(chunks[i], i, text, chunkSize, step)
    ensures Windowed(chunks, text, chunkSize, step)
    decreases |chunks|
  {
    if chunks != [] {
      var init := chunks[..|chunks| - 1];
      assert forall i :: 0 <= i < |init| ==> init[i] == chunks[i];
      WindowedFromEach(init, text, chunkSize, step);
    }
  }

  /** The text up to where one window's overlap ends, glued to the rest of that window. */
  lemma Glue(text: string, start: int, before: int, end: int, chunkSize: int, overlap: int)
    requires 0 <= start < |text| && 0 <= overlap < chunkSize
    requires before == Min(start + overlap, |text|) && end == Min(start + chunkSize, |text|)
    ensures text[..before] + Drop(text[start..end], overlap) == text[..end]
  {
    if start + overlap < end {
      assert Drop(text[start..end], overlap) == text[start + overlap..end];
    }
  }

  /** Where window `i` ends in a text of length `len`. */
  function WindowEnd(i: nat, len: int, chunkSize: int, step: int): int {
    Min(Start(i, step) + chunkSize, len)
  }

  /** Adding the next window to a list that reassembles a prefix of the text extends that prefix to the window's end. */
  lemma ReassembleExtend(chunks: seq<string>, text: string, chunkSize: int, overlap: int)
    requires 0 <= overlap < chunkSize && |chunks| > 1
    requires IsWindow(chunks[|chunks| - 1], |chunks| - 1, text, chunkSize, chunkSize - overlap)
    requires 0 <= WindowEnd(|chunks| - 2, |text|, chunkSize, chunkSize - overlap) <= |text|
    requires Reassemble(chunks[..|chunks| - 1], overlap) == text[..WindowEnd(|chunks| - 2, |text|, chunkSize, chunkSize - overlap)]
    ensures 0 <= WindowEnd(|chunks| - 1, |text|, chunkSize, chunkSize - overlap) <= |text|
    ensures Reassemble(chunks, overlap) == text[..WindowEnd(|chunks| - 1, |text|, chunkSize, chunkSize - overlap)]
  {
    var step := chunkSize - overlap;
    var k := |chunks|;
    var start := Start(k - 1, step);
    WindowEndStep(k - 1, |text|, chunkSize, overlap);
    ReassembleSnoc(chunks, overlap);
    Glue(text, start, WindowEnd(k - 2, |text|, chunkSize, step), WindowEnd(k - 1, |text|, chunkSize, step), chunkSize, overlap);
  }

  /** Reassembling one more chunk appends it without its first `overlap` characters. */
  lemma ReassembleSnoc(chunks: seq<string>, overlap: nat)
    requires |chunks| > 1
    ensures Reassemble(chunks, overlap) == Reassemble(chunks[..|chunks| - 1], overlap) + Drop(chunks[|chunks| - 1], overlap)
  {
  }

  /** Window `i - 1` ends `overlap` characters into window `i`, or at the end of the text. */
  lemma WindowEndStep(i: nat, len: int, chunkSize: int, overlap: int)
    requires i > 0
    ensures Start(i, chunkSize - overlap) == Start(i - 1, chunkSize - overlap) + chunkSize - overlap
    ensures WindowEnd(i - 1, len, chunkSize, chunkSize - overlap) == Min(Start(i, chunkSize - overlap) + overlap, len)
    ensures WindowEnd(i, len, chunkSize, chunkSize - overlap) == Min(Start(i, chunkSize - overlap) + chunkSize, len)
  {
  }

  /** The first window alone reassembles the text up to its end. */
  lemma ReassembleFirst(chunks: seq<string>, text: string, chunkSize: int, overlap: int)
    requires 0 <= overlap && |chunks| == 1 && IsWindow(chunks[0], 0, text, chunkSize, chunkSize - overlap)
    ensures 0 <= WindowEnd(0, |text|, chunkSize, chunkSize - overlap) <= |text|
    ensures Reassemble(chunks, overlap) == text[..WindowEnd(0, |text|, chunkSize, chunkSize - overlap)]
  {
    assert text[0..Min(chunkSize, |text|)] == text[..Min(chunkSize, |text|)];
  }

  /** A non-empty list of windows reassembles the text up to the end of its last window. */
  lemma {:induction false} ReassemblePrefix(chunks: seq<string>, text: string, chunkSize: int, overlap: int)
    requires 0 <= overlap < chunkSize && chunks != [] && Windowed(chunks, text, chunkSize, chunkSize - overlap)
    ensures 0 <= WindowEnd(|chunks| - 1, |text|, chunkSize, chunkSize - overlap) <= |text|
    ensures Reassemble(chunks, overlap) == text[..WindowEnd(|chunks| - 1, |text|, chunkSize, chunkSize - overlap)]
    decreases |chunks|
  {
    if |chunks| > 1 {
      ReassemblePrefix(chunks[..|chunks| - 1], text, chunkSize, overlap);
      ReassembleExtend(chunks, text, chunkSize, overlap);
    } else {
      ReassembleFirst(chunks, text, chunkSize, overlap);
    }
  }

  /** Windows that reach past the end of the text reassemble the whole text. */
  lemma ReassembleWindows(chunks: seq<string>, text: string, chunkSize: int, overlap: int)
    requires 0 <= overlap < chunkSize && chunks != []
    requires forall i :: 0 <= i < |chunks| ==> IsWindow(chunks[i], i, text, chunkSize, chunkSize - overlap)
    requires |text| <= Start(|chunks|, chunkSize - overlap)
    ensures Reassemble(chunks, overlap) == text
  {
    WindowedFromEach(chunks, text, chunkSize, chunkSize - overlap);
    ReassemblePrefix(chunks, text, chunkSize, overlap);
  }

  /**
   * Round trip: with `0 <= overlap < chunk_size`, the first chunk followed
   * by every later chunk without its first `overlap` characters is the text.
   */
  lemma ReassembleRoundTrip(text: string, chunkSize: int, overlap: int)
    requires 0 <= overlap < chunkSize
    ensures Reassemble(WindowChunks(text, chunkSize, overlap), overlap) == text
  {
    if text != "" {
      WindowCountBounds(|text|, chunkSize - overlap);
      WindowsAreSlices(text, chunkSize, overlap);
      ReassembleWindows(WindowChunks(text, chunkSize, overlap), text, chunkSize, overlap);
    }
  }

  /** A full-length chunk ends with the `overlap` characters the next chunk starts with. */
  lemma FullChunkOverlap(text: string, chunkSize: int, overlap: int, i: nat)
    requires 0 <= overlap < chunkSize
    requires i + 1 < |WindowChunks(text, chunkSize, overlap)|
    requires |WindowChunks(text, chunkSize, overlap)[i]| == chunkSize
    ensures var chunks := WindowChunks(text, chunkSize, overlap);
      overlap <= |chunks[i + 1]| && chunks[i][chunkSize - overlap..] == chunks[i + 1][..overlap]
  {
    var chunks := WindowChunks(text, chunkSize, overlap);
    WindowsAreSlices(text, chunkSize, overlap);
    assert Start(i + 1, chunkSize - overlap) == Start(i, chunkSize - overlap) + chunkSize - overlap;
  }

  /** `create_data_records` (lines 45-61): the document type is always "Google_Site". */
  method CreateDataRecords(url: string, textChunks: seq<string>, courseId: string) returns (records: seq<Record>)
    ensures records == SiteRecords(url, textChunks, courseId, "Google_Site")
  {
    records := [];
    for i := 0 to |textChunks|
      invariant records == SiteRecords(url, textChunks[..i], courseId, "Google_Site")
    {
      records := records + [Record(textChunks[i], SiteMetadata(courseId, url, ChunkId(courseId, i), "Google_Site"))];
    }
    assert textChunks[..|textChunks|] == textChunks;
  }
}
