/**
 * The sentence-aware chunker and record builder of src/helper/html_parser.py.
 *
 * `ChunkText` is the source's loop.  It is proved equal to `SentenceChunks`,
 * a left fold of `Step` over the sentences, and the lemmas below describe
 * that fold: empty text gives no chunks, every chunk is stripped, a first
 * sentence that does not fit gives an empty first chunk, an overflow always
 * leads to a final chunk, and, in block form, the chunks are the sentences
 * cut into consecutive blocks, each block after the first preceded by the
 * overlap seed taken from the chunk before it.
 */
module HtmlParser {
  import opened PyText
  import opened Records

  // ---------------------------------------------------------------------
  // Sentence splitting: re.split(r'(?<=[.!?]) +', s)
  // ---------------------------------------------------------------------

  predicate IsTerminator(c: char) {
    c == '.' || c == '!' || c == '?'
  }

  /** The end of the run of `' '` characters that starts at `i`. */
  function SpaceRunEnd(s: string, i: nat): (j: nat)
    requires i <= |s|
    ensures i <= j <= |s|
    ensures forall k :: i <= k < j ==> s[k] == ' '
    ensures j == |s| || s[j] != ' '
    decreases |s| - i
  {
    if i < |s| && s[i] == ' ' then SpaceRunEnd(s, i + 1) else i
  }

  /** The pattern matches at `i`: a space run starts here right after `.`, `!` or `?`. */
  predicate SplitsAt(s: string, i: nat) {
    0 < i < |s| && IsTerminator(s[i - 1]) && s[i] == ' '
  }

  /** The pieces of `s[start..]`, scanning for the pattern from `i` on. */
  function SentencesFrom(s: string, start: nat, i: nat): (r: seq<string>)
    requires start <= i <= |s|
    ensures r != []
    decreases |s| - i
  {
    if i == |s| then [s[start..]]
    else if SplitsAt(s, i) then
      var j := SpaceRunEnd(s, i);
      [s[start..i]] + SentencesFrom(s, j, j)
    else SentencesFrom(s, start, i + 1)
  }

  /** `re.split(r'(?<=[.!?]) +', s)` */
  function SplitSentences(s: string): (r: seq<string>)
    ensures r != []
  {
    SentencesFrom(s, 0, 0)
  }

  /** Non-empty sentences, each but the last ending with `.`, `!` or `?`. */
  predicate WellFormedSentences(r: seq<string>) {
    forall k :: 0 <= k < |r| ==> r[k] != "" && (k < |r| - 1 ==> IsTerminator(r[k][|r[k]| - 1]))
  }

  lemma ConsWellFormed(first: string, rest: seq<string>)
    requires first != "" && IsTerminator(first[|first| - 1])
    requires rest != [] && WellFormedSentences(rest)
    ensures WellFormedSentences([first] + rest)
  {
    var r := [first] + rest;
    forall k | 0 <= k < |r| ensures r[k] != "" && (k < |r| - 1 ==> IsTerminator(r[k][|r[k]| - 1])) {
      if k > 0 { assert r[k] == rest[k - 1]; }
    }
  }

  lemma {:induction false} SentencesFromShape(s: string, start: nat, i: nat)
    requires start <= i <= |s| && start < |s| && s[|s| - 1] != ' '
    requires start == 0 || s[start - 1] == ' '
    ensures WellFormedSentences(SentencesFrom(s, start, i))
    decreases |s| - i
  {
    if i == |s| {
      assert SentencesFrom(s, start, i) == [s[start..]];
    } else if SplitsAt(s, i) {
      var j := SpaceRunEnd(s, i);
      assert s[j - 1] == ' ';
      SentencesFromShape(s, j, j);
      var first := s[start..i];
      assert first[|first| - 1] == s[i - 1];
      ConsWellFormed(first, SentencesFrom(s, j, j));
    } else {
      SentencesFromShape(s, start, i + 1);
    }
  }

  /**
   * Splitting a non-empty stripped text gives non-empty sentences, and every
   * sentence but the last ends with `.`, `!` or `?`.
   */
  lemma SplitSentencesShape(s: string)
    requires s != "" && Stripped(s)
    ensures WellFormedSentences(SplitSentences(s))
  {
    SentencesFromShape(s, 0, 0);
  }

  lemma {:induction false} SentencesFromJoin(s: string, start: nat, i: nat)
    requires start <= i <= |s| && NoRepeat(s, ' ')
    ensures Join(SentencesFrom(s, start, i), " ") == s[start..]
    decreases |s| - i
  {
    if i < |s| {
      if SplitsAt(s, i) {
        assert i + 1 < |s| ==> s[i + 1] != ' ' by {
          if i + 1 < |s| { assert !DoubledAt(s, ' ', i); }
        }
        assert SpaceRunEnd(s, i + 1) == i + 1;
        var j := SpaceRunEnd(s, i);
        assert j == i + 1;
        var rest := SentencesFrom(s, j, j);
        SentencesFromJoin(s, j, j);
        assert s[i..i + 1] == " ";
        SplitJoinStep(s, " ", start, i, rest, s[start..i], Join(rest, " "));
      } else {
        SentencesFromJoin(s, start, i + 1);
      }
    }
  }

  /**
   * The sentences are the text in order: where no two spaces are adjacent,
   * joining the sentences with single spaces gives the text back.
   */
  lemma SplitSentencesJoin(s: string)
    requires NoRepeat(s, ' ')
    ensures Join(SplitSentences(s), " ") == s
  {
    SentencesFromJoin(s, 0, 0);
  }

  /** `n` space characters. */
  function Spaces(n: nat): (r: string)
    ensures |r| == n && forall k :: 0 <= k < n ==> r[k] == ' '
  {
    seq(n, _ => ' ')
  }

  /** The pieces `r` with run `g[k]` of spaces between piece `k` and piece `k + 1`. */
  function Interleave(r: seq<string>, g: seq<nat>): string
    requires |r| == |g| + 1
    decreases |g|
  {
    if g == [] then r[0] else r[0] + Spaces(g[0]) + Interleave(r[1..], g[1..])
  }

  /** `p` holds no place where the pattern matches. */
  predicate Unsplit(p: string) {
    forall m :: 0 < m < |p| ==> !SplitsAt(p, m)
  }

  /**
   * `re.split(r'(?<=[.!?]) +', s)` for every `s`: the text is the pieces
   * with a non-empty run of spaces between each two; no piece holds a place
   * where the pattern matches; every piece but the last is non-empty and
   * ends with `.`, `!` or `?`; and no piece after the first starts with a
   * space, so each run is consumed whole.
   */
  lemma SplitSentencesSpec(s: string)
    ensures var r := SplitSentences(s);
      && (exists g: seq<nat> :: |g| + 1 == |r| && (forall k :: 0 <= k < |g| ==> g[k] >= 1) && Interleave(r, g) == s)
      && (forall k :: 0 <= k < |r| ==> Unsplit(r[k]))
      && (forall k :: 0 <= k < |r| - 1 ==> r[k] != "" && IsTerminator(r[k][|r[k]| - 1]))
      && (forall k :: 0 < k < |r| ==> r[k] == "" || r[k][0] != ' ')
  {
    var r := SplitSentences(s);
    var g := SentencesFromInterleave(s, 0, 0, r);
    assert s[0..] == s;
    SentencesFromUnsplit(s, 0, 0, r);
    SentencesFromEnds(s, 0, 0, r);
  }

  /** The pieces of `s[start..]` interleaved with the space runs the scan consumed give `s[start..]` back. */
  lemma {:induction false} SentencesFromInterleave(s: string, start: nat, i: nat, r: seq<string>) returns (g: seq<nat>)
    requires start <= i <= |s| && r == SentencesFrom(s, start, i)
    ensures |g| + 1 == |r| && (forall k :: 0 <= k < |g| ==> g[k] >= 1) && Interleave(r, g) == s[start..]
    decreases |s| - i
  {
    if i == |s| {
      g := [];
    } else if SplitsAt(s, i) {
      var j := SpaceRunEnd(s, i);
      var rest := SentencesFrom(s, j, j);
      var g' := SentencesFromInterleave(s, j, j, rest);
      g := [j - i] + g';
      assert r == [s[start..i]] + rest && r[1..] == rest && g[1..] == g';
      assert Spaces(j - i) == s[i..j];
      SliceConcat(s, start, i, |s|);
      SliceConcat(s, i, j, |s|);
    } else {
      g := SentencesFromInterleave(s, start, i + 1, r);
    }
  }

  /** The pattern matches nowhere in `s` strictly between `start` and `i`. */
  predicate NoSplitBetween(s: string, start: nat, i: nat) {
    forall q :: start < q < i ==> !SplitsAt(s, q)
  }

  /** A slice `s[a..b]` with no match strictly inside holds no match. */
  lemma SliceUnsplit(s: string, a: nat, b: nat)
    requires a <= b <= |s| && NoSplitBetween(s, a, b)
    ensures Unsplit(s[a..b])
  {
    var p := s[a..b];
    forall m | 0 < m < |p| ensures !SplitsAt(p, m) {
      assert p[m - 1] == s[a + m - 1] && p[m] == s[a + m];
      assert !SplitsAt(s, a + m);
    }
  }

  /** Scanning from `i` with no match between `start` and `i` gives pieces that hold no match. */
  lemma {:induction false} SentencesFromUnsplit(s: string, start: nat, i: nat, r: seq<string>)
    requires start <= i <= |s| && r == SentencesFrom(s, start, i)
    requires NoSplitBetween(s, start, i)
    ensures forall k :: 0 <= k < |r| ==> Unsplit(r[k])
    decreases |s| - i
  {
    if i == |s| {
      SliceUnsplit(s, start, |s|);
      assert s[start..|s|] == s[start..] && r == [s[start..]];
    } else if SplitsAt(s, i) {
      var j := SpaceRunEnd(s, i);
      var rest := SentencesFrom(s, j, j);
      SentencesFromUnsplit(s, j, j, rest);
      SliceUnsplit(s, start, i);
      assert r == [s[start..i]] + rest;
    } else {
      SentencesFromUnsplit(s, start, i + 1, r);
    }
  }

  /**
   * Scanning from a piece start that is not a space: every piece but the
   * last is non-empty and ends with a terminator, and every piece after the
   * first is empty or does not start with a space.
   */
  lemma {:induction false} SentencesFromEnds(s: string, start: nat, i: nat, r: seq<string>)
    requires start <= i <= |s| && r == SentencesFrom(s, start, i)
    requires start == 0 || start == |s| || s[start] != ' '
    ensures forall k :: 0 <= k < |r| - 1 ==> r[k] != "" && IsTerminator(r[k][|r[k]| - 1])
    ensures forall k :: 0 < k < |r| ==> r[k] == "" || r[k][0] != ' '
    ensures r[0] == "" || (start < |s| && r[0][0] == s[start])
    decreases |s| - i
  {
    if i == |s| {
      assert r == [s[start..]];
    } else if SplitsAt(s, i) {
      var j := SpaceRunEnd(s, i);
      var rest := SentencesFrom(s, j, j);
      SentencesFromEnds(s, j, j, rest);
      var first := s[start..i];
      assert start < i && first[|first| - 1] == s[i - 1];
      assert r == [first] + rest;
      forall k | 0 <= k < |r| - 1 ensures r[k] != "" && IsTerminator(r[k][|r[k]| - 1]) {
        if k > 0 { assert r[k] == rest[k - 1]; }
      }
      forall k | 0 < k < |r| ensures r[k] == "" || r[k][0] != ' ' {
        assert r[k] == rest[k - 1];
      }
    } else {
      SentencesFromEnds(s, start, i + 1, r);
    }
  }

  // ---------------------------------------------------------------------
  // The overlap seed: the inner loop over reversed(current_chunk.split('. '))
  // ---------------------------------------------------------------------

  /** What the loop charges for a list of pieces: `len(s) + 1` for each. */
  function OverlapCost(ps: seq<string>): nat {
    if ps == [] then 0 else OverlapCost(ps[..|ps| - 1]) + |ps[|ps| - 1]| + 1
  }

  /**
   * The pieces the loop keeps, walking `ps` from the end with `used` already
   * charged, stopping at the first piece that does not fit.
   */
  function OverlapPieces(ps: seq<string>, overlap: int, used: int): (r: seq<string>)
    ensures |r| <= |ps|
    decreases |ps|
  {
    if ps == [] then []
    else
      var s := ps[|ps| - 1];
      if used + |s| + 1 <= overlap then OverlapPieces(ps[..|ps| - 1], overlap, used + |s| + 1) + [s]
      else []
  }

  /** The kept pieces are a run of trailing pieces, in their original order. */
  lemma {:induction false} OverlapPiecesSuffix(ps: seq<string>, overlap: int, used: int)
    ensures var r := OverlapPieces(ps, overlap, used);
      r == ps[|ps| - |r|..]
    decreases |ps|
  {
    if ps != [] {
      var s := ps[|ps| - 1];
      if used + |s| + 1 <= overlap {
        var init := ps[..|ps| - 1];
        OverlapPiecesSuffix(init, overlap, used + |s| + 1);
        var r := OverlapPieces(init, overlap, used + |s| + 1);
        assert init[|init| - |r|..] + [s] == ps[|ps| - |r| - 1..];
      }
    }
  }

  /** `s + ". "` for each piece, in order: how `sentences_for_overlap` is built. */
  function DotTerminated(ps: seq<string>): string {
    if ps == [] then "" else ps[0] + ". " + DotTerminated(ps[1..])
  }

  /** `sentences_for_overlap` for the working chunk `current`. */
  function OverlapSeed(current: string, overlap: int): string {
    DotTerminated(OverlapPieces(SplitOn(current, ". "), overlap, 0))
  }

  /** One more piece costs its length and one more. */
  lemma OverlapCostSnoc(ps: seq<string>, p: string)
    ensures OverlapCost(ps + [p]) == OverlapCost(ps) + |p| + 1
  {
    assert (ps + [p])[..|ps|] == ps;
  }

  /** The kept pieces fit in what is left of the budget. */
  lemma {:induction false} OverlapPiecesWithinBudget(ps: seq<string>, overlap: int, used: int)
    ensures var r := OverlapPieces(ps, overlap, used);
      r == [] || used + OverlapCost(r) <= overlap
    decreases |ps|
  {
    if ps != [] {
      var s := ps[|ps| - 1];
      if used + |s| + 1 <= overlap {
        var used' := used + |s| + 1;
        OverlapPiecesWithinBudget(ps[..|ps| - 1], overlap, used');
        var r' := OverlapPieces(ps[..|ps| - 1], overlap, used');
        assert OverlapPieces(ps, overlap, used) == r' + [s];
        OverlapCostSnoc(r', s);
      } else {
        assert OverlapPieces(ps, overlap, used) == [];
      }
    }
  }

  /** The run of kept pieces cannot be extended by the piece before it. */
  lemma {:induction false} OverlapPiecesMaximal(ps: seq<string>, overlap: int, used: int)
    ensures var r := OverlapPieces(ps, overlap, used);
      |r| == |ps| || used + OverlapCost(ps[|ps| - |r| - 1..]) > overlap
    decreases |ps|
  {
    if ps != [] {
      var s := ps[|ps| - 1];
      var init := ps[..|ps| - 1];
      if used + |s| + 1 <= overlap {
        var used' := used + |s| + 1;
        OverlapPiecesMaximal(init, overlap, used');
        var r' := OverlapPieces(init, overlap, used');
        assert OverlapPieces(ps, overlap, used) == r' + [s];
        if |r'| < |init| {
          var ext' := init[|init| - |r'| - 1..];
          assert ps[|ps| - |r'| - 2..] == ext' + [s];
          OverlapCostSnoc(ext', s);
        }
      } else {
        assert OverlapPieces(ps, overlap, used) == [];
        assert ps[|ps| - 1..] == [] + [s];
        OverlapCostSnoc([], s);
      }
    }
  }

  /**
   * The seed is a run of trailing pieces of the chunk, in their original
   * order, whose charged length stays within the budget, and the run cannot
   * be extended by the piece before it.
   */
  lemma OverlapSeedBudget(current: string, overlap: int)
    ensures var ps := SplitOn(current, ". ");
      var r := OverlapPieces(ps, overlap, 0);
      && r == ps[|ps| - |r|..]
      && (r == [] || OverlapCost(r) <= overlap)
      && (|r| == |ps| || OverlapCost(ps[|ps| - |r| - 1..]) > overlap)
  {
    OverlapPiecesSuffix(SplitOn(current, ". "), overlap, 0);
    OverlapPiecesWithinBudget(SplitOn(current, ". "), overlap, 0);
    OverlapPiecesMaximal(SplitOn(current, ". "), overlap, 0);
  }

  /** Taking piece `i - 1`, which fits, moves it from the pieces still to walk to the seed. */
  lemma CollectStep(pieces: seq<string>, i: nat, overlap: int, used: int)
    requires 0 < i <= |pieces| && used + |pieces[i - 1]| + 1 <= overlap
    ensures OverlapPieces(pieces[..i], overlap, used) + pieces[i..]
         == OverlapPieces(pieces[..i - 1], overlap, used + |pieces[i - 1]| + 1) + pieces[i - 1..]
    ensures DotTerminated(pieces[i - 1..]) == pieces[i - 1] + ". " + DotTerminated(pieces[i..])
  {
    assert pieces[..i][..i - 1] == pieces[..i - 1];
    assert pieces[i - 1..] == [pieces[i - 1]] + pieces[i..];
  }

  /** The inner loop of `chunk_text` (lines 103-110), walking the pieces backwards. */
  method CollectOverlap(chunk: string, overlap: int) returns (seed: string)
    ensures seed == OverlapSeed(chunk, overlap)
  {
    var pieces := SplitOn(chunk, ". ");
    seed := "";
    var used := 0;
    var i := |pieces|;
    assert pieces[..i] == pieces && pieces[i..] == [];
    while i > 0
      invariant 0 <= i <= |pieces|
      invariant seed == DotTerminated(pieces[i..])
      invariant OverlapPieces(pieces, overlap, 0) == OverlapPieces(pieces[..i], overlap, used) + pieces[i..]
    {
      var s := pieces[i - 1];
      if used + |s| + 1 <= overlap {
        CollectStep(pieces, i, overlap, used);
        seed := s + ". " + seed;
        used := used + |s| + 1;
        i := i - 1;
      } else {
        assert pieces[..i][i - 1] == s;
        assert OverlapPieces(pieces[..i], overlap, used) == [];
        break;
      }
    }
    assert OverlapPieces(pieces, overlap, 0) == pieces[i..] by {
      if i == 0 {
        assert pieces[..i] == [];
      }
    }
  }

  // ---------------------------------------------------------------------
  // Greedy packing: the outer loop of chunk_text
  // ---------------------------------------------------------------------

  /** The loop's variables: the emitted `chunks` and the working `current_chunk`. */
  datatype ChunkState = ChunkState(chunks: seq<string>, current: string)

  /** The accumulate test `len(current_chunk) + len(sentence) + 1 <= chunk_size`. */
  predicate Fits(current: string, sentence: string, chunkSize: int) {
    |current| + |sentence| + 1 <= chunkSize
  }

  predicate EndsWith(s: string, suffix: string) {
    |suffix| <= |s| && s[|s| - |suffix|..] == suffix
  }

  /**
   * One iteration of the outer loop.  The working chunk always ends with the
   * new sentence; an accumulate step emits nothing and keeps the working
   * chunk within `chunkSize`; an overflow emits exactly one chunk (the old
   * working chunk, stripped) and leaves a non-empty working chunk whose
   * length is not checked.
   */
  function Step(st: ChunkState, sentence: string, chunkSize: int, overlap: int): (r: ChunkState)
    ensures EndsWith(r.current, sentence)
    ensures Fits(st.current, sentence, chunkSize) ==> r.chunks == st.chunks && |r.current| <= chunkSize
    ensures !Fits(st.current, sentence, chunkSize) ==>
      r.chunks == st.chunks + [Strip(st.current)] && r.current != ""
  {
    if Fits(st.current, sentence, chunkSize) then
      ChunkState(st.chunks, if st.current != "" then st.current + " " + sentence else sentence)
    else
      ChunkState(st.chunks + [Strip(st.current)], Strip(OverlapSeed(st.current, overlap)) + " " + sentence)
  }

  /** The loop state after the given sentences. */
  function Run(ss: seq<string>, chunkSize: int, overlap: int): ChunkState {
    if ss == [] then ChunkState([], "")
    else Step(Run(ss[..|ss| - 1], chunkSize, overlap), ss[|ss| - 1], chunkSize, overlap)
  }

  /** The tail of the function: a non-empty working chunk is emitted, stripped. */
  function Finish(st: ChunkState): seq<string> {
    if st.current != "" then st.chunks + [Strip(st.current)] else st.chunks
  }

  /** What `chunk_text(text, chunk_size, overlap)` returns. */
  function SentenceChunks(text: string, chunkSize: int, overlap: int): seq<string> {
    if text == "" then [] else Finish(Run(SplitSentences(Strip(text)), chunkSize, overlap))
  }

  /** The loop state after one more sentence is one more step. */
  lemma RunSnoc(ss: seq<string>, i: nat, chunkSize: int, overlap: int)
    requires i < |ss|
    ensures Run(ss[..i + 1], chunkSize, overlap) == Step(Run(ss[..i], chunkSize, overlap), ss[i], chunkSize, overlap)
  {
    assert ss[..i + 1][..i] == ss[..i];
  }

  /** `chunk_text` (lines 86-117). */
  method ChunkText(text: string, chunkSize: int := 500, overlap: int := 50) returns (chunks: seq<string>)
    ensures chunks == SentenceChunks(text, chunkSize, overlap)
  {
    if text == "" {
      return [];
    }
    var sentences := SplitSentences(Strip(text));
    chunks := [];
    var current := "";
    for i := 0 to |sentences|
      invariant ChunkState(chunks, current) == Run(sentences[..i], chunkSize, overlap)
    {
      var sentence := sentences[i];
      RunSnoc(sentences, i, chunkSize, overlap);
      if |current| + |sentence| + 1 <= chunkSize {
        current := if current != "" then current + " " + sentence else sentence;
      } else {
        chunks := chunks + [Strip(current)];
        var seed := CollectOverlap(current, overlap);
        current := Strip(seed) + " " + sentence;
      }
    }
    assert sentences[..|sentences|] == sentences;
    if current != "" {
      chunks := chunks + [Strip(current)];
    }
  }

  // ---------------------------------------------------------------------
  // Properties of the fold
  // ---------------------------------------------------------------------

  /** Empty text gives no chunks. */
  lemma EmptyTextNoChunks(chunkSize: int, overlap: int)
    ensures SentenceChunks("", chunkSize, overlap) == []
  {
  }

  lemma {:induction false} RunChunksStripped(ss: seq<string>, chunkSize: int, overlap: int)
    ensures forall k :: 0 <= k < |Run(ss, chunkSize, overlap).chunks| ==> Stripped(Run(ss, chunkSize, overlap).chunks[k])
  {
    if ss != [] {
      RunChunksStripped(ss[..|ss| - 1], chunkSize, overlap);
    }
  }

  /** Every chunk has no leading or trailing whitespace. */
  lemma ChunksStripped(text: string, chunkSize: int, overlap: int)
    ensures forall k :: 0 <= k < |SentenceChunks(text, chunkSize, overlap)| ==> Stripped(SentenceChunks(text, chunkSize, overlap)[k])
  {
    if text != "" {
      RunChunksStripped(SplitSentences(Strip(text)), chunkSize, overlap);
    }
  }

  /** Chunks once emitted are never revised: later sentences only append. */
  lemma {:induction false} RunChunksGrow(ss: seq<string>, k: nat, chunkSize: int, overlap: int)
    requires k <= |ss|
    ensures var early := Run(ss[..k], chunkSize, overlap).chunks;
      var late := Run(ss, chunkSize, overlap).chunks;
      |early| <= |late| && late[..|early|] == early
    decreases |ss|
  {
    if k < |ss| {
      var init := ss[..|ss| - 1];
      assert init[..k] == ss[..k];
      RunChunksGrow(init, k, chunkSize, overlap);
    } else {
      assert ss[..k] == ss;
    }
  }

  /**
   * If the first sentence does not fit, the first chunk is the empty string:
   * the working chunk is still "" when the overflow emits it.
   */
  lemma FirstSentenceTooLong(text: string, chunkSize: int, overlap: int)
    requires text != ""
    requires |SplitSentences(Strip(text))[0]| + 1 > chunkSize
    ensures |SentenceChunks(text, chunkSize, overlap)| >= 1
    ensures SentenceChunks(text, chunkSize, overlap)[0] == ""
  {
    var ss := SplitSentences(Strip(text));
    FirstStepOverflows(ss, Run(ss, chunkSize, overlap).chunks, chunkSize, overlap);
  }

  /** A first sentence that does not fit makes the empty working chunk the first chunk emitted. */
  lemma FirstStepOverflows(ss: seq<string>, chunks: seq<string>, chunkSize: int, overlap: int)
    requires ss != [] && |ss[0]| + 1 > chunkSize
    requires chunks == Run(ss, chunkSize, overlap).chunks
    ensures chunks != [] && chunks[0] == ""
  {
    RunChunksGrow(ss, 1, chunkSize, overlap);
    RunSnoc(ss, 0, chunkSize, overlap);
    assert ss[..0] == [];
    assert Run(ss[..1], chunkSize, overlap).chunks == [Strip("")];
  }

  lemma {:induction false} OverflowKeepsWorkingChunk(ss: seq<string>, chunkSize: int, overlap: int)
    ensures Run(ss, chunkSize, overlap).chunks != [] ==> Run(ss, chunkSize, overlap).current != ""
  {
    if ss != [] {
      OverflowKeepsWorkingChunk(ss[..|ss| - 1], chunkSize, overlap);
    }
  }

  /** Once any overflow has happened, the final working chunk is always emitted. */
  lemma FinalChunkAfterOverflow(text: string, chunkSize: int, overlap: int)
    requires text != ""
    ensures var st := Run(SplitSentences(Strip(text)), chunkSize, overlap);
      st.chunks != [] ==> SentenceChunks(text, chunkSize, overlap) == st.chunks + [Strip(st.current)]
  {
    OverflowKeepsWorkingChunk(SplitSentences(Strip(text)), chunkSize, overlap);
  }

  // ---------------------------------------------------------------------
  // Block form: the chunks are the sentences cut into consecutive blocks
  // ---------------------------------------------------------------------

  /*
   * The fold is first described by three sequences over the sentences
   * `ss`: `cur[k]`, the working chunk before sentence `k` (and after the
   * last one at `|ss|`); `d[k]`, whether sentence `k` fits; and the seed
   * function that starts a working chunk after an overflow.  The lemmas
   * about cutting these sequences into blocks never unfold the fold itself.
   */

  /** The working chunk after `sentence`: appended when it fits, otherwise started afresh from `seed`. */
  function Next(current: string, sentence: string, fits: bool, seed: string): string {
    if fits then (if current != "" then current + " " + sentence else sentence) else seed + " " + sentence
  }

  /** `d[k]` says whether sentence `k` fits into the working chunk `cur[k]`. */
  predicate Decided(ss: seq<string>, cur: seq<string>, d: seq<bool>, chunkSize: int) {
    && |cur| == |ss| + 1 && |d| == |ss|
    && forall k :: 0 <= k < |ss| ==> d[k] == Fits(cur[k], ss[k], chunkSize)
  }

  /** Each working chunk in `cur` comes from the one before it and the sentence between them. */
  predicate Advances(ss: seq<string>, cur: seq<string>, d: seq<bool>, reseed: string -> string) {
    && |cur| == |ss| + 1 && |d| == |ss| && cur[0] == ""
    && forall k :: 0 <= k < |ss| ==> cur[k + 1] == Next(cur[k], ss[k], d[k], reseed(cur[k]))
  }

  /** The sentences grouped by working chunk: a sentence that fits joins the last block. */
  function CutBlocks(ss: seq<string>, d: seq<bool>): (b: seq<seq<string>>)
    requires |d| == |ss|
    ensures |b| >= 1
  {
    if ss == [] then [[]]
    else
      var b := CutBlocks(ss[..|ss| - 1], d[..|d| - 1]);
      var s := ss[|ss| - 1];
      if d[|d| - 1] then b[..|b| - 1] + [b[|b| - 1] + [s]] else b + [[s]]
  }

  /** The working chunks in the order they were started, each in its last state. */
  function CutWorkings(cur: seq<string>, d: seq<bool>): (w: seq<string>)
    requires |cur| == |d| + 1
    ensures |w| >= 1
  {
    if d == [] then [cur[0]]
    else
      var n := |d|;
      var w := CutWorkings(cur[..n], d[..n - 1]);
      if d[n - 1] then w[..|w| - 1] + [cur[n]] else w + [cur[n]]
  }

  /** The chunks an overflow emits: the working chunk it abandons, stripped. */
  function CutChunks(cur: seq<string>, d: seq<bool>): seq<string>
    requires |cur| == |d| + 1
  {
    if d == [] then []
    else
      var n := |d|;
      var c := CutChunks(cur[..n], d[..n - 1]);
      if d[n - 1] then c else c + [Strip(cur[n - 1])]
  }

  function Flatten(bs: seq<seq<string>>): seq<string> {
    if bs == [] then [] else Flatten(bs[..|bs| - 1]) + bs[|bs| - 1]
  }

  /** The blocks cut the sentences: every sentence is in exactly one block, in input order. */
  lemma {:induction false} CutBlocksFlatten(ss: seq<string>, d: seq<bool>)
    requires |d| == |ss|
    ensures Flatten(CutBlocks(ss, d)) == ss
  {
    if ss != [] {
      var prev := ss[..|ss| - 1];
      CutBlocksFlatten(prev, d[..|d| - 1]);
      var b := CutBlocks(prev, d[..|d| - 1]);
      var s := ss[|ss| - 1];
      if d[|d| - 1] {
        var nb := b[..|b| - 1] + [b[|b| - 1] + [s]];
        assert nb[..|nb| - 1] == b[..|b| - 1];
        assert Flatten(b) == Flatten(b[..|b| - 1]) + b[|b| - 1];
      } else {
        assert (b + [[s]])[..|b|] == b;
      }
      assert prev + [s] == ss;
    }
  }

  /** Every block after the first is non-empty, and so is the last once there is a sentence. */
  lemma {:induction false} CutBlocksNonEmpty(ss: seq<string>, d: seq<bool>)
    requires |d| == |ss|
    ensures var b := CutBlocks(ss, d);
      && (forall i :: 0 < i < |b| ==> b[i] != [])
      && (ss != [] ==> b[|b| - 1] != [])
  {
    if ss != [] {
      var b := CutBlocks(ss[..|ss| - 1], d[..|d| - 1]);
      CutBlocksNonEmpty(ss[..|ss| - 1], d[..|d| - 1]);
      var b' := CutBlocks(ss, d);
      if d[|d| - 1] {
        assert b'[..|b| - 1] == b[..|b| - 1];
      } else {
        assert b'[..|b|] == b;
      }
    }
  }

  /**
   * One block per working chunk; the last working chunk is the current one
   * and every other one was emitted, stripped.
   */
  lemma {:induction false} CutShape(ss: seq<string>, cur: seq<string>, d: seq<bool>)
    requires |cur| == |d| + 1 && |d| == |ss|
    ensures var w := CutWorkings(cur, d);
      var c := CutChunks(cur, d);
      && |w| == |CutBlocks(ss, d)| == |c| + 1
      && w[|w| - 1] == cur[|d|]
      && (forall i :: 0 <= i < |c| ==> c[i] == Strip(w[i]))
  {
    if d != [] {
      var n := |d|;
      CutShape(ss[..n - 1], cur[..n], d[..n - 1]);
      var w := CutWorkings(cur[..n], d[..n - 1]);
      var w' := CutWorkings(cur, d);
      if d[n - 1] {
        assert w'[..|w| - 1] == w[..|w| - 1];
      } else {
        assert w'[..|w|] == w;
      }
    }
  }

  lemma DecidedPrefix(ss: seq<string>, cur: seq<string>, d: seq<bool>, chunkSize: int)
    requires Decided(ss, cur, d, chunkSize) && ss != []
    ensures Decided(ss[..|ss| - 1], cur[..|ss|], d[..|ss| - 1], chunkSize)
  {
    var n := |ss|;
    forall k | 0 <= k < n - 1 ensures d[..n - 1][k] == Fits(cur[..n][k], ss[..n - 1][k], chunkSize) {
      assert d[k] == Fits(cur[k], ss[k], chunkSize);
    }
  }

  lemma AdvancesPrefix(ss: seq<string>, cur: seq<string>, d: seq<bool>, reseed: string -> string)
    requires Advances(ss, cur, d, reseed) && ss != []
    ensures Advances(ss[..|ss| - 1], cur[..|ss|], d[..|ss| - 1], reseed)
  {
    var n := |ss|;
    forall k | 0 <= k < n - 1
      ensures cur[..n][k + 1] == Next(cur[..n][k], ss[..n - 1][k], d[..n - 1][k], reseed(cur[..n][k]))
    {
      assert cur[k + 1] == Next(cur[k], ss[k], d[k], reseed(cur[k]));
    }
  }

  /** No working chunk but the last could have taken the first sentence of the next block. */
  predicate Greedy(w: seq<string>, b: seq<seq<string>>, chunkSize: int) {
    |w| == |b| && forall i :: 0 < i < |w| ==> b[i] != [] && !Fits(w[i - 1], b[i][0], chunkSize)
  }

  lemma GreedyGrow(w: seq<string>, b: seq<seq<string>>, x: string, s: string, chunkSize: int)
    requires Greedy(w, b, chunkSize) && w != []
    ensures Greedy(w[..|w| - 1] + [x], b[..|b| - 1] + [b[|b| - 1] + [s]], chunkSize)
  {
    var m := |w| - 1;
    var w', b' := w[..m] + [x], b[..m] + [b[m] + [s]];
    forall i | 0 < i < |w'| ensures b'[i] != [] && !Fits(w'[i - 1], b'[i][0], chunkSize) {
      assert w'[i - 1] == w[i - 1];
      if i < m {
        assert b'[i] == b[i];
      } else {
        assert b'[i] == b[i] + [s];
      }
    }
  }

  lemma GreedyOpen(w: seq<string>, b: seq<seq<string>>, x: string, s: string, chunkSize: int)
    requires Greedy(w, b, chunkSize) && w != []
    requires !Fits(w[|w| - 1], s, chunkSize)
    ensures Greedy(w + [x], b + [[s]], chunkSize)
  {
    var w', b' := w + [x], b + [[s]];
    forall i | 0 < i < |w'| ensures b'[i] != [] && !Fits(w'[i - 1], b'[i][0], chunkSize) {
      assert w'[i - 1] == w[i - 1];
      if i < |b| {
        assert b'[i] == b[i];
      } else {
        assert b'[i] == [s];
      }
    }
  }

  lemma {:induction false} CutGreedy(ss: seq<string>, cur: seq<string>, d: seq<bool>, chunkSize: int)
    requires Decided(ss, cur, d, chunkSize)
    ensures Greedy(CutWorkings(cur, d), CutBlocks(ss, d), chunkSize)
  {
    CutShape(ss, cur, d);
    if ss != [] {
      var n := |ss|;
      DecidedPrefix(ss, cur, d, chunkSize);
      CutGreedy(ss[..n - 1], cur[..n], d[..n - 1], chunkSize);
      CutShape(ss[..n - 1], cur[..n], d[..n - 1]);
      var w := CutWorkings(cur[..n], d[..n - 1]);
      var b := CutBlocks(ss[..n - 1], d[..n - 1]);
      if d[n - 1] {
        GreedyGrow(w, b, cur[n], ss[n - 1], chunkSize);
      } else {
        assert w[|w| - 1] == cur[n - 1];
        GreedyOpen(w, b, cur[n], ss[n - 1], chunkSize);
      }
    }
  }

  /**
   * Each working chunk is its block of non-empty sentences joined by single
   * spaces, preceded (after the first) by the seed taken from the working
   * chunk before it and a space.
   */
  predicate Formed(w: seq<string>, b: seq<seq<string>>, reseed: string -> string) {
    && |w| == |b| >= 1
    && (forall i, j :: 0 <= i < |b| && 0 <= j < |b[i]| ==> b[i][j] != "")
    && w[0] == Join(b[0], " ")
    && (forall i {:trigger b[i]} :: 0 < i < |w| ==> w[i] == reseed(w[i - 1]) + " " + Join(b[i], " "))
  }

  /** The last working chunk, grown by one sentence, is still formed from its grown block. */
  lemma FormedGrowLast(w: seq<string>, b: seq<seq<string>>, s: string, reseed: string -> string)
    requires Formed(w, b, reseed) && s != ""
    requires |b| > 1 ==> b[|b| - 1] != []
    ensures var m := |w| - 1; var x := Next(w[m], s, true, "");
      && (m == 0 ==> x == Join(b[0] + [s], " "))
      && (m > 0 ==> x == reseed(w[m - 1]) + " " + Join(b[m] + [s], " "))
  {
    var m := |w| - 1;
    if m == 0 {
      JoinNonEmpty(b[0], " ");
      if b[0] != [] { JoinSnoc(b[0], s, " "); } else { assert b[0] + [s] == [s]; }
    } else {
      JoinSnoc(b[m], s, " ");
    }
  }

  lemma FormedGrow(w: seq<string>, b: seq<seq<string>>, s: string, reseed: string -> string)
    requires Formed(w, b, reseed) && s != ""
    requires |b| > 1 ==> b[|b| - 1] != []
    ensures var m := |w| - 1;
      Formed(w[..m] + [Next(w[m], s, true, "")], b[..m] + [b[m] + [s]], reseed)
  {
    var m := |w| - 1;
    var w', b' := w[..m] + [Next(w[m], s, true, "")], b[..m] + [b[m] + [s]];
    FormedGrowLast(w, b, s, reseed);
    if m > 0 { assert w'[0] == w[0] && b'[0] == b[0]; }
    forall i, j | 0 <= i < |b'| && 0 <= j < |b'[i]| ensures b'[i][j] != "" {
      if i < m { assert b'[i] == b[i]; }
    }
    forall i | 0 < i < |w'| ensures w'[i] == reseed(w'[i - 1]) + " " + Join(b'[i], " ") {
      if i < m { assert w'[i] == w[i] && b'[i] == b[i]; }
    }
  }

  lemma FormedOpen(w: seq<string>, b: seq<seq<string>>, s: string, reseed: string -> string)
    requires Formed(w, b, reseed) && s != ""
    ensures Formed(w + [reseed(w[|w| - 1]) + " " + s], b + [[s]], reseed)
  {
    var w', b' := w + [reseed(w[|w| - 1]) + " " + s], b + [[s]];
    assert b'[|b|] == [s];
    forall i, j | 0 <= i < |b'| && 0 <= j < |b'[i]| ensures b'[i][j] != "" {
      if i < |b| { assert b'[i] == b[i]; }
    }
    forall i | 0 < i < |w'| ensures w'[i] == reseed(w'[i - 1]) + " " + Join(b'[i], " ") {
      if i < |w| { assert w'[i] == w[i] && b'[i] == b[i]; }
    }
  }

  /** With non-empty sentences, the cut working chunks and blocks are formed as above. */
  lemma {:induction false} CutForm(ss: seq<string>, cur: seq<string>, d: seq<bool>, reseed: string -> string)
    requires Advances(ss, cur, d, reseed)
    requires forall k :: 0 <= k < |ss| ==> ss[k] != ""
    ensures Formed(CutWorkings(cur, d), CutBlocks(ss, d), reseed)
  {
    CutShape(ss, cur, d);
    if ss != [] {
      var n := |ss|;
      AdvancesPrefix(ss, cur, d, reseed);
      CutForm(ss[..n - 1], cur[..n], d[..n - 1], reseed);
      CutShape(ss[..n - 1], cur[..n], d[..n - 1]);
      CutBlocksNonEmpty(ss[..n - 1], d[..n - 1]);
      var w := CutWorkings(cur[..n], d[..n - 1]);
      var b := CutBlocks(ss[..n - 1], d[..n - 1]);
      assert w[|w| - 1] == cur[n - 1];
      assert cur[n] == Next(cur[n - 1], ss[n - 1], d[n - 1], reseed(cur[n - 1]));
      if d[n - 1] {
        FormedGrow(w, b, ss[n - 1], reseed);
      } else {
        FormedOpen(w, b, ss[n - 1], reseed);
      }
    }
  }

  /** The working chunk before each sentence, and after the last. */
  ghost function Currents(ss: seq<string>, chunkSize: int, reseed: string -> string): (cur: seq<string>)
    ensures |cur| == |ss| + 1 && cur[0] == ""
  {
    if ss == [] then [""]
    else
      var c := Currents(ss[..|ss| - 1], chunkSize, reseed);
      var last, s := c[|ss| - 1], ss[|ss| - 1];
      c + [Next(last, s, Fits(last, s, chunkSize), reseed(last))]
  }

  /** Whether each sentence fit into the working chunk before it. */
  ghost function Decisions(ss: seq<string>, chunkSize: int, reseed: string -> string): (d: seq<bool>)
    ensures Decided(ss, Currents(ss, chunkSize, reseed), d, chunkSize)
  {
    var cur := Currents(ss, chunkSize, reseed);
    seq(|ss|, k requires 0 <= k < |ss| => Fits(cur[k], ss[k], chunkSize))
  }

  lemma DecisionsPrefix(ss: seq<string>, chunkSize: int, reseed: string -> string)
    requires ss != []
    ensures var n := |ss|;
      && Currents(ss, chunkSize, reseed)[..n] == Currents(ss[..n - 1], chunkSize, reseed)
      && Decisions(ss, chunkSize, reseed)[..n - 1] == Decisions(ss[..n - 1], chunkSize, reseed)
  {
    var n := |ss|;
    var cur0, cur := Currents(ss[..n - 1], chunkSize, reseed), Currents(ss, chunkSize, reseed);
    assert cur[..n] == cur0;
    var d0, d := Decisions(ss[..n - 1], chunkSize, reseed), Decisions(ss, chunkSize, reseed);
    forall k | 0 <= k < n - 1 ensures d[k] == d0[k] {
      assert cur[k] == cur0[k] && ss[k] == ss[..n - 1][k];
    }
  }

  lemma AdvancesExtend(ss: seq<string>, cur: seq<string>, d: seq<bool>, reseed: string -> string)
    requires ss != [] && |cur| == |ss| + 1 && |d| == |ss|
    requires Advances(ss[..|ss| - 1], cur[..|ss|], d[..|ss| - 1], reseed)
    requires cur[|ss|] == Next(cur[|ss| - 1], ss[|ss| - 1], d[|ss| - 1], reseed(cur[|ss| - 1]))
    ensures Advances(ss, cur, d, reseed)
  {
    var n := |ss|;
    forall k | 0 <= k < n ensures cur[k + 1] == Next(cur[k], ss[k], d[k], reseed(cur[k])) {
      if k < n - 1 {
        assert cur[..n][k + 1] == Next(cur[..n][k], ss[..n - 1][k], d[..n - 1][k], reseed(cur[..n][k]));
      }
    }
  }

  /** Each working chunk comes from the one before it as `Next` says. */
  lemma {:induction false} CurrentsAdvance(ss: seq<string>, chunkSize: int, reseed: string -> string)
    ensures Advances(ss, Currents(ss, chunkSize, reseed), Decisions(ss, chunkSize, reseed), reseed)
  {
    if ss != [] {
      var n := |ss|;
      CurrentsAdvance(ss[..n - 1], chunkSize, reseed);
      DecisionsPrefix(ss, chunkSize, reseed);
      AdvancesExtend(ss, Currents(ss, chunkSize, reseed), Decisions(ss, chunkSize, reseed), reseed);
    }
  }

  /**
   * For non-empty sentences, at least one: the blocks cut the sentences, the
   * last working chunk is not empty, and the cut chunks are all the working
   * chunks but the last, stripped.
   */
  lemma CutComplete(ss: seq<string>, cur: seq<string>, d: seq<bool>, reseed: string -> string)
    requires |d| == |ss| && Advances(ss, cur, d, reseed)
    requires ss != [] && forall k :: 0 <= k < |ss| ==> ss[k] != ""
    ensures var w := CutWorkings(cur, d);
      var b := CutBlocks(ss, d);
      var c := CutChunks(cur, d);
      && Flatten(b) == ss
      && |w| == |b| == |c| + 1
      && w[|w| - 1] == cur[|ss|] != ""
      && (forall i :: 0 <= i < |c| ==> c[i] == Strip(w[i]))
  {
    CutBlocksFlatten(ss, d);
    CutShape(ss, cur, d);
    CutForm(ss, cur, d, reseed);
    CutBlocksNonEmpty(ss, d);
    var w := CutWorkings(cur, d);
    var b := CutBlocks(ss, d);
    var last := b[|b| - 1];
    assert forall j :: 0 <= j < |last| ==> last[j] != "";
    JoinNonEmpty(last, " ");
  }

  /** The final chunks of a fold state described by the cut are the working chunks, stripped. */
  lemma FinishCut(st: ChunkState, ss: seq<string>, cur: seq<string>, d: seq<bool>, reseed: string -> string)
    requires |d| == |ss| && Advances(ss, cur, d, reseed)
    requires ss != [] && forall k :: 0 <= k < |ss| ==> ss[k] != ""
    requires st == ChunkState(CutChunks(cur, d), cur[|ss|])
    ensures var w := CutWorkings(cur, d);
      var chunks := Finish(st);
      && Flatten(CutBlocks(ss, d)) == ss
      && |chunks| == |w|
      && (forall i :: 0 <= i < |chunks| ==> chunks[i] == Strip(w[i]))
  {
    CutComplete(ss, cur, d, reseed);
    var w, c := CutWorkings(cur, d), CutChunks(cur, d);
    var chunks := Finish(st);
    assert chunks == c + [Strip(w[|w| - 1])];
    forall i | 0 <= i < |chunks| ensures chunks[i] == Strip(w[i]) {
      if i < |c| { assert chunks[i] == c[i]; }
    }
  }

  /** The overlap seed, stripped: how an overflow starts the next working chunk. */
  function Reseed(overlap: int): string -> string {
    current => Strip(OverlapSeed(current, overlap))
  }

  /** `reseed` is how the fold with this overlap starts a working chunk after an overflow. */
  ghost predicate SeedsWith(reseed: string -> string, overlap: int) {
    forall x :: reseed(x) == Strip(OverlapSeed(x, overlap))
  }

  lemma ReseedSeeds(overlap: int)
    ensures SeedsWith(Reseed(overlap), overlap)
  {
  }

  lemma StepNext(st: ChunkState, sentence: string, chunkSize: int, overlap: int, reseed: string -> string)
    requires SeedsWith(reseed, overlap)
    ensures Step(st, sentence, chunkSize, overlap).current
      == Next(st.current, sentence, Fits(st.current, sentence, chunkSize), reseed(st.current))
  {
    assert reseed(st.current) == Strip(OverlapSeed(st.current, overlap));
  }

  /** The fold's working chunk is the last of the working chunks. */
  lemma {:induction false} RunCurrent(ss: seq<string>, chunkSize: int, overlap: int, reseed: string -> string)
    requires SeedsWith(reseed, overlap)
    ensures Run(ss, chunkSize, overlap).current == Currents(ss, chunkSize, reseed)[|ss|]
  {
    if ss != [] {
      var n := |ss|;
      var prev := ss[..n - 1];
      RunCurrent(prev, chunkSize, overlap, reseed);
      var st := Run(prev, chunkSize, overlap);
      StepNext(st, ss[n - 1], chunkSize, overlap, reseed);
      assert Run(ss, chunkSize, overlap) == Step(st, ss[n - 1], chunkSize, overlap);
    }
  }

  /** The chunks the fold has emitted are the cut chunks. */
  lemma {:induction false} RunChunks(ss: seq<string>, chunkSize: int, overlap: int, reseed: string -> string)
    requires SeedsWith(reseed, overlap)
    ensures Run(ss, chunkSize, overlap).chunks
      == CutChunks(Currents(ss, chunkSize, reseed), Decisions(ss, chunkSize, reseed))
  {
    if ss != [] {
      var n := |ss|;
      var prev := ss[..n - 1];
      RunChunks(prev, chunkSize, overlap, reseed);
      RunCurrent(prev, chunkSize, overlap, reseed);
      DecisionsPrefix(ss, chunkSize, reseed);
      var st := Run(prev, chunkSize, overlap);
      assert Run(ss, chunkSize, overlap).chunks == Step(st, ss[n - 1], chunkSize, overlap).chunks;
    }
  }

  /** Every working chunk the loop has built, the current one last. */
  ghost function Workings(ss: seq<string>, chunkSize: int, reseed: string -> string): (w: seq<string>)
    ensures |w| == |Blocks(ss, chunkSize, reseed)| >= 1
  {
    CutShape(ss, Currents(ss, chunkSize, reseed), Decisions(ss, chunkSize, reseed));
    CutWorkings(Currents(ss, chunkSize, reseed), Decisions(ss, chunkSize, reseed))
  }

  /** The sentences added to each working chunk since it was started. */
  ghost function Blocks(ss: seq<string>, chunkSize: int, reseed: string -> string): (b: seq<seq<string>>)
    ensures |b| >= 1
  {
    CutBlocks(ss, Decisions(ss, chunkSize, reseed))
  }

  /**
   * For non-empty sentences, at least one, the fold's final chunks are the
   * working chunks, stripped, and the blocks cut the sentences.
   */
  lemma FinishByBlocks(ss: seq<string>, chunkSize: int, overlap: int, reseed: string -> string)
    requires SeedsWith(reseed, overlap)
    requires ss != [] && WellFormedSentences(ss)
    ensures var w := Workings(ss, chunkSize, reseed);
      var chunks := Finish(Run(ss, chunkSize, overlap));
      && Flatten(Blocks(ss, chunkSize, reseed)) == ss
      && |chunks| == |w|
      && (forall i :: 0 <= i < |chunks| ==> chunks[i] == Strip(w[i]))
  {
    var cur := Currents(ss, chunkSize, reseed);
    var d := Decisions(ss, chunkSize, reseed);
    CurrentsAdvance(ss, chunkSize, reseed);
    RunCurrent(ss, chunkSize, overlap, reseed);
    RunChunks(ss, chunkSize, overlap, reseed);
    FinishCut(Run(ss, chunkSize, overlap), ss, cur, d, reseed);
  }

  /** For non-empty sentences the working chunks and blocks are formed, for any seed. */
  lemma WorkingsFormed(ss: seq<string>, chunkSize: int, reseed: string -> string)
    requires WellFormedSentences(ss)
    ensures Formed(Workings(ss, chunkSize, reseed), Blocks(ss, chunkSize, reseed), reseed)
  {
    CurrentsAdvance(ss, chunkSize, reseed);
    CutForm(ss, Currents(ss, chunkSize, reseed), Decisions(ss, chunkSize, reseed), reseed);
  }

  /** The working chunks and blocks are greedy, for any sentences and any seed. */
  lemma WorkingsGreedy(ss: seq<string>, chunkSize: int, reseed: string -> string)
    ensures Greedy(Workings(ss, chunkSize, reseed), Blocks(ss, chunkSize, reseed), chunkSize)
  {
    CutGreedy(ss, Currents(ss, chunkSize, reseed), Decisions(ss, chunkSize, reseed), chunkSize);
  }

  lemma FormedBySeed(w: seq<string>, b: seq<seq<string>>, reseed: string -> string, overlap: int)
    requires Formed(w, b, reseed) && SeedsWith(reseed, overlap)
    ensures forall i {:trigger b[i]} :: 0 < i < |w| ==> w[i] == Strip(OverlapSeed(w[i - 1], overlap)) + " " + Join(b[i], " ")
  {
    forall i | 0 < i < |w| ensures w[i] == Strip(OverlapSeed(w[i - 1], overlap)) + " " + Join(b[i], " ") {
      assert w[i] == reseed(w[i - 1]) + " " + Join(b[i], " ");
    }
  }

  /**
   * The chunking of a text that is not blank, in block form: the sentences
   * are cut into consecutive blocks (each sentence in exactly one, in
   * order), there is one chunk per block, and chunk `i` is working chunk
   * `i` stripped.  `reseed` is the overlap's seed function (`Reseed`).
   */
  lemma SentenceChunksByBlocks(text: string, chunkSize: int, overlap: int, reseed: string -> string)
    requires Strip(text) != "" && SeedsWith(reseed, overlap)
    ensures var ss := SplitSentences(Strip(text));
      var w := Workings(ss, chunkSize, reseed);
      var chunks := SentenceChunks(text, chunkSize, overlap);
      && Flatten(Blocks(ss, chunkSize, reseed)) == ss
      && |chunks| == |w|
      && (forall i :: 0 <= i < |chunks| ==> chunks[i] == Strip(w[i]))
  {
    SplitSentencesShape(Strip(text));
    FinishByBlocks(SplitSentences(Strip(text)), chunkSize, overlap, reseed);
  }

  /**
   * The working chunks of a text that is not blank: the first is its block
   * joined by spaces, each later one is the previous one's overlap seed,
   * stripped, a space and its block joined by spaces.
   */
  lemma WorkingChunksByBlocks(text: string, chunkSize: int, overlap: int, reseed: string -> string)
    requires Strip(text) != "" && SeedsWith(reseed, overlap)
    ensures var ss := SplitSentences(Strip(text));
      var w := Workings(ss, chunkSize, reseed);
      var b := Blocks(ss, chunkSize, reseed);
      && w[0] == Join(b[0], " ")
      && (forall i {:trigger b[i]} :: 0 < i < |w| ==> w[i] == Strip(OverlapSeed(w[i - 1], overlap)) + " " + Join(b[i], " "))
  {
    var ss := SplitSentences(Strip(text));
    SplitSentencesShape(Strip(text));
    WorkingsFormed(ss, chunkSize, reseed);
    FormedBySeed(Workings(ss, chunkSize, reseed), Blocks(ss, chunkSize, reseed), reseed, overlap);
  }

  /**
   * A chunk is emitted only when the next sentence does not fit: no working
   * chunk but the last could take the first sentence of the next block.
   */
  lemma WorkingChunksGreedy(text: string, chunkSize: int, reseed: string -> string)
    ensures var ss := SplitSentences(Strip(text));
      var w := Workings(ss, chunkSize, reseed);
      var b := Blocks(ss, chunkSize, reseed);
      forall i :: 0 < i < |w| ==> b[i] != [] && !Fits(w[i - 1], b[i][0], chunkSize)
  {
    WorkingsGreedy(SplitSentences(Strip(text)), chunkSize, reseed);
  }

  // ---------------------------------------------------------------------
  // Records
  // ---------------------------------------------------------------------

  /** `create_data_records` (lines 119-133); the document type defaults to "Google_Site". */
  method CreateDataRecords(url: string, textChunks: seq<string>, courseId: string, docType: string := "Google_Site")
    returns (records: seq<Record>)
    ensures records == SiteRecords(url, textChunks, courseId, docType)
  {
    records := [];
    for i := 0 to |textChunks|
      invariant records == SiteRecords(url, textChunks[..i], courseId, docType)
    {
      records := records + [Record(textChunks[i], SiteMetadata(courseId, url, ChunkId(courseId, i), docType))];
    }
    assert textChunks[..|textChunks|] == textChunks;
  }
}
