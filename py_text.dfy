/**
 * The Python string built-ins the ingestion and chat code relies on, written
 * out with the behaviour CPython gives them: `str.isspace`, `str.strip`,
 * `sep.join`, `str.split(sep)` with an explicit separator, and `f"{n}"` for a
 * non-negative integer.  Each carries the facts the rest of the model uses.
 */
module PyText {

  /** A value that may be Python's `None`. */
  datatype Option<T> = None | Some(value: T)

  /** What a call gives back: its value, or the exception it raises. */
  datatype Outcome<T> = Returned(value: T) | Raised(error: string)

  /** The characters for which CPython's `str.isspace()` is true. */
  predicate IsSpace(c: char) {
    || c == ' ' || c == '\t' || c == '\n' || c == '\r' || c == '\U{B}' || c == '\U{C}'
    || ('\U{1C}' <= c <= '\U{1F}') || c == '\U{85}' || c == '\U{A0}' || c == '\U{1680}'
    || ('\U{2000}' <= c <= '\U{200A}') || c == '\U{2028}' || c == '\U{2029}'
    || c == '\U{202F}' || c == '\U{205F}' || c == '\U{3000}'
  }

  predicate AllSpace(s: string) {
    forall k :: 0 <= k < |s| ==> IsSpace(s[k])
  }

  /** Neither end of `s` is whitespace: what `str.strip()` guarantees. */
  predicate Stripped(s: string) {
    s == [] || (!IsSpace(s[0]) && !IsSpace(s[|s| - 1]))
  }

  /** The index of the first character of `s` at or after `i` that is not whitespace, or `|s|`. */
  function SkipSpaces(s: string, i: nat): (j: nat)
    requires i <= |s|
    ensures i <= j <= |s|
    ensures j == |s| || !IsSpace(s[j])
    ensures forall k :: i <= k < j ==> IsSpace(s[k])
    decreases |s| - i
  {
    if i < |s| && IsSpace(s[i]) then SkipSpaces(s, i + 1) else i
  }

  /** Where `s[lo..j]` ends once its trailing whitespace is dropped. */
  function TrimEnd(s: string, lo: nat, j: nat): (e: nat)
    requires lo <= j <= |s|
    ensures lo <= e <= j
    ensures e == lo || !IsSpace(s[e - 1])
    ensures forall k :: e <= k < j ==> IsSpace(s[k])
    decreases j
  {
    if j > lo && IsSpace(s[j - 1]) then TrimEnd(s, lo, j - 1) else j
  }

  /** `s.strip()`: `s` without its leading and trailing whitespace. */
  function Strip(s: string): (r: string)
    ensures Stripped(r)
    ensures |r| <= |s|
  {
    var i := SkipSpaces(s, 0);
    s[i..TrimEnd(s, i, |s|)]
  }

  /** Stripping is a slice: `Strip(s) == s[i..i + |Strip(s)|]` for the number `i` of leading blanks. */
  lemma {:induction false} StripIsSlice(s: string)
    ensures var i := SkipSpaces(s, 0);
            i + |Strip(s)| <= |s| && Strip(s) == s[i..i + |Strip(s)|]
            && AllSpace(s[..i]) && AllSpace(s[i + |Strip(s)|..])
  {
    var i := SkipSpaces(s, 0);
    var e := TrimEnd(s, i, |s|);
    assert Strip(s) == s[i..e];
    forall k | 0 <= k < i ensures IsSpace(s[..i][k]) {
      assert s[..i][k] == s[k];
    }
    forall k | 0 <= k < |s| - e ensures IsSpace(s[e..][k]) {
      assert s[e..][k] == s[e + k];
    }
  }

  /** Stripping a string that is already stripped changes nothing. */
  lemma {:induction false} StripStripped(s: string)
    requires Stripped(s)
    ensures Strip(s) == s
  {
    assert SkipSpaces(s, 0) == 0;
    assert TrimEnd(s, 0, |s|) == |s|;
    assert s[0..|s|] == s;
  }

  /** `Strip(s)` is empty exactly when `s` is blank. */
  lemma {:induction false} StripEmptyIff(s: string)
    ensures Strip(s) == [] <==> AllSpace(s)
  {
    var i := SkipSpaces(s, 0);
    var e := TrimEnd(s, i, |s|);
    var r := Strip(s);
    assert r == s[i..e];
    if r == [] {
      assert e == i;
      forall k | 0 <= k < |s| ensures IsSpace(s[k]) {
      }
    } else {
      assert r[0] == s[i] && !IsSpace(r[0]);
    }
  }

  /** The characters of `s` at `k` and `k + 1` are both `c`. */
  predicate DoubledAt(s: string, c: char, k: int) {
    0 <= k < |s| - 1 && s[k] == c && s[k + 1] == c
  }

  /** No two consecutive characters of `s` are both `c`. */
  predicate NoRepeat(s: string, c: char) {
    forall k :: 0 <= k < |s| ==> !DoubledAt(s, c, k)
  }

  /** `sep.join(xs)` */
  function Join(xs: seq<string>, sep: string): (r: string)
    ensures |xs| == 1 ==> r == xs[0]
  {
    if |xs| == 0 then ""
    else if |xs| == 1 then xs[0]
    else Join(xs[..|xs| - 1], sep) + sep + xs[|xs| - 1]
  }

  /** Joining non-empty pieces gives a non-empty string whenever there is a piece. */
  lemma {:induction false} JoinNonEmpty(xs: seq<string>, sep: string)
    requires forall k :: 0 <= k < |xs| ==> xs[k] != ""
    ensures Join(xs, sep) == "" <==> xs == []
  {
    if |xs| > 1 {
      JoinNonEmpty(xs[..|xs| - 1], sep);
    }
  }

  /** Appending a piece to a non-empty list of pieces appends `sep` and the piece. */
  lemma {:induction false} JoinSnoc(xs: seq<string>, x: string, sep: string)
    requires xs != []
    ensures Join(xs + [x], sep) == Join(xs, sep) + sep + x
  {
    assert (xs + [x])[..|xs|] == xs;
  }

  /**
   * `s.split(sep)` for a non-empty separator: the pieces between the
   * left-to-right, non-overlapping occurrences of `sep`.
   */
  function SplitOn(s: string, sep: string): (r: seq<string>)
    requires sep != ""
    ensures r != []
    ensures Join(r, sep) == s
  {
    SplitFrom(s, sep, 0, 0)
  }

  /** `s[start..]` split at the occurrences of `sep` found scanning from `i`. */
  function SplitFrom(s: string, sep: string, start: nat, i: nat): (r: seq<string>)
    requires sep != "" && start <= i <= |s|
    ensures r != []
    ensures Join(r, sep) == s[start..]
    decreases |s| - i
  {
    if i + |sep| > |s| then [s[start..]]
    else if s[i..i + |sep|] == sep then
      var rest := SplitFrom(s, sep, i + |sep|, i + |sep|);
      SplitJoinStep(s, sep, start, i, rest, s[start..i], Join(rest, sep));
      [s[start..i]] + rest
    else SplitFrom(s, sep, start, i + 1)
  }

  /** Splitting at an occurrence of `sep` at `i`: the piece `p` before it, `sep` and the rest rejoin to `s[start..]`. */
  lemma SplitJoinStep(s: string, sep: string, start: nat, i: nat, rest: seq<string>, p: string, t: string)
    requires start <= i && i + |sep| <= |s| && s[i..i + |sep|] == sep
    requires rest != [] && t == Join(rest, sep) && t == s[i + |sep|..] && p == s[start..i]
    ensures Join([p] + rest, sep) == s[start..]
  {
    var j := i + |sep|;
    calc {
      Join([p] + rest, sep);
    == { JoinCons(p, rest, sep); }
      p + sep + t;
    == { assert sep == s[i..j] && t == s[j..]; }
      s[start..i] + s[i..j] + s[j..];
    == { SliceCat(s, start, i, j); }
      s[start..];
    }
  }

  /** `s[start..i]`, `s[i..j]` and `s[j..]` make up `s[start..]`. */
  lemma SliceCat(s: string, start: nat, i: nat, j: nat)
    requires start <= i <= j <= |s|
    ensures s[start..i] + s[i..j] + s[j..] == s[start..]
  {
  }

  /** `sep` occurs in `s` starting at index `q`. */
  predicate OccursAt(s: string, sep: string, q: int) {
    0 <= q && q + |sep| <= |s| && s[q..q + |sep|] == sep
  }

  /** `sep` occurs nowhere in `s`. */
  predicate Free(s: string, sep: string) {
    forall q :: 0 <= q <= |s| ==> !OccursAt(s, sep, q)
  }

  /** No piece of `s.split(sep)` contains `sep`. */
  lemma SplitOnNoSeparator(s: string, sep: string)
    requires sep != ""
    ensures var r := SplitOn(s, sep);
      forall k :: 0 <= k < |r| ==> Free(r[k], sep)
  {
    SplitFromNoSeparator(s, sep, 0, 0, SplitOn(s, sep));
  }

  /**
   * When `sep` does not occur in `s` from `start` before `i`, no piece of
   * the split scanned from `i` contains `sep`.
   */
  lemma {:induction false} SplitFromNoSeparator(s: string, sep: string, start: nat, i: nat, r: seq<string>)
    requires sep != "" && start <= i <= |s|
    requires r == SplitFrom(s, sep, start, i)
    requires NoneBetween(s, sep, start, i)
    ensures forall k :: 0 <= k < |r| ==> Free(r[k], sep)
    decreases |s| - i
  {
    if i + |sep| > |s| {
      PieceFree(s, sep, start, i, |s|);
      assert s[start..|s|] == s[start..] && r == [s[start..]];
    } else if s[i..i + |sep|] == sep {
      var rest := SplitFrom(s, sep, i + |sep|, i + |sep|);
      SplitFromNoSeparator(s, sep, i + |sep|, i + |sep|, rest);
      PieceFree(s, sep, start, i, i);
      assert r == [s[start..i]] + rest;
    } else {
      assert !OccursAt(s, sep, i);
      SplitFromNoSeparator(s, sep, start, i + 1, r);
    }
  }

  /** `sep` does not start in `s` at any index from `start` before `i`. */
  predicate NoneBetween(s: string, sep: string, start: nat, i: nat) {
    forall q :: start <= q < i ==> !OccursAt(s, sep, q)
  }

  /** A slice ending at `b` holds no `sep` when none starts in it before `i`, and any that does must end past `b`. */
  lemma PieceFree(s: string, sep: string, start: nat, i: nat, b: nat)
    requires start <= i && start <= b <= |s| && b < i + |sep|
    requires NoneBetween(s, sep, start, i)
    ensures Free(s[start..b], sep)
  {
    forall q | OccursAt(s[start..b], sep, q) ensures false {
      OccursInSlice(s, sep, start, b, q);
    }
  }

  /** An occurrence in the slice `s[a..b]` is an occurrence in `s` that ends by `b`. */
  lemma OccursInSlice(s: string, sep: string, a: nat, b: nat, q: int)
    requires a <= b <= |s| && OccursAt(s[a..b], sep, q)
    ensures OccursAt(s, sep, a + q) && a + q + |sep| <= b
  {
    var t := s[a..b];
    var u := t[q..q + |sep|];
    forall k | 0 <= k < |sep| ensures u[k] == s[a + q + k] {
      assert u[k] == t[q + k];
    }
    assert u == s[a + q..a + q + |sep|];
  }

  /** Adjacent slices concatenate to the slice spanning both. */
  lemma SliceConcat(s: string, a: nat, b: nat, c: nat)
    requires a <= b <= c <= |s|
    ensures s[a..c] == s[a..b] + s[b..c]
  {
  }

  /** Prepending a piece to a non-empty list of pieces prepends the piece and `sep`. */
  lemma {:induction false} JoinCons(x: string, xs: seq<string>, sep: string)
    requires xs != []
    ensures Join([x] + xs, sep) == x + sep + Join(xs, sep)
    decreases |xs|
  {
    if |xs| == 1 {
      assert [x] + xs == [x, xs[0]];
      assert [x, xs[0]][..1] == [x];
    } else {
      var ys := [x] + xs;
      assert ys[..|ys| - 1] == [x] + xs[..|xs| - 1];
      JoinCons(x, xs[..|xs| - 1], sep);
    }
  }

  function DigitChar(d: nat): (c: char)
    requires d < 10
    ensures '0' <= c <= '9'
  {
    ['0', '1', '2', '3', '4', '5', '6', '7', '8', '9'][d]
  }

  /** `f"{n}"`: the decimal rendering of a non-negative integer. */
  function NatToString(n: nat): (r: string)
    ensures |r| >= 1
    ensures n < 10 <==> |r| == 1
    ensures forall k :: 0 <= k < |r| ==> '0' <= r[k] <= '9'
  {
    if n < 10 then [DigitChar(n)] else NatToString(n / 10) + [DigitChar(n % 10)]
  }

  /** Distinct numbers are rendered as distinct strings. */
  lemma {:induction false} NatToStringInjective(a: nat, b: nat)
    requires NatToString(a) == NatToString(b)
    ensures a == b
  {
    if a >= 10 && b >= 10 {
      var ra, rb := NatToString(a), NatToString(b);
      assert ra[|ra| - 1] == DigitChar(a % 10) && rb[|rb| - 1] == DigitChar(b % 10);
      assert a % 10 == b % 10 by {
        var da, db := a % 10, b % 10;
        assert DigitChar(da) == DigitChar(db);
      }
      assert ra[..|ra| - 1] == NatToString(a / 10);
      assert rb[..|rb| - 1] == NatToString(b / 10);
      NatToStringInjective(a / 10, b / 10);
    } else if a < 10 && b < 10 {
      assert NatToString(a)[0] == DigitChar(a);
    }
  }

  /** `s` is `t` with some characters deleted (the rest kept in order). */
  predicate IsSubsequence(s: string, t: string)
    decreases |t|
  {
    s == [] || (t != [] && ((s[0] == t[0] && IsSubsequence(s[1..], t[1..])) || IsSubsequence(s, t[1..])))
  }

  lemma {:induction false} SubsequenceLength(s: string, t: string)
    requires IsSubsequence(s, t)
    ensures |s| <= |t|
    decreases |t|
  {
    if s != [] {
      if s[0] == t[0] && IsSubsequence(s[1..], t[1..]) {
        SubsequenceLength(s[1..], t[1..]);
      } else {
        SubsequenceLength(s, t[1..]);
      }
    }
  }

  lemma {:induction false} SubsequenceTransitive(a: string, b: string, c: string)
    requires IsSubsequence(a, b) && IsSubsequence(b, c)
    ensures IsSubsequence(a, c)
    decreases |c|
  {
    if a != [] {
      if IsSubsequence(b, c[1..]) {
        SubsequenceTransitive(a, b, c[1..]);
      } else {
        assert b[0] == c[0] && IsSubsequence(b[1..], c[1..]);
        if a[0] == b[0] && IsSubsequence(a[1..], b[1..]) {
          SubsequenceTransitive(a[1..], b[1..], c[1..]);
        } else {
          SubsequenceTransitive(a, b[1..], c[1..]);
        }
      }
    }
  }

  lemma {:induction false} SubsequenceRefl(s: string)
    ensures IsSubsequence(s, s)
    decreases |s|
  {
    if s != [] { SubsequenceRefl(s[1..]); }
  }

  /** Every slice of `t` is a subsequence of it. */
  lemma {:induction false} SliceIsSubsequence(t: string, i: nat, j: nat)
    requires i <= j <= |t|
    ensures IsSubsequence(t[i..j], t)
    decreases |t|
  {
    if i > 0 {
      SliceIsSubsequence(t[1..], i - 1, j - 1);
      assert t[1..][i - 1..j - 1] == t[i..j];
    } else if j > 0 {
      SliceIsSubsequence(t[1..], 0, j - 1);
      assert t[1..][..j - 1] == t[..j][1..];
    }
  }

  /** `str.strip()` only deletes characters. */
  lemma {:induction false} StripIsSubsequence(s: string)
    ensures IsSubsequence(Strip(s), s)
  {
    StripIsSlice(s);
    var i := SkipSpaces(s, 0);
    SliceIsSubsequence(s, i, i + |Strip(s)|);
  }
}
