/**
 * The PDF ingestion step of `src/1_ingest_data.py`: the text cleaner, the
 * per-page record loop of `extract_text_from_pdf` and the row verbaliser
 * `convert_df_to_text`.  PyMuPDF and Camelot are outside the model: a PDF is
 * the list of its pages' extracted texts, and a table is the rectangular
 * grid of its cells, each a string or missing.
 */
module IngestData {
  import opened PyText
  import opened Records

  // ---------------------------------------------------------------------
  // clean_text (lines 9-15)
  // ---------------------------------------------------------------------

  /**
   * `re.sub(c + "{2,}", c, s)`: every run of two or more `c` becomes one `c`.
   * The first `c` of each adjacent pair is dropped, which leaves one `c` per run.
   */
  function Collapse(s: string, c: char): (r: string)
    ensures |r| <= |s|
    ensures NoRepeat(r, c)
  {
    CollapseFrom(s, c, 0)
  }

  /** `Collapse` applied to `s[i..]`, scanning `s` from index `i`. */
  function CollapseFrom(s: string, c: char, i: nat): (r: string)
    requires i <= |s|
    ensures |r| <= |s| - i
    ensures i < |s| ==> r != [] && r[0] == s[i]
    ensures NoRepeat(r, c)
    decreases |s| - i
  {
    if i == |s| then []
    else if i + 1 < |s| && s[i] == c && s[i + 1] == c then CollapseFrom(s, c, i + 1)
    else
      var t := CollapseFrom(s, c, i + 1);
      assert forall k :: 0 < k < |t| + 1 ==> !DoubledAt([s[i]] + t, c, k) by {
        forall k | 0 < k < |t| + 1 ensures !DoubledAt([s[i]] + t, c, k) {
          assert !DoubledAt(t, c, k - 1);
        }
      }
      [s[i]] + t
  }

  /** `s` without any `c`. */
  function Without(s: string, c: char): string
    decreases |s|
  {
    if s == [] then [] else (if s[0] == c then [] else [s[0]]) + Without(s[1..], c)
  }

  /** Collapsing deletes only copies of `c`: every other character survives, in order. */
  lemma {:induction false} CollapseOnlyDeletes(s: string, c: char, i: nat)
    requires i <= |s|
    ensures Without(CollapseFrom(s, c, i), c) == Without(s[i..], c)
    decreases |s| - i
  {
    if i < |s| {
      CollapseOnlyDeletes(s, c, i + 1);
      assert s[i..][1..] == s[i + 1..];
      var r := CollapseFrom(s, c, i);
      if !(i + 1 < |s| && s[i] == c && s[i + 1] == c) {
        assert r[1..] == CollapseFrom(s, c, i + 1);
      }
    }
  }

  /** Collapsing only deletes characters. */
  lemma {:induction false} CollapseFromIsSubsequence(s: string, c: char, i: nat)
    requires i <= |s|
    ensures IsSubsequence(CollapseFrom(s, c, i), s[i..])
    decreases |s| - i
  {
    if i < |s| {
      CollapseFromIsSubsequence(s, c, i + 1);
      var t := s[i..];
      assert t[1..] == s[i + 1..];
      var r := CollapseFrom(s, c, i);
      if !(i + 1 < |s| && s[i] == c && s[i + 1] == c) {
        assert r[1..] == CollapseFrom(s, c, i + 1) && r[0] == t[0];
      }
    }
  }

  lemma CollapseIsSubsequence(s: string, c: char)
    ensures IsSubsequence(Collapse(s, c), s)
  {
    CollapseFromIsSubsequence(s, c, 0);
    assert s[0..] == s;
  }

  /** A string with no run of `c` is left as it is. */
  lemma {:induction false} CollapseFromFixed(s: string, c: char, i: nat)
    requires NoRepeat(s, c) && i <= |s|
    ensures CollapseFrom(s, c, i) == s[i..]
    decreases |s| - i
  {
    if i < |s| {
      assert !DoubledAt(s, c, i);
      CollapseFromFixed(s, c, i + 1);
      assert s[i..] == [s[i]] + s[i + 1..];
    }
  }

  lemma CollapseFixed(s: string, c: char)
    requires NoRepeat(s, c)
    ensures Collapse(s, c) == s
  {
    CollapseFromFixed(s, c, 0);
    assert s[0..] == s;
  }

  /** Collapsing runs of `c` creates no run of another character `d`. */
  lemma {:induction false} CollapseFromKeepsNoRepeat(s: string, c: char, d: char, i: nat)
    requires c != d && NoRepeat(s, d) && i <= |s|
    ensures NoRepeat(CollapseFrom(s, c, i), d)
    decreases |s| - i
  {
    if i < |s| {
      CollapseFromKeepsNoRepeat(s, c, d, i + 1);
      if !(i + 1 < |s| && s[i] == c && s[i + 1] == c) {
        var r := CollapseFrom(s, c, i);
        var t := CollapseFrom(s, c, i + 1);
        assert r == [s[i]] + t;
        assert !DoubledAt(s, d, i);
        forall k | 0 <= k < |r| ensures !DoubledAt(r, d, k) {
          if k > 0 {
            assert !DoubledAt(t, d, k - 1);
          }
        }
      }
    }
  }

  lemma CollapseKeepsNoRepeat(s: string, c: char, d: char)
    requires c != d && NoRepeat(s, d)
    ensures NoRepeat(Collapse(s, c), d)
  {
    CollapseFromKeepsNoRepeat(s, c, d, 0);
  }

  /** Collapsing runs of a whitespace character leaves a blank string blank, and only a blank one. */
  lemma {:induction false} CollapseFromBlank(s: string, c: char, i: nat)
    requires IsSpace(c) && i <= |s|
    ensures AllSpace(CollapseFrom(s, c, i)) <==> forall k :: i <= k < |s| ==> IsSpace(s[k])
    decreases |s| - i
  {
    if i < |s| {
      CollapseFromBlank(s, c, i + 1);
      if !(i + 1 < |s| && s[i] == c && s[i + 1] == c) {
        AllSpaceCons(s[i], CollapseFrom(s, c, i + 1));
      }
    }
  }

  lemma AllSpaceCons(x: char, t: string)
    ensures AllSpace([x] + t) <==> IsSpace(x) && AllSpace(t)
  {
    var r := [x] + t;
    if AllSpace(r) {
      assert r[0] == x;
      forall k | 0 <= k < |t| ensures IsSpace(t[k]) {
        assert t[k] == r[k + 1];
      }
    }
  }

  lemma CollapseBlank(s: string, c: char)
    requires IsSpace(c)
    ensures AllSpace(Collapse(s, c)) <==> AllSpace(s)
  {
    CollapseFromBlank(s, c, 0);
  }

  lemma NoRepeatSlice(s: string, c: char, i: nat, j: nat)
    requires NoRepeat(s, c) && i <= j <= |s|
    ensures NoRepeat(s[i..j], c)
  {
    forall k | 0 <= k < j - i ensures !DoubledAt(s[i..j], c, k) {
      assert !DoubledAt(s, c, i + k);
    }
  }

  /** `clean_text(text)`: runs of newlines, then runs of spaces, become one; then `strip()`. */
  function CleanText(text: string): string {
    if text == "" then "" else Strip(Collapse(Collapse(text, '\n'), ' '))
  }

  /** The cleaned text has no doubled newline, no doubled space and no surrounding whitespace. */
  lemma CleanTextShape(text: string)
    ensures var r := CleanText(text);
      NoRepeat(r, '\n') && NoRepeat(r, ' ') && Stripped(r)
  {
    if text != "" {
      var t := Collapse(Collapse(text, '\n'), ' ');
      CollapseKeepsNoRepeat(Collapse(text, '\n'), ' ', '\n');
      StripIsSlice(t);
      var i := SkipSpaces(t, 0);
      NoRepeatSlice(t, '\n', i, i + |Strip(t)|);
      NoRepeatSlice(t, ' ', i, i + |Strip(t)|);
    }
  }

  /** The cleaned text is the input with some characters deleted, so it is never longer. */
  lemma CleanTextIsSubsequence(text: string)
    ensures IsSubsequence(CleanText(text), text)
    ensures |CleanText(text)| <= |text|
  {
    if text != "" {
      var t1 := Collapse(text, '\n');
      var t2 := Collapse(t1, ' ');
      CollapseIsSubsequence(text, '\n');
      CollapseIsSubsequence(t1, ' ');
      StripIsSubsequence(t2);
      SubsequenceTransitive(t2, t1, text);
      SubsequenceTransitive(Strip(t2), t2, text);
    }
    SubsequenceLength(CleanText(text), text);
  }

  /** Cleaning a cleaned text changes nothing. */
  lemma CleanTextIdempotent(text: string)
    ensures CleanText(CleanText(text)) == CleanText(text)
  {
    var r := CleanText(text);
    if r != "" {
      CleanTextShape(text);
      CollapseFixed(r, '\n');
      CollapseFixed(r, ' ');
      StripStripped(r);
    }
  }

  /** The cleaned text is empty exactly when the input is blank. */
  lemma CleanTextEmptyIff(text: string)
    ensures CleanText(text) == "" <==> AllSpace(text)
  {
    if text != "" {
      var t1 := Collapse(text, '\n');
      CollapseBlank(text, '\n');
      CollapseBlank(t1, ' ');
      StripEmptyIff(Collapse(t1, ' '));
    }
  }

  // ---------------------------------------------------------------------
  // extract_text_from_pdf, page loop (lines 22-33)
  // ---------------------------------------------------------------------

  /** The cleaned text of every page. */
  function CleanedPages(pages: seq<string>): (texts: seq<string>)
    ensures |texts| == |pages|
    ensures forall i :: 0 <= i < |pages| ==> texts[i] == CleanText(pages[i])
  {
    seq(|pages|, i requires 0 <= i < |pages| => CleanText(pages[i]))
  }

  /** The indices among the first `n` pages whose text is not blank, in increasing order. */
  function NonBlankPages(pages: seq<string>, n: nat): (ps: seq<nat>)
    requires n <= |pages|
    ensures forall k :: 0 <= k < |ps| ==> ps[k] < n
  {
    if n == 0 then []
    else NonBlankPages(pages, n - 1) + (if !AllSpace(pages[n - 1]) then [n - 1] else [])
  }

  /** Every listed page is a page whose text is not blank. */
  lemma {:induction false} NonBlankPagesAreNonBlank(pages: seq<string>, n: nat, ps: seq<nat>)
    requires n <= |pages| && ps == NonBlankPages(pages, n)
    ensures forall k :: 0 <= k < |ps| ==> ps[k] < |pages| && !AllSpace(pages[ps[k]])
  {
    if n > 0 {
      var before := NonBlankPages(pages, n - 1);
      NonBlankPagesAreNonBlank(pages, n - 1, before);
      if !AllSpace(pages[n - 1]) {
        assert ps == before + [n - 1];
      }
    }
  }

  /** The listed pages are in increasing order. */
  lemma {:induction false} NonBlankPagesIncrease(pages: seq<string>, n: nat, ps: seq<nat>)
    requires n <= |pages| && ps == NonBlankPages(pages, n)
    ensures forall k, l :: 0 <= k < l < |ps| ==> ps[k] < ps[l]
  {
    if n > 0 {
      var before := NonBlankPages(pages, n - 1);
      NonBlankPagesIncrease(pages, n - 1, before);
      if !AllSpace(pages[n - 1]) {
        assert ps == before + [n - 1];
      }
    }
  }

  /** A page below `n` is listed exactly when its text is not blank. */
  lemma {:induction false} NonBlankPagesComplete(pages: seq<string>, n: nat, ps: seq<nat>)
    requires n <= |pages| && ps == NonBlankPages(pages, n)
    ensures forall i :: 0 <= i < n ==> (!AllSpace(pages[i]) <==> i in ps)
  {
    if n > 0 {
      var before := NonBlankPages(pages, n - 1);
      NonBlankPagesComplete(pages, n - 1, before);
      assert n - 1 !in before;
      if !AllSpace(pages[n - 1]) {
        assert ps == before + [n - 1];
      }
    }
  }

  /** The non-blank pages are exactly the pages below `n` whose text is not blank, in increasing order. */
  lemma NonBlankPagesFacts(pages: seq<string>, n: nat)
    requires n <= |pages|
    ensures var ps := NonBlankPages(pages, n);
      && (forall k :: 0 <= k < |ps| ==> !AllSpace(pages[ps[k]]))
      && (forall k, l :: 0 <= k < l < |ps| ==> ps[k] < ps[l])
      && (forall i :: 0 <= i < n ==> (!AllSpace(pages[i]) <==> i in ps))
  {
    var ps := NonBlankPages(pages, n);
    NonBlankPagesAreNonBlank(pages, n, ps);
    NonBlankPagesIncrease(pages, n, ps);
    NonBlankPagesComplete(pages, n, ps);
  }

  /** The record of the page at index `i`, holding `text`; pages are numbered from 1. */
  function PageRecord(text: string, pdfPath: string, courseId: string, i: nat): Record {
    Record(text, PageMetadata(courseId, pdfPath, i + 1, "PDF_Text"))
  }

  /**
   * The records of the first `n` pages: one for each page whose text is
   * not blank, in page order, `texts[i]` standing for the cleaned text of
   * page `i`.
   */
  function PageRecords(pages: seq<string>, texts: seq<string>, pdfPath: string, courseId: string, n: nat): seq<Record>
    requires n <= |pages| == |texts|
  {
    var ps := NonBlankPages(pages, n);
    seq(|ps|, k requires 0 <= k < |ps| => PageRecord(texts[ps[k]], pdfPath, courseId, ps[k]))
  }

  /** One more page adds its record exactly when its text is not blank. */
  lemma PageRecordsStep(pages: seq<string>, texts: seq<string>, pdfPath: string, courseId: string, n: nat)
    requires n < |pages| == |texts|
    ensures PageRecords(pages, texts, pdfPath, courseId, n + 1)
         == PageRecords(pages, texts, pdfPath, courseId, n)
            + (if !AllSpace(pages[n]) then [PageRecord(texts[n], pdfPath, courseId, n)] else [])
  {
    var ps := NonBlankPages(pages, n);
    assert NonBlankPages(pages, n + 1) == ps + (if !AllSpace(pages[n]) then [n] else []);
  }

  /** One more page adds the record of its cleaned text exactly when its text, stripped, is not empty. */
  lemma CleanedPageStep(pages: seq<string>, pdfPath: string, courseId: string, n: nat)
    requires n < |pages|
    ensures PageRecords(pages, CleanedPages(pages), pdfPath, courseId, n + 1)
         == PageRecords(pages, CleanedPages(pages), pdfPath, courseId, n)
            + (if Strip(pages[n]) != "" then [Record(CleanText(pages[n]), PageMetadata(courseId, pdfPath, n + 1, "PDF_Text"))] else [])
  {
    PageRecordsStep(pages, CleanedPages(pages), pdfPath, courseId, n);
    StripEmptyIff(pages[n]);
  }

  /** `extract_text_from_pdf(pdf_path, course_id)` over the pages' extracted texts. */
  method ExtractTextFromPdf(pages: seq<string>, pdfPath: string, courseId: string) returns (docs: seq<Record>)
    ensures docs == PageRecords(pages, CleanedPages(pages), pdfPath, courseId, |pages|)
  {
    docs := [];
    for n := 0 to |pages|
      invariant docs == PageRecords(pages, CleanedPages(pages), pdfPath, courseId, n)
    {
      var text := pages[n];
      var pageNum := n + 1;
      CleanedPageStep(pages, pdfPath, courseId, n);
      if Strip(text) != "" {
        docs := docs + [Record(CleanText(text), PageMetadata(courseId, pdfPath, pageNum, "PDF_Text"))];
      }
    }
  }

  /** Record `k` is the record of the `k`-th non-blank page. */
  lemma PageRecordsByPages(pages: seq<string>, texts: seq<string>, pdfPath: string, courseId: string)
    requires |texts| == |pages|
    ensures var rs, ps := PageRecords(pages, texts, pdfPath, courseId, |pages|), NonBlankPages(pages, |pages|);
      |rs| == |ps| && forall k :: 0 <= k < |rs| ==> rs[k] == PageRecord(texts[ps[k]], pdfPath, courseId, ps[k])
  {
  }

  /**
   * Each page record holds the text given for its page, a page number
   * counted from 1 whose text is not blank, the course, the PDF and
   * `"PDF_Text"`; page numbers strictly increase.
   */
  lemma {:induction false} PageRecordsFields(pages: seq<string>, texts: seq<string>, pdfPath: string, courseId: string)
    requires |texts| == |pages|
    ensures var rs := PageRecords(pages, texts, pdfPath, courseId, |pages|);
      && (forall k :: 0 <= k < |rs| ==>
            && rs[k].metadata.PageMetadata?
            && rs[k].metadata == PageMetadata(courseId, pdfPath, rs[k].metadata.page, "PDF_Text")
            && 1 <= rs[k].metadata.page <= |pages|
            && !AllSpace(pages[rs[k].metadata.page - 1])
            && rs[k].text == texts[rs[k].metadata.page - 1])
      && (forall k, l :: 0 <= k < l < |rs| ==> rs[k].metadata.page < rs[l].metadata.page)
  {
    PageRecordsByPages(pages, texts, pdfPath, courseId);
    NonBlankPagesFacts(pages, |pages|);
  }

  /** Exactly the pages whose text is not blank have a record. */
  lemma {:induction false} PageRecordsCover(pages: seq<string>, texts: seq<string>, pdfPath: string, courseId: string)
    requires |texts| == |pages|
    ensures var rs := PageRecords(pages, texts, pdfPath, courseId, |pages|);
      forall i :: 0 <= i < |pages| ==>
        (!AllSpace(pages[i]) <==> exists k :: 0 <= k < |rs| && rs[k].metadata.page == i + 1)
  {
    var rs, ps := PageRecords(pages, texts, pdfPath, courseId, |pages|), NonBlankPages(pages, |pages|);
    PageRecordsByPages(pages, texts, pdfPath, courseId);
    NonBlankPagesFacts(pages, |pages|);
    forall i | 0 <= i < |pages|
      ensures !AllSpace(pages[i]) <==> exists k :: 0 <= k < |rs| && rs[k].metadata.page == i + 1
    {
      if i in ps {
        var k :| 0 <= k < |ps| && ps[k] == i;
        assert rs[k].metadata.page == i + 1;
      }
    }
  }

  /** With the cleaned page texts, no page record has empty text. */
  lemma {:induction false} PageRecordsNonEmpty(pages: seq<string>, pdfPath: string, courseId: string)
    ensures var rs := PageRecords(pages, CleanedPages(pages), pdfPath, courseId, |pages|);
      forall k :: 0 <= k < |rs| ==> rs[k].text != ""
  {
    var texts := CleanedPages(pages);
    var rs, ps := PageRecords(pages, texts, pdfPath, courseId, |pages|), NonBlankPages(pages, |pages|);
    PageRecordsByPages(pages, texts, pdfPath, courseId);
    NonBlankPagesFacts(pages, |pages|);
    forall k | 0 <= k < |rs| ensures rs[k].text != "" {
      CleanTextEmptyIff(pages[ps[k]]);
    }
  }

  // ---------------------------------------------------------------------
  // convert_df_to_text (lines 37-58)
  // ---------------------------------------------------------------------

  /** A table cell: a string, or missing (`None` / `NaN`). */
  type Cell = Option<string>

  /** A data frame's rows all have the same number of columns. */
  predicate Rectangular(table: seq<seq<Cell>>) {
    forall i :: 0 <= i < |table| ==> |table[i]| == |table[0]|
  }

  /** Header `j`: the first-row cell when it is a non-empty string, else `col<j>`. */
  function Header(cell: Cell, j: nat): (h: string)
    ensures h != ""
    ensures cell.Some? && cell.value != "" ==> h == cell.value
  {
    if cell.Some? && cell.value != "" then cell.value else "col" + NatToString(j)
  }

  /** A cell that yields a part: present and not blank. */
  predicate Filled(cell: Cell) {
    cell.Some? && Strip(cell.value) != ""
  }

  /** Some cell of the row is filled. */
  predicate RowFilled(row: seq<Cell>) {
    exists j :: 0 <= j < |row| && Filled(row[j])
  }

  /** `f"{headers[j]} is {clean_text(value)}"` */
  function Part(header: string, value: string): string {
    header + " is " + CleanText(value)
  }

  /** The columns among the first `n` whose cell is filled, in increasing order. */
  function FilledColumns(row: seq<Cell>, n: nat): (cols: seq<nat>)
    requires n <= |row|
    ensures forall k :: 0 <= k < |cols| ==> cols[k] < n && Filled(row[cols[k]])
  {
    if n == 0 then []
    else FilledColumns(row, n - 1) + (if Filled(row[n - 1]) then [n - 1] else [])
  }

  /** The filled columns are exactly the columns below `n` with a filled cell, in increasing order. */
  lemma {:induction false} FilledColumnsFacts(row: seq<Cell>, n: nat)
    requires n <= |row|
    ensures var cols := FilledColumns(row, n);
      && (forall k, l :: 0 <= k < l < |cols| ==> cols[k] < cols[l])
      && (forall j :: 0 <= j < n && Filled(row[j]) ==> j in cols)
  {
    if n > 0 {
      FilledColumnsFacts(row, n - 1);
    }
  }

  /** The parts of the filled cells among the first `n` cells of `row`, in column order. */
  function RowParts(headers: seq<string>, row: seq<Cell>, n: nat): seq<string>
    requires n <= |row| <= |headers|
  {
    var cols := FilledColumns(row, n);
    seq(|cols|, k requires 0 <= k < |cols| => Part(headers[cols[k]], row[cols[k]].value))
  }

  /** One more cell adds its part exactly when it is filled. */
  lemma RowPartsStep(headers: seq<string>, row: seq<Cell>, n: nat)
    requires n < |row| <= |headers|
    ensures RowParts(headers, row, n + 1)
         == RowParts(headers, row, n) + (if Filled(row[n]) then [Part(headers[n], row[n].value)] else [])
  {
    var cols := FilledColumns(row, n);
    assert FilledColumns(row, n + 1) == cols + (if Filled(row[n]) then [n] else []);
  }

  /** A row yields parts exactly when one of its cells is filled. */
  lemma RowPartsNonEmptyIff(headers: seq<string>, row: seq<Cell>)
    requires |row| <= |headers|
    ensures RowParts(headers, row, |row|) != [] <==> RowFilled(row)
  {
    FilledColumnsFacts(row, |row|);
    var cols := FilledColumns(row, |row|);
    if cols != [] {
      assert Filled(row[cols[0]]);
    }
  }

  /** `f"{pdf_path}_table_{table_idx}_row_{i}"` */
  function RowPath(pdfPath: string, tableIdx: nat, i: nat): string {
    pdfPath + "_table_" + NatToString(tableIdx) + "_row_" + NatToString(i)
  }

  /** Distinct rows of one table get distinct source paths. */
  lemma RowPathInjective(pdfPath: string, tableIdx: nat, i: nat, i': nat)
    requires RowPath(pdfPath, tableIdx, i) == RowPath(pdfPath, tableIdx, i')
    ensures i == i'
  {
    var p := pdfPath + "_table_" + NatToString(tableIdx) + "_row_";
    assert RowPath(pdfPath, tableIdx, i)[|p|..] == NatToString(i);
    assert RowPath(pdfPath, tableIdx, i')[|p|..] == NatToString(i');
    NatToStringInjective(i, i');
  }

  /** The record of row `i`: its parts joined by `". "` with a closing `"."`. */
  function RowRecord(headers: seq<string>, row: seq<Cell>, pdfPath: string, tableIdx: nat, courseId: string, i: nat): Record
    requires |row| <= |headers|
  {
    Record(Join(RowParts(headers, row, |row|), ". ") + ".", TableMetadata(courseId, RowPath(pdfPath, tableIdx, i), "PDF_Table"))
  }

  /** The rows among `1 .. n - 1` with a filled cell, in increasing order. */
  function FilledRows(table: seq<seq<Cell>>, n: nat): (rows: seq<nat>)
    requires 1 <= n <= |table|
    ensures forall k :: 0 <= k < |rows| ==> 1 <= rows[k] < n
  {
    if n == 1 then []
    else FilledRows(table, n - 1) + (if RowFilled(table[n - 1]) then [n - 1] else [])
  }

  /** The filled rows are exactly the data rows below `n` with a filled cell, in increasing order. */
  lemma {:induction false} FilledRowsFacts(table: seq<seq<Cell>>, n: nat)
    requires 1 <= n <= |table|
    ensures var rows := FilledRows(table, n);
      && (forall k :: 0 <= k < |rows| ==> RowFilled(table[rows[k]]))
      && (forall k, l :: 0 <= k < l < |rows| ==> rows[k] < rows[l])
      && (forall i :: 1 <= i < n ==> (RowFilled(table[i]) <==> i in rows))
  {
    if n > 1 {
      FilledRowsFacts(table, n - 1);
    }
  }

  /** The records of the rows among `1 .. n - 1` with a filled cell, in row order. */
  function TableRows(table: seq<seq<Cell>>, headers: seq<string>, pdfPath: string, tableIdx: nat, courseId: string, n: nat): seq<Record>
    requires 1 <= n <= |table|
    requires forall i :: 0 <= i < |table| ==> |table[i]| <= |headers|
  {
    var rows := FilledRows(table, n);
    seq(|rows|, k requires 0 <= k < |rows| => RowRecord(headers, table[rows[k]], pdfPath, tableIdx, courseId, rows[k]))
  }

  /** One more row adds its record exactly when one of its cells is filled. */
  lemma TableRowsStep(table: seq<seq<Cell>>, headers: seq<string>, pdfPath: string, tableIdx: nat, courseId: string, n: nat)
    requires 1 <= n < |table|
    requires forall i :: 0 <= i < |table| ==> |table[i]| <= |headers|
    ensures TableRows(table, headers, pdfPath, tableIdx, courseId, n + 1)
         == TableRows(table, headers, pdfPath, tableIdx, courseId, n)
            + (if RowFilled(table[n]) then [RowRecord(headers, table[n], pdfPath, tableIdx, courseId, n)] else [])
  {
    var rows := FilledRows(table, n);
    assert FilledRows(table, n + 1) == rows + (if RowFilled(table[n]) then [n] else []);
  }

  /** The header row: cell `j` of the first row, or `col<j>` where it is missing or empty. */
  function Headers(first: seq<Cell>): seq<string> {
    seq(|first|, j requires 0 <= j < |first| => Header(first[j], j))
  }

  /**
   * One header per column, none empty; a non-empty first-row string is kept
   * as it is, and the columns that fall back get `col`-prefixed names that
   * are pairwise distinct.
   */
  lemma HeadersFacts(first: seq<Cell>)
    ensures var hs := Headers(first);
      && |hs| == |first|
      && (forall j :: 0 <= j < |first| ==> hs[j] != "")
      && (forall j :: 0 <= j < |first| && first[j].Some? && first[j].value != "" ==> hs[j] == first[j].value)
      && (forall j :: 0 <= j < |first| && !(first[j].Some? && first[j].value != "") ==> hs[j][..3] == "col")
      && (forall j, k :: 0 <= j < k < |first| && !(first[j].Some? && first[j].value != "") && !(first[k].Some? && first[k].value != "")
            ==> hs[j] != hs[k])
  {
    var hs := Headers(first);
    forall j, k | 0 <= j < k < |first| && !(first[j].Some? && first[j].value != "")
        && !(first[k].Some? && first[k].value != "")
      ensures hs[j] != hs[k]
    {
      if hs[j] == hs[k] {
        assert hs[j][3..] == NatToString(j) && hs[k][3..] == NatToString(k);
        NatToStringInjective(j, k);
      }
    }
  }

  /** What `convert_df_to_text` gives: an `IndexError` for a table without rows, else the row records. */
  function TableRecords(table: seq<seq<Cell>>, pdfPath: string, tableIdx: nat, courseId: string): Outcome<seq<Record>>
    requires Rectangular(table)
  {
    if table == [] then Raised("IndexError")
    else Returned(TableRows(table, Headers(table[0]), pdfPath, tableIdx, courseId, |table|))
  }

  /** The inner loop of `convert_df_to_text`: the parts of one data row, in column order. */
  method CollectRowParts(headers: seq<string>, row: seq<Cell>) returns (parts: seq<string>)
    requires |row| <= |headers|
    ensures parts == RowParts(headers, row, |row|)
  {
    parts := [];
    for j := 0 to |row|
      invariant parts == RowParts(headers, row, j)
    {
      RowPartsStep(headers, row, j);
      if row[j].Some? && Strip(row[j].value) != "" {
        var part := Part(headers[j], row[j].value);
        calc {
          parts + [part];
          RowParts(headers, row, j) + [part];
          RowParts(headers, row, j + 1);
        }
        parts := parts + [part];
      } else {
        assert !Filled(row[j]);
      }
    }
  }

  /** `convert_df_to_text(df, pdf_path, table_idx, course_id)`, the frame given by its cells. */
  method ConvertTableToText(table: seq<seq<Cell>>, pdfPath: string, tableIdx: nat, courseId: string)
    returns (out: Outcome<seq<Record>>)
    requires Rectangular(table)
    ensures out == TableRecords(table, pdfPath, tableIdx, courseId)
  {
    if table == [] {
      return Raised("IndexError");
    }
    var headers := Headers(table[0]);
    var docs: seq<Record> := [];
    for i := 1 to |table|
      invariant docs == TableRows(table, headers, pdfPath, tableIdx, courseId, i)
    {
      var row := table[i];
      var parts := CollectRowParts(headers, row);
      TableRowsStep(table, headers, pdfPath, tableIdx, courseId, i);
      RowPartsNonEmptyIff(headers, row);
      if parts != [] {
        var sentence := Join(parts, ". ") + ".";
        docs := docs + [Record(sentence, TableMetadata(courseId, RowPath(pdfPath, tableIdx, i), "PDF_Table"))];
      }
    }
    return Returned(docs);
  }

  /**
   * `r` is the record of data row `i`: a row with a filled cell, whose parts
   * joined by `". "` and closed by `"."` are the text, with the course, the
   * row's source path and `"PDF_Table"` as metadata.
   */
  predicate IsRowRecord(r: Record, table: seq<seq<Cell>>, headers: seq<string>, pdfPath: string, tableIdx: nat, courseId: string, i: nat)
    requires forall i :: 0 <= i < |table| ==> |table[i]| <= |headers|
  {
    && 1 <= i < |table| && RowFilled(table[i]) && RowParts(headers, table[i], |table[i]|) != []
    && r.text == Join(RowParts(headers, table[i], |table[i]|), ". ") + "."
    && r.metadata == TableMetadata(courseId, RowPath(pdfPath, tableIdx, i), "PDF_Table")
  }

  /** Every table row record is the record of a data row with a filled cell. */
  lemma {:induction false} TableRowsFields(table: seq<seq<Cell>>, headers: seq<string>, pdfPath: string, tableIdx: nat, courseId: string)
    requires 1 <= |table|
    requires forall i :: 0 <= i < |table| ==> |table[i]| <= |headers|
    ensures var rs := TableRows(table, headers, pdfPath, tableIdx, courseId, |table|);
      forall k :: 0 <= k < |rs| ==>
        rs[k].metadata.TableMetadata? && exists i :: IsRowRecord(rs[k], table, headers, pdfPath, tableIdx, courseId, i)
  {
    var rows := FilledRows(table, |table|);
    var rs := TableRows(table, headers, pdfPath, tableIdx, courseId, |table|);
    FilledRowsFacts(table, |table|);
    forall k | 0 <= k < |rs|
      ensures rs[k].metadata.TableMetadata? && exists i :: IsRowRecord(rs[k], table, headers, pdfPath, tableIdx, courseId, i)
    {
      var i := rows[k];
      RowPartsNonEmptyIff(headers, table[i]);
      assert IsRowRecord(rs[k], table, headers, pdfPath, tableIdx, courseId, i);
    }
  }

  /** Record `k` of the table rows is the record of the `k`-th filled data row. */
  lemma TableRowsPaths(table: seq<seq<Cell>>, headers: seq<string>, pdfPath: string, tableIdx: nat, courseId: string)
    requires 1 <= |table|
    requires forall i :: 0 <= i < |table| ==> |table[i]| <= |headers|
    ensures var rs, rows := TableRows(table, headers, pdfPath, tableIdx, courseId, |table|), FilledRows(table, |table|);
      |rs| == |rows| && forall k :: 0 <= k < |rs| ==> rs[k].metadata.sourcePath == RowPath(pdfPath, tableIdx, rows[k])
  {
  }

  /**
   * A list naming the filled data rows in order, by their source paths,
   * names data row `i` exactly when one of its cells is filled.
   */
  lemma FilledRowPathsCover(table: seq<seq<Cell>>, pdfPath: string, tableIdx: nat, paths: seq<string>, i: nat)
    requires 1 <= i < |table|
    requires var rows := FilledRows(table, |table|);
      |paths| == |rows| && forall k :: 0 <= k < |paths| ==> paths[k] == RowPath(pdfPath, tableIdx, rows[k])
    ensures RowFilled(table[i]) <==> RowPath(pdfPath, tableIdx, i) in paths
  {
    var rows := FilledRows(table, |table|);
    FilledRowsFacts(table, |table|);
    if RowPath(pdfPath, tableIdx, i) in paths {
      var k :| 0 <= k < |paths| && paths[k] == RowPath(pdfPath, tableIdx, i);
      RowPathInjective(pdfPath, tableIdx, rows[k], i);
    }
    if i in rows {
      var k :| 0 <= k < |rows| && rows[k] == i;
      assert paths[k] == RowPath(pdfPath, tableIdx, i);
    }
  }

  /** A data row gets a record exactly when one of its cells is filled. */
  lemma TableRowsCover(table: seq<seq<Cell>>, headers: seq<string>, pdfPath: string, tableIdx: nat, courseId: string)
    requires 1 <= |table|
    requires forall i :: 0 <= i < |table| ==> |table[i]| <= |headers|
    ensures var rs := TableRows(table, headers, pdfPath, tableIdx, courseId, |table|);
      forall i :: 1 <= i < |table| ==>
        (RowFilled(table[i]) <==> exists k :: 0 <= k < |rs| && rs[k].metadata.sourcePath == RowPath(pdfPath, tableIdx, i))
  {
    var rs := TableRows(table, headers, pdfPath, tableIdx, courseId, |table|);
    TableRowsPaths(table, headers, pdfPath, tableIdx, courseId);
    var paths := seq(|rs|, k requires 0 <= k < |rs| => rs[k].metadata.sourcePath);
    forall i | 1 <= i < |table|
      ensures RowFilled(table[i]) <==> exists k :: 0 <= k < |rs| && rs[k].metadata.sourcePath == RowPath(pdfPath, tableIdx, i)
    {
      FilledRowPathsCover(table, pdfPath, tableIdx, paths, i);
      if RowPath(pdfPath, tableIdx, i) in paths {
        var k :| 0 <= k < |paths| && paths[k] == RowPath(pdfPath, tableIdx, i);
        assert rs[k].metadata.sourcePath == RowPath(pdfPath, tableIdx, i);
      }
    }
  }

  /** No two table row records share a source path. */
  lemma {:induction false} TableRowsDistinct(table: seq<seq<Cell>>, headers: seq<string>, pdfPath: string, tableIdx: nat, courseId: string)
    requires 1 <= |table|
    requires forall i :: 0 <= i < |table| ==> |table[i]| <= |headers|
    ensures var rs := TableRows(table, headers, pdfPath, tableIdx, courseId, |table|);
      forall k, l :: 0 <= k < l < |rs| ==> rs[k].metadata.sourcePath != rs[l].metadata.sourcePath
  {
    var rs := TableRows(table, headers, pdfPath, tableIdx, courseId, |table|);
    var rows := FilledRows(table, |table|);
    FilledRowsFacts(table, |table|);
    TableRowsPaths(table, headers, pdfPath, tableIdx, courseId);
    forall k, l | 0 <= k < l < |rs| ensures rs[k].metadata.sourcePath != rs[l].metadata.sourcePath {
      if rs[k].metadata.sourcePath == rs[l].metadata.sourcePath {
        RowPathInjective(pdfPath, tableIdx, rows[k], rows[l]);
      }
    }
  }

  /** A frame with a header row gives one record per data row with a filled cell, each with a distinct source path. */
  lemma TableRecordsCover(table: seq<seq<Cell>>, pdfPath: string, tableIdx: nat, courseId: string)
    requires Rectangular(table) && table != []
    ensures TableRecords(table, pdfPath, tableIdx, courseId).Returned?
    ensures var rs := TableRecords(table, pdfPath, tableIdx, courseId).value;
      && (forall i :: 1 <= i < |table| ==>
            (RowFilled(table[i]) <==>
             exists k :: 0 <= k < |rs| && rs[k].metadata.sourcePath == RowPath(pdfPath, tableIdx, i)))
      && (forall k, l :: 0 <= k < l < |rs| ==> rs[k].metadata.sourcePath != rs[l].metadata.sourcePath)
  {
    TableRowsCover(table, Headers(table[0]), pdfPath, tableIdx, courseId);
    TableRowsDistinct(table, Headers(table[0]), pdfPath, tableIdx, courseId);
  }
}
