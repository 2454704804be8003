/**
 * Text extraction by file type (`extract_text` of both extraction modes) and
 * the column widths of the Excel export (`save_to_excel`).
 *
 * The file parsers are not modelled: an upload is given by its name and by
 * what the parsers would read from it (the PDF's block lists and page texts,
 * the Word document's paragraph texts, the decoded text file).
 */
module Extract {
  import opened Wrappers
  import opened Text
  import opened Layout
  import opened PageCleaner

  /** An uploaded file, as its name and the parsers' views of its content. */
  datatype Upload = Upload(
    name: string,
    blocks: seq<seq<Block>>,
    pageTexts: seq<string>,
    docxParagraphs: seq<string>,
    content: string)

  const UnsupportedMessage: string := "Unsupported file type."

  /** `s.endswith(suffix)`. */
  predicate EndsWith(s: string, suffix: string) {
    |suffix| <= |s| && s[|s| - |suffix|..] == suffix
  }

  predicate Supported(name: string) {
    EndsWith(name, ".pdf") || EndsWith(name, ".docx") || EndsWith(name, ".txt")
  }

  // ---------------------------------------------------------------- txt and docx

  /** `[p.strip() for p in parts if p.strip()]`. */
  function NonBlankStripped(parts: seq<string>): (r: seq<string>)
    ensures |r| <= |parts|
    ensures forall k :: 0 <= k < |r| ==> r[k] != [] && IsStripped(r[k])
  {
    if parts == [] then []
    else
      var n := |parts| - 1;
      NonBlankStripped(parts[..n]) + (if Strip(parts[n]) == [] then [] else [Strip(parts[n])])
  }

  /** The txt branch: the blank-line separated segments of the text, stripped, blank ones dropped. */
  function TxtParagraphs(content: string): seq<string> {
    NonBlankStripped(Split(content, "\n\n"))
  }

  /** The docx branch: the document's paragraphs, stripped, blank ones dropped. */
  function DocxParagraphs(paragraphs: seq<string>): seq<string> {
    NonBlankStripped(paragraphs)
  }

  /**
   * The comprehension works piece by piece: what a list yields is what its
   * two halves yield, one after the other, so the order of the pieces is kept.
   */
  lemma {:induction false} NonBlankStrippedAppend(xs: seq<string>, ys: seq<string>)
    ensures NonBlankStripped(xs + ys) == NonBlankStripped(xs) + NonBlankStripped(ys)
    decreases |ys|
  {
    if ys == [] {
      assert xs + ys == xs;
    } else {
      var n := |ys| - 1;
      assert (xs + ys)[..|xs + ys| - 1] == xs + ys[..n];
      assert (xs + ys)[|xs + ys| - 1] == ys[n];
      NonBlankStrippedAppend(xs, ys[..n]);
    }
  }

  /** A single piece yields its stripped text, or nothing when that is empty. */
  lemma NonBlankStrippedOne(x: string)
    ensures NonBlankStripped([x]) == if Strip(x) == [] then [] else [Strip(x)]
  {
    assert [x][..0] == [];
  }

  /** Every result is the stripped text of one of the pieces. */
  lemma {:induction false} NonBlankStrippedFrom(parts: seq<string>, k: nat)
    requires k < |NonBlankStripped(parts)|
    ensures exists i :: 0 <= i < |parts| && NonBlankStripped(parts)[k] == Strip(parts[i])
    decreases |parts|
  {
    var n := |parts| - 1;
    var init := parts[..n];
    if k < |NonBlankStripped(init)| {
      NonBlankStrippedFrom(init, k);
      var i :| 0 <= i < |init| && NonBlankStripped(init)[k] == Strip(init[i]);
      assert init[i] == parts[i];
    } else {
      assert NonBlankStripped(parts)[k] == Strip(parts[n]);
    }
  }

  /** A slice of a string holds no occurrence the string itself does not hold. */
  lemma ContainsSlice(s: string, r: string, i: nat, t: string)
    requires i + |r| <= |s| && forall k :: 0 <= k < |r| ==> r[k] == s[i + k]
    requires Contains(r, t)
    ensures Contains(s, t)
  {
    var j: nat :| j <= |r| && OccursAt(r, t, j);
    assert s[i + j..i + j + |t|] == r[j..j + |t|];
    assert OccursAt(s, t, i + j);
  }

  /** No paragraph of a text file holds a blank line, the separator it was cut at. */
  lemma TxtParagraphsHaveNoBlankLine(content: string, k: nat)
    requires k < |TxtParagraphs(content)|
    ensures !Contains(TxtParagraphs(content)[k], "\n\n")
  {
    var parts := Split(content, "\n\n");
    NonBlankStrippedFrom(parts, k);
    var i :| 0 <= i < |parts| && TxtParagraphs(content)[k] == Strip(parts[i]);
    var at := StripSlice(parts[i]);
    if Contains(Strip(parts[i]), "\n\n") {
      ContainsSlice(parts[i], Strip(parts[i]), at, "\n\n");
    }
  }

  // ---------------------------------------------------------------- dispatch

  /**
   * `extract_text` of the paragraph mode: PDF blocks grouped into paragraphs,
   * Word paragraphs or text-file segments stripped and non-blank; any other
   * file name is refused.
   */
  function ExtractText(u: Upload): (r: Result<seq<string>, string>)
    ensures r.Failure? <==> !Supported(u.name)
    ensures r.Failure? ==> r.error == UnsupportedMessage
    ensures r.Success? ==> forall k :: 0 <= k < |r.value| ==> r.value[k] != [] && IsStripped(r.value[k])
  {
    if EndsWith(u.name, ".pdf") then
      PdfParagraphsClean(u.blocks, DefaultGap);
      Success(PdfParagraphs(u.blocks, DefaultGap))
    else if EndsWith(u.name, ".docx") then Success(DocxParagraphs(u.docxParagraphs))
    else if EndsWith(u.name, ".txt") then Success(TxtParagraphs(u.content))
    else Failure(UnsupportedMessage)
  }

  /** The chunks of the label mode: numbered pages for a PDF, paragraphs otherwise. */
  datatype Chunks = Pages(pages: seq<PageText>) | Paragraphs(paragraphs: seq<string>)

  /**
   * `extract_text` of the label mode: the PDF's pages numbered, stripped,
   * cleaned, and those left empty dropped; Word and text files as in the
   * paragraph mode; any other file name refused.
   */
  method ExtractTextByLabel(u: Upload) returns (r: Result<Chunks, string>)
    ensures r.Failure? <==> !Supported(u.name)
    ensures r.Failure? ==> r.error == UnsupportedMessage
    ensures EndsWith(u.name, ".pdf") ==> r == Success(Pages(KeptPages(NumberedPages(u.pageTexts))))
    ensures !EndsWith(u.name, ".pdf") && EndsWith(u.name, ".docx") ==>
      r == Success(Paragraphs(DocxParagraphs(u.docxParagraphs)))
    ensures !EndsWith(u.name, ".pdf") && !EndsWith(u.name, ".docx") && EndsWith(u.name, ".txt") ==>
      r == Success(Paragraphs(TxtParagraphs(u.content)))
  {
    if EndsWith(u.name, ".pdf") {
      var pageTexts := ExtractTextWithPageNumbers(u.pageTexts);
      var cleanedChunks := PdfChunks(pageTexts);
      return Success(Pages(cleanedChunks));
    } else if EndsWith(u.name, ".docx") {
      return Success(Paragraphs(DocxParagraphs(u.docxParagraphs)));
    } else if EndsWith(u.name, ".txt") {
      return Success(Paragraphs(TxtParagraphs(u.content)));
    } else {
      return Failure(UnsupportedMessage);
    }
  }

  // ---------------------------------------------------------------- column widths

  const MaxWidth: nat := 60

  /** Each row has one cell per column. */
  predicate Rectangular(header: seq<string>, rows: seq<seq<string>>) {
    forall r :: 0 <= r < |rows| ==> |rows[r]| == |header|
  }

  /** The length of the longest cell of column `j`. */
  function LongestCell(rows: seq<seq<string>>, j: nat): (m: nat)
    requires forall r :: 0 <= r < |rows| ==> j < |rows[r]|
    ensures forall r :: 0 <= r < |rows| ==> |rows[r][j]| <= m
    ensures rows == [] ==> m == 0
    ensures rows != [] ==> exists r :: 0 <= r < |rows| && |rows[r][j]| == m
  {
    if rows == [] then 0
    else
      var n := |rows| - 1;
      var m := LongestCell(rows[..n], j);
      assert forall r :: 0 <= r < n ==> rows[..n][r] == rows[r];
      if |rows[n][j]| > m then |rows[n][j]| else m
  }

  /** `min(max(longest cell, header) + 5, MAX_WIDTH)`. */
  function ColumnWidth(header: string, rows: seq<seq<string>>, j: nat): nat
    requires forall r :: 0 <= r < |rows| ==> j < |rows[r]|
  {
    var longest := LongestCell(rows, j);
    var m := if longest > |header| then longest else |header|;
    if m + 5 < MaxWidth then m + 5 else MaxWidth
  }

  /** The width loop of `save_to_excel`; a table without rows has no columns. */
  method ColumnWidths(header: seq<string>, rows: seq<seq<string>>) returns (widths: seq<nat>)
    requires Rectangular(header, rows)
    ensures |widths| == if rows == [] then 0 else |header|
    ensures forall i :: 0 <= i < |widths| ==> widths[i] == ColumnWidth(header[i], rows, i)
  {
    widths := [];
    var columns := if rows == [] then 0 else |header|;
    for i := 0 to columns
      invariant |widths| == i
      invariant forall k :: 0 <= k < i ==> widths[k] == ColumnWidth(header[k], rows, k)
    {
      var maxLen := ColumnWidth(header[i], rows, i);
      widths := widths + [maxLen];
    }
  }

  /**
   * A column is at most 60 wide; it leaves a margin of 5 after its header and
   * after each of its cells unless that would exceed 60; and it is exactly 60
   * or exactly 5 more than the header or one of the cells.
   */
  lemma ColumnWidthSpec(header: string, rows: seq<seq<string>>, j: nat)
    requires forall r :: 0 <= r < |rows| ==> j < |rows[r]|
    ensures ColumnWidth(header, rows, j) <= MaxWidth
    ensures ColumnWidth(header, rows, j) >= (if |header| + 5 < MaxWidth then |header| + 5 else MaxWidth)
    ensures forall r :: 0 <= r < |rows| ==>
      ColumnWidth(header, rows, j) >= (if |rows[r][j]| + 5 < MaxWidth then |rows[r][j]| + 5 else MaxWidth)
    ensures ColumnWidth(header, rows, j) == MaxWidth || ColumnWidth(header, rows, j) == |header| + 5 ||
      exists r :: 0 <= r < |rows| && ColumnWidth(header, rows, j) == |rows[r][j]| + 5
  {
  }
}
