/**
 * Page cleanup and page chunking of the label-guided extraction mode.
 *
 * A PDF page's text is split into lines; header and footer lines ("Page 3",
 * "Page II-28"), bare years, "Month D, YYYY" dates and blank lines are
 * dropped; the remaining lines are stripped, re-joined (a newline after a
 * line that ends a sentence, a space otherwise), every whitespace run is
 * collapsed to one space, and the result is stripped. The PDF reader itself
 * is not modelled: a document is the sequence of its pages' raw texts.
 */
module PageCleaner {
  import opened Wrappers
  import opened Text

  // ---------------------------------------------------------------- character runs

  datatype CharClass = Blank | Letter | Digit

  predicate InClass(k: CharClass, c: char) {
    match k
    case Blank => IsSpace(c)
    case Letter => IsLetter(c)
    case Digit => IsDigit(c)
  }

  /** The end of the run of characters of class `k` that starts at `from`. */
  function RunOf(s: string, from: nat, k: CharClass): (e: nat)
    requires from <= |s|
    ensures from <= e <= |s|
    ensures forall j :: from <= j < e ==> InClass(k, s[j])
    ensures e < |s| ==> !InClass(k, s[e])
    decreases |s| - from
  {
    if from == |s| || !InClass(k, s[from]) then from else RunOf(s, from + 1, k)
  }

  // ---------------------------------------------------------------- the line filters

  /*
   * Each filter is a regular expression of the form `^\s*CORE\s*$` whose CORE
   * starts and ends with a non-space character, so a line passes it exactly
   * when its stripped form matches CORE as a whole. The cores are read
   * deterministically: their character classes follow one another without
   * overlapping, so each run is the maximal run of its class.
   */

  /** `^\s*Page\s+[A-Z]*-?\d+\s*$`, ignoring case: "Page 3", "page II-28", "PAGE A12". */
  predicate IsPageHeader(line: string) {
    var t := Strip(line);
    && |t| > 4 && Lower(t[..4]) == "page"
    && var a := RunOf(t, 4, Blank);
    && a > 4
    && var b := RunOf(t, a, Letter);
    && var c := if b < |t| && t[b] == '-' then b + 1 else b;
    && var d := RunOf(t, c, Digit);
    && d > c && d == |t|
  }

  /** `^\s*\d{4}\s*$`: a bare year. */
  predicate IsYearLine(line: string) {
    var t := Strip(line);
    |t| == 4 && AllDigits(t)
  }

  /** `^\s*[A-Za-z]{3,9}\s+\d{1,2},\s*\d{4}\s*$`: a date such as "June 25, 2002". */
  predicate IsDateLine(line: string) {
    var t := Strip(line);
    && var a := RunOf(t, 0, Letter);
    && 3 <= a <= 9
    && var b := RunOf(t, a, Blank);
    && b > a
    && var c := RunOf(t, b, Digit);
    && 1 <= c - b <= 2 && c < |t| && t[c] == ','
    && var d := RunOf(t, c + 1, Blank);
    && |t| - d == 4 && AllDigits(t[d..])
  }

  /** The four `continue` conditions of the line loop. */
  predicate IsDropped(line: string) {
    IsPageHeader(line) || IsYearLine(line) || IsDateLine(line) || Strip(line) == []
  }

  /** `cleaned_lines`: the stripped lines that no filter drops, in order. */
  function KeptLines(lines: seq<string>): (kept: seq<string>)
    ensures |kept| <= |lines|
    ensures forall k :: 0 <= k < |kept| ==> kept[k] != [] && IsStripped(kept[k])
  {
    if lines == [] then []
    else
      var last := lines[|lines| - 1];
      KeptLines(lines[..|lines| - 1]) + (if IsDropped(last) then [] else [Strip(last)])
  }

  /** Keeping lines is a filter: it works line by line and keeps their order. */
  lemma {:induction false} KeptLinesAppend(a: seq<string>, b: seq<string>)
    ensures KeptLines(a + b) == KeptLines(a) + KeptLines(b)
    decreases |b|
  {
    if b == [] {
      assert a + b == a;
    } else {
      var n := |b| - 1;
      assert (a + b)[..|a + b| - 1] == a + b[..n];
      assert (a + b)[|a + b| - 1] == b[n];
      KeptLinesAppend(a, b[..n]);
    }
  }

  lemma KeptLinesSingle(line: string)
    ensures KeptLines([line]) == if IsDropped(line) then [] else [Strip(line)]
  {
    assert [line][..0] == [];
  }

  /** Every kept line is the stripped form of a line no filter drops. */
  lemma {:induction false} KeptLinesFrom(lines: seq<string>, x: string)
    requires x in KeptLines(lines)
    ensures exists k :: 0 <= k < |lines| && !IsDropped(lines[k]) && x == Strip(lines[k])
  {
    var n := |lines| - 1;
    var init := lines[..n];
    if x in KeptLines(init) {
      KeptLinesFrom(init, x);
      var k :| 0 <= k < |init| && !IsDropped(init[k]) && x == Strip(init[k]);
      assert init[k] == lines[k];
    } else {
      assert !IsDropped(lines[n]) && x == Strip(lines[n]);
    }
  }

  /** Every line no filter drops is kept, stripped. */
  lemma {:induction false} KeptLinesHas(lines: seq<string>, k: nat)
    requires k < |lines| && !IsDropped(lines[k])
    ensures Strip(lines[k]) in KeptLines(lines)
  {
    var n := |lines| - 1;
    if k < n {
      var init := lines[..n];
      assert init[k] == lines[k];
      KeptLinesHas(init, k);
    }
  }

  // ---------------------------------------------------------------- merging and normalising

  /** `re.search(r"[.?!:]$", line)` on a stripped line. */
  predicate EndsSentence(line: string) {
    |line| > 0 && line[|line| - 1] in ".?!:"
  }

  /** What the merge loop appends after line `j`: nothing after the last, else a newline or a space. */
  function Separator(lines: seq<string>, j: nat): string
    requires j < |lines|
  {
    if j == |lines| - 1 then "" else if EndsSentence(lines[j]) then "\n" else " "
  }

  /** `merged_text` after the first `i` lines. */
  function MergePrefix(lines: seq<string>, i: nat): string
    requires i <= |lines|
  {
    if i == 0 then "" else MergePrefix(lines, i - 1) + (lines[i - 1] + Separator(lines, i - 1))
  }

  /** `re.sub(r"\s+", " ", s)`: every whitespace run becomes one space. */
  function Collapse(s: string): (r: string)
    ensures |r| <= |s|
    ensures r == [] <==> s == []
    ensures s != [] ==> (IsSpace(r[0]) <==> IsSpace(s[0]))
    decreases |s|
  {
    if s == [] then []
    else if IsSpace(s[0]) then " " + Collapse(s[RunOf(s, 0, Blank)..])
    else [s[0]] + Collapse(s[1..])
  }

  /** `re.sub(pat, rep, s)` for a pattern without special characters: leftmost, non-overlapping. */
  function ReplaceAll(s: string, pat: string, rep: string): string
    requires |pat| > 0
    decreases |s|
  {
    match IndexFrom(s, pat, 0)
    case None => s
    case Some(i) => s[..i] + rep + ReplaceAll(s[i + |pat|..], pat, rep)
  }

  /** Every whitespace character is a space, and the next character, if any, is not whitespace. */
  predicate SingleSpaced(s: string) {
    forall i :: 0 <= i < |s| && IsSpace(s[i]) ==> s[i] == ' ' && (i + 1 < |s| ==> !IsSpace(s[i + 1]))
  }

  /** Collapsed and trimmed: the only whitespace is single spaces between other characters. */
  predicate Normal(s: string) {
    IsStripped(s) && SingleSpaced(s)
  }

  function CollapseAll(lines: seq<string>): (r: seq<string>)
    ensures |r| == |lines| && forall k :: 0 <= k < |lines| ==> r[k] == Collapse(lines[k])
  {
    seq(|lines|, k requires 0 <= k < |lines| => Collapse(lines[k]))
  }

  /**
   * The cleaned page in closed form: the kept lines, each with its inner
   * whitespace collapsed, joined by single spaces.
   */
  function CleanPage(page: string): string {
    Join(" ", CollapseAll(KeptLines(SplitLines(page))))
  }

  /** `clean_page_text(page_text)`: its line loop, its merge loop, then the normalisation. */
  method CleanPageText(pageText: string) returns (r: string)
    ensures r == CleanPage(pageText)
    ensures Normal(r) && NoLineBreak(r)
  {
    var lines := SplitLines(pageText);
    var cleaned := KeepLines(lines);
    var merged := MergeLines(cleaned);
    merged := Collapse(merged);
    merged := ReplaceAll(merged, " \n ", "\n");
    r := Strip(merged);
    NormaliseMerged(cleaned);
    CleanPageIsNormal(pageText);
  }

  /** The line loop of `clean_page_text`: each line dropped by a filter is skipped, the others are kept stripped. */
  method KeepLines(lines: seq<string>) returns (cleaned: seq<string>)
    ensures cleaned == KeptLines(lines)
  {
    cleaned := [];
    for i := 0 to |lines|
      invariant cleaned == KeptLines(lines[..i])
    {
      var line := lines[i];
      assert lines[..i + 1][..i] == lines[..i];
      if IsPageHeader(line) || IsYearLine(line) || IsDateLine(line) || Strip(line) == [] {
        continue;
      }
      cleaned := cleaned + [Strip(line)];
    }
    assert lines[..|lines|] == lines;
  }

  /** The merge loop of `clean_page_text`: a newline after a line that ends a sentence, a space after any other, nothing after the last. */
  method MergeLines(cleaned: seq<string>) returns (merged: string)
    ensures merged == MergePrefix(cleaned, |cleaned|)
  {
    merged := "";
    for i := 0 to |cleaned|
      invariant merged == MergePrefix(cleaned, i)
    {
      if i == |cleaned| - 1 {
        merged := merged + cleaned[i];
      } else if EndsSentence(cleaned[i]) {
        merged := merged + (cleaned[i] + "\n");
      } else {
        merged := merged + (cleaned[i] + " ");
      }
    }
  }

  // ---------------------------------------------------------------- proofs about normalising

  /** One whitespace run from the start of `x + y` stays inside `x` when `x` does not end with whitespace. */
  lemma {:induction false} RunOfAppend(x: string, y: string, from: nat, k: CharClass)
    requires from <= |x|
    requires RunOf(x, from, k) < |x| || y == [] || !InClass(k, y[0])
    ensures RunOf(x + y, from, k) == RunOf(x, from, k)
    decreases |x| - from
  {
    var xy := x + y;
    if from < |x| {
      assert xy[from] == x[from];
      if InClass(k, x[from]) {
        RunOfAppend(x, y, from + 1, k);
      }
    } else if y != [] {
      assert xy[from] == y[0];
    }
  }

  /** Collapsing works piecewise across a boundary that is not inside a whitespace run. */
  lemma {:induction false} CollapseAppend(x: string, y: string)
    requires x == [] || y == [] || !IsSpace(x[|x| - 1]) || !IsSpace(y[0])
    ensures Collapse(x + y) == Collapse(x) + Collapse(y)
    decreases |x|
  {
    if x == [] {
      assert x + y == y;
    } else if y == [] {
      assert x + y == x;
    } else {
      var xy := x + y;
      assert xy[0] == x[0];
      if !IsSpace(x[0]) {
        assert xy[1..] == x[1..] + y;
        if |x| > 1 {
          assert x[1..][|x| - 2] == x[|x| - 1];
        }
        CollapseAppend(x[1..], y);
      } else {
        CollapseAppendBlank(x, y);
      }
    }
  }

  lemma {:induction false} CollapseAppendBlank(x: string, y: string)
    requires x != [] && y != [] && IsSpace(x[0])
    requires !IsSpace(x[|x| - 1]) || !IsSpace(y[0])
    ensures Collapse(x + y) == Collapse(x) + Collapse(y)
    decreases |x|, 1
  {
    var xy := x + y;
    assert xy[0] == x[0];
    var e := RunOf(x, 0, Blank);
    assert e == |x| ==> InClass(Blank, x[|x| - 1]);
    RunOfAppend(x, y, 0, Blank);
    if e < |x| {
      CollapseAppendAfterRun(x, y, e);
    } else {
      assert xy[e..] == y && x[e..] == [];
    }
  }

  /** The case of `CollapseAppendBlank` where the leading whitespace run of `x` ends inside `x`, at `e`. */
  lemma {:induction false} CollapseAppendAfterRun(x: string, y: string, e: nat)
    requires 0 < e < |x| && e == RunOf(x, 0, Blank) && e == RunOf(x + y, 0, Blank)
    requires !IsSpace(x[|x| - 1]) || y == [] || !IsSpace(y[0])
    ensures Collapse(x + y) == Collapse(x) + Collapse(y)
    decreases |x|, 0
  {
    var xy, t := x + y, x[e..];
    assert xy[0] == x[0];
    assert xy[e..] == t + y;
    assert t[|t| - 1] == x[|x| - 1];
    CollapseAppend(t, y);
    var a, b := Collapse(t), Collapse(y);
    assert Collapse(xy) == " " + (a + b);
    assert " " + (a + b) == (" " + a) + b;
  }

  /** A single whitespace character collapses to a space. */
  lemma CollapseBlank(c: char)
    requires IsSpace(c)
    ensures Collapse([c]) == " "
  {
    assert RunOf([c], 0, Blank) == 1;
  }

  lemma SingleSpacedCons(c: char, rest: string)
    requires SingleSpaced(rest)
    requires IsSpace(c) ==> c == ' ' && (rest == [] || !IsSpace(rest[0]))
    ensures SingleSpaced([c] + rest)
  {
    var r := [c] + rest;
    forall i | 0 <= i < |r| && IsSpace(r[i]) ensures r[i] == ' ' && (i + 1 < |r| ==> !IsSpace(r[i + 1])) {
      if i > 0 {
        assert r[i] == rest[i - 1];
        if i + 1 < |r| { assert r[i + 1] == rest[i]; }
      }
    }
  }

  /** The whitespace of a collapsed string is single spaces. */
  lemma {:induction false} CollapseSingleSpaced(s: string)
    ensures SingleSpaced(Collapse(s))
    decreases |s|
  {
    if s != [] {
      if IsSpace(s[0]) {
        var e := RunOf(s, 0, Blank);
        CollapseSingleSpaced(s[e..]);
        if e < |s| { assert s[e..][0] == s[e]; }
        SingleSpacedCons(' ', Collapse(s[e..]));
      } else {
        CollapseSingleSpaced(s[1..]);
        SingleSpacedCons(s[0], Collapse(s[1..]));
      }
    }
  }

  /** Collapsing keeps the kind of the last character. */
  lemma {:induction false} CollapseLast(s: string)
    requires s != []
    ensures IsSpace(Collapse(s)[|Collapse(s)| - 1]) <==> IsSpace(s[|s| - 1])
    decreases |s|
  {
    var r := Collapse(s);
    if IsSpace(s[0]) {
      var e := RunOf(s, 0, Blank);
      var t := s[e..];
      if e < |s| {
        CollapseLast(t);
        assert t[|t| - 1] == s[|s| - 1];
        assert r[|r| - 1] == Collapse(t)[|Collapse(t)| - 1];
      }
    } else if |s| > 1 {
      var t := s[1..];
      CollapseLast(t);
      assert t[|t| - 1] == s[|s| - 1];
      assert r[|r| - 1] == Collapse(t)[|Collapse(t)| - 1];
    }
  }

  /** Skipping leading whitespace does not change the non-whitespace content. */
  lemma {:induction false} NonSpaceSkip(s: string, e: nat)
    requires e <= |s| && forall j :: 0 <= j < e ==> IsSpace(s[j])
    ensures NonSpace(s) == NonSpace(s[e..])
  {
    if e > 0 {
      assert s[1..][e - 1..] == s[e..];
      NonSpaceSkip(s[1..], e - 1);
    }
  }

  /** Collapsing removes and changes whitespace only. */
  lemma {:induction false} CollapseNonSpace(s: string)
    ensures NonSpace(Collapse(s)) == NonSpace(s)
    decreases |s|
  {
    if s != [] {
      var r := Collapse(s);
      if IsSpace(s[0]) {
        var e := RunOf(s, 0, Blank);
        CollapseNonSpace(s[e..]);
        NonSpaceSkip(s, e);
        assert r[1..] == Collapse(s[e..]);
      } else {
        CollapseNonSpace(s[1..]);
        assert r[1..] == Collapse(s[1..]);
      }
    }
  }

  /** A stripped, non-empty line collapses to a normal, non-empty string. */
  lemma CollapseLine(line: string)
    requires line != [] && IsStripped(line)
    ensures Collapse(line) != [] && Normal(Collapse(line))
  {
    CollapseSingleSpaced(line);
    CollapseLast(line);
  }

  /** Joining normal, non-empty pieces with single spaces gives a normal string. */
  lemma {:induction false} JoinNormal(parts: seq<string>)
    requires forall k :: 0 <= k < |parts| ==> parts[k] != [] && Normal(parts[k])
    ensures Normal(Join(" ", parts))
    ensures parts != [] ==> Join(" ", parts) != []
  {
    if |parts| > 1 {
      var head, rest := parts[0], Join(" ", parts[1..]);
      JoinNormal(parts[1..]);
      var r := head + " " + rest;
      assert Join(" ", parts) == r;
      forall i | 0 <= i < |r| && IsSpace(r[i]) ensures r[i] == ' ' && i + 1 < |r| && !IsSpace(r[i + 1]) {
        if i < |head| {
          assert r[i] == head[i];
          if i + 1 < |head| {
            assert r[i + 1] == head[i + 1];
          }
        } else if i > |head| {
          assert r[i] == rest[i - |head| - 1];
          assert r[i + 1] == rest[i - |head|];
        } else {
          assert r[i + 1] == rest[0];
        }
      }
      assert r[0] == head[0] && r[|r| - 1] == rest[|rest| - 1];
    }
  }

  /**
   * The merge loop followed by the collapse: for stripped, non-empty lines
   * the result is the collapsed lines joined by single spaces, and a space
   * more while lines remain.
   */
  lemma {:induction false} CollapseMergePrefix(lines: seq<string>, i: nat)
    requires forall k :: 0 <= k < |lines| ==> lines[k] != [] && IsStripped(lines[k])
    requires 0 < i <= |lines|
    ensures Collapse(MergePrefix(lines, i)) ==
      Join(" ", CollapseAll(lines[..i])) + (if i < |lines| then " " else "")
  {
    if i == 1 {
      CollapseMergeFirst(lines);
    } else {
      CollapseMergePrefix(lines, i - 1);
      CollapseMergeNext(lines, i);
    }
  }

  lemma CollapseMergeFirst(lines: seq<string>)
    requires 0 < |lines| && lines[0] != [] && IsStripped(lines[0])
    ensures Collapse(MergePrefix(lines, 1)) ==
      Join(" ", CollapseAll(lines[..1])) + (if 1 < |lines| then " " else "")
  {
    var l, sep := lines[0], Separator(lines, 0);
    var c := Collapse(l);
    CollapseLineSep(l, sep);
    assert (sep == "") == (|lines| == 1);
    assert "" + (l + sep) == l + sep;
    assert MergePrefix(lines, 1) == l + sep;
    assert CollapseAll(lines[..1]) == [c];
    assert Join(" ", [c]) == c;
  }

  lemma CollapseMergeNext(lines: seq<string>, i: nat)
    requires 1 < i <= |lines| && lines[i - 1] != [] && IsStripped(lines[i - 1])
    requires Collapse(MergePrefix(lines, i - 1)) == Join(" ", CollapseAll(lines[..i - 1])) + " "
    ensures Collapse(MergePrefix(lines, i)) ==
      Join(" ", CollapseAll(lines[..i])) + (if i < |lines| then " " else "")
  {
    var l, sep := lines[i - 1], Separator(lines, i - 1);
    var m := MergePrefix(lines, i - 1);
    var tail: string := if i < |lines| then " " else "";
    var j := Join(" ", CollapseAll(lines[..i - 1]));
    CollapseLineSep(l, sep);
    CollapseAllSnoc(lines, i);
    MergePrefixEnds(lines, i - 1);
    CollapseMergeStep(m, l, sep, j, tail);

    JoinSnoc(" ", CollapseAll(lines[..i - 1]), Collapse(l));
  }

  /** One step of the merge loop, collapsed. */
  lemma CollapseMergeStep(m: string, l: string, sep: string, j: string, tail: string)
    requires m != [] && IsSpace(m[|m| - 1]) && Collapse(m) == j + " "
    requires l != [] && !IsSpace(l[0]) && Collapse(l + sep) == Collapse(l) + tail
    ensures Collapse(m + (l + sep)) == (j + " " + Collapse(l)) + tail
  {
    assert (l + sep)[0] == l[0];
    CollapseAppend(m, l + sep);
    assert (j + " ") + (Collapse(l) + tail) == (j + " " + Collapse(l)) + tail;
  }

  /** A kept line and the separator after it collapse to the collapsed line and at most one space. */
  lemma CollapseLineSep(l: string, sep: string)
    requires l != [] && IsStripped(l)
    requires sep == "" || sep == " " || sep == "\n"
    ensures Collapse(l + sep) == Collapse(l) + (if sep == "" then "" else " ")
  {
    if sep == "" {
      assert l + sep == l;
    } else {
      assert IsSpace(sep[0]) by { SpaceChars(sep[0]); }
      CollapseAppend(l, sep);
      CollapseBlank(sep[0]);
      assert [sep[0]] == sep;
    }
  }

  lemma CollapseAllSnoc(lines: seq<string>, i: nat)
    requires 0 < i <= |lines|
    ensures CollapseAll(lines[..i]) == CollapseAll(lines[..i - 1]) + [Collapse(lines[i - 1])]
  {
    var a, b := CollapseAll(lines[..i]), CollapseAll(lines[..i - 1]) + [Collapse(lines[i - 1])];
    assert |a| == |b|;
    forall k | 0 <= k < |a| ensures a[k] == b[k] {
      if k < i - 1 { assert lines[..i][k] == lines[..i - 1][k]; }
    }
  }

  /** The last character of a merge prefix is a separator. */
  lemma MergePrefixEnds(lines: seq<string>, i: nat)
    requires 0 < i < |lines|
    ensures MergePrefix(lines, i) != [] && IsSpace(MergePrefix(lines, i)[|MergePrefix(lines, i)| - 1])
  {
    var sep := Separator(lines, i - 1);
    assert sep == "\n" || sep == " ";
  }

  /** The collapse, rewrite and strip after the merge loop give the closed form. */
  lemma NormaliseMerged(cleaned: seq<string>)
    requires forall k :: 0 <= k < |cleaned| ==> cleaned[k] != [] && IsStripped(cleaned[k])
    ensures Strip(ReplaceAll(Collapse(MergePrefix(cleaned, |cleaned|)), " \n ", "\n")) ==
      Join(" ", CollapseAll(cleaned))
  {
    var c := Collapse(MergePrefix(cleaned, |cleaned|));
    var j := Join(" ", CollapseAll(cleaned));
    if cleaned != [] {
      CollapseMergePrefix(cleaned, |cleaned|);
      assert cleaned[..|cleaned|] == cleaned;
    }
    assert c == j;
    JoinedLinesNormal(cleaned);
    NormalHasNoNewline(c);
    StripStripped(c);
  }

  /** The collapsed kept lines, joined by spaces, form a normal string. */
  lemma JoinedLinesNormal(lines: seq<string>)
    requires forall k :: 0 <= k < |lines| ==> lines[k] != [] && IsStripped(lines[k])
    ensures Normal(Join(" ", CollapseAll(lines)))
    ensures lines != [] ==> Join(" ", CollapseAll(lines)) != []
  {
    var parts := CollapseAll(lines);
    forall k | 0 <= k < |parts| ensures parts[k] != [] && Normal(parts[k]) {
      CollapseLine(lines[k]);
    }
    JoinNormal(parts);
  }

  /** A normal string holds no " \n ", so rewriting that is the identity. */
  lemma NormalHasNoNewline(c: string)
    requires Normal(c)
    ensures ReplaceAll(c, " \n ", "\n") == c
  {
    forall p: nat | p <= |c| ensures !OccursAt(c, " \n ", p) {
      if p + 3 <= |c| {
        assert c[p..p + 3][1] == c[p + 1];
        assert IsSpace('\n') by { SpaceChars('\n'); }
      }
    }
  }

  // ---------------------------------------------------------------- what a cleaned page is

  /**
   * A cleaned page has no line break left, no whitespace but single spaces
   * between other characters, and no whitespace at either end; it is empty
   * exactly when every line was dropped.
   */
  lemma CleanPageIsNormal(page: string)
    ensures Normal(CleanPage(page)) && NoLineBreak(CleanPage(page))
    ensures CleanPage(page) == [] <==> KeptLines(SplitLines(page)) == []
  {
    var kept := KeptLines(SplitLines(page));
    JoinedLinesNormal(kept);
    NormalNoLineBreak(CleanPage(page));
  }

  /** The only whitespace of a normal string is spaces, so it has no line break. */
  lemma NormalNoLineBreak(s: string)
    requires Normal(s)
    ensures NoLineBreak(s)
  {
    forall i | 0 <= i < |s| ensures !IsLineBreak(s[i]) {
      LineBreakIsSpace(s[i]);
    }
  }

  /** Cleaning loses no character of a kept line other than whitespace, and invents none. */
  lemma {:induction false} CleanPageContent(lines: seq<string>)
    ensures NonSpace(Join(" ", CollapseAll(lines))) == NonSpace(Concat(lines))
  {
    if lines != [] {
      CollapseNonSpace(lines[0]);
      if |lines| == 1 {
        assert Concat(lines) == lines[0] + Concat([]);
        assert lines[0] + [] == lines[0];
      } else {
        var rest := lines[1..];
        CleanPageContent(rest);
        assert CollapseAll(lines)[1..] == CollapseAll(rest);
        var x, y := Collapse(lines[0]), Join(" ", CollapseAll(rest));
        assert Join(" ", CollapseAll(lines)) == x + " " + y;
        NonSpaceAroundSpace(x, y);
        NonSpaceAppend(lines[0], Concat(rest));
      }
    }
  }

  lemma NonSpaceAroundSpace(x: string, y: string)
    ensures NonSpace(x + " " + y) == NonSpace(x) + NonSpace(y)
  {
    var a, n := x + " ", NonSpace(x);
    NonSpaceAppend(a, y);
    NonSpaceAppend(x, " ");
    NonSpaceBlank();
    assert n + [] == n;
  }

  lemma NonSpaceBlank()
    ensures NonSpace(" ") == []
  {
    SpaceChars(' ');
    assert " "[1..] == [];
  }

  // ---------------------------------------------------------------- pages and chunks

  /** One entry of `page_texts`: a 1-based page number and the page's stripped text. */
  datatype PageText = PageText(pageNum: nat, text: string)

  /** `extract_text_with_page_numbers`, over the raw texts of the pages. */
  method ExtractTextWithPageNumbers(raw: seq<string>) returns (pages: seq<PageText>)
    ensures |pages| == |raw|
    ensures forall i :: 0 <= i < |raw| ==> pages[i] == PageText(i + 1, Strip(raw[i]))
    ensures pages == NumberedPages(raw)
  {
    pages := [];
    for i := 0 to |raw|
      invariant |pages| == i
      invariant forall j :: 0 <= j < i ==> pages[j] == PageText(j + 1, Strip(raw[j]))
    {
      pages := pages + [PageText(i + 1, Strip(raw[i]))];
    }
  }

  /** The pages numbered from 1, each with its stripped text. */
  function NumberedPages(raw: seq<string>): (pages: seq<PageText>)
    ensures |pages| == |raw| && forall i :: 0 <= i < |raw| ==> pages[i] == PageText(i + 1, Strip(raw[i]))
  {
    seq(|raw|, i requires 0 <= i < |raw| => PageText(i + 1, Strip(raw[i])))
  }

  /**
   * The PDF branch of `extract_text`: each page cleaned, the pages left empty
   * dropped. The chunks are in increasing page order, each holds its page's
   * cleaned text, and every page whose cleaned text is not empty has one.
   */
  method PdfChunks(pages: seq<PageText>) returns (chunks: seq<PageText>)
    ensures forall k :: 0 <= k < |chunks| ==> chunks[k].text != []
    ensures forall k :: 0 <= k < |chunks| ==>
      exists i :: 0 <= i < |pages| && chunks[k] == PageText(pages[i].pageNum, CleanPage(pages[i].text))
    ensures forall i :: 0 <= i < |pages| && CleanPage(pages[i].text) != [] ==>
      PageText(pages[i].pageNum, CleanPage(pages[i].text)) in chunks
    ensures chunks == KeptPages(pages)
  {
    chunks := [];
    for i := 0 to |pages|
      invariant chunks == KeptPages(pages[..i])
    {
      assert pages[..i + 1][..i] == pages[..i];
      var cleaned := CleanPageText(pages[i].text);
      if cleaned != [] {
        chunks := chunks + [PageText(pages[i].pageNum, cleaned)];
      }
    }
    assert pages[..|pages|] == pages;
    forall k | 0 <= k < |chunks| ensures chunks[k].text != [] &&
      exists i :: 0 <= i < |pages| && chunks[k] == PageText(pages[i].pageNum, CleanPage(pages[i].text))
    {
      KeptPagesFrom(pages, k);
    }
    forall i | 0 <= i < |pages| && CleanPage(pages[i].text) != []
      ensures PageText(pages[i].pageNum, CleanPage(pages[i].text)) in chunks
    {
      KeptPagesHas(pages, i);
    }
  }

  /** The pages whose cleaned text is non-empty, cleaned, in order. */
  function KeptPages(pages: seq<PageText>): seq<PageText> {
    if pages == [] then []
    else
      var last := pages[|pages| - 1];
      var cleaned := CleanPage(last.text);
      KeptPages(pages[..|pages| - 1]) + (if cleaned == [] then [] else [PageText(last.pageNum, cleaned)])
  }

  /** Every chunk is the cleaned, non-empty text of one of the pages, under that page's number. */
  lemma {:induction false} KeptPagesFrom(pages: seq<PageText>, k: nat)
    requires k < |KeptPages(pages)|
    ensures KeptPages(pages)[k].text != []
    ensures exists i :: 0 <= i < |pages| && KeptPages(pages)[k] == PageText(pages[i].pageNum, CleanPage(pages[i].text))
  {
    var n := |pages| - 1;
    var init := pages[..n];
    if k < |KeptPages(init)| {
      KeptPagesFrom(init, k);
      var i :| 0 <= i < |init| && KeptPages(init)[k] == PageText(init[i].pageNum, CleanPage(init[i].text));
      assert init[i] == pages[i];
    } else {
      assert KeptPages(pages)[k] == PageText(pages[n].pageNum, CleanPage(pages[n].text));
    }
  }

  /** Every page whose cleaned text is not empty has a chunk. */
  lemma {:induction false} KeptPagesHas(pages: seq<PageText>, i: nat)
    requires i < |pages| && CleanPage(pages[i].text) != []
    ensures PageText(pages[i].pageNum, CleanPage(pages[i].text)) in KeptPages(pages)
  {
    var n := |pages| - 1;
    if i < n {
      var init := pages[..n];
      assert init[i] == pages[i];
      KeptPagesHas(init, i);
    }
  }

  /** Page numbers stay increasing when empty pages are dropped. */
  lemma {:induction false} KeptPagesIncreasing(pages: seq<PageText>)
    requires forall i, j :: 0 <= i < j < |pages| ==> pages[i].pageNum < pages[j].pageNum
    ensures forall a, b :: 0 <= a < b < |KeptPages(pages)| ==> KeptPages(pages)[a].pageNum < KeptPages(pages)[b].pageNum
  {
    if pages != [] {
      var n := |pages| - 1;
      var init := pages[..n];
      KeptPagesIncreasing(init);
      var r, ri := KeptPages(pages), KeptPages(init);
      forall a, b | 0 <= a < b < |r| ensures r[a].pageNum < r[b].pageNum {
        if b >= |ri| {
          KeptPagesFrom(init, a);
          var i :| 0 <= i < |init| && ri[a] == PageText(init[i].pageNum, CleanPage(init[i].text));
          assert init[i] == pages[i];
        }
      }
    }
  }

  /** The page numbers `extract_text_with_page_numbers` produces, 1, 2, 3, ..., survive as increasing numbers. */
  lemma PdfChunkNumbersIncrease(raw: seq<string>)
    ensures forall a, b :: 0 <= a < b < |KeptPages(NumberedPages(raw))| ==>
      1 <= KeptPages(NumberedPages(raw))[a].pageNum < KeptPages(NumberedPages(raw))[b].pageNum <= |raw|
  {
    var pages := NumberedPages(raw);
    KeptPagesIncreasing(pages);
    forall a | 0 <= a < |KeptPages(pages)| ensures 1 <= KeptPages(pages)[a].pageNum <= |raw| {
      KeptPagesFrom(pages, a);
      var i :| 0 <= i < |pages| && KeptPages(pages)[a] == PageText(pages[i].pageNum, CleanPage(pages[i].text));
    }
  }

  /** `clean_all_pages`: every page cleaned, joined with a blank line between pages. */
  method CleanAllPages(pages: seq<PageText>) returns (fullText: string)
    ensures fullText == Join("\n\n", CleanTexts(pages))
    ensures |pages| > 0 ==> Split(fullText, "\n\n") == CleanTexts(pages)
  {
    var cleanedPages: seq<string> := [];
    for i := 0 to |pages|
      invariant |cleanedPages| == i
      invariant forall k :: 0 <= k < i ==> cleanedPages[k] == CleanPage(pages[k].text)
    {
      var cleaned := CleanPageText(pages[i].text);
      cleanedPages := cleanedPages + [cleaned];
    }
    assert cleanedPages == CleanTexts(pages);
    fullText := Join("\n\n", cleanedPages);
    if |pages| > 0 {
      CleanTextsSplit(pages);
    }
  }

  /** The pages can be told apart again: no cleaned page holds the blank line that separates them. */
  lemma CleanTextsSplit(pages: seq<PageText>)
    requires |pages| > 0
    ensures Split(Join("\n\n", CleanTexts(pages)), "\n\n") == CleanTexts(pages)
  {
    var texts := CleanTexts(pages);
    forall k | 0 <= k < |texts| ensures '\n' !in texts[k] {
      CleanPageIsNormal(pages[k].text);
      assert IsLineBreak('\n');
    }
    SplitJoinBlankLine(texts);
  }

  function CleanTexts(pages: seq<PageText>): (r: seq<string>)
    ensures |r| == |pages| && forall k :: 0 <= k < |pages| ==> r[k] == CleanPage(pages[k].text)
  {
    seq(|pages|, k requires 0 <= k < |pages| => CleanPage(pages[k].text))
  }
}
