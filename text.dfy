/** Option and Result, the two wrappers the model uses. */
module Wrappers {

  datatype Option<+T> = None | Some(value: T)

  datatype Result<+T, +E> = Success(value: T) | Failure(error: E)
}

/**
 * The operations of Python's `str` type that the extraction pipeline relies on:
 * whitespace and character classes, `strip`, `lower`, `in`, `join`, `split`,
 * `splitlines`, and `sorted(set(...))` on strings (code-point order).
 *
 * Whitespace is exactly the set of characters for which `str.isspace()` holds
 * (which is also what the regular-expression class `\s` matches). Letters,
 * digits and word characters are the ASCII ones, and `lower` folds ASCII only.
 */
module Text {
  import opened Wrappers

  // ---------------------------------------------------------------- classes

  /**
   * `c.isspace()`, and the regular-expression class `\s`: the ASCII controls
   * tab to carriage return, the separators U+001C to U+001F, the space, and
   * the wider Unicode whitespace listed by `WideSpace`.
   */
  predicate IsSpace(c: char) {
    ('\t' <= c <= '\r') || ('\U{1C}' <= c <= ' ') || ('\U{85}' <= c && WideSpace(c, 0))
  }

  /** The non-ASCII whitespace ranges, numbered from 0. */
  function WideRange(i: nat): (char, char) {
    match i
    case 0 => ('\U{85}', '\U{85}')
    case 1 => ('\U{A0}', '\U{A0}')
    case 2 => ('\U{1680}', '\U{1680}')
    case 3 => ('\U{2000}', '\U{200A}')
    case 4 => ('\U{2028}', '\U{2029}')
    case 5 => ('\U{202F}', '\U{202F}')
    case 6 => ('\U{205F}', '\U{205F}')
    case _ => ('\U{3000}', '\U{3000}')
  }

  /** `c` lies in one of the non-ASCII whitespace ranges numbered `i` to 7. */
  predicate WideSpace(c: char, i: nat)
    decreases 8 - i
  {
    i < 8 && ((WideRange(i).0 <= c <= WideRange(i).1) || WideSpace(c, i + 1))
  }

  /** The whitespace characters, listed. */
  lemma SpaceChars(c: char)
    ensures IsSpace(c) <==>
      ('\t' <= c <= '\r') || ('\U{1C}' <= c <= ' ') || c == '\U{85}' || c == '\U{A0}'
      || c == '\U{1680}' || ('\U{2000}' <= c <= '\U{200A}') || c == '\U{2028}' || c == '\U{2029}'
      || c == '\U{202F}' || c == '\U{205F}' || c == '\U{3000}'
  {
    assert !WideSpace(c, 8);
    assert WideSpace(c, 7) <==> c == '\U{3000}';
    assert WideSpace(c, 6) <==> c == '\U{205F}' || WideSpace(c, 7);
    assert WideSpace(c, 5) <==> c == '\U{202F}' || WideSpace(c, 6);
    assert WideSpace(c, 4) <==> ('\U{2028}' <= c <= '\U{2029}') || WideSpace(c, 5);
    assert WideSpace(c, 3) <==> ('\U{2000}' <= c <= '\U{200A}') || WideSpace(c, 4);
    assert WideSpace(c, 2) <==> c == '\U{1680}' || WideSpace(c, 3);
    assert WideSpace(c, 1) <==> c == '\U{A0}' || WideSpace(c, 2);
    assert WideSpace(c, 0) <==> c == '\U{85}' || WideSpace(c, 1);
  }

  /** The characters at which `str.splitlines()` breaks a line (`\r\n` counts as one break). */
  predicate IsLineBreak(c: char) {
    ('\n' <= c <= '\r') || ('\U{1C}' <= c <= '\U{1E}') || c == '\U{85}' || c == '\U{2028}' || c == '\U{2029}'
  }

  lemma LineBreakIsSpace(c: char)
    ensures IsLineBreak(c) ==> IsSpace(c)
  {
    SpaceChars(c);
  }

  predicate IsDigit(c: char) { '0' <= c <= '9' }

  predicate IsLetter(c: char) { 'A' <= c <= 'Z' || 'a' <= c <= 'z' }

  /** The regular-expression class `\w`. */
  predicate IsWordChar(c: char) { IsLetter(c) || IsDigit(c) || c == '_' }

  function LowerChar(c: char): char {
    if 'A' <= c <= 'Z' then (c as int + 32) as char else c
  }

  predicate AllSpace(s: string) { forall i :: 0 <= i < |s| ==> IsSpace(s[i]) }

  predicate AllDigits(s: string) { forall i :: 0 <= i < |s| ==> IsDigit(s[i]) }

  predicate NoLineBreak(s: string) { forall i :: 0 <= i < |s| ==> !IsLineBreak(s[i]) }

  /** A string with no leading and no trailing whitespace. */
  predicate IsStripped(s: string) {
    s == [] || (!IsSpace(s[0]) && !IsSpace(s[|s| - 1]))
  }

  // ---------------------------------------------------------------- strip, lower, in

  /** `s.strip()`: `s` without its leading and its trailing whitespace. */
  function Strip(s: string): (r: string)
    ensures IsStripped(r) && |r| <= |s|
    decreases |s|
  {
    if s == [] then []
    else if IsSpace(s[0]) then Strip(s[1..])
    else if IsSpace(s[|s| - 1]) then Strip(s[..|s| - 1])
    else s
  }

  /** `r` is the part of `s` from `i` on, with only whitespace before `i` and after `r`. */
  predicate Trims(s: string, r: string, i: nat) {
    && i + |r| <= |s|
    && (forall k :: 0 <= k < |r| ==> r[k] == s[i + k])
    && (forall k :: 0 <= k < i ==> IsSpace(s[k]))
    && (forall k :: i + |r| <= k < |s| ==> IsSpace(s[k]))
  }

  /** `Strip(s)` is a slice of `s` with only whitespace around it. */
  lemma {:induction false} StripSlice(s: string) returns (i: nat)
    ensures Trims(s, Strip(s), i)
    decreases |s|
  {
    if s == [] {
      i := 0;
    } else if IsSpace(s[0]) {
      var j := StripSlice(s[1..]);
      TrimsFront(s, Strip(s), j);
      i := j + 1;
    } else if IsSpace(s[|s| - 1]) {
      i := StripSlice(s[..|s| - 1]);
      TrimsBack(s, Strip(s), i);
    } else {
      i := 0;
    }
  }

  lemma TrimsFront(s: string, r: string, j: nat)
    requires s != [] && IsSpace(s[0]) && Trims(s[1..], r, j)
    ensures Trims(s, r, j + 1)
  {
    var t := s[1..];
    assert forall k :: 1 <= k < |s| ==> s[k] == t[k - 1];
  }

  lemma TrimsBack(s: string, r: string, i: nat)
    requires s != [] && IsSpace(s[|s| - 1]) && Trims(s[..|s| - 1], r, i)
    ensures Trims(s, r, i)
  {
    var t := s[..|s| - 1];
    assert forall k :: 0 <= k < |t| ==> t[k] == s[k];
  }

  /** Stripping leaves nothing exactly when the string is all whitespace. */
  lemma {:induction false} StripEmpty(s: string)
    ensures Strip(s) == [] <==> AllSpace(s)
    decreases |s|
  {
    if s != [] {
      if IsSpace(s[0]) {
        StripEmpty(s[1..]);
        assert forall k :: 1 <= k < |s| ==> s[k] == s[1..][k - 1];
      } else if IsSpace(s[|s| - 1]) {
        StripEmpty(s[..|s| - 1]);
        assert !AllSpace(s[..|s| - 1]) by { assert s[..|s| - 1][0] == s[0]; }
      }
    }
  }

  lemma StripStripped(s: string)
    requires IsStripped(s)
    ensures Strip(s) == s
  {
  }

  lemma StripIdempotent(s: string)
    ensures Strip(Strip(s)) == Strip(s)
  {
    StripStripped(Strip(s));
  }

  /** `s.lower()`, on ASCII letters. */
  function Lower(s: string): (r: string)
    ensures |r| == |s| && forall i :: 0 <= i < |s| ==> r[i] == LowerChar(s[i])
  {
    seq(|s|, i requires 0 <= i < |s| => LowerChar(s[i]))
  }

  /** `t` occurs in `s` at position `i`. */
  predicate OccursAt(s: string, t: string, i: nat) {
    i + |t| <= |s| && s[i..i + |t|] == t
  }

  /** `t in s`: `t` occurs in `s` as a contiguous substring. */
  predicate Contains(s: string, t: string) {
    exists i: nat :: i <= |s| && OccursAt(s, t, i)
  }

  // ---------------------------------------------------------------- join, split

  /** `sep.join(parts)`. */
  function Join(sep: string, parts: seq<string>): string
  {
    if |parts| == 0 then ""
    else if |parts| == 1 then parts[0]
    else parts[0] + sep + Join(sep, parts[1..])
  }

  lemma {:induction false} JoinSnoc(sep: string, parts: seq<string>, p: string)
    requires |parts| > 0
    ensures Join(sep, parts + [p]) == Join(sep, parts) + sep + p
  {
    if |parts| > 1 {
      assert (parts + [p])[1..] == parts[1..] + [p];
      JoinSnoc(sep, parts[1..], p);
    }
  }

  /** `"".join(parts)`. */
  function Concat(parts: seq<string>): string
  {
    if parts == [] then "" else parts[0] + Concat(parts[1..])
  }

  lemma ConcatCons(t: string, rest: seq<string>)
    ensures Concat([t] + rest) == t + Concat(rest)
  {
    var ts := [t] + rest;
    assert ts[0] == t && ts[1..] == rest;
  }

  lemma ConcatHead(parts: seq<string>)
    requires parts != [] && parts[0] != []
    ensures Concat(parts) != [] && Concat(parts)[0] == parts[0][0]
  {
  }

  lemma {:induction false} ConcatAppend(x: seq<string>, y: seq<string>)
    ensures Concat(x + y) == Concat(x) + Concat(y)
  {
    if x == [] {
      assert x + y == y;
    } else {
      assert (x + y)[1..] == x[1..] + y;
      ConcatAppend(x[1..], y);
    }
  }

  lemma ConcatLast(parts: seq<string>)
    requires parts != []
    ensures Concat(parts) == Concat(parts[..|parts| - 1]) + parts[|parts| - 1]
  {
    var n := |parts| - 1;
    assert parts == parts[..n] + [parts[n]];
    ConcatAppend(parts[..n], [parts[n]]);
    assert Concat([parts[n]]) == parts[n] + Concat([]);
  }

  /** The leftmost occurrence of a non-empty `t` in `s` at or after position `from`. */
  function IndexFrom(s: string, t: string, from: nat): (r: Option<nat>)
    requires |t| > 0
    ensures r.Some? ==> from <= r.value && OccursAt(s, t, r.value)
    ensures forall j: nat :: from <= j < (if r.Some? then r.value else |s|) ==> !OccursAt(s, t, j)
    decreases |s| - from
  {
    if from + |t| > |s| then None
    else if OccursAt(s, t, from) then Some(from)
    else IndexFrom(s, t, from + 1)
  }

  /**
   * `s.split(sep)`: the pieces between the non-overlapping occurrences of
   * `sep`, found from left to right. Joining them with `sep` gives `s` back,
   * and no piece contains `sep`.
   */
  function Split(s: string, sep: string): (parts: seq<string>)
    requires |sep| > 0
    ensures |parts| >= 1
    ensures Join(sep, parts) == s
    ensures forall k :: 0 <= k < |parts| ==> !Contains(parts[k], sep)
    decreases |s|
  {
    match IndexFrom(s, sep, 0)
    case None =>
      assert !Contains(s, sep) by {
        forall j: nat | j <= |s| && OccursAt(s, sep, j) ensures false { }
      }
      [s]
    case Some(i) =>
      var head := s[..i];
      var rest := Split(s[i + |sep|..], sep);
      assert !Contains(head, sep) by {
        forall j: nat | j <= |head| && OccursAt(head, sep, j) ensures false {
          assert head[j..j + |sep|] == s[j..j + |sep|];
          assert OccursAt(s, sep, j);
        }
      }
      assert s == head + sep + Join(sep, rest);
      [head] + rest
  }

  /** No piece contains a newline, so the `"\n\n"` separators are the only ones. */
  lemma {:induction false} SplitJoinBlankLine(parts: seq<string>)
    requires |parts| > 0
    requires forall k :: 0 <= k < |parts| ==> '\n' !in parts[k]
    ensures Split(Join("\n\n", parts), "\n\n") == parts
  {
    var s := Join("\n\n", parts);
    var p := parts[0];
    if |parts| == 1 {
      forall j: nat | j + 2 <= |s| ensures !OccursAt(s, "\n\n", j) {
        assert s[j..j + 2][0] == s[j] != '\n';
      }
    } else {
      var rest := Join("\n\n", parts[1..]);
      assert s == p + "\n\n" + rest;
      assert s[|p|..|p| + 2] == "\n\n";
      assert IndexFrom(s, "\n\n", 0) == Some(|p|) by {
        var r := IndexFrom(s, "\n\n", 0);
        assert OccursAt(s, "\n\n", |p|);
        assert r.Some?;
        forall j: nat | j < |p| ensures !OccursAt(s, "\n\n", j) {
          assert s[j..j + 2][0] == s[j] == p[j] != '\n';
        }
      }
      assert s[|p| + 2..] == rest;
      SplitJoinBlankLine(parts[1..]);
    }
  }

  /** Index of the first line break in `s` at or after `from`, or `|s|`. */
  function LineEnd(s: string, from: nat): (r: nat)
    requires from <= |s|
    ensures from <= r <= |s|
    ensures r < |s| ==> IsLineBreak(s[r])
    ensures forall j :: from <= j < r ==> !IsLineBreak(s[j])
    decreases |s| - from
  {
    if from == |s| || IsLineBreak(s[from]) then from else LineEnd(s, from + 1)
  }

  /**
   * `s.splitlines()`: the lines of `s` without their line breaks; `\r\n` is
   * one break, and a break at the very end does not start another line.
   */
  function SplitLines(s: string): (lines: seq<string>)
    ensures forall k :: 0 <= k < |lines| ==> NoLineBreak(lines[k])
    decreases |s|
  {
    if s == [] then []
    else
      var i := LineEnd(s, 0);
      if i == |s| then [s]
      else
        var width := if s[i] == '\r' && i + 1 < |s| && s[i + 1] == '\n' then 2 else 1;
        [s[..i]] + SplitLines(s[i + width..])
  }

  /** `s` with every line-break character removed. */
  function DropBreaks(s: string): string {
    if s == [] then [] else (if IsLineBreak(s[0]) then [] else [s[0]]) + DropBreaks(s[1..])
  }

  /** The number of line breaks in `s`, a `\r\n` pair counted once. */
  function BreakCount(s: string): nat {
    if s == [] then 0
    else if |s| >= 2 && s[0] == '\r' && s[1] == '\n' then 1 + BreakCount(s[2..])
    else (if IsLineBreak(s[0]) then 1 else 0) + BreakCount(s[1..])
  }

  lemma {:induction false} DropBreaksAppend(a: string, b: string)
    ensures DropBreaks(a + b) == DropBreaks(a) + DropBreaks(b)
    decreases |a|
  {
    if a == [] {
      assert a + b == b;
    } else {
      assert (a + b)[1..] == a[1..] + b;
      DropBreaksAppend(a[1..], b);
    }
  }

  lemma {:induction false} DropNoBreak(a: string)
    requires NoLineBreak(a)
    ensures DropBreaks(a) == a
    decreases |a|
  {
    if a != [] {
      DropNoBreak(a[1..]);
    }
  }

  lemma {:induction false} BreakCountNoBreak(a: string, b: string)
    requires NoLineBreak(a)
    ensures BreakCount(a + b) == BreakCount(b)
    decreases |a|
  {
    if a == [] {
      assert a + b == b;
    } else {
      assert (a + b)[1..] == a[1..] + b;
      assert !IsLineBreak(a[0]);
      BreakCountNoBreak(a[1..], b);
    }
  }

  /**
   * `splitlines()` loses exactly the line breaks: the lines, one after the
   * other, are `s` without its line-break characters, and there is one line
   * per break, plus one for text after the last break.
   */
  lemma SplitLinesSpec(s: string)
    ensures Concat(SplitLines(s)) == DropBreaks(s)
    ensures |SplitLines(s)| == BreakCount(s) + (if s == [] || IsLineBreak(s[|s| - 1]) then 0 else 1)
  {
    SplitLinesContent(s);
    SplitLinesCount(s);
  }

  lemma {:induction false} SplitLinesContent(s: string)
    ensures Concat(SplitLines(s)) == DropBreaks(s)
    decreases |s|
  {
    if s != [] {
      var i := LineEnd(s, 0);
      var head := s[..i];
      assert NoLineBreak(head);
      assert s == head + s[i..];
      DropBreaksAppend(head, s[i..]);
      DropNoBreak(head);
      if i == |s| {
        assert s[i..] == [];
        ConcatCons(s, []);
      } else {
        var width := if s[i] == '\r' && i + 1 < |s| && s[i + 1] == '\n' then 2 else 1;
        var rest := s[i + width..];
        SplitLinesContent(rest);
        assert SplitLines(s) == [head] + SplitLines(rest);
        ConcatCons(head, SplitLines(rest));
        BreakStep(s[i..]);
        assert s[i..][width..] == rest;
      }
    }
  }

  lemma {:induction false} SplitLinesCount(s: string)
    ensures |SplitLines(s)| == BreakCount(s) + (if s == [] || IsLineBreak(s[|s| - 1]) then 0 else 1)
    decreases |s|
  {
    if s != [] {
      var i := LineEnd(s, 0);
      var head := s[..i];
      assert NoLineBreak(head);
      assert s == head + s[i..];
      BreakCountNoBreak(head, s[i..]);
      if i == |s| {
        assert s[i..] == [];
      } else {
        var width := if s[i] == '\r' && i + 1 < |s| && s[i + 1] == '\n' then 2 else 1;
        var rest := s[i + width..];
        SplitLinesCount(rest);
        assert SplitLines(s) == [head] + SplitLines(rest);
        BreakStep(s[i..]);
        assert s[i..][width..] == rest;
        if rest != [] {
          assert s[|s| - 1] == rest[|rest| - 1];
        }
      }
    }
  }

  /** A leading line break, `\r\n` taken together, counts once and is dropped. */
  lemma BreakStep(t: string)
    requires t != [] && IsLineBreak(t[0])
    ensures var w := if |t| >= 2 && t[0] == '\r' && t[1] == '\n' then 2 else 1;
      DropBreaks(t) == DropBreaks(t[w..]) && BreakCount(t) == 1 + BreakCount(t[w..])
  {
    if |t| >= 2 && t[0] == '\r' && t[1] == '\n' {
      assert t[1..][1..] == t[2..];
      assert IsLineBreak(t[1..][0]);
    }
  }

  lemma SplitLinesOfNoBreak(s: string)
    requires s != [] && NoLineBreak(s)
    ensures SplitLines(s) == [s]
  {
    assert LineEnd(s, 0) == |s|;
  }

  // ---------------------------------------------------------------- sorted(set(...))

  /** Python's `<` on strings: lexicographic by code point, a proper prefix first. */
  predicate Less(a: string, b: string)
  {
    if a == [] then b != []
    else if b == [] then false
    else if a[0] != b[0] then a[0] < b[0]
    else Less(a[1..], b[1..])
  }

  lemma {:induction false} LessIrreflexive(a: string)
    ensures !Less(a, a)
  {
    if a != [] { LessIrreflexive(a[1..]); }
  }

  lemma {:induction false} LessTransitive(a: string, b: string, c: string)
    requires Less(a, b) && Less(b, c)
    ensures Less(a, c)
  {
    if a != [] && b != [] && c != [] && a[0] == b[0] && b[0] == c[0] {
      LessTransitive(a[1..], b[1..], c[1..]);
    }
  }

  lemma {:induction false} LessTotal(a: string, b: string)
    requires a != b
    ensures Less(a, b) || Less(b, a)
  {
    if a != [] && b != [] && a[0] == b[0] {
      assert a == [a[0]] + a[1..] && b == [b[0]] + b[1..];
      LessTotal(a[1..], b[1..]);
    }
  }

  predicate StrictlySorted(s: seq<string>) {
    forall i, j :: 0 <= i < j < |s| ==> Less(s[i], s[j])
  }

  /** Adds `x` to a strictly sorted list, keeping it strictly sorted and free of duplicates. */
  function Insert(x: string, s: seq<string>): (r: seq<string>)
    requires StrictlySorted(s)
    ensures StrictlySorted(r)
    ensures forall y :: y in r <==> y in s || y == x
  {
    if s == [] then [x]
    else if x == s[0] then s
    else if Less(x, s[0]) then
      assert forall j :: 0 < j < |s| ==> Less(x, s[j]) by {
        forall j | 0 < j < |s| ensures Less(x, s[j]) { LessTransitive(x, s[0], s[j]); }
      }
      [x] + s
    else
      LessTotal(x, s[0]);
      var tail := Insert(x, s[1..]);
      assert forall j :: 0 <= j < |tail| ==> Less(s[0], tail[j]) by {
        forall j | 0 <= j < |tail| ensures Less(s[0], tail[j]) {
          if tail[j] != x {
            assert tail[j] in s[1..];
            var k :| 0 <= k < |s[1..]| && s[1..][k] == tail[j];
            assert s[k + 1] == tail[j];
          }
        }
      }
      assert forall y :: y in s <==> y == s[0] || y in s[1..] by {
        assert s == [s[0]] + s[1..];
      }
      [s[0]] + tail
  }

  /** `sorted(set(xs))`: the distinct elements of `xs` in increasing order. */
  function SortedSet(xs: seq<string>): (r: seq<string>)
    ensures StrictlySorted(r)
    ensures forall y :: y in r <==> y in xs
  {
    if xs == [] then []
    else
      var init := xs[..|xs| - 1];
      assert xs == init + [xs[|xs| - 1]];
      Insert(xs[|xs| - 1], SortedSet(init))
  }

  /** A strictly sorted list is determined by its elements, so `SortedSet` is `sorted(set(...))`. */
  lemma {:induction false} StrictlySortedUnique(a: seq<string>, b: seq<string>)
    requires StrictlySorted(a) && StrictlySorted(b)
    requires forall y :: y in a <==> y in b
    ensures a == b
  {
    assert a != [] ==> a[0] in b;
    assert b != [] ==> b[0] in a;
    if a != [] && b != [] {
      var i :| 0 <= i < |a| && a[i] == b[0];
      var j :| 0 <= j < |b| && b[j] == a[0];
      if i > 0 && j > 0 {
        LessTransitive(a[0], a[i], b[j]);
        LessIrreflexive(a[0]);
      }
      if i == 0 && j > 0 { LessIrreflexive(a[0]); }
      if i > 0 && j == 0 { LessIrreflexive(b[0]); }
      assert a[0] == b[0];
      forall y ensures y in a[1..] <==> y in b[1..] {
        if y in a[1..] {
          var k :| 0 <= k < |a[1..]| && a[1..][k] == y;
          assert Less(a[0], a[k + 1]);
          if y == a[0] { LessIrreflexive(y); }
          assert y in b && b == [b[0]] + b[1..];
        }
        if y in b[1..] {
          var k :| 0 <= k < |b[1..]| && b[1..][k] == y;
          assert Less(b[0], b[k + 1]);
          if y == b[0] { LessIrreflexive(y); }
          assert y in a && a == [a[0]] + a[1..];
        }
      }
      StrictlySortedUnique(a[1..], b[1..]);
      assert a == [a[0]] + a[1..] && b == [b[0]] + b[1..];
    }
  }

  // ---------------------------------------------------------------- non-space content

  /** The characters of `s` that are not whitespace, in order. */
  function NonSpace(s: string): string
  {
    if s == [] then [] else (if IsSpace(s[0]) then [] else [s[0]]) + NonSpace(s[1..])
  }

  lemma {:induction false} NonSpaceAppend(a: string, b: string)
    ensures NonSpace(a + b) == NonSpace(a) + NonSpace(b)
  {
    if a != [] {
      assert (a + b)[1..] == a[1..] + b;
      NonSpaceAppend(a[1..], b);
    } else {
      assert a + b == b;
    }
  }

  lemma {:induction false} NonSpaceAllSpace(s: string)
    requires AllSpace(s)
    ensures NonSpace(s) == []
  {
    if s != [] { NonSpaceAllSpace(s[1..]); }
  }
}
