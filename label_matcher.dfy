/**
 * The label matcher of the label-guided extraction mode.
 *
 * A caller's label literal such as "Policy 6.2:" is cut into tokens (runs of
 * word characters, of whitespace, and of other characters) and each token is
 * replaced by a structural item: whitespace by "one or more whitespace",
 * a dotted number by "one or more digits or periods", another word by "one
 * or more word characters", and anything else by itself, literally. The
 * patterns of all labels are tried as one case-insensitive alternation over
 * a page, and the distinct trimmed matches are returned in sorted order.
 *
 * Regular expressions are not modelled in general: a pattern here is a list
 * of the four item kinds the label compiler produces, and the matcher
 * follows the backtracking order of a greedy `+` so that it returns the same
 * match as Python's `re` does for such a pattern.
 */
module LabelMatcher {
  import opened Wrappers
  import opened Text

  // ---------------------------------------------------------------- tokens

  /** The three classes of `r'\w+|\d+|[^\w\s]+|\s+'`; `\d+` never wins, since `\w+` is tried first. */
  datatype Kind = Word | Space | Other

  function KindOf(c: char): Kind {
    if IsWordChar(c) then Word else if IsSpace(c) then Space else Other
  }

  /** All characters of `t` have the kind of its first one. */
  predicate Uniform(t: string) {
    forall j :: 0 <= j < |t| ==> KindOf(t[j]) == KindOf(t[0])
  }

  /** The end of the run of characters of kind `k` that starts at `from`. */
  function RunEnd(s: string, from: nat, k: Kind): (e: nat)
    requires from <= |s|
    ensures from <= e <= |s|
    ensures forall j :: from <= j < e ==> KindOf(s[j]) == k
    ensures e < |s| ==> KindOf(s[e]) != k
    decreases |s| - from
  {
    if from == |s| || KindOf(s[from]) != k then from else RunEnd(s, from + 1, k)
  }

  /** `re.findall(r'\w+|\d+|[^\w\s]+|\s+', s)`: the maximal runs of one kind, left to right. */
  function Tokens(s: string): seq<string>
    decreases |s|
  {
    if s == [] then []
    else
      var e := RunEnd(s, 0, KindOf(s[0]));
      [s[..e]] + Tokens(s[e..])
  }

  /**
   * The tokens are non-empty and uniform, consecutive tokens differ in kind,
   * and together they spell `s`.
   */
  lemma TokensSpec(s: string)
    ensures Concat(Tokens(s)) == s && IsTokenisation(Tokens(s))
  {
    TokensConcat(s);
    TokensShape(s);
  }

  /** The tokens spell the string. */
  lemma {:induction false} TokensConcat(s: string)
    ensures Concat(Tokens(s)) == s
    decreases |s|
  {
    if s != [] {
      var e := TokensSplit(s);
      var t, u := s[..e], s[e..];
      TokensConcat(u);
      ConcatCons(t, Tokens(u));
      assert t + u == s;
    }
  }

  /** The tokens are non-empty uniform runs, and neighbouring tokens differ in kind. */
  lemma {:induction false} TokensShape(s: string)
    ensures IsTokenisation(Tokens(s))
    decreases |s|
  {
    if s != [] {
      var e := FirstToken(s);
      var t, u := s[..e], s[e..];
      var rest := Tokens(u);
      TokensShape(u);
      if rest != [] {
        TokensConcat(u);
        ConcatHead(rest);
        assert u[0] == s[e];
      }
      TokenisationCons(t, rest);
    }
  }

  /** A non-empty string's tokens are its leading token and the tokens of the rest. */
  lemma TokensSplit(s: string) returns (e: nat)
    requires s != []
    ensures 0 < e <= |s| && Tokens(s) == [s[..e]] + Tokens(s[e..])
  {
    e := RunEnd(s, 0, KindOf(s[0]));
  }

  /** The first token of a non-empty string is its leading run. */
  lemma FirstToken(s: string) returns (e: nat)
    requires s != []
    ensures 0 < e <= |s| && Tokens(s) == [s[..e]] + Tokens(s[e..])
    ensures s[..e] != [] && Uniform(s[..e])
    ensures e < |s| ==> KindOf(s[..e][e - 1]) != KindOf(s[e])
  {
    var k := KindOf(s[0]);
    e := RunEnd(s, 0, k);
    var t := s[..e];
    forall j | 0 <= j < |t| ensures KindOf(t[j]) == KindOf(t[0]) {
      assert t[j] == s[j];
    }
  }

  lemma TokenisationCons(t: string, rest: seq<string>)
    requires t != [] && Uniform(t) && IsTokenisation(rest)
    requires rest != [] ==> KindOf(t[|t| - 1]) != KindOf(rest[0][0])
    ensures IsTokenisation([t] + rest)
  {
    var ts := [t] + rest;
    forall i | 0 <= i < |ts| - 1 ensures KindOf(ts[i][|ts[i]| - 1]) != KindOf(ts[i + 1][0]) {
      if i > 0 {
        assert ts[i] == rest[i - 1] && ts[i + 1] == rest[i];
      }
    }
  }

  /** `ts` is a tokenisation: non-empty uniform runs, consecutive ones of different kinds. */
  predicate IsTokenisation(ts: seq<string>) {
    UniformRuns(ts) && KindChanges(ts)
  }

  predicate UniformRuns(ts: seq<string>) {
    forall i :: 0 <= i < |ts| ==> ts[i] != [] && Uniform(ts[i])
  }

  predicate KindChanges(ts: seq<string>)
    requires UniformRuns(ts)
  {
    forall i :: 0 <= i < |ts| - 1 ==> KindOf(ts[i][|ts[i]| - 1]) != KindOf(ts[i + 1][0])
  }

  /** A run of kind `k` from `from` up to `n`, followed by a character of another kind or the end, ends at `n`. */
  lemma {:induction false} RunEndAt(s: string, from: nat, n: nat, k: Kind)
    requires from <= n <= |s|
    requires forall j :: from <= j < n ==> KindOf(s[j]) == k
    requires n < |s| ==> KindOf(s[n]) != k
    ensures RunEnd(s, from, k) == n
    decreases n - from
  {
    if from < n {
      RunEndAt(s, from + 1, n, k);
    }
  }

  /** `Tokens` is the only tokenisation of a string. */
  lemma {:induction false} TokensUnique(ts: seq<string>, s: string)
    requires IsTokenisation(ts) && Concat(ts) == s
    ensures Tokens(s) == ts
  {
    if ts != [] {
      var t := ts[0];
      var rest := Concat(ts[1..]);
      assert s == t + rest;
      var k := KindOf(t[0]);
      assert s[0] == t[0];
      forall j | 0 <= j < |t| ensures KindOf(s[j]) == k {
        assert s[j] == t[j];
      }
      if |t| < |s| {
        assert ts[1..] != [];
        assert rest[0] == ts[1][0] by {
          assert Concat(ts[1..]) == ts[1] + Concat(ts[2..]);
        }
        assert s[|t|] == rest[0];
        assert KindOf(t[|t| - 1]) != KindOf(ts[1][0]);
      }
      RunEndAt(s, 0, |t|, k);
      assert s[..|t|] == t && s[|t|..] == rest;
      assert IsTokenisation(ts[1..]) by {
        forall i | 0 <= i < |ts[1..]| - 1
          ensures KindOf(ts[1..][i][|ts[1..][i]| - 1]) != KindOf(ts[1..][i + 1][0])
        {
          assert ts[1..][i] == ts[i + 1] && ts[1..][i + 1] == ts[i + 2];
        }
      }
      TokensUnique(ts[1..], rest);
    }
  }

  /** A uniform run is a single token. */
  lemma TokensOfRun(t: string)
    requires t != [] && Uniform(t)
    ensures Tokens(t) == [t]
  {
    RunEndAt(t, 0, |t|, KindOf(t[0]));
    assert t[|t|..] == [];
    assert t[..|t|] == t;
  }

  /** Tokens split at any boundary between two characters of different kinds. */
  lemma TokensAppend(a: string, b: string)
    requires a == [] || b == [] || KindOf(a[|a| - 1]) != KindOf(b[0])
    ensures Tokens(a + b) == Tokens(a) + Tokens(b)
  {
    var ta, tb := Tokens(a), Tokens(b);
    TokensSpec(a);
    TokensSpec(b);
    ConcatAppend(ta, tb);
    if ta != [] && tb != [] {
      TokensEnds(a);
      TokensEnds(b);
    }
    TokenisationAppend(ta, tb);
    TokensUnique(ta + tb, a + b);
  }

  /** The first token starts with the first character, the last token ends with the last one. */
  lemma TokensEnds(s: string)
    requires s != []
    ensures Tokens(s) != [] && IsTokenisation(Tokens(s))
    ensures Tokens(s)[0][0] == s[0]
    ensures var ts := Tokens(s); ts[|ts| - 1][|ts[|ts| - 1]| - 1] == s[|s| - 1]
  {
    var ts := Tokens(s);
    TokensSpec(s);
    ConcatLast(ts);
    assert Concat(ts) == ts[0] + Concat(ts[1..]);
  }

  /** Two tokenisations whose meeting tokens differ in kind make one. */
  lemma TokenisationAppend(ta: seq<string>, tb: seq<string>)
    requires IsTokenisation(ta) && IsTokenisation(tb)
    requires ta != [] && tb != [] ==> KindOf(ta[|ta| - 1][|ta[|ta| - 1]| - 1]) != KindOf(tb[0][0])
    ensures IsTokenisation(ta + tb)
  {
    RunsAppend(ta, tb);
    BoundariesAppend(ta, tb);
  }

  lemma RunsAppend(ta: seq<string>, tb: seq<string>)
    requires UniformRuns(ta) && UniformRuns(tb)
    ensures UniformRuns(ta + tb)
  {
    var t := ta + tb;
    forall i | 0 <= i < |t| ensures t[i] != [] && Uniform(t[i]) {
      if i < |ta| { assert t[i] == ta[i]; } else { assert t[i] == tb[i - |ta|]; }
    }
  }

  lemma BoundariesAppend(ta: seq<string>, tb: seq<string>)
    requires IsTokenisation(ta) && IsTokenisation(tb) && UniformRuns(ta + tb)
    requires ta != [] && tb != [] ==> KindOf(ta[|ta| - 1][|ta[|ta| - 1]| - 1]) != KindOf(tb[0][0])
    ensures KindChanges(ta + tb)
  {
    var t := ta + tb;
    forall i | 0 <= i < |t| - 1 ensures KindOf(t[i][|t[i]| - 1]) != KindOf(t[i + 1][0]) {
      if i + 1 < |ta| {
        assert t[i] == ta[i] && t[i + 1] == ta[i + 1];
      } else if i + 1 == |ta| {
        assert t[i] == ta[i] && t[i + 1] == tb[0];
      } else {
        assert t[i] == tb[i - |ta|] && t[i + 1] == tb[i - |ta| + 1];
      }
    }
  }

  // ---------------------------------------------------------------- patterns

  /** The structural items `generate_broad_regex` emits. */
  datatype Item =
    | Spaces                 // \s+
    | NumDots                // [\d\.]+
    | Words                  // \w+
    | Literal(text: string)  // re.escape(text)

  /** `re.fullmatch(r'\d+(\.\d+)*', t)`: digit groups separated by single periods. */
  predicate IsDottedNumber(t: string) {
    && |t| > 0 && IsDigit(t[0]) && IsDigit(t[|t| - 1])
    && (forall i :: 0 <= i < |t| ==> IsDigit(t[i]) || t[i] == '.')
    && (forall i :: 0 <= i < |t| - 1 ==> IsDigit(t[i]) || IsDigit(t[i + 1]))
  }

  predicate AllWordChars(t: string) { forall i :: 0 <= i < |t| ==> IsWordChar(t[i]) }

  /** The item one token becomes: the tests of `generate_broad_regex`, in its order. */
  function ItemFor(part: string): Item {
    if |part| > 0 && AllSpace(part) then Spaces
    else if IsDottedNumber(part) then NumDots
    else if |part| > 0 && AllWordChars(part) then Words
    else Literal(part)
  }

  function PatternOf(parts: seq<string>): (pat: seq<Item>)
    ensures |pat| == |parts| && forall i :: 0 <= i < |parts| ==> pat[i] == ItemFor(parts[i])
  {
    seq(|parts|, i requires 0 <= i < |parts| => ItemFor(parts[i]))
  }

  /** The structural pattern of a label literal. */
  function BroadPattern(lit: string): seq<Item> {
    PatternOf(Tokens(lit))
  }

  /**
   * `generate_broad_regex(s)`: one item per token, in order; the pattern
   * matches `s` itself.
   */
  method GenerateBroadRegex(s: string) returns (pattern: seq<Item>)
    ensures pattern == BroadPattern(s)
    ensures FullMatch(pattern, s)
  {
    var parts := Tokens(s);
    pattern := [];
    for i := 0 to |parts|
      invariant pattern == PatternOf(parts[..i])
    {
      var part := parts[i];
      if |part| > 0 && AllSpace(part) {
        pattern := pattern + [Spaces];
      } else if IsDottedNumber(part) {
        pattern := pattern + [NumDots];
      } else if |part| > 0 && AllWordChars(part) {
        pattern := pattern + [Words];
      } else {
        pattern := pattern + [Literal(part)];
      }
    }
    assert parts[..|parts|] == parts;
    BroadPatternMatchesLabel(s);
  }

  // ---------------------------------------------------------------- matching

  /** Whether a repeated item accepts character `c` (a literal repeats nothing). */
  predicate Accepts(it: Item, c: char) {
    match it
    case Spaces => IsSpace(c)
    case NumDots => IsDigit(c) || c == '.'
    case Words => IsWordChar(c)
    case Literal(_) => false
  }

  /** Every character of `s[p..k]` is accepted by `it`. */
  predicate RunAccepted(it: Item, s: string, p: nat, k: nat) {
    forall j :: p <= j < k ==> j < |s| && Accepts(it, s[j])
  }

  /**
   * `s[p..q]` as a whole is matched by `pat`, ignoring case: each repeated
   * item takes a non-empty run of characters it accepts, each literal takes
   * a piece equal to it apart from letter case.
   */
  ghost predicate Matches(pat: seq<Item>, s: string, p: nat, q: nat)
    decreases |pat|
  {
    && p <= q <= |s|
    && if pat == [] then p == q
       else match pat[0]
         case Literal(l) =>
           p + |l| <= q && Lower(s[p..p + |l|]) == Lower(l) && Matches(pat[1..], s, p + |l|, q)
         case _ =>
           exists k :: p < k <= q && RunAccepted(pat[0], s, p, k) && Matches(pat[1..], s, k, q)
  }

  /** `re.fullmatch(pat, s, re.IGNORECASE)`. */
  ghost predicate FullMatch(pat: seq<Item>, s: string) {
    Matches(pat, s, 0, |s|)
  }

  /** The classes accept a letter in either case alike. */
  lemma AcceptsCaseless(it: Item, c: char, c': char)
    requires LowerChar(c) == LowerChar(c')
    ensures Accepts(it, c) == Accepts(it, c')
  {
  }

  /**
   * A match depends only on the characters it covers, and on them only up
   * to letter case: moved to another place of another string that agrees
   * with it there apart from case, it still matches.
   */
  lemma {:induction false} MatchesFrame(pat: seq<Item>, s: string, p: nat, q: nat, t: string, d: nat)
    requires Matches(pat, s, p, q) && q + d <= |t|
    requires forall j :: p <= j < q ==> LowerChar(t[j + d]) == LowerChar(s[j])
    ensures Matches(pat, t, p + d, q + d)
    decreases |pat|
  {
    if pat != [] {
      match pat[0]
      case Literal(l) =>
        ghost var u, v := Lower(t[p + d..p + d + |l|]), Lower(s[p..p + |l|]);
        assert u == v by {
          forall i | 0 <= i < |l| ensures u[i] == v[i] {
            assert LowerChar(t[(p + i) + d]) == LowerChar(s[p + i]);
          }
        }
        MatchesFrame(pat[1..], s, p + |l|, q, t, d);
      case _ =>
        var k :| p < k <= q && RunAccepted(pat[0], s, p, k) && Matches(pat[1..], s, k, q);
        MatchesFrame(pat[1..], s, k, q, t, d);
        assert RunAccepted(pat[0], t, p + d, k + d) by {
          forall j | p + d <= j < k + d ensures j < |t| && Accepts(pat[0], t[j]) {
            assert LowerChar(t[(j - d) + d]) == LowerChar(s[j - d]);
            AcceptsCaseless(pat[0], t[j], s[j - d]);
          }
        }
    }
  }

  /** A literal followed by a matched rest matches. */
  lemma MatchesLiteralCons(l: string, rest: seq<Item>, s: string, a: nat, b: nat)
    requires b <= |s| && a + |l| <= b && Lower(s[a..a + |l|]) == Lower(l) && Matches(rest, s, a + |l|, b)
    ensures Matches([Literal(l)] + rest, s, a, b)
  {
    var pat := [Literal(l)] + rest;
    assert pat[0] == Literal(l) && pat[1..] == rest;
  }

  /** A non-empty accepted run for a repeated item, followed by a matched rest, matches. */
  lemma MatchesRunCons(it: Item, rest: seq<Item>, s: string, a: nat, k: nat, b: nat)
    requires !it.Literal? && a < k && RunAccepted(it, s, a, k) && Matches(rest, s, k, b)
    ensures Matches([it] + rest, s, a, b)
  {
    var pat := [it] + rest;
    assert pat[0] == it && pat[1..] == rest;
  }

  lemma ConsAppend<T>(x: seq<T>, y: seq<T>)
    requires x != []
    ensures x + y == [x[0]] + (x[1..] + y)
  {
  }

  /** Matches of two patterns at adjacent places make a match of their concatenation. */
  lemma {:induction false} MatchesConcat(p1: seq<Item>, p2: seq<Item>, s: string, a: nat, m: nat, b: nat)
    requires Matches(p1, s, a, m) && Matches(p2, s, m, b)
    ensures Matches(p1 + p2, s, a, b)
    decreases |p1|
  {
    if p1 == [] {
      assert p1 + p2 == p2;
    } else {
      ConsAppend(p1, p2);
      match p1[0]
      case Literal(l) =>
        MatchesConcat(p1[1..], p2, s, a + |l|, m, b);
        MatchesLiteralCons(l, p1[1..] + p2, s, a, b);
      case _ =>
        var k :| a < k <= m && RunAccepted(p1[0], s, a, k) && Matches(p1[1..], s, k, m);
        MatchesConcat(p1[1..], p2, s, k, m, b);
        MatchesRunCons(p1[0], p1[1..] + p2, s, a, k, b);
    }
  }

  /** A token's item matches the token at the head of a string, before a matched rest. */
  lemma TokenThenRest(t: string, c: string, rest: seq<Item>)
    requires t != [] && |t| <= |c| && c[..|t|] == t && Matches(rest, c, |t|, |c|)
    ensures Matches([ItemFor(t)] + rest, c, 0, |c|)
  {
    var it := ItemFor(t);
    if it.Literal? {
      assert c[0..|t|] == t;
      MatchesLiteralCons(t, rest, c, 0, |c|);
    } else {
      assert RunAccepted(it, c, 0, |t|) by {
        forall j | 0 <= j < |t| ensures j < |c| && Accepts(it, c[j]) {
          assert c[j] == t[j];
        }
      }
      MatchesRunCons(it, rest, c, 0, |t|, |c|);
    }
  }

  lemma {:induction false} PatternOfMatches(ts: seq<string>)
    requires forall i :: 0 <= i < |ts| ==> ts[i] != []
    ensures FullMatch(PatternOf(ts), Concat(ts))
  {
    if ts != [] {
      var t, c, rest := ts[0], Concat(ts), Concat(ts[1..]);
      var restPat := PatternOf(ts[1..]);
      assert c == t + rest;
      PatternOfMatches(ts[1..]);
      assert forall j :: 0 <= j < |rest| ==> c[j + |t|] == rest[j];
      MatchesFrame(restPat, rest, 0, |rest|, c, |t|);
      assert c[..|t|] == t;
      TokenThenRest(t, c, restPat);
      assert PatternOf(ts) == [ItemFor(t)] + restPat;
    }
  }

  /** The pattern built from a label matches that label. */
  lemma BroadPatternMatchesLabel(lit: string)
    ensures FullMatch(BroadPattern(lit), lit)
  {
    TokensSpec(lit);
    PatternOfMatches(Tokens(lit));
  }

  /**
   * The pattern generalises the label: another run of the same kind in the
   * same slot (another number for a number, another word for a word) gives
   * the same pattern, which therefore matches the variant too.
   */
  lemma SlotVariantMatches(pre: string, t: string, t': string, post: string)
    requires t != [] && Uniform(t) && t' != [] && Uniform(t')
    requires KindOf(t[0]) == KindOf(t'[0]) && ItemFor(t) == ItemFor(t')
    requires pre == [] || KindOf(pre[|pre| - 1]) != KindOf(t[0])
    requires post == [] || KindOf(post[0]) != KindOf(t[0])
    ensures BroadPattern(pre + t + post) == BroadPattern(pre + t' + post)
    ensures FullMatch(BroadPattern(pre + t + post), pre + t' + post)
  {
    TokensAround(pre, t, post);
    TokensAround(pre, t', post);
    PatternOfReplace(Tokens(pre), t, t', Tokens(post));
    BroadPatternMatchesLabel(pre + t' + post);
  }

  lemma PatternOfReplace(xs: seq<string>, t: string, t': string, ys: seq<string>)
    requires ItemFor(t) == ItemFor(t')
    ensures PatternOf(xs + [t] + ys) == PatternOf(xs + [t'] + ys)
  {
    var a, b := xs + [t] + ys, xs + [t'] + ys;
    forall i | 0 <= i < |a| ensures ItemFor(a[i]) == ItemFor(b[i]) {
      if i != |xs| {
        assert a[i] == b[i];
      }
    }
  }

  /** The tokens around a run that differs in kind from both of its neighbours. */
  lemma TokensAround(pre: string, t: string, post: string)
    requires t != [] && Uniform(t)
    requires pre == [] || KindOf(pre[|pre| - 1]) != KindOf(t[0])
    requires post == [] || KindOf(post[0]) != KindOf(t[0])
    ensures Tokens(pre + t + post) == Tokens(pre) + [t] + Tokens(post)
  {
    TokensOfRun(t);
    TokensAppend(pre, t);
    assert (pre + t)[|pre + t| - 1] == t[|t| - 1];
    TokensAppend(pre + t, post);
  }

  /** "Policy 6.2:" covers "Policy 6.3:". */
  lemma PolicyLabelCoversSibling()
    ensures FullMatch(BroadPattern("Policy 6.2:"), "Policy 6.3:")
  {
    assert "Policy 6." + "2" + ":" == "Policy 6.2:";
    assert "Policy 6." + "3" + ":" == "Policy 6.3:";
    SlotVariantMatches("Policy 6.", "2", "3", ":");
  }

  // ---------------------------------------------------------------- the regular-expression engine

  /** The end of the longest run from `p` that a repeated item accepts. */
  function ClassEnd(it: Item, s: string, p: nat): (e: nat)
    requires p <= |s|
    ensures p <= e <= |s| && RunAccepted(it, s, p, e)
    ensures e < |s| ==> !Accepts(it, s[e])
    decreases |s| - p
  {
    if p == |s| || !Accepts(it, s[p]) then p else ClassEnd(it, s, p + 1)
  }

  /** Every accepted run from `p` ends no later than the longest one. */
  lemma {:induction false} ClassEndLongest(it: Item, s: string, p: nat, k: nat)
    requires p <= k <= |s| && RunAccepted(it, s, p, k)
    ensures k <= ClassEnd(it, s, p)
    decreases k - p
  {
    if p < k {
      ClassEndLongest(it, s, p + 1, k);
    }
  }

  /**
   * The end of the match of `pat` at position `p`, found in the order of
   * the backtracking engine: a repeated item first takes its longest run
   * and gives back one character at a time. A match ending before `floor`
   * is refused and the search backtracks on (this is how `findall` avoids
   * a second empty match at one place).
   */
  function MatchAt(pat: seq<Item>, s: string, p: nat, floor: nat): (r: Option<nat>)
    requires p <= |s|
    ensures r.Some? ==> floor <= r.value && Matches(pat, s, p, r.value)
    decreases |pat|, 1, 0
  {
    if pat == [] then (if floor <= p then Some(p) else None)
    else match pat[0]
      case Literal(l) =>
        if p + |l| <= |s| && Lower(s[p..p + |l|]) == Lower(l) then MatchAt(pat[1..], s, p + |l|, floor)
        else None
      case _ => TryRuns(pat, s, p, floor, ClassEnd(pat[0], s, p))
  }

  /** Tries the runs `s[p..e]`, `s[p..e - 1]`, ..., `s[p..p + 1]` for the first item of `pat`. */
  function TryRuns(pat: seq<Item>, s: string, p: nat, floor: nat, e: nat): (r: Option<nat>)
    requires pat != [] && !pat[0].Literal?
    requires p <= e <= |s| && RunAccepted(pat[0], s, p, e)
    ensures r.Some? ==> floor <= r.value && Matches(pat, s, p, r.value)
    decreases |pat|, 0, e - p
  {
    if e == p then None
    else match MatchAt(pat[1..], s, e, floor)
      case Some(q) => assert RunAccepted(pat[0], s, p, e) && Matches(pat[1..], s, e, q); Some(q)
      case None => TryRuns(pat, s, p, floor, e - 1)
  }

  /** The backtracking misses nothing: when some match from `p` ends at or after `floor`, one is found. */
  lemma {:induction false} MatchAtComplete(pat: seq<Item>, s: string, p: nat, q: nat, floor: nat)
    requires Matches(pat, s, p, q) && floor <= q
    ensures MatchAt(pat, s, p, floor).Some?
    decreases |pat|
  {
    if pat != [] {
      match pat[0]
      case Literal(l) =>
        MatchAtComplete(pat[1..], s, p + |l|, q, floor);
      case _ =>
        var k :| p < k <= q && RunAccepted(pat[0], s, p, k) && Matches(pat[1..], s, k, q);
        MatchAtComplete(pat[1..], s, k, q, floor);
        ClassEndLongest(pat[0], s, p, k);
        TryRunsComplete(pat, s, p, floor, ClassEnd(pat[0], s, p), k);
    }
  }

  lemma {:induction false} TryRunsComplete(pat: seq<Item>, s: string, p: nat, floor: nat, e: nat, k: nat)
    requires pat != [] && !pat[0].Literal?
    requires p <= e <= |s| && RunAccepted(pat[0], s, p, e)
    requires p < k <= e && MatchAt(pat[1..], s, k, floor).Some?
    ensures TryRuns(pat, s, p, floor, e).Some?
    decreases e
  {
    if MatchAt(pat[1..], s, e, floor).None? {
      TryRunsComplete(pat, s, p, floor, e - 1, k);
    }
  }

  /** Some alternative matches `s[b..e]`. */
  ghost predicate AnyMatches(alts: seq<seq<Item>>, s: string, b: nat, e: nat) {
    exists i :: 0 <= i < |alts| && Matches(alts[i], s, b, e)
  }

  /** An alternation at one position: the first alternative that matches wins. */
  function FirstMatch(alts: seq<seq<Item>>, s: string, p: nat, floor: nat): (r: Option<nat>)
    requires p <= |s|
    ensures r.Some? ==> floor <= r.value && AnyMatches(alts, s, p, r.value)
  {
    if alts == [] then None
    else match MatchAt(alts[0], s, p, floor)
      case Some(e) => assert Matches(alts[0], s, p, e); Some(e)
      case None =>
        var r := FirstMatch(alts[1..], s, p, floor);
        assert r.Some? ==> forall i :: 0 <= i < |alts[1..]| ==> alts[1..][i] == alts[i + 1];
        r
  }

  lemma {:induction false} FirstMatchComplete(alts: seq<seq<Item>>, s: string, p: nat, q: nat, floor: nat)
    requires AnyMatches(alts, s, p, q) && floor <= q
    ensures FirstMatch(alts, s, p, floor).Some?
  {
    var i :| 0 <= i < |alts| && Matches(alts[i], s, p, q);
    if i == 0 {
      MatchAtComplete(alts[0], s, p, q, floor);
    } else if MatchAt(alts[0], s, p, floor).None? {
      assert alts[1..][i - 1] == alts[i];
      FirstMatchComplete(alts[1..], s, p, q, floor);
    }
  }

  /**
   * The search from position `q`: the leftmost position where the
   * alternation matches, and the end of that match. At `q` itself the match
   * must end at or after `floor`; further on, any match counts.
   */
  function Search(alts: seq<seq<Item>>, s: string, q: nat, floor: nat): (r: Option<(nat, nat)>)
    requires q <= |s|
    ensures r.Some? ==> q <= r.value.0 <= r.value.1 <= |s| && AnyMatches(alts, s, r.value.0, r.value.1)
    ensures r.Some? && r.value.0 == q ==> floor <= r.value.1
    decreases |s| - q
  {
    match FirstMatch(alts, s, q, floor)
    case Some(e) => Some((q, e))
    case None => if q == |s| then None else Search(alts, s, q + 1, q + 1)
  }

  lemma {:induction false} SearchComplete(alts: seq<seq<Item>>, s: string, q: nat, floor: nat, b: nat, e: nat)
    requires q <= b && AnyMatches(alts, s, b, e) && (b == q ==> floor <= e)
    ensures Search(alts, s, q, floor).Some?
    decreases b - q
  {
    if FirstMatch(alts, s, q, floor).None? {
      if b == q {
        FirstMatchComplete(alts, s, b, e, floor);
      } else {
        SearchComplete(alts, s, q + 1, q + 1, b, e);
      }
    }
  }

  /**
   * The search is leftmost: no position from `q` up to the one it returns
   * (or up to the end, when it returns nothing) starts a match, a match at
   * `q` itself counting only when it ends at or after `floor`.
   */
  lemma {:induction false} SearchLeftmost(alts: seq<seq<Item>>, s: string, q: nat, floor: nat, j: nat, e: nat)
    requires q <= j <= e <= |s|
    requires Search(alts, s, q, floor).None? || j < Search(alts, s, q, floor).value.0
    requires j == q ==> floor <= e
    ensures !AnyMatches(alts, s, j, e)
    decreases j - q
  {
    if j > q {
      SearchLeftmost(alts, s, q + 1, q + 1, j, e);
    } else if AnyMatches(alts, s, j, e) {
      FirstMatchComplete(alts, s, j, e, floor);
    }
  }

  /** A span at or after `p` that the alternation matches. */
  ghost predicate IsMatchSpan(alts: seq<seq<Item>>, s: string, p: nat, sp: (nat, nat)) {
    p <= sp.0 <= sp.1 <= |s| && AnyMatches(alts, s, sp.0, sp.1)
  }

  /** Spans in order, none overlapping the next, and no span reported twice in a row. */
  predicate Ordered(spans: seq<(nat, nat)>) {
    forall i :: 0 <= i < |spans| - 1 ==> spans[i].1 <= spans[i + 1].0 && spans[i] != spans[i + 1]
  }

  /**
   * `findall` from position `p`: the spans of the successive matches. After
   * an empty match the next one may not be empty at the same place.
   */
  function Scan(alts: seq<seq<Item>>, s: string, p: nat, mustAdvance: bool): (spans: seq<(nat, nat)>)
    requires p <= |s|
    ensures forall i :: 0 <= i < |spans| ==> IsMatchSpan(alts, s, p, spans[i])
    ensures Ordered(spans)
    ensures mustAdvance && spans != [] && spans[0].0 == p ==> spans[0].0 < spans[0].1
    decreases |s| - p, if mustAdvance then 0 else 1
  {
    match Search(alts, s, p, if mustAdvance then p + 1 else p)
    case None => []
    case Some((b, e)) =>
      var rest := Scan(alts, s, e, b == e);
      assert IsMatchSpan(alts, s, p, (b, e));
      assert forall i :: 0 <= i < |rest| ==> IsMatchSpan(alts, s, p, rest[i]);
      SpansCons((b, e), rest);
      [(b, e)] + rest
  }

  lemma SpansCons(sp: (nat, nat), rest: seq<(nat, nat)>)
    requires Ordered(rest)
    requires rest != [] ==> sp.1 <= rest[0].0 && sp != rest[0]
    ensures Ordered([sp] + rest)
  {
    var all := [sp] + rest;
    forall i | 0 <= i < |all| - 1 ensures all[i].1 <= all[i + 1].0 && all[i] != all[i + 1] {
      if i > 0 {
        assert all[i] == rest[i - 1] && all[i + 1] == rest[i];
      }
    }
  }

  /** The spans of `pattern.findall(text)`. */
  function FindAllSpans(alts: seq<seq<Item>>, s: string): seq<(nat, nat)> {
    Scan(alts, s, 0, false)
  }

  /** `pattern.findall(text)`: the matched pieces, left to right. */
  function FindAll(alts: seq<seq<Item>>, s: string): (ms: seq<string>)
    ensures |ms| == |FindAllSpans(alts, s)|
    ensures forall i :: 0 <= i < |ms| ==>
      IsMatchSpan(alts, s, 0, FindAllSpans(alts, s)[i]) && ms[i] == s[FindAllSpans(alts, s)[i].0..FindAllSpans(alts, s)[i].1]
  {
    var spans := FindAllSpans(alts, s);
    seq(|spans|, i requires 0 <= i < |spans| => s[spans[i].0..spans[i].1])
  }

  /** Whenever the alternation matches anywhere, `findall` finds something. */
  lemma FindAllNonEmpty(alts: seq<seq<Item>>, s: string, b: nat, e: nat)
    requires AnyMatches(alts, s, b, e)
    ensures FindAll(alts, s) != []
  {
    SearchComplete(alts, s, 0, 0, b, e);
  }

  // ---------------------------------------------------------------- find_policy_labels

  /** `'|'.join(generate_broad_regex(label) for label in labels)`; no labels give the empty pattern. */
  function Alternatives(labels: seq<string>): (alts: seq<seq<Item>>)
    ensures labels != [] ==> |alts| == |labels| && forall i :: 0 <= i < |labels| ==> alts[i] == BroadPattern(labels[i])
    ensures labels == [] ==> alts == [[]]
  {
    if labels == [] then [[]] else seq(|labels|, i requires 0 <= i < |labels| => BroadPattern(labels[i]))
  }

  function StripAll(ms: seq<string>): (r: seq<string>)
    ensures |r| == |ms| && forall i :: 0 <= i < |ms| ==> r[i] == Strip(ms[i])
  {
    seq(|ms|, i requires 0 <= i < |ms| => Strip(ms[i]))
  }

  /** The distinct trimmed matches of an alternation, sorted: `sorted(set(m.strip() for m in findall))`. */
  function FindLabels(alts: seq<seq<Item>>, text: string): (found: seq<string>)
    ensures StrictlySorted(found)
    ensures forall y :: y in found <==> y in StripAll(FindAll(alts, text))
  {
    SortedSet(StripAll(FindAll(alts, text)))
  }

  /** `find_policy_labels(text, labels)`. */
  function FindPolicyLabels(text: string, labels: seq<string>): seq<string> {
    FindLabels(Alternatives(labels), text)
  }

  /** Every label found is a trimmed piece of the page that one alternative matches. */
  lemma FoundLabelsComeFromPage(alts: seq<seq<Item>>, text: string, y: string)
    requires y in FindLabels(alts, text)
    ensures exists b: nat, e: nat :: b <= e <= |text| && y == Strip(text[b..e]) && AnyMatches(alts, text, b, e)
  {
    var ms := FindAll(alts, text);
    var i :| 0 <= i < |ms| && StripAll(ms)[i] == y;
    var sp := FindAllSpans(alts, text)[i];
    assert IsMatchSpan(alts, text, 0, sp);
    assert y == Strip(text[sp.0..sp.1]);
  }

  /** When the alternation matches anywhere on the page, some label is found. */
  lemma FindLabelsNonEmpty(alts: seq<seq<Item>>, text: string, b: nat, e: nat)
    requires AnyMatches(alts, text, b, e)
    ensures FindLabels(alts, text) != []
  {
    FindAllNonEmpty(alts, text, b, e);
    var ms := FindAll(alts, text);
    assert StripAll(ms)[0] in StripAll(ms);
  }

  /** `l` stands in `text` at `b`, apart from letter case. */
  predicate OccursCaseless(text: string, l: string, b: nat) {
    b + |l| <= |text| && Lower(text[b..b + |l|]) == Lower(l)
  }

  /** A label, written in any letter case, is matched by its own alternative wherever it stands. */
  lemma LabelMatchesOnPage(text: string, labels: seq<string>, i: nat, b: nat)
    requires i < |labels| && OccursCaseless(text, labels[i], b)
    ensures AnyMatches(Alternatives(labels), text, b, b + |labels[i]|)
  {
    AlternativeMatchesLabel(labels, i);
    LabelFrame(Alternatives(labels), i, labels[i], text, b);
  }

  /** An alternative that matches a label also matches the label's occurrence on a page, in any letter case. */
  lemma LabelFrame(alts: seq<seq<Item>>, i: nat, l: string, text: string, b: nat)
    requires i < |alts| && Matches(alts[i], l, 0, |l|)
    requires OccursCaseless(text, l, b)
    ensures AnyMatches(alts, text, b, b + |l|)
  {
    LowerSliceAgrees(text, l, b);
    MatchesFrame(alts[i], l, 0, |l|, text, b);
    AnyMatchesOf(alts, text, i, b, b + |l|);
  }

  /** Each alternative matches its own label. */
  lemma AlternativeMatchesLabel(labels: seq<string>, i: nat)
    requires i < |labels|
    ensures Matches(Alternatives(labels)[i], labels[i], 0, |labels[i]|)
  {
    BroadPatternMatchesLabel(labels[i]);
  }

  lemma AnyMatchesOf(alts: seq<seq<Item>>, s: string, i: nat, b: nat, e: nat)
    requires i < |alts| && Matches(alts[i], s, b, e)
    ensures AnyMatches(alts, s, b, e)
  {
  }

  lemma LowerSliceAgrees(text: string, l: string, b: nat)
    requires OccursCaseless(text, l, b)
    ensures forall j :: 0 <= j < |l| ==> LowerChar(text[j + b]) == LowerChar(l[j])
  {
    forall j | 0 <= j < |l| ensures LowerChar(text[j + b]) == LowerChar(l[j]) {
      assert text[b..b + |l|][j] == text[j + b];
      assert Lower(text[b..b + |l|])[j] == Lower(l)[j];
    }
  }

  /**
   * A page holding one of the labels, in any letter case, yields at least one
   * found label, so the page is sent on for extraction.
   */
  lemma LabelOnPageIsFound(text: string, labels: seq<string>, i: nat, b: nat)
    requires i < |labels| && OccursCaseless(text, labels[i], b)
    ensures FindPolicyLabels(text, labels) != []
  {
    LabelMatchesOnPage(text, labels, i, b);
    FindLabelsNonEmpty(Alternatives(labels), text, b, b + |labels[i]|);
  }

  /** The empty pattern matches everywhere, and all it matches is "". */
  lemma EmptyPatternFindsEmpty(text: string)
    ensures FindLabels([[]], text) == [""]
  {
    var alts: seq<seq<Item>> := [[]];
    var ms := FindAll(alts, text);
    assert Matches(alts[0], text, 0, 0);
    FindAllNonEmpty(alts, text, 0, 0);
    forall k | 0 <= k < |ms| ensures ms[k] == "" {
      var sp := FindAllSpans(alts, text)[k];
      assert IsMatchSpan(alts, text, 0, sp);
      var a :| 0 <= a < |alts| && Matches(alts[a], text, sp.0, sp.1);
      assert alts[a] == [];
    }
    var found := FindLabels(alts, text);
    assert Strip("") == "";
    forall y ensures y in found <==> y in [""] {
      assert StripAll(ms)[0] == "";
    }
    StrictlySortedUnique(found, [""]);
  }

  /** With no labels the combined pattern is empty, and the only "label" found is "". */
  lemma NoLabelsFindEmpty(text: string)
    ensures FindPolicyLabels(text, []) == [""]
  {
    EmptyPatternFindsEmpty(text);
  }
}
