/**
 * Layout-based paragraph reconstruction for PDFs (`extract_paragraphs_from_pdf`,
 * which the paragraph extraction mode and the shared utilities both carry,
 * word for word).
 *
 * A page is a list of text blocks with their bounding boxes. The blocks are
 * sorted top to bottom, then left to right; blocks whose text is blank are
 * skipped; a block joins the running paragraph unless it starts more than
 * `gapThreshold` points below the bottom of the previous non-blank block, in
 * which case the running paragraph is emitted and a new one begins. Each
 * page ends by emitting its running paragraph. Coordinates are integers.
 */
module Layout {
  import opened Wrappers
  import opened Text

  /** One entry of PyMuPDF's `page.get_text("blocks")`: `(x0, y0, x1, y1, text)`. */
  datatype Block = Block(x0: int, y0: int, x1: int, y1: int, text: string)

  /** The default `gap_threshold`. */
  const DefaultGap: int := 20

  // ---------------------------------------------------------------- sorting

  /** The sort key `(b[1], b[0])`, compared as Python compares tuples. */
  predicate KeyLe(a: Block, b: Block) {
    a.y0 < b.y0 || (a.y0 == b.y0 && a.x0 <= b.x0)
  }

  predicate SortedByKey(bs: seq<Block>) {
    forall i, j :: 0 <= i < j < |bs| ==> KeyLe(bs[i], bs[j])
  }

  /** The blocks whose key is `(y, x)`, in order. */
  function WithKey(bs: seq<Block>, y: int, x: int): seq<Block> {
    if bs == [] then []
    else
      var b := bs[|bs| - 1];
      WithKey(bs[..|bs| - 1], y, x) + (if b.y0 == y && b.x0 == x then [b] else [])
  }

  /** Inserts `b` after every block of `s` whose key is not greater than its own. */
  function InsertBlock(s: seq<Block>, b: Block): (r: seq<Block>)
    ensures |r| == |s| + 1 && multiset(r) == multiset(s) + multiset{b}
  {
    if s == [] then [b]
    else if KeyLe(s[|s| - 1], b) then s + [b]
    else
      var n := |s| - 1;
      assert s == s[..n] + [s[n]];
      InsertBlock(s[..n], b) + [s[n]]
  }

  /** `sorted(blocks, key=lambda b: (b[1], b[0]))`: a stable sort by top, then left edge. */
  function SortBlocks(bs: seq<Block>): (r: seq<Block>)
    ensures multiset(r) == multiset(bs)
  {
    if bs == [] then []
    else
      var n := |bs| - 1;
      assert bs == bs[..n] + [bs[n]];
      InsertBlock(SortBlocks(bs[..n]), bs[n])
  }

  /** Inserting a block no greater than `c` into blocks no greater than `c` keeps them all below `c`. */
  lemma {:induction false} InsertBounded(s: seq<Block>, b: Block, c: Block)
    requires forall i :: 0 <= i < |s| ==> KeyLe(s[i], c)
    requires KeyLe(b, c)
    ensures forall k :: 0 <= k < |InsertBlock(s, b)| ==> KeyLe(InsertBlock(s, b)[k], c)
    decreases |s|
  {
    if s != [] && !KeyLe(s[|s| - 1], b) {
      var n := |s| - 1;
      assert forall i :: 0 <= i < n ==> s[..n][i] == s[i];
      InsertBounded(s[..n], b, c);
    }
  }

  lemma {:induction false} InsertSorted(s: seq<Block>, b: Block)
    requires SortedByKey(s)
    ensures SortedByKey(InsertBlock(s, b))
    decreases |s|
  {
    if s != [] {
      var n := |s| - 1;
      var last := s[n];
      if !KeyLe(last, b) {
        var init := s[..n];
        assert SortedByKey(init);
        InsertSorted(init, b);
        InsertBounded(init, b, last);
        var t := InsertBlock(init, b);
        assert InsertBlock(s, b) == t + [last];
      }
    }
  }

  /** The sorted blocks are in key order. */
  lemma {:induction false} SortBlocksSorted(bs: seq<Block>)
    ensures SortedByKey(SortBlocks(bs))
    decreases |bs|
  {
    if bs != [] {
      var n := |bs| - 1;
      SortBlocksSorted(bs[..n]);
      InsertSorted(SortBlocks(bs[..n]), bs[n]);
    }
  }

  lemma {:induction false} WithKeyAppend(a: seq<Block>, b: seq<Block>, y: int, x: int)
    ensures WithKey(a + b, y, x) == WithKey(a, y, x) + WithKey(b, y, x)
    decreases |b|
  {
    if b == [] {
      assert a + b == a;
    } else {
      var n := |b| - 1;
      assert (a + b)[..|a + b| - 1] == a + b[..n];
      WithKeyAppend(a, b[..n], y, x);
    }
  }

  lemma WithKeyOne(b: Block, y: int, x: int)
    ensures WithKey([b], y, x) == if b.y0 == y && b.x0 == x then [b] else []
  {
    assert [b][..0] == [];
  }

  lemma SwapEmpty(a: seq<Block>, b: seq<Block>, c: seq<Block>)
    requires b == [] || c == []
    ensures a + b + c == a + c + b
  {
    if b == [] {
      assert a + b == a && a + c + b == a + c;
    } else {
      assert a + c == a && a + b + c == a + b;
    }
  }

  lemma {:induction false} InsertStable(s: seq<Block>, b: Block, y: int, x: int)
    ensures WithKey(InsertBlock(s, b), y, x) == WithKey(s, y, x) + WithKey([b], y, x)
    decreases |s|
  {
    if s == [] {
      assert InsertBlock(s, b) == [b];
    } else if KeyLe(s[|s| - 1], b) {
      WithKeyAppend(s, [b], y, x);
    } else {
      var n := |s| - 1;
      var init, last := s[..n], s[n];
      var t := InsertBlock(init, b);
      assert InsertBlock(s, b) == t + [last];
      assert s == init + [last];
      InsertStable(init, b, y, x);
      WithKeyAppend(t, [last], y, x);
      WithKeyAppend(init, [last], y, x);
      WithKeyOne(b, y, x);
      WithKeyOne(last, y, x);
      calc {
        WithKey(t + [last], y, x);
        WithKey(t, y, x) + WithKey([last], y, x);
        WithKey(init, y, x) + WithKey([b], y, x) + WithKey([last], y, x);
        { SwapEmpty(WithKey(init, y, x), WithKey([b], y, x), WithKey([last], y, x)); }
        WithKey(init, y, x) + WithKey([last], y, x) + WithKey([b], y, x);
      }
    }
  }

  /**
   * The sort is stable: the blocks that share a key keep the order they had,
   * and, since the sort permutes the blocks, they are all still there.
   */
  lemma {:induction false} SortBlocksStable(bs: seq<Block>, y: int, x: int)
    ensures WithKey(SortBlocks(bs), y, x) == WithKey(bs, y, x)
    decreases |bs|
  {
    if bs != [] {
      var n := |bs| - 1;
      var init, last := bs[..n], bs[n];
      calc {
        WithKey(SortBlocks(bs), y, x);
        WithKey(InsertBlock(SortBlocks(init), last), y, x);
        { InsertStable(SortBlocks(init), last, y, x); }
        WithKey(SortBlocks(init), y, x) + WithKey([last], y, x);
        { SortBlocksStable(init, y, x); }
        WithKey(init, y, x) + WithKey([last], y, x);
        { WithKeyAppend(init, [last], y, x); assert bs == init + [last]; }
        WithKey(bs, y, x);
      }
    }
  }

  // ---------------------------------------------------------------- the state machine

  /** The loop's state: the paragraphs emitted, the running `paragraph`, and `last_bottom`. */
  datatype State = State(emitted: seq<string>, paragraph: string, lastBottom: Option<int>)

  const Start: State := State([], "", None)

  /** One pass of the block loop. */
  function Step(st: State, b: Block, gap: int): State {
    var text := Strip(b.text);
    if text == [] then st
    else if st.lastBottom.Some? && b.y0 - st.lastBottom.value > gap then
      if st.paragraph != [] then State(st.emitted + [Strip(st.paragraph)], text, Some(b.y1))
      else State(st.emitted, text, Some(b.y1))
    else
      State(st.emitted, if st.paragraph != [] then st.paragraph + (" " + text) else text, Some(b.y1))
  }

  /** The state after the loop has run over `bs`. */
  function Run(bs: seq<Block>, gap: int): State {
    if bs == [] then Start else Step(Run(bs[..|bs| - 1], gap), bs[|bs| - 1], gap)
  }

  /** The page's final flush. */
  function Flush(st: State): seq<string> {
    st.emitted + (if st.paragraph != [] then [Strip(st.paragraph)] else [])
  }

  /** The paragraphs one page yields. */
  function PageParagraphs(blocks: seq<Block>, gap: int): seq<string> {
    Flush(Run(SortBlocks(blocks), gap))
  }

  /** `extract_paragraphs_from_pdf(doc, gap)`: the paragraphs of the pages, page after page. */
  function PdfParagraphs(pages: seq<seq<Block>>, gap: int): seq<string> {
    Flatten(PerPage(pages, gap))
  }

  /** The paragraphs of each page. */
  function PerPage(pages: seq<seq<Block>>, gap: int): (r: seq<seq<string>>)
    ensures |r| == |pages| && forall i :: 0 <= i < |pages| ==> r[i] == PageParagraphs(pages[i], gap)
  {
    seq(|pages|, i requires 0 <= i < |pages| => PageParagraphs(pages[i], gap))
  }

  /** The lists one after the other. */
  function Flatten(xss: seq<seq<string>>): seq<string> {
    if xss == [] then [] else Flatten(xss[..|xss| - 1]) + xss[|xss| - 1]
  }

  // ---------------------------------------------------------------- the methods

  /** The per-page body of the loop in `extract_paragraphs_from_pdf`. */
  method AppendPageParagraphs(paragraphs: seq<string>, blocks: seq<Block>, gapThreshold: int)
    returns (out: seq<string>)
    ensures out == paragraphs + PageParagraphs(blocks, gapThreshold)
  {
    var sorted := SortBlocks(blocks);
    out := paragraphs;
    var paragraph: string := "";
    var lastBottom: Option<int> := None;
    for j := 0 to |sorted|
      invariant out == paragraphs + Run(sorted[..j], gapThreshold).emitted
      invariant paragraph == Run(sorted[..j], gapThreshold).paragraph
      invariant lastBottom == Run(sorted[..j], gapThreshold).lastBottom
    {
      assert sorted[..j + 1][..j] == sorted[..j];
      var b := sorted[j];
      ghost var st := Run(sorted[..j], gapThreshold);
      assert Run(sorted[..j + 1], gapThreshold) == Step(st, b, gapThreshold);
      var text := Strip(b.text);
      var top := b.y0;
      if text == [] {
        continue;
      }
      if lastBottom.Some? && top - lastBottom.value > gapThreshold {
        if paragraph != [] {
          out := out + [Strip(paragraph)];
          paragraph := text;
        } else {
          paragraph := text;
        }
      } else {
        paragraph := if paragraph != [] then paragraph + (" " + text) else text;
      }
      lastBottom := Some(b.y1);
    }
    assert sorted[..|sorted|] == sorted;
    if paragraph != [] {
      out := out + [Strip(paragraph)];
    }
  }

  /** `extract_paragraphs_from_pdf`, over the block lists of the pages. */
  method ExtractParagraphsFromPdf(pages: seq<seq<Block>>, gapThreshold: int) returns (paragraphs: seq<string>)
    ensures paragraphs == PdfParagraphs(pages, gapThreshold)
    ensures forall k :: 0 <= k < |paragraphs| ==> paragraphs[k] != [] && IsStripped(paragraphs[k])
  {
    paragraphs := [];
    for p := 0 to |pages|
      invariant paragraphs == PdfParagraphs(pages[..p], gapThreshold)
    {
      PerPagePrefix(pages, p, gapThreshold);
      paragraphs := AppendPageParagraphs(paragraphs, pages[p], gapThreshold);
    }
    assert pages[..|pages|] == pages;
    PdfParagraphsClean(pages, gapThreshold);
  }

  // ---------------------------------------------------------------- what the paragraphs are

  /** A non-blank block as the loop sees it: its stripped text, its top and its bottom. */
  datatype Piece = Piece(text: string, top: int, bottom: int)

  /** The non-blank blocks of `bs`, in order. */
  function Pieces(bs: seq<Block>): (ps: seq<Piece>)
    ensures forall k :: 0 <= k < |ps| ==> ps[k].text != [] && IsStripped(ps[k].text)
  {
    if bs == [] then [] else Pieces(bs[..|bs| - 1]) + PieceOf(bs[|bs| - 1])
  }

  function PieceOf(b: Block): seq<Piece> {
    var text := Strip(b.text);
    if text == [] then [] else [Piece(text, b.y0, b.y1)]
  }

  function Texts(ps: seq<Piece>): (r: seq<string>)
    ensures |r| == |ps| && forall k :: 0 <= k < |ps| ==> r[k] == ps[k].text
  {
    seq(|ps|, k requires 0 <= k < |ps| => ps[k].text)
  }

  /**
   * Where a page's paragraphs break: the positions j, 0 < j < |ps|, at which
   * non-blank block j starts more than `gap` below the bottom of block j - 1,
   * in increasing order.
   */
  function Cuts(ps: seq<Piece>, gap: int): (cs: seq<nat>)
    ensures forall k :: 0 <= k < |cs| ==> 0 < cs[k] < |ps|
    ensures forall k, l :: 0 <= k < l < |cs| ==> cs[k] < cs[l]
  {
    if |ps| <= 1 then []
    else
      var n := |ps| - 1;
      Cuts(ps[..n], gap) + (if ps[n].top - ps[n - 1].bottom > gap then [n] else [])
  }

  /** A position is a cut exactly when the gap above its block is wider than the threshold. */
  lemma {:induction false} CutsSpec(ps: seq<Piece>, gap: int)
    ensures forall j: int :: j in Cuts(ps, gap) <==> 0 < j < |ps| && ps[j].top - ps[j - 1].bottom > gap
    decreases |ps|
  {
    if |ps| <= 1 {
      assert Cuts(ps, gap) == [];
    } else {
      var n := |ps| - 1;
      var init := ps[..n];
      CutsSpec(init, gap);
      var cs := Cuts(ps, gap);
      assert cs == Cuts(init, gap) + (if ps[n].top - ps[n - 1].bottom > gap then [n] else []);
      forall j: int
        ensures j in cs <==> 0 < j < |ps| && ps[j].top - ps[j - 1].bottom > gap
      {
        if 0 < j < n {
          assert init[j] == ps[j] && init[j - 1] == ps[j - 1];
        }
      }
    }
  }

  /** The cuts with the two ends of the page added: where each paragraph begins and ends. */
  function Bounds(ps: seq<Piece>, gap: int): (b: seq<nat>)
    ensures |b| >= 2 && b[0] == 0 && b[|b| - 1] == |ps|
    ensures ps != [] ==> forall k, l :: 0 <= k < l < |b| ==> b[k] < b[l]
  {
    var cs := Cuts(ps, gap);
    var b := [0] + cs + [|ps|];
    assert forall k :: 0 < k < |b| - 1 ==> b[k] == cs[k - 1];
    b
  }

  /** The texts of the non-blank blocks `i` to `j - 1`, joined by single spaces. */
  function Segment(ps: seq<Piece>, i: nat, j: nat): string
    requires i <= j <= |ps|
  {
    Join(" ", Texts(ps[i..j]))
  }

  /**
   * The paragraphs a page is meant to have: one per stretch of non-blank
   * blocks between consecutive bounds, its texts joined by single spaces.
   */
  function Groups(ps: seq<Piece>, gap: int): (r: seq<string>)
    ensures ps != [] ==> |r| == |Bounds(ps, gap)| - 1
  {
    if ps == [] then []
    else
      var b := Bounds(ps, gap);
      seq(|b| - 1, k requires 0 <= k < |b| - 1 => Segment(ps, b[k], b[k + 1]))
  }

  lemma CutsSnoc(ps: seq<Piece>, p: Piece, gap: int)
    requires ps != []
    ensures Cuts(ps + [p], gap) ==
      Cuts(ps, gap) + (if p.top - ps[|ps| - 1].bottom > gap then [|ps|] else [])
  {
    var q := ps + [p];
    var n := |ps|;
    assert q[..n] == ps;
    assert q[n] == p && q[n - 1] == ps[n - 1];
    assert Cuts(q, gap) == Cuts(q[..n], gap) + (if q[n].top - q[n - 1].bottom > gap then [n] else []);
  }

  lemma GroupsFirst(p: Piece, gap: int)
    ensures Groups([p], gap) == [p.text]
  {
    assert Bounds([p], gap) == [0, 1];
    assert [p][0..1] == [p];
  }

  lemma GroupAt(ps: seq<Piece>, gap: int, k: nat)
    requires ps != [] && k < |Groups(ps, gap)|
    ensures Bounds(ps, gap)[k] < Bounds(ps, gap)[k + 1] <= |ps|
    ensures Groups(ps, gap)[k] == Segment(ps, Bounds(ps, gap)[k], Bounds(ps, gap)[k + 1])
  {
  }

  /** A segment that ends before a new block is not affected by it. */
  lemma SegmentSnoc(ps: seq<Piece>, p: Piece, i: nat, j: nat)
    requires i <= j <= |ps|
    ensures Segment(ps + [p], i, j) == Segment(ps, i, j)
  {
    assert (ps + [p])[i..j] == ps[i..j];
  }

  /** A segment that ends at the last block grows by the new one. */
  lemma SegmentGrow(ps: seq<Piece>, p: Piece, i: nat)
    requires i < |ps|
    ensures Segment(ps + [p], i, |ps| + 1) == Segment(ps, i, |ps|) + (" " + p.text)
  {
    var n := |ps|;
    assert (ps + [p])[i..n + 1] == ps[i..n] + [p];
    TextsSnoc(ps[i..n], p);
    JoinSnoc(" ", Texts(ps[i..n]), p.text);
  }

  /** A block past a wide gap starts a paragraph of its own. */
  lemma GroupsBreak(ps: seq<Piece>, p: Piece, gap: int)
    requires ps != [] && p.top - ps[|ps| - 1].bottom > gap
    ensures Groups(ps + [p], gap) == Groups(ps, gap) + [p.text]
  {
    var g, g' := Groups(ps, gap), Groups(ps + [p], gap);
    BoundsBreak(ps, p, gap);
    forall k | 0 <= k < |g'|
      ensures g'[k] == (g + [p.text])[k]
    {
      GroupsBreakAt(ps, p, gap, k);
    }
  }

  lemma BoundsBreak(ps: seq<Piece>, p: Piece, gap: int)
    requires ps != [] && p.top - ps[|ps| - 1].bottom > gap
    ensures Bounds(ps + [p], gap) == Bounds(ps, gap) + [|ps| + 1]
    ensures |Groups(ps + [p], gap)| == |Groups(ps, gap)| + 1
  {
    CutsSnoc(ps, p, gap);
  }

  lemma GroupsBreakAt(ps: seq<Piece>, p: Piece, gap: int, k: nat)
    requires ps != [] && p.top - ps[|ps| - 1].bottom > gap
    requires k < |Groups(ps + [p], gap)|
    ensures Groups(ps + [p], gap)[k] == if k < |Groups(ps, gap)| then Groups(ps, gap)[k] else p.text
  {
    var q, n := ps + [p], |ps|;
    var b := Bounds(ps, gap);
    BoundsBreak(ps, p, gap);
    GroupAt(q, gap, k);
    if k < |Groups(ps, gap)| {
      GroupAt(ps, gap, k);
      SegmentSnoc(ps, p, b[k], b[k + 1]);
    } else {
      assert q[n..n + 1] == [p];
    }
  }

  /** A block below a narrow gap extends the last paragraph. */
  lemma GroupsMerge(ps: seq<Piece>, p: Piece, gap: int)
    requires ps != [] && p.top - ps[|ps| - 1].bottom <= gap
    ensures Groups(ps, gap) != []
    ensures Groups(ps + [p], gap) ==
      Groups(ps, gap)[..|Groups(ps, gap)| - 1] + [Groups(ps, gap)[|Groups(ps, gap)| - 1] + (" " + p.text)]
  {
    var q, n := ps + [p], |ps|;
    CutsSnoc(ps, p, gap);
    var b, b' := Bounds(ps, gap), Bounds(q, gap);
    var m := |b| - 1;
    assert b' == b[..m] + [n + 1];
    var g, g' := Groups(ps, gap), Groups(q, gap);
    var r := g[..m - 1] + [g[m - 1] + (" " + p.text)];
    assert |g'| == |r| == m;
    forall k | 0 <= k < m
      ensures g'[k] == r[k]
    {
      GroupAt(q, gap, k);
      GroupAt(ps, gap, k);
      if k < m - 1 {
        SegmentSnoc(ps, p, b[k], b[k + 1]);
      } else {
        SegmentGrow(ps, p, b[k]);
      }
    }
  }

  /** The paragraphs the state stands for: those emitted and the running one. */
  function Current(st: State): seq<string> {
    st.emitted + (if st.paragraph != [] then [st.paragraph] else [])
  }

  /** How the loop's state relates to the non-blank blocks seen so far. */
  predicate Tracks(st: State, ps: seq<Piece>, gap: int) {
    && (st.lastBottom.Some? <==> ps != [])
    && (ps != [] ==> st.lastBottom.value == ps[|ps| - 1].bottom)
    && (st.paragraph == [] <==> ps == [])
    && IsStripped(st.paragraph)
    && (forall k :: 0 <= k < |st.emitted| ==> st.emitted[k] != [] && IsStripped(st.emitted[k]))
    && Join(" ", Current(st)) == Join(" ", Texts(ps))
    && |Current(st)| == (if ps == [] then 0 else 1 + |Cuts(ps, gap)|)
  }

  lemma TextsSnoc(ps: seq<Piece>, p: Piece)
    ensures Texts(ps + [p]) == Texts(ps) + [p.text]
  {
  }

  lemma JoinExtendLast(xs: seq<string>, a: string, t: string)
    ensures Join(" ", xs + [a + (" " + t)]) == Join(" ", xs + [a]) + " " + t
  {
    if xs == [] {
      assert xs + [a + (" " + t)] == [a + (" " + t)] && xs + [a] == [a];
    } else {
      JoinSnoc(" ", xs, a + (" " + t));
      JoinSnoc(" ", xs, a);
    }
  }

  lemma StrippedJoin(a: string, t: string)
    requires a != [] && t != [] && IsStripped(a) && IsStripped(t)
    ensures IsStripped(a + (" " + t))
  {
    var r := a + (" " + t);
    assert r[0] == a[0] && r[|r| - 1] == t[|t| - 1];
  }

  /** What appending a non-blank block does to the texts and the gap count. */
  lemma PiecesSnoc(ps: seq<Piece>, p: Piece, gap: int)
    ensures Texts(ps + [p]) == Texts(ps) + [p.text]
    ensures |Cuts(ps + [p], gap)| ==
      |Cuts(ps, gap)| + (if ps != [] && p.top - ps[|ps| - 1].bottom > gap then 1 else 0)
    ensures (ps + [p])[|ps|] == p && (ps + [p]) != []
  {
    var ps' := ps + [p];
    assert ps'[..|ps'| - 1] == ps;
    if ps != [] {
      assert ps'[|ps'| - 2] == ps[|ps| - 1];
    }
  }

  /** A block more than `gap` below the last one emits the running paragraph and starts a new one. */
  lemma StepBreak(st: State, ps: seq<Piece>, b: Block, gap: int)
    requires Tracks(st, ps, gap) && Strip(b.text) != []
    requires st.lastBottom.Some? && b.y0 - st.lastBottom.value > gap
    ensures Tracks(Step(st, b, gap), ps + PieceOf(b), gap)
  {
    var text := Strip(b.text);
    var p := Piece(text, b.y0, b.y1);
    assert PieceOf(b) == [p];
    StripStripped(st.paragraph);
    var st' := State(st.emitted + [st.paragraph], text, Some(b.y1));
    assert Step(st, b, gap) == st';
    assert Current(st) == st.emitted + [st.paragraph];
    assert Current(st') == Current(st) + [text];
    PiecesSnoc(ps, p, gap);
    JoinSnoc(" ", Current(st), text);
    JoinSnoc(" ", Texts(ps), text);
    BreakTracks(st, ps, p, st', gap);
  }

  lemma BreakTracks(st: State, ps: seq<Piece>, p: Piece, st': State, gap: int)
    requires Tracks(st, ps, gap) && ps != [] && p.text != [] && IsStripped(p.text)
    requires p.top - ps[|ps| - 1].bottom > gap
    requires st' == State(st.emitted + [st.paragraph], p.text, Some(p.bottom))
    requires Current(st') == Current(st) + [p.text]
    requires Texts(ps + [p]) == Texts(ps) + [p.text] && (ps + [p])[|ps|] == p
    requires |Cuts(ps + [p], gap)| == |Cuts(ps, gap)| + 1
    requires Join(" ", Current(st) + [p.text]) == Join(" ", Current(st)) + " " + p.text
    requires Join(" ", Texts(ps) + [p.text]) == Join(" ", Texts(ps)) + " " + p.text
    ensures Tracks(st', ps + [p], gap)
  {
  }

  /** A block close enough below the last one joins the running paragraph. */
  lemma StepMerge(st: State, ps: seq<Piece>, b: Block, gap: int)
    requires Tracks(st, ps, gap) && Strip(b.text) != [] && ps != []
    requires b.y0 - st.lastBottom.value <= gap
    ensures Tracks(Step(st, b, gap), ps + PieceOf(b), gap)
  {
    var text := Strip(b.text);
    var p := Piece(text, b.y0, b.y1);
    assert PieceOf(b) == [p];
    var para := st.paragraph + (" " + text);
    var st' := State(st.emitted, para, Some(b.y1));
    assert Step(st, b, gap) == st';
    StrippedJoin(st.paragraph, text);
    assert Current(st) == st.emitted + [st.paragraph];
    assert Current(st') == st.emitted + [para];
    JoinExtendLast(st.emitted, st.paragraph, text);
    PiecesSnoc(ps, p, gap);
    JoinSnoc(" ", Texts(ps), text);
    MergeTracks(st, ps, p, st', gap);
  }

  lemma MergeTracks(st: State, ps: seq<Piece>, p: Piece, st': State, gap: int)
    requires Tracks(st, ps, gap) && ps != [] && p.text != []
    requires st' == State(st.emitted, st.paragraph + (" " + p.text), Some(p.bottom))
    requires IsStripped(st'.paragraph)
    requires Current(st) == st.emitted + [st.paragraph] && Current(st') == st.emitted + [st'.paragraph]
    requires Texts(ps + [p]) == Texts(ps) + [p.text] && (ps + [p])[|ps|] == p
    requires |Cuts(ps + [p], gap)| == |Cuts(ps, gap)|
    requires Join(" ", Current(st')) == Join(" ", Current(st)) + " " + p.text
    requires Join(" ", Texts(ps) + [p.text]) == Join(" ", Texts(ps)) + " " + p.text
    ensures Tracks(st', ps + [p], gap)
  {
  }

  /** The first non-blank block starts the first paragraph. */
  lemma StepFirst(st: State, ps: seq<Piece>, b: Block, gap: int)
    requires Tracks(st, ps, gap) && Strip(b.text) != [] && ps == []
    ensures Tracks(Step(st, b, gap), ps + PieceOf(b), gap)
  {
    var text := Strip(b.text);
    var p := Piece(text, b.y0, b.y1);
    assert PieceOf(b) == [p] && ps + [p] == [p];
    assert st.emitted == [];
    assert Current(Step(st, b, gap)) == [text];
  }

  lemma StepTracks(st: State, ps: seq<Piece>, b: Block, gap: int)
    requires Tracks(st, ps, gap)
    ensures Tracks(Step(st, b, gap), ps + PieceOf(b), gap)
  {
    if Strip(b.text) == [] {
      assert ps + PieceOf(b) == ps;
    } else if ps == [] {
      StepFirst(st, ps, b, gap);
    } else if b.y0 - st.lastBottom.value > gap {
      StepBreak(st, ps, b, gap);
    } else {
      StepMerge(st, ps, b, gap);
    }
  }

  lemma {:induction false} RunTracks(bs: seq<Block>, gap: int)
    ensures Tracks(Run(bs, gap), Pieces(bs), gap)
    decreases |bs|
  {
    if bs != [] {
      var n := |bs| - 1;
      RunTracks(bs[..n], gap);
      StepTracks(Run(bs[..n], gap), Pieces(bs[..n]), bs[n], gap);
    }
  }

  /** What one block does to the paragraphs the state stands for. */
  lemma StepGroups(st: State, ps: seq<Piece>, b: Block, gap: int)
    requires Tracks(st, ps, gap) && Current(st) == Groups(ps, gap)
    ensures Current(Step(st, b, gap)) == Groups(ps + PieceOf(b), gap)
  {
    var text := Strip(b.text);
    if text == [] {
      assert ps + PieceOf(b) == ps;
    } else {
      var p := Piece(text, b.y0, b.y1);
      assert PieceOf(b) == [p];
      if ps == [] {
        assert ps + [p] == [p];
        GroupsFirst(p, gap);
        assert Current(Step(st, b, gap)) == [text];
      } else if b.y0 - st.lastBottom.value > gap {
        StepGroupsBreak(st, ps, b, p, gap);
      } else {
        StepGroupsMerge(st, ps, b, p, gap);
      }
    }
  }

  lemma StepGroupsBreak(st: State, ps: seq<Piece>, b: Block, p: Piece, gap: int)
    requires Tracks(st, ps, gap) && Current(st) == Groups(ps, gap) && ps != []
    requires p == Piece(Strip(b.text), b.y0, b.y1) && p.text != []
    requires b.y0 - st.lastBottom.value > gap
    ensures Current(Step(st, b, gap)) == Groups(ps + [p], gap)
  {
    StripStripped(st.paragraph);
    assert Current(st) == st.emitted + [st.paragraph];
    assert Current(Step(st, b, gap)) == Current(st) + [p.text];
    GroupsBreak(ps, p, gap);
  }

  lemma StepGroupsMerge(st: State, ps: seq<Piece>, b: Block, p: Piece, gap: int)
    requires Tracks(st, ps, gap) && Current(st) == Groups(ps, gap) && ps != []
    requires p == Piece(Strip(b.text), b.y0, b.y1) && p.text != []
    requires b.y0 - st.lastBottom.value <= gap
    ensures Current(Step(st, b, gap)) == Groups(ps + [p], gap)
  {
    var g := Current(st);
    assert g == st.emitted + [st.paragraph];
    assert g[..|g| - 1] == st.emitted;
    assert Current(Step(st, b, gap)) == st.emitted + [st.paragraph + (" " + p.text)];
    GroupsMerge(ps, p, gap);
  }

  /** Along the block loop, the emitted and running paragraphs are the groups of the blocks seen so far. */
  lemma {:induction false} RunGroups(bs: seq<Block>, gap: int)
    ensures Current(Run(bs, gap)) == Groups(Pieces(bs), gap)
    decreases |bs|
  {
    if bs != [] {
      var n := |bs| - 1;
      RunGroups(bs[..n], gap);
      RunTracks(bs[..n], gap);
      StepGroups(Run(bs[..n], gap), Pieces(bs[..n]), bs[n], gap);
    }
  }

  /**
   * What one page yields: exactly the groups of its non-blank blocks in
   * sorted order, cut wherever a gap is wider than the threshold, so
   * non-empty, stripped paragraphs that, joined by single spaces, give the
   * block texts joined by single spaces; one paragraph more than there are
   * cuts, and none for a page without text.
   */
  lemma PageParagraphsSpec(blocks: seq<Block>, gap: int)
    ensures PageParagraphs(blocks, gap) == Groups(Pieces(SortBlocks(blocks)), gap)
    ensures forall k :: 0 <= k < |PageParagraphs(blocks, gap)| ==>
      PageParagraphs(blocks, gap)[k] != [] && IsStripped(PageParagraphs(blocks, gap)[k])
    ensures Join(" ", PageParagraphs(blocks, gap)) == Join(" ", Texts(Pieces(SortBlocks(blocks))))
    ensures |PageParagraphs(blocks, gap)| ==
      (if Pieces(SortBlocks(blocks)) == [] then 0 else 1 + |Cuts(Pieces(SortBlocks(blocks)), gap)|)
  {
    var st := Run(SortBlocks(blocks), gap);
    RunTracks(SortBlocks(blocks), gap);
    RunGroups(SortBlocks(blocks), gap);
    StripStripped(st.paragraph);
    assert Flush(st) == Current(st);
  }

  /** Empty-text blocks are skipped altogether: in particular they leave `last_bottom` alone. */
  lemma {:induction false} RunSkipsBlank(a: seq<Block>, b: Block, c: seq<Block>, gap: int)
    requires Strip(b.text) == []
    ensures Run(a + [b] + c, gap) == Run(a + c, gap)
    decreases |c|
  {
    if c == [] {
      assert (a + [b] + c)[..|a|] == a;
      assert a + c == a;
    } else {
      var n := |c| - 1;
      RunSkipsBlank(a, b, c[..n], gap);
      assert (a + [b] + c)[..|a + [b] + c| - 1] == a + [b] + c[..n];
      assert (a + c)[..|a + c| - 1] == a + c[..n];
    }
  }

  /**
   * Two non-blank blocks in reading order: a gap up to the threshold, the
   * threshold included, joins them with one space; a wider gap separates them.
   */
  lemma TwoBlocks(b1: Block, b2: Block, gap: int)
    requires Strip(b1.text) != [] && Strip(b2.text) != [] && KeyLe(b1, b2)
    ensures PageParagraphs([b1, b2], gap) ==
      if b2.y0 - b1.y1 > gap then [Strip(b1.text), Strip(b2.text)]
      else [Strip(b1.text) + " " + Strip(b2.text)]
  {
    var bs := [b1, b2];
    var t1, t2 := Strip(b1.text), Strip(b2.text);
    SortTwo(b1, b2);
    RunTwo(b1, b2, gap);
    StripStripped(t1);
    StripIdempotent(b2.text);
    if b2.y0 - b1.y1 > gap {
      assert Run(bs, gap) == State([t1], t2, Some(b2.y1));
    } else {
      StrippedJoin(t1, t2);
      StripStripped(t1 + (" " + t2));
      assert Run(bs, gap) == State([], t1 + (" " + t2), Some(b2.y1));
      assert t1 + (" " + t2) == t1 + " " + t2;
    }
  }

  lemma SortTwo(b1: Block, b2: Block)
    requires KeyLe(b1, b2)
    ensures SortBlocks([b1, b2]) == [b1, b2]
  {
    var bs := [b1, b2];
    assert bs[..1] == [b1] && [b1][..0] == [];
    assert SortBlocks([b1]) == [b1];
    assert InsertBlock([b1], b2) == bs;
  }

  lemma RunTwo(b1: Block, b2: Block, gap: int)
    requires Strip(b1.text) != []
    ensures Run([b1, b2], gap) == Step(State([], Strip(b1.text), Some(b1.y1)), b2, gap)
  {
    var bs := [b1, b2];
    assert bs[..1] == [b1] && [b1][..0] == [];
    assert Run([b1], gap) == State([], Strip(b1.text), Some(b1.y1));
  }

  lemma PerPagePrefix(pages: seq<seq<Block>>, p: nat, gap: int)
    requires p < |pages|
    ensures PdfParagraphs(pages[..p + 1], gap) == PdfParagraphs(pages[..p], gap) + PageParagraphs(pages[p], gap)
  {
    var xss := PerPage(pages[..p + 1], gap);
    assert xss[..p] == PerPage(pages[..p], gap);
  }

  /** Paragraphs never cross a page: the pages before and after any point produce theirs independently. */
  lemma PdfParagraphsSplit(pages: seq<seq<Block>>, k: nat, gap: int)
    requires k <= |pages|
    ensures PdfParagraphs(pages, gap) == PdfParagraphs(pages[..k], gap) + PdfParagraphs(pages[k..], gap)
  {
    var xss := PerPage(pages, gap);
    assert xss[..k] == PerPage(pages[..k], gap);
    assert xss[k..] == PerPage(pages[k..], gap);
    FlattenSplit(xss, k);
  }

  lemma {:induction false} FlattenSplit(xss: seq<seq<string>>, k: nat)
    requires k <= |xss|
    ensures Flatten(xss) == Flatten(xss[..k]) + Flatten(xss[k..])
    decreases |xss|
  {
    if k == |xss| {
      assert xss[..k] == xss && xss[k..] == [];
    } else {
      var n := |xss| - 1;
      var init, tail := xss[..n], xss[k..];
      FlattenSplit(init, k);
      assert init[..k] == xss[..k];
      assert tail[..|tail| - 1] == init[k..] && tail[|tail| - 1] == xss[n];
      var a, b, c := Flatten(xss[..k]), Flatten(init[k..]), xss[n];
      assert Flatten(tail) == b + c;
      assert (a + b) + c == a + (b + c);
    }
  }

  /** Every paragraph of the document is non-empty and stripped. */
  lemma PdfParagraphsClean(pages: seq<seq<Block>>, gap: int)
    ensures forall k :: 0 <= k < |PdfParagraphs(pages, gap)| ==>
      PdfParagraphs(pages, gap)[k] != [] && IsStripped(PdfParagraphs(pages, gap)[k])
  {
    var xss := PerPage(pages, gap);
    forall i | 0 <= i < |xss|
      ensures forall k :: 0 <= k < |xss[i]| ==> xss[i][k] != [] && IsStripped(xss[i][k])
    {
      PageParagraphsSpec(pages[i], gap);
    }
    FlattenClean(xss);
  }

  lemma {:induction false} FlattenClean(xss: seq<seq<string>>)
    requires forall i, k :: 0 <= i < |xss| && 0 <= k < |xss[i]| ==> xss[i][k] != [] && IsStripped(xss[i][k])
    ensures forall k :: 0 <= k < |Flatten(xss)| ==> Flatten(xss)[k] != [] && IsStripped(Flatten(xss)[k])
    decreases |xss|
  {
    if xss != [] {
      var n := |xss| - 1;
      FlattenClean(xss[..n]);
    }
  }
}
