/**
 * The two extraction schedulers: `process_document` (one language-model
 * query per paragraph) and `process_document_with_labels` (one query per
 * page on which a caller's policy label is found).
 *
 * The language model is a function from the chunk (and, in label mode, the
 * labels found on it) to a reply: a response text, no response, or a raised
 * exception with its message. The user interface and the pauses that keep
 * under the rate limit are not performed but recorded, in order, as events.
 */
module Scheduler {
  import opened Wrappers
  import opened Text
  import opened PageCleaner
  import opened LabelMatcher
  import opened Extract

  /** What `model.generate_content(prompt)` gives back. */
  datatype Reply = Response(text: string) | NoResponse | Raised(message: string)

  /** One row of the result table: the chunk's number, its text and the extracted policies. */
  datatype Record = Record(number: nat, text: string, policy: string)

  /** The interface calls and pauses, in the order they happen. */
  datatype Event =
    | Stopped(message: string)     // st.error followed by st.stop
    | QuotaWarning                 // st.warning about the daily limit
    | ReadingInfo(total: nat)      // st.info announcing the chunk count
    | ProgressText(done: nat, total: nat)
    | ProgressBar(done: nat, total: nat)
    | Query(chunk: string)
    | NoLabelsFound                // the console note for a page without labels
    | Sleep                        // time.sleep(delay_per_chunk)

  /** `{}` for a document over the daily limit, or the table of records; `Halted` when the upload is refused. */
  datatype Outcome = Halted | OverQuota | Table(records: seq<Record>)

  const ParagraphQuota: nat := 1500
  const PageQuota: nat := 1000

  // ---------------------------------------------------------------- the query rule

  /** `query_gemini` / `query_gemini_policy_labels`, after the call: a failure becomes a text. */
  function QueryResult(reply: Reply): string {
    match reply
    case Response(t) => Strip(t)
    case NoResponse => "No response"
    case Raised(m) => "Error: " + m
  }

  /** The policy stored in a record. */
  function PolicyOf(reply: Reply): string {
    Strip(QueryResult(reply))
  }

  /**
   * A failed query does not stop the run: its record holds a text that
   * begins with "Error:". A response is stored stripped.
   */
  lemma PolicyOfReply(reply: Reply)
    ensures reply.Raised? ==> |PolicyOf(reply)| >= 6 && PolicyOf(reply)[..6] == "Error:"
    ensures reply.Response? ==> PolicyOf(reply) == Strip(reply.text)
    ensures reply.NoResponse? ==> PolicyOf(reply) == "No response"
  {
    match reply
    case Raised(m) =>
      var s := "Error: " + m;
      var r := Strip(s);
      var i := StripSlice(s);
      assert !IsSpace(s[0]) && !IsSpace(s[5]);
      assert i == 0;
      assert |r| >= 6;
      assert r[..6] == s[..6];
    case Response(t) =>
      StripIdempotent(t);
    case NoResponse =>
      StripStripped("No response");
  }

  /** Events of one kind, counted or listed. */
  function Queries(log: seq<Event>): seq<string> {
    if log == [] then []
    else Queries(log[..|log| - 1]) + (if log[|log| - 1].Query? then [log[|log| - 1].chunk] else [])
  }

  function Sleeps(log: seq<Event>): nat {
    if log == [] then 0 else Sleeps(log[..|log| - 1]) + (if log[|log| - 1] == Sleep then 1 else 0)
  }

  lemma {:induction false} EventsAppend(a: seq<Event>, b: seq<Event>)
    ensures Queries(a + b) == Queries(a) + Queries(b)
    ensures Sleeps(a + b) == Sleeps(a) + Sleeps(b)
    decreases |b|
  {
    if b == [] {
      assert a + b == a;
    } else {
      var n := |b| - 1;
      assert (a + b)[..|a + b| - 1] == a + b[..n];
      assert (a + b)[|a + b| - 1] == b[n];
      EventsAppend(a, b[..n]);
    }
  }

  // ---------------------------------------------------------------- paragraph mode

  /** The events of pass `i` over `total` chunks. */
  function ChunkEvents(chunk: string, i: nat, total: nat): seq<Event> {
    [ProgressText(i + 1, total), Query(chunk), ProgressBar(i + 1, total)]
      + (if i < total - 1 then [Sleep] else [])
  }

  /** The events up to the end of the first `k` passes, starting with the announcement and the empty bar. */
  function ChunkLog(chunks: seq<string>, k: nat): seq<Event>
    requires k <= |chunks|
  {
    if k == 0 then [ReadingInfo(|chunks|), ProgressBar(0, |chunks|)]
    else ChunkLog(chunks, k - 1) + ChunkEvents(chunks[k - 1], k - 1, |chunks|)
  }

  function ChunkRecords(chunks: seq<string>, llm: string -> Reply): (rs: seq<Record>)
    ensures |rs| == |chunks|
    ensures forall i :: 0 <= i < |chunks| ==> rs[i] == Record(i + 1, Strip(chunks[i]), PolicyOf(llm(chunks[i])))
  {
    seq(|chunks|, i requires 0 <= i < |chunks| => Record(i + 1, Strip(chunks[i]), PolicyOf(llm(chunks[i]))))
  }

  /** `process_document(doc)`. */
  method ProcessDocument(u: Upload, llm: string -> Reply) returns (out: Outcome, log: seq<Event>)
    ensures ExtractText(u).Failure? ==> out == Halted && log == [Stopped(UnsupportedMessage)]
    ensures ExtractText(u).Success? && |ExtractText(u).value| > ParagraphQuota ==>
      out == OverQuota && log == [QuotaWarning]
    ensures ExtractText(u).Success? && |ExtractText(u).value| <= ParagraphQuota ==>
      var chunks := ExtractText(u).value;
      && out == Table(ChunkRecords(chunks, llm))
      && log == ChunkLog(chunks, |chunks|)
  {
    var extracted := ExtractText(u);
    if extracted.Failure? {
      return Halted, [Stopped(extracted.error)];
    }
    var textChunks := extracted.value;
    var totalChunks := |textChunks|;
    if totalChunks > ParagraphQuota {
      return OverQuota, [QuotaWarning];
    }
    out, log := ParagraphLoop(textChunks, llm);
  }

  /** The paragraph loop of `process_document`. */
  method ParagraphLoop(textChunks: seq<string>, llm: string -> Reply) returns (out: Outcome, log: seq<Event>)
    ensures out == Table(ChunkRecords(textChunks, llm))
    ensures log == ChunkLog(textChunks, |textChunks|)
  {
    var totalChunks := |textChunks|;
    log := [ReadingInfo(totalChunks), ProgressBar(0, totalChunks)];
    var results: seq<Record> := [];
    for i := 0 to totalChunks
      invariant results == ChunkRecords(textChunks[..i], llm)
      invariant log == ChunkLog(textChunks, i)
    {
      ChunkRecordsSnoc(textChunks, i, llm);
      ghost var log0 := log;
      var paraText := textChunks[i];
      log := log + [ProgressText(i + 1, totalChunks)];
      var policy := QueryResult(llm(paraText));
      log := log + [Query(paraText)];
      var stored := Strip(policy);
      assert stored == PolicyOf(llm(paraText));
      results := results + [Record(i + 1, Strip(paraText), stored)];
      log := log + [ProgressBar(i + 1, totalChunks)];
      if i < totalChunks - 1 {
        log := log + [Sleep];
      }
      ghost var tail: seq<Event> := if i < totalChunks - 1 then [Sleep] else [];
      Regroup(log0, ProgressText(i + 1, totalChunks), Query(paraText), ProgressBar(i + 1, totalChunks), tail);
    }
    assert textChunks[..totalChunks] == textChunks;
    out := Table(results);
  }

  lemma ChunkRecordsSnoc(chunks: seq<string>, i: nat, llm: string -> Reply)
    requires i < |chunks|
    ensures ChunkRecords(chunks[..i + 1], llm) ==
      ChunkRecords(chunks[..i], llm) + [Record(i + 1, Strip(chunks[i]), PolicyOf(llm(chunks[i])))]
  {
    var pre, pre0 := chunks[..i + 1], chunks[..i];
    var r, r0 := ChunkRecords(pre, llm), ChunkRecords(pre0, llm);
    var rhs := r0 + [Record(i + 1, Strip(chunks[i]), PolicyOf(llm(chunks[i])))];
    assert |r| == |rhs|;
    forall j | 0 <= j < |r|
      ensures r[j] == rhs[j]
    {
      assert pre[j] == chunks[j];
      if j < i {
        assert pre0[j] == chunks[j];
      }
    }
  }

  /** Appending four pieces one by one appends the whole. */
  lemma Regroup(x: seq<Event>, a: Event, b: Event, c: Event, t: seq<Event>)
    ensures x + [a] + [b] + [c] + t == x + ([a, b, c] + t)
  {
  }

  lemma RegroupTwo(x: seq<Event>, a: Event, b: Event)
    ensures x + [a] + [b] == x + [a, b]
  {
  }

  /**
   * Within the quota, every chunk is queried exactly once, in order; there is
   * a pause after every query but the last; and the progress bar ends full.
   */
  lemma {:induction false} ChunkLogSpec(chunks: seq<string>, k: nat)
    requires k <= |chunks|
    ensures Queries(ChunkLog(chunks, k)) == chunks[..k]
    ensures Sleeps(ChunkLog(chunks, k)) == if k == |chunks| && k > 0 then k - 1 else k
    ensures k > 0 ==>
      ChunkLog(chunks, k)[|ChunkLog(chunks, k)| - 1] == (if k == |chunks| then ProgressBar(k, k) else Sleep)
    decreases k
  {
    if k == 0 {
      HeadEvents(|chunks|);
    } else {
      var j := k - 1;
      var prev, ev := ChunkLog(chunks, j), ChunkEvents(chunks[j], j, |chunks|);
      assert ChunkLog(chunks, k) == prev + ev;
      ChunkLogSpec(chunks, j);
      EventsAppend(prev, ev);
      ChunkEventsSpec(chunks[j], j, |chunks|);
      assert chunks[..j + 1] == chunks[..j] + [chunks[j]];
      assert (prev + ev)[|prev + ev| - 1] == ev[|ev| - 1];
    }
  }

  lemma EventOne(e: Event)
    ensures Queries([e]) == if e.Query? then [e.chunk] else []
    ensures Sleeps([e]) == if e == Sleep then 1 else 0
  {
    assert [e][..0] == [];
  }

  /** The events of three single steps followed by `t`. */
  lemma EventsThree(a: Event, b: Event, c: Event, t: seq<Event>)
    ensures Queries([a, b, c] + t) == Queries([a]) + Queries([b]) + Queries([c]) + Queries(t)
    ensures Sleeps([a, b, c] + t) == Sleeps([a]) + Sleeps([b]) + Sleeps([c]) + Sleeps(t)
  {
    assert [a, b, c] + t == [a] + [b] + [c] + t;
    EventsAppend([a], [b]);
    EventsAppend([a] + [b], [c]);
    EventsAppend([a] + [b] + [c], t);
  }

  lemma HeadEvents(n: nat)
    ensures Queries([ReadingInfo(n), ProgressBar(0, n)]) == []
    ensures Sleeps([ReadingInfo(n), ProgressBar(0, n)]) == 0
  {
    assert [ReadingInfo(n), ProgressBar(0, n)] == [ReadingInfo(n)] + [ProgressBar(0, n)];
    EventsAppend([ReadingInfo(n)], [ProgressBar(0, n)]);
    EventOne(ReadingInfo(n));
    EventOne(ProgressBar(0, n));
  }

  /** A query-and-pause suffix: one query, then a pause or not. */
  lemma PassEvents(p1: Event, chunk: string, p2: Event, t: seq<Event>)
    requires !p1.Query? && p1 != Sleep && !p2.Query? && p2 != Sleep
    requires t == [] || t == [Sleep]
    ensures Queries([p1, Query(chunk), p2] + t) == [chunk]
    ensures Sleeps([p1, Query(chunk), p2] + t) == |t|
  {
    EventsThree(p1, Query(chunk), p2, t);
    EventOne(p1);
    EventOne(Query(chunk));
    EventOne(p2);
    if t != [] {
      EventOne(Sleep);
    }
  }

  lemma ChunkEventsSpec(chunk: string, i: nat, total: nat)
    ensures Queries(ChunkEvents(chunk, i, total)) == [chunk]
    ensures Sleeps(ChunkEvents(chunk, i, total)) == if i < total - 1 then 1 else 0
    ensures ChunkEvents(chunk, i, total)[|ChunkEvents(chunk, i, total)| - 1] ==
      if i < total - 1 then Sleep else ProgressBar(i + 1, total)
  {
    var tail: seq<Event> := if i < total - 1 then [Sleep] else [];
    PassEvents(ProgressText(i + 1, total), chunk, ProgressBar(i + 1, total), tail);
  }

  /**
   * The whole paragraph-mode run: refused uploads and documents over the
   * quota make no query; otherwise one query and one record per chunk, the
   * records numbered 1, 2, ... in chunk order, and one pause fewer than chunks.
   */
  lemma ProcessDocumentSpec(u: Upload, llm: string -> Reply)
    requires ExtractText(u).Success?
    ensures var chunks := ExtractText(u).value;
      && Queries(ChunkLog(chunks, |chunks|)) == chunks
      && Sleeps(ChunkLog(chunks, |chunks|)) == (if chunks == [] then 0 else |chunks| - 1)
      && forall i :: 0 <= i < |chunks| ==>
           ChunkRecords(chunks, llm)[i].number == i + 1 && ChunkRecords(chunks, llm)[i].text == chunks[i]
  {
    var chunks := ExtractText(u).value;
    ChunkLogSpec(chunks, |chunks|);
    assert chunks[..|chunks|] == chunks;
    forall i | 0 <= i < |chunks| ensures Strip(chunks[i]) == chunks[i] {
      StripStripped(chunks[i]);
    }
  }

  // ---------------------------------------------------------------- label mode

  /** How the labels on a page are found: `find_policy_labels`, as `FindPolicyLabels`. */
  type Finder = (string, seq<string>) -> seq<string>

  /** The labels found on a page. */
  function Found(p: PageText, labels: seq<string>, find: Finder): seq<string> {
    find(p.text, labels)
  }

  /** The two page tests of the label mode: a non-empty text, and a label found. */
  predicate NonEmptyText(p: PageText) {
    p.text != []
  }

  function HasLabels(labels: seq<string>, find: Finder): PageText -> bool {
    p => Found(p, labels, find) != []
  }

  /** The pages the filter keeps, in their order. */
  function Filter(pages: seq<PageText>, keep: PageText -> bool): (r: seq<PageText>)
    ensures |r| <= |pages|
    ensures forall k :: 0 <= k < |r| ==> keep(r[k])
  {
    if pages == [] then []
    else
      var n := |pages| - 1;
      Filter(pages[..n], keep) + (if keep(pages[n]) then [pages[n]] else [])
  }

  /** Every page kept comes from the input. */
  lemma {:induction false} FilterFrom(pages: seq<PageText>, keep: PageText -> bool, k: nat)
    requires k < |Filter(pages, keep)|
    ensures exists i :: 0 <= i < |pages| && Filter(pages, keep)[k] == pages[i]
    decreases |pages|
  {
    var n := |pages| - 1;
    var init := pages[..n];
    if k < |Filter(init, keep)| {
      FilterFrom(init, keep, k);
      var i :| 0 <= i < |init| && Filter(init, keep)[k] == init[i];
      assert pages[i] == init[i];
    } else {
      assert Filter(pages, keep)[k] == pages[n];
    }
  }

  /** Every input page the filter accepts is kept. */
  lemma {:induction false} FilterHas(pages: seq<PageText>, keep: PageText -> bool, i: nat)
    requires i < |pages| && keep(pages[i])
    ensures pages[i] in Filter(pages, keep)
    decreases |pages|
  {
    var n := |pages| - 1;
    if i < n {
      FilterHas(pages[..n], keep, i);
      assert pages[..n][i] == pages[i];
    }
  }

  lemma FilterSnoc(pages: seq<PageText>, k: nat, keep: PageText -> bool)
    requires k < |pages|
    ensures Filter(pages[..k + 1], keep) == Filter(pages[..k], keep) + (if keep(pages[k]) then [pages[k]] else [])
  {
    assert pages[..k + 1][..k] == pages[..k];
  }

  /** Page numbers increase along the sequence. */
  predicate Increasing(pages: seq<PageText>) {
    forall a, b :: 0 <= a < b < |pages| ==> pages[a].pageNum < pages[b].pageNum
  }

  /** Filtering keeps the page order. */
  lemma {:induction false} FilterIncreasing(pages: seq<PageText>, keep: PageText -> bool)
    requires Increasing(pages)
    ensures Increasing(Filter(pages, keep))
    decreases |pages|
  {
    if pages != [] {
      var n := |pages| - 1;
      var init := pages[..n];
      assert Increasing(init);
      FilterIncreasing(init, keep);
      var r, ri := Filter(pages, keep), Filter(init, keep);
      forall a, b | 0 <= a < b < |r| ensures r[a].pageNum < r[b].pageNum {
        if b >= |ri| {
          FilterFrom(init, keep, a);
          var m :| 0 <= m < |init| && ri[a] == init[m];
          assert pages[m] == init[m];
        }
      }
    }
  }

  /** `[(p["page_num"], p["text"]) for p in text_chunks if p["text"]]`. */
  function NonEmptyPages(pages: seq<PageText>): (r: seq<PageText>)
    ensures |r| <= |pages|
    ensures forall k :: 0 <= k < |r| ==> r[k].text != []
  {
    Filter(pages, NonEmptyText)
  }

  /** The texts of a sequence of pages. */
  function Texts(pages: seq<PageText>): (r: seq<string>)
    ensures |r| == |pages| && forall k :: 0 <= k < |pages| ==> r[k] == pages[k].text
  {
    seq(|pages|, k requires 0 <= k < |pages| => pages[k].text)
  }

  lemma TextsSnoc(pages: seq<PageText>, p: PageText)
    ensures Texts(pages + [p]) == Texts(pages) + [p.text]
  {
  }

  lemma TextsFilterSnoc(pages: seq<PageText>, k: nat, keep: PageText -> bool)
    requires k < |pages|
    ensures Texts(Filter(pages[..k + 1], keep)) ==
      Texts(Filter(pages[..k], keep)) + (if keep(pages[k]) then [pages[k].text] else [])
  {
    FilterSnoc(pages, k, keep);
    if keep(pages[k]) {
      TextsSnoc(Filter(pages[..k], keep), pages[k]);
    } else {
      assert Filter(pages[..k + 1], keep) == Filter(pages[..k], keep);
    }
  }

  /**
   * The events of pass `i` over a page, `total` being the number of raw
   * pages; a page with a label pauses when `i < sleepBound - 1`.
   */
  function PageEvents(p: PageText, labels: seq<string>, find: Finder, i: nat, total: nat, sleepBound: nat): seq<Event> {
    if Found(p, labels, find) == [] then [ProgressText(i + 1, total), NoLabelsFound]
    else
      [ProgressText(i + 1, total), Query(p.text), ProgressBar(i + 1, total)]
        + (if i < sleepBound - 1 then [Sleep] else [])
  }

  /** The events up to the end of the first `k` passes, starting with the announcement and the empty bar. */
  function PageLog(pcs: seq<PageText>, labels: seq<string>, find: Finder, k: nat, total: nat, sleepBound: nat): seq<Event>
    requires k <= |pcs|
  {
    if k == 0 then [ReadingInfo(total), ProgressBar(0, total)]
    else PageLog(pcs, labels, find, k - 1, total, sleepBound) + PageEvents(pcs[k - 1], labels, find, k - 1, total, sleepBound)
  }

  /** The record of a page on which labels were found. */
  function PageRecord(p: PageText, labels: seq<string>, find: Finder, llm: (string, seq<string>) -> Reply): Record {
    Record(p.pageNum, Strip(p.text), PolicyOf(llm(p.text, Found(p, labels, find))))
  }

  /** One record per page on which a label is found, in page order. */
  function PageRecords(pcs: seq<PageText>, labels: seq<string>, find: Finder, llm: (string, seq<string>) -> Reply): seq<Record> {
    if pcs == [] then []
    else
      var n := |pcs| - 1;
      PageRecords(pcs[..n], labels, find, llm)
        + (if Found(pcs[n], labels, find) == [] then [] else [PageRecord(pcs[n], labels, find, llm)])
  }

  /**
   * `process_document_with_labels(doc, labels)`, as written: the pause after
   * a page is guarded by the number of raw pages, while the loop runs over
   * the non-empty ones.
   */
  method ProcessDocumentWithLabels(raw: seq<string>, labels: seq<string>, llm: (string, seq<string>) -> Reply)
    returns (out: Outcome, log: seq<Event>)
    ensures |raw| > PageQuota ==> out == OverQuota && log == [QuotaWarning]
    ensures |raw| <= PageQuota ==>
      var pcs := NonEmptyPages(NumberedPages(raw));
      && out == Table(PageRecords(pcs, labels, FindPolicyLabels, llm))
      && log == PageLog(pcs, labels, FindPolicyLabels, |pcs|, |raw|, |raw|)
  {
    var textChunks := ExtractTextWithPageNumbers(raw);
    var pageChunks := NonEmptyPages(textChunks);
    var totalChunks := |textChunks|;
    if totalChunks > PageQuota {
      return OverQuota, [QuotaWarning];
    }
    out, log := LabelLoop(pageChunks, labels, FindPolicyLabels, llm, totalChunks, totalChunks);
  }

  /**
   * `process_document_with_labels` with the pause guarded by the number of
   * pages the loop visits, so that the last pass of the loop never pauses.
   */
  method ProcessDocumentWithLabelsFixed(raw: seq<string>, labels: seq<string>, llm: (string, seq<string>) -> Reply)
    returns (out: Outcome, log: seq<Event>)
    ensures |raw| > PageQuota ==> out == OverQuota && log == [QuotaWarning]
    ensures |raw| <= PageQuota ==>
      var pcs := NonEmptyPages(NumberedPages(raw));
      && out == Table(PageRecords(pcs, labels, FindPolicyLabels, llm))
      && log == PageLog(pcs, labels, FindPolicyLabels, |pcs|, |raw|, |pcs|)
  {
    var textChunks := ExtractTextWithPageNumbers(raw);
    var pageChunks := NonEmptyPages(textChunks);
    var totalChunks := |textChunks|;
    if totalChunks > PageQuota {
      return OverQuota, [QuotaWarning];
    }
    out, log := LabelLoop(pageChunks, labels, FindPolicyLabels, llm, totalChunks, |pageChunks|);
  }

  /** The page loop of `process_document_with_labels`, pausing after pass `i` when `i < sleepBound - 1`. */
  method LabelLoop(pageChunks: seq<PageText>, labels: seq<string>, find: Finder, llm: (string, seq<string>) -> Reply,
                   totalChunks: nat, sleepBound: nat)
    returns (out: Outcome, log: seq<Event>)
    ensures out == Table(PageRecords(pageChunks, labels, find, llm))
    ensures log == PageLog(pageChunks, labels, find, |pageChunks|, totalChunks, sleepBound)
  {
    log := [ReadingInfo(totalChunks), ProgressBar(0, totalChunks)];
    var results: seq<Record> := [];
    for i := 0 to |pageChunks|
      invariant results == PageRecords(pageChunks[..i], labels, find, llm)
      invariant log == PageLog(pageChunks, labels, find, i, totalChunks, sleepBound)
    {
      PageRecordsSnoc(pageChunks, i, labels, find, llm);
      ghost var log0 := log;
      var pageNumber, paraText := pageChunks[i].pageNum, pageChunks[i].text;
      log := log + [ProgressText(i + 1, totalChunks)];
      var foundLabels := find(paraText, labels);
      if foundLabels == [] {
        log := log + [NoLabelsFound];
        RegroupTwo(log0, ProgressText(i + 1, totalChunks), NoLabelsFound);
        continue;
      }
      var policy := QueryResult(llm(paraText, foundLabels));
      log := log + [Query(paraText)];
      var stored := Strip(policy);
      assert Record(pageNumber, Strip(paraText), stored) == PageRecord(pageChunks[i], labels, find, llm);
      results := results + [Record(pageNumber, Strip(paraText), stored)];
      log := log + [ProgressBar(i + 1, totalChunks)];
      if i < sleepBound - 1 {
        log := log + [Sleep];
      }
      ghost var tail: seq<Event> := if i < sleepBound - 1 then [Sleep] else [];
      Regroup(log0, ProgressText(i + 1, totalChunks), Query(paraText), ProgressBar(i + 1, totalChunks), tail);
    }
    assert pageChunks[..|pageChunks|] == pageChunks;
    out := Table(results);
  }

  /**
   * A page without labels is not queried and reaches no pause; a page with
   * labels is queried once, and pauses when `i < sleepBound - 1`.
   */
  lemma PageEventsSpec(p: PageText, labels: seq<string>, find: Finder, i: nat, total: nat, sleepBound: nat)
    ensures Queries(PageEvents(p, labels, find, i, total, sleepBound)) == if Found(p, labels, find) == [] then [] else [p.text]
    ensures Sleeps(PageEvents(p, labels, find, i, total, sleepBound)) ==
      if Found(p, labels, find) != [] && i < sleepBound - 1 then 1 else 0
  {
    if Found(p, labels, find) == [] {
      assert [ProgressText(i + 1, total), NoLabelsFound] == [ProgressText(i + 1, total)] + [NoLabelsFound];
      EventsAppend([ProgressText(i + 1, total)], [NoLabelsFound]);
      EventOne(ProgressText(i + 1, total));
      EventOne(NoLabelsFound);
    } else {
      var tail: seq<Event> := if i < sleepBound - 1 then [Sleep] else [];
      PassEvents(ProgressText(i + 1, total), p.text, ProgressBar(i + 1, total), tail);
    }
  }

  /** The pages of the first `k` passes that are queried: exactly those on which a label is found, in order. */
  lemma {:induction false} PageLogQueries(pcs: seq<PageText>, labels: seq<string>, find: Finder, k: nat, total: nat, sleepBound: nat)
    requires k <= |pcs|
    ensures Queries(PageLog(pcs, labels, find, k, total, sleepBound)) == Texts(Filter(pcs[..k], HasLabels(labels, find)))
    decreases k
  {
    if k == 0 {
      HeadEvents(total);
    } else {
      var j := k - 1;
      PageLogQueries(pcs, labels, find, j, total, sleepBound);
      PageLogStep(pcs, labels, find, j, total, sleepBound);
      TextsFilterSnoc(pcs, j, HasLabels(labels, find));
    }
  }

  lemma PageLogStep(pcs: seq<PageText>, labels: seq<string>, find: Finder, k: nat, total: nat, sleepBound: nat)
    requires k < |pcs|
    ensures Queries(PageLog(pcs, labels, find, k + 1, total, sleepBound)) ==
      Queries(PageLog(pcs, labels, find, k, total, sleepBound))
        + (if HasLabels(labels, find)(pcs[k]) then [pcs[k].text] else [])
  {
    var p := pcs[k];
    var prev, ev := PageLog(pcs, labels, find, k, total, sleepBound), PageEvents(p, labels, find, k, total, sleepBound);
    EventsAppend(prev, ev);
    PageEventsSpec(p, labels, find, k, total, sleepBound);
  }

  /** The records are those of the pages on which a label is found, in order. */
  lemma {:induction false} PageRecordsFound(pcs: seq<PageText>, labels: seq<string>, find: Finder, llm: (string, seq<string>) -> Reply)
    ensures |PageRecords(pcs, labels, find, llm)| == |Filter(pcs, HasLabels(labels, find))|
    ensures forall j :: 0 <= j < |PageRecords(pcs, labels, find, llm)| ==>
      PageRecords(pcs, labels, find, llm)[j] == PageRecord(Filter(pcs, HasLabels(labels, find))[j], labels, find, llm)
    decreases |pcs|
  {
    if pcs != [] {
      var n := |pcs| - 1;
      PageRecordsFound(pcs[..n], labels, find, llm);
      assert pcs[..n + 1] == pcs;
      PageRecordsSnoc(pcs, n, labels, find, llm);
      FilterSnoc(pcs, n, HasLabels(labels, find));
      var r, ri := PageRecords(pcs, labels, find, llm), PageRecords(pcs[..n], labels, find, llm);
      var f, fi := Filter(pcs, HasLabels(labels, find)), Filter(pcs[..n], HasLabels(labels, find));
      forall j | 0 <= j < |r| ensures r[j] == PageRecord(f[j], labels, find, llm) {
        if j < |ri| {
          assert r[j] == ri[j] && f[j] == fi[j];
        }
      }
    }
  }

  lemma PageRecordsSnoc(pcs: seq<PageText>, k: nat, labels: seq<string>, find: Finder, llm: (string, seq<string>) -> Reply)
    requires k < |pcs|
    ensures PageRecords(pcs[..k + 1], labels, find, llm) ==
      PageRecords(pcs[..k], labels, find, llm) + (if Found(pcs[k], labels, find) == [] then [] else [PageRecord(pcs[k], labels, find, llm)])
  {
    assert pcs[..k + 1][..k] == pcs[..k];
  }

  // ---------------------------------------------------------------- label mode, whole runs

  /** The pages of a PDF that the label mode queries: non-empty ones on which a label is found. */
  function LabelPages(raw: seq<string>, labels: seq<string>, find: Finder): seq<PageText> {
    Filter(NonEmptyPages(NumberedPages(raw)), HasLabels(labels, find))
  }

  lemma NumberedPagesIncreasing(raw: seq<string>)
    ensures Increasing(NumberedPages(raw))
  {
  }

  /** Each page a test keeps among the non-empty ones is a raw page, numbered from 1, non-empty once stripped. */
  lemma RawPagesFrom(raw: seq<string>, keep: PageText -> bool, j: nat)
    requires j < |Filter(NonEmptyPages(NumberedPages(raw)), keep)|
    ensures var p := Filter(NonEmptyPages(NumberedPages(raw)), keep)[j];
      1 <= p.pageNum <= |raw| && p.text == Strip(raw[p.pageNum - 1]) && p.text != [] && keep(p)
  {
    var np := NumberedPages(raw);
    var pcs := NonEmptyPages(np);
    FilterFrom(pcs, keep, j);
    var i :| 0 <= i < |pcs| && Filter(pcs, keep)[j] == pcs[i];
    FilterFrom(np, NonEmptyText, i);
  }

  /** Every non-empty raw page the test accepts is kept. */
  lemma RawPagesHas(raw: seq<string>, keep: PageText -> bool, i: nat)
    requires i < |raw| && Strip(raw[i]) != [] && keep(PageText(i + 1, Strip(raw[i])))
    ensures PageText(i + 1, Strip(raw[i])) in Filter(NonEmptyPages(NumberedPages(raw)), keep)
  {
    var np := NumberedPages(raw);
    var pcs := NonEmptyPages(np);
    FilterHas(np, NonEmptyText, i);
    var m :| 0 <= m < |pcs| && pcs[m] == np[i];
    FilterHas(pcs, keep, m);
  }

  lemma RawPagesIncreasing(raw: seq<string>, keep: PageText -> bool)
    ensures Increasing(Filter(NonEmptyPages(NumberedPages(raw)), keep))
  {
    NumberedPagesIncreasing(raw);
    FilterIncreasing(NumberedPages(raw), NonEmptyText);
    FilterIncreasing(NonEmptyPages(NumberedPages(raw)), keep);
  }

  /** Each queried page is a raw page, numbered from 1, non-empty once stripped and bearing a label. */
  lemma LabelPagesFrom(raw: seq<string>, labels: seq<string>, find: Finder, j: nat)
    requires j < |LabelPages(raw, labels, find)|
    ensures var p := LabelPages(raw, labels, find)[j];
      && 1 <= p.pageNum <= |raw| && p.text == Strip(raw[p.pageNum - 1])
      && p.text != [] && find(p.text, labels) != []
  {
    var f := Filter(NonEmptyPages(NumberedPages(raw)), HasLabels(labels, find));
    assert LabelPages(raw, labels, find) == f;
    RawPagesFrom(raw, HasLabels(labels, find), j);
    assert HasLabels(labels, find)(f[j]);
  }

  /** The records of a run are those of the queried pages, in order. */
  lemma LabelRecordsArePages(raw: seq<string>, labels: seq<string>, find: Finder, llm: (string, seq<string>) -> Reply)
    ensures var recs, f := PageRecords(NonEmptyPages(NumberedPages(raw)), labels, find, llm), LabelPages(raw, labels, find);
      |recs| == |f| && forall j :: 0 <= j < |recs| ==> recs[j] == PageRecord(f[j], labels, find, llm)
  {
    PageRecordsFound(NonEmptyPages(NumberedPages(raw)), labels, find, llm);
  }

  /**
   * Within the quota, whatever guards the pauses: one query per record, in
   * order, each on the text the record holds.
   */
  lemma LabelRunQueries(raw: seq<string>, labels: seq<string>, find: Finder, llm: (string, seq<string>) -> Reply, sleepBound: nat)
    ensures var pcs := NonEmptyPages(NumberedPages(raw));
      var recs, qs := PageRecords(pcs, labels, find, llm), Queries(PageLog(pcs, labels, find, |pcs|, |raw|, sleepBound));
      |qs| == |recs| && forall j :: 0 <= j < |recs| ==> qs[j] == recs[j].text
  {
    var pcs := NonEmptyPages(NumberedPages(raw));
    var f := LabelPages(raw, labels, find);
    LabelRecordsArePages(raw, labels, find, llm);
    PageLogQueries(pcs, labels, find, |pcs|, |raw|, sleepBound);
    assert pcs[..|pcs|] == pcs;
    forall j | 0 <= j < |f| ensures Strip(f[j].text) == f[j].text {
      LabelPagesFrom(raw, labels, find, j);
      StripIdempotent(raw[f[j].pageNum - 1]);
    }
  }

  /** The records are in increasing page order. */
  lemma LabelRecordsIncreasing(raw: seq<string>, labels: seq<string>, find: Finder, llm: (string, seq<string>) -> Reply)
    ensures var recs := PageRecords(NonEmptyPages(NumberedPages(raw)), labels, find, llm);
      forall a, b :: 0 <= a < b < |recs| ==> recs[a].number < recs[b].number
  {
    LabelRecordsArePages(raw, labels, find, llm);
    RawPagesIncreasing(raw, HasLabels(labels, find));
  }

  /**
   * Each record is for a non-empty page on which a label is found, and holds
   * the stripped page and the policies extracted from it.
   */
  lemma LabelRecordOf(raw: seq<string>, labels: seq<string>, find: Finder, llm: (string, seq<string>) -> Reply, j: nat)
    requires j < |PageRecords(NonEmptyPages(NumberedPages(raw)), labels, find, llm)|
    ensures var r := PageRecords(NonEmptyPages(NumberedPages(raw)), labels, find, llm)[j];
      && 1 <= r.number <= |raw| && r.text == Strip(raw[r.number - 1])
      && r.text != [] && find(r.text, labels) != []
      && r.policy == PolicyOf(llm(r.text, find(r.text, labels)))
  {
    var f := LabelPages(raw, labels, find);
    LabelRecordsArePages(raw, labels, find, llm);
    LabelPagesFrom(raw, labels, find, j);
    StripIdempotent(raw[f[j].pageNum - 1]);
  }

  /** Every non-empty page on which a label is found has its record. */
  lemma LabelRecordsComplete(raw: seq<string>, labels: seq<string>, find: Finder, llm: (string, seq<string>) -> Reply, i: nat)
    requires i < |raw| && Strip(raw[i]) != [] && find(Strip(raw[i]), labels) != []
    ensures var recs := PageRecords(NonEmptyPages(NumberedPages(raw)), labels, find, llm);
      exists j :: 0 <= j < |recs| && recs[j].number == i + 1
  {
    var recs := PageRecords(NonEmptyPages(NumberedPages(raw)), labels, find, llm);
    var f := LabelPages(raw, labels, find);
    LabelRecordsArePages(raw, labels, find, llm);
    assert HasLabels(labels, find)(PageText(i + 1, Strip(raw[i])));
    RawPagesHas(raw, HasLabels(labels, find), i);
    var j :| 0 <= j < |f| && f[j] == PageText(i + 1, Strip(raw[i]));
    assert recs[j].number == i + 1;
  }

  /** While every pass so far is below the guard bound, each labelled page has paused once. */
  lemma {:induction false} PageLogSleeps(pcs: seq<PageText>, labels: seq<string>, find: Finder, k: nat, total: nat, sleepBound: nat)
    requires k <= |pcs| && k < sleepBound
    ensures Sleeps(PageLog(pcs, labels, find, k, total, sleepBound)) == |Filter(pcs[..k], HasLabels(labels, find))|
    decreases k
  {
    if k == 0 {
      HeadEvents(total);
    } else {
      var j := k - 1;
      PageLogSleeps(pcs, labels, find, j, total, sleepBound);
      EventsAppend(PageLog(pcs, labels, find, j, total, sleepBound), PageEvents(pcs[j], labels, find, j, total, sleepBound));
      PageEventsSpec(pcs[j], labels, find, j, total, sleepBound);
      FilterSnoc(pcs, j, HasLabels(labels, find));
    }
  }

  /**
   * When the guard bound exceeds the number of visited pages, as the raw page
   * count does once a page is blank, every query is followed by a pause, the
   * last one included.
   */
  lemma AsWrittenPausesAfterEveryQuery(pcs: seq<PageText>, labels: seq<string>, find: Finder, total: nat, sleepBound: nat)
    requires |pcs| < sleepBound
    ensures var log := PageLog(pcs, labels, find, |pcs|, total, sleepBound);
      Sleeps(log) == |Queries(log)|
  {
    PageLogSleeps(pcs, labels, find, |pcs|, total, sleepBound);
    PageLogQueries(pcs, labels, find, |pcs|, total, sleepBound);
  }

  /**
   * With the pause guarded by the number of visited pages, the last pass of
   * the loop never pauses, so a run never ends on a pause; every labelled page
   * before the last visited one pauses once. A pause still follows the last
   * query when the pages visited after it have no label.
   */
  lemma FixedRunEndsWithoutPause(pcs: seq<PageText>, labels: seq<string>, find: Finder, total: nat)
    ensures var log := PageLog(pcs, labels, find, |pcs|, total, |pcs|);
      log != [] && log[|log| - 1] != Sleep
    ensures pcs != [] ==>
      Sleeps(PageLog(pcs, labels, find, |pcs|, total, |pcs|)) == |Filter(pcs[..|pcs| - 1], HasLabels(labels, find))|
  {
    if pcs != [] {
      var k := |pcs| - 1;
      var prev := PageLog(pcs, labels, find, k, total, |pcs|);
      var ev := PageEvents(pcs[k], labels, find, k, total, |pcs|);
      assert PageLog(pcs, labels, find, k + 1, total, |pcs|) == prev + ev;
      assert ev[|ev| - 1] != Sleep;
      PageLogSleeps(pcs, labels, find, k, total, |pcs|);
      EventsAppend(prev, ev);
      PageEventsSpec(pcs[k], labels, find, k, total, |pcs|);
    }
  }

  /**
   * As written, a document whose last page is empty makes the run pause after
   * its last query: the pages "Policy 1" and "" with the label "Policy 1".
   */
  lemma AsWrittenRunEndsOnPause()
    ensures var raw, labels := ["Policy 1", ""], ["Policy 1"];
      var pcs := NonEmptyPages(NumberedPages(raw));
      var log := PageLog(pcs, labels, FindPolicyLabels, |pcs|, |raw|, |raw|);
      log != [] && log[|log| - 1] == Sleep
  {
    var raw, labels := ["Policy 1", ""], ["Policy 1"];
    var page := "Policy 1";
    assert !IsSpace(page[0]) && !IsSpace(page[7]);
    StripStripped(page);
    StripStripped("");
    var np := NumberedPages(raw);
    assert np == [PageText(1, page), PageText(2, "")];
    FilterSnoc(np, 0, NonEmptyText);
    FilterSnoc(np, 1, NonEmptyText);
    assert np[..0] == [] && np[..2] == np;
    var pcs := NonEmptyPages(np);
    assert pcs == [PageText(1, page)];
    assert OccursCaseless(page, labels[0], 0) by {
      assert page[0..0 + |labels[0]|] == page;
    }
    LabelOnPageIsFound(page, labels, 0, 0);
    assert Found(pcs[0], labels, FindPolicyLabels) != [];
    var ev := PageEvents(pcs[0], labels, FindPolicyLabels, 0, 2, 2);
    assert ev == [ProgressText(1, 2), Query(page), ProgressBar(1, 2)] + [Sleep];
    assert PageLog(pcs, labels, FindPolicyLabels, 1, 2, 2) == PageLog(pcs, labels, FindPolicyLabels, 0, 2, 2) + ev;
  }
}
