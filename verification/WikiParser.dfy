/**
 * The streaming parser: for every `page` element that the incremental XML reader
 * completes, scan it, enrich it (clean, then extract events from the cleaned text), yield a
 * record, report progress, and clear the element. The reader is modelled as the sequence
 * of elements whose end tags it reports, in document order; the two enrichment stages are
 * parameters, tied to the service client by `CleansVia` and `ExtractsVia`.
 */
module WikiParser {
  import opened Wrappers
  import opened Json
  import Tags
  import Strings
  import LlmClient
  import opened PageExtractor

  /** The output record of one page. */
  datatype WikiPage = WikiPage(
    title: string,
    rawContent: string,
    plainTextContent: string,
    events: seq<Json>,
    link: string)

  /** Everything a run produces: records, progress reports, and how many pages were cleared. */
  datatype Output = Output(records: seq<WikiPage>, trace: seq<Status>, clears: nat)

  /** A record whose fields hang together the way the parser builds them. */
  predicate Enriched(r: WikiPage, clean: string -> string, extract: string -> seq<Json>) {
    && r.title != []
    && r.plainTextContent == clean(r.rawContent)
    && r.events == extract(r.plainTextContent)
    && r.link == Tags.WikiUrl(r.title)
  }

  /** What one `page` element contributes: a record or nothing, and its reports. */
  datatype PageResult = PageResult(record: Option<WikiPage>, trace: seq<Status>)

  /**
   * A page yields a record exactly when its final title is non-empty, and without a
   * callback it reports nothing. `PageRecord` and `PageTrace` say what the record and
   * the reports are.
   */
  function ProcessPage(page: Element, clean: string -> string, extract: string -> seq<Json>,
                       callback: bool): (r: PageResult)
    ensures r.record.Some? <==> Truthy(ScanChildren(page.children, false).title)
    ensures !callback ==> r.trace == []
  {
    ScanSilent(page.children);
    ScanSameFields(page.children);
    var s := ScanChildren(page.children, callback);
    if Truthy(s.title) then
      var t := s.title.value;
      var raw := OrEmpty(s.text);
      var plain := clean(raw);
      var events := extract(plain);
      PageResult(
        Some(WikiPage(t, raw, plain, events, Tags.WikiUrl(t))),
        s.trace + (if callback then [Llm(t), Events(t), EventsDone(t, |events|)] else []))
    else
      PageResult(None, s.trace)
  }

  /**
   * A page's record carries the final title and the final text (or "" when there is
   * none) as raw content, cleans that, extracts events from the cleaned text, and links
   * the title; none of this depends on the callback.
   */
  lemma PageRecord(page: Element, clean: string -> string, extract: string -> seq<Json>, callback: bool)
    ensures var r := ProcessPage(page, clean, extract, callback).record;
      r.Some? ==>
        && Enriched(r.value, clean, extract)
        && r.value.title == ScanChildren(page.children, false).title.value
        && r.value.rawContent == OrEmpty(ScanChildren(page.children, false).text)
  {
    ScanSameFields(page.children);
  }

  /**
   * With a callback, a page's reports are the scan's own reports, followed by `llm`,
   * `events` and `events_done` (with the event count) when it yields a record.
   */
  lemma PageTrace(page: Element, clean: string -> string, extract: string -> seq<Json>)
    ensures var r := ProcessPage(page, clean, extract, true);
      && (r.record.None? ==> r.trace == ScanChildren(page.children, true).trace)
      && (r.record.Some? ==>
            var t := r.record.value.title;
            r.trace == ScanChildren(page.children, true).trace
                       + [Llm(t), Events(t), EventsDone(t, |r.record.value.events|)])
  {
    ScanSameFields(page.children);
  }

  /**
   * The whole run: non-page elements are passed over, every page is cleared once, and at
   * most one record comes out per page.
   */
  function ProcessXml(es: seq<Element>, clean: string -> string, extract: string -> seq<Json>,
                      callback: bool): (out: Output)
    decreases |es|
    ensures |out.records| <= out.clears
    ensures !callback ==> out.trace == []
  {
    if es == [] then Output([], [], 0)
    else
      var rest := ProcessXml(es[1..], clean, extract, callback);
      if !IsPage(es[0]) then rest
      else
        var r := ProcessPage(es[0], clean, extract, callback);
        Output(AsSeq(r.record) + rest.records, r.trace + rest.trace, rest.clears + 1)
  }

  /** Every `page` element is cleared exactly once, and nothing else is. */
  lemma {:induction false} ClearsCountPages(es: seq<Element>, clean: string -> string, extract: string -> seq<Json>,
                                            callback: bool)
    ensures ProcessXml(es, clean, extract, callback).clears == |Pages(es)|
    ensures ProcessXml(es, clean, extract, callback).clears == |Positions(es, IsPage)|
  {
    if es != [] {
      ClearsCountPages(es[1..], clean, extract, callback);
    }
    PageCount(es);
  }

  /** Every record of a run is built the way the parser builds one: title, cleaning, extraction, link. */
  lemma {:induction false} RecordsEnriched(es: seq<Element>, clean: string -> string, extract: string -> seq<Json>,
                                           callback: bool)
    ensures forall k :: 0 <= k < |ProcessXml(es, clean, extract, callback).records| ==>
      Enriched(ProcessXml(es, clean, extract, callback).records[k], clean, extract)
  {
    if es != [] {
      RecordsEnriched(es[1..], clean, extract, callback);
      if IsPage(es[0]) {
        var r := ProcessPage(es[0], clean, extract, callback);
        PageRecord(es[0], clean, extract, callback);
        EnrichedConcat(AsSeq(r.record), ProcessXml(es[1..], clean, extract, callback).records, clean, extract);
      }
    }
  }

  lemma EnrichedConcat(a: seq<WikiPage>, b: seq<WikiPage>, clean: string -> string, extract: string -> seq<Json>)
    requires forall k :: 0 <= k < |a| ==> Enriched(a[k], clean, extract)
    requires forall k :: 0 <= k < |b| ==> Enriched(b[k], clean, extract)
    ensures forall k :: 0 <= k < |a + b| ==> Enriched((a + b)[k], clean, extract)
  {
    forall k | 0 <= k < |a + b| ensures Enriched((a + b)[k], clean, extract) {
      if k >= |a| {
        assert (a + b)[k] == b[k - |a|];
      }
    }
  }

  /**
   * The run is a single forward pass with no state carried between pages: processing a
   * stream in two halves and concatenating gives the same records, reports and clears.
   */
  lemma StreamSplits(a: seq<Element>, b: seq<Element>,
                      clean: string -> string, extract: string -> seq<Json>, callback: bool)
    ensures var out, x, y := ProcessXml(a + b, clean, extract, callback),
                             ProcessXml(a, clean, extract, callback), ProcessXml(b, clean, extract, callback);
      && out.records == x.records + y.records
      && out.trace == x.trace + y.trace
      && out.clears == x.clears + y.clears
  {
    RecordsSplit(a, b, clean, extract, callback);
    TraceSplits(a, b, clean, extract, callback);
    ClearsSplit(a, b, clean, extract, callback);
  }

  lemma {:induction false} RecordsSplit(a: seq<Element>, b: seq<Element>,
                                        clean: string -> string, extract: string -> seq<Json>, callback: bool)
    ensures ProcessXml(a + b, clean, extract, callback).records
         == ProcessXml(a, clean, extract, callback).records + ProcessXml(b, clean, extract, callback).records
  {
    if a == [] {
      assert a + b == b;
    } else {
      assert (a + b)[0] == a[0];
      assert (a + b)[1..] == a[1..] + b;
      RecordsSplit(a[1..], b, clean, extract, callback);
    }
  }

  lemma {:induction false} TraceSplits(a: seq<Element>, b: seq<Element>,
                                       clean: string -> string, extract: string -> seq<Json>, callback: bool)
    ensures ProcessXml(a + b, clean, extract, callback).trace
         == ProcessXml(a, clean, extract, callback).trace + ProcessXml(b, clean, extract, callback).trace
  {
    if a == [] {
      assert a + b == b;
    } else {
      assert (a + b)[0] == a[0];
      assert (a + b)[1..] == a[1..] + b;
      TraceSplits(a[1..], b, clean, extract, callback);
    }
  }

  lemma {:induction false} ClearsSplit(a: seq<Element>, b: seq<Element>,
                                       clean: string -> string, extract: string -> seq<Json>, callback: bool)
    ensures ProcessXml(a + b, clean, extract, callback).clears
         == ProcessXml(a, clean, extract, callback).clears + ProcessXml(b, clean, extract, callback).clears
  {
    if a == [] {
      assert a + b == b;
    } else {
      assert (a + b)[0] == a[0];
      assert (a + b)[1..] == a[1..] + b;
      ClearsSplit(a[1..], b, clean, extract, callback);
    }
  }

  /**
   * A single element: a page contributes its own result and one clear; anything else
   * contributes nothing. With `StreamSplits` this determines the whole run, in document order.
   */
  lemma SingleElement(e: Element, clean: string -> string, extract: string -> seq<Json>, callback: bool)
    ensures var out := ProcessXml([e], clean, extract, callback);
      var r := ProcessPage(e, clean, extract, callback);
      && out.records == (if IsPage(e) then AsSeq(r.record) else [])
      && out.trace == (if IsPage(e) then r.trace else [])
      && out.clears == (if IsPage(e) then 1 else 0)
  {
    assert [e][1..] == [];
  }

  /** Records and clears do not depend on whether a progress callback is supplied. */
  lemma {:induction false} CallbackIrrelevant(es: seq<Element>, clean: string -> string, extract: string -> seq<Json>)
    ensures ProcessXml(es, clean, extract, true).records == ProcessXml(es, clean, extract, false).records
    ensures ProcessXml(es, clean, extract, true).clears == ProcessXml(es, clean, extract, false).clears
  {
    if es != [] {
      CallbackIrrelevant(es[1..], clean, extract);
      PageRecord(es[0], clean, extract, true);
      PageRecord(es[0], clean, extract, false);
    }
  }

  /** The `events_done` reports of a trace as (title, count) pairs, in order. */
  function Completions(trace: seq<Status>): (cs: seq<(string, nat)>)
    ensures |cs| <= |trace|
  {
    if trace == [] then []
    else (if trace[0].EventsDone? then [(trace[0].title, trace[0].count)] else []) + Completions(trace[1..])
  }

  lemma {:induction false} CompletionsAppend(a: seq<Status>, b: seq<Status>)
    ensures Completions(a + b) == Completions(a) + Completions(b)
  {
    if a == [] {
      assert a + b == b;
    } else {
      assert (a + b)[0] == a[0];
      assert (a + b)[1..] == a[1..] + b;
      CompletionsAppend(a[1..], b);
      var h := if a[0].EventsDone? then [(a[0].title, a[0].count)] else [];
      assert Completions(a + b) == h + Completions(a[1..] + b);
      assert h + (Completions(a[1..]) + Completions(b)) == (h + Completions(a[1..])) + Completions(b);
    }
  }

  /** A trace holding only `start` and `content` reports has no completions. */
  lemma {:induction false} ScanHasNoCompletions(t: seq<Status>)
    requires forall k :: 0 <= k < |t| ==> t[k].Start? || t[k].Content?
    ensures Completions(t) == []
  {
    if t != [] {
      ScanHasNoCompletions(t[1..]);
    }
  }

  /** The (title, event count) of each record, in order. */
  function Summaries(records: seq<WikiPage>): (ss: seq<(string, nat)>)
    ensures |ss| == |records|
    ensures forall k :: 0 <= k < |records| ==> ss[k] == (records[k].title, |records[k].events|)
  {
    if records == [] then [] else [(records[0].title, |records[0].events|)] + Summaries(records[1..])
  }

  /**
   * With a callback, there is exactly one `events_done` report per record, in record order,
   * carrying that record's title and event count.
   */
  lemma {:induction false} CompletionsMatchRecords(es: seq<Element>, clean: string -> string, extract: string -> seq<Json>)
    ensures var out := ProcessXml(es, clean, extract, true);
      Completions(out.trace) == Summaries(out.records)
  {
    if es != [] {
      CompletionsMatchRecords(es[1..], clean, extract);
      if IsPage(es[0]) {
        var r := ProcessPage(es[0], clean, extract, true);
        var rest := ProcessXml(es[1..], clean, extract, true);
        PageCompletions(es[0], clean, extract);
        CompletionsAppend(r.trace, rest.trace);
        SummariesAppend(AsSeq(r.record), rest.records);
      }
    }
  }

  /** A page's reports complete once exactly when it yields a record, with that record's summary. */
  lemma PageCompletions(page: Element, clean: string -> string, extract: string -> seq<Json>)
    ensures var r := ProcessPage(page, clean, extract, true);
      Completions(r.trace) == Summaries(AsSeq(r.record))
  {
    var r := ProcessPage(page, clean, extract, true);
    var scan := ScanChildren(page.children, true);
    PageTrace(page, clean, extract);
    ContentFollowsStart(page.children);
    ScanHasNoCompletions(scan.trace);
    if r.record.Some? {
      var t := r.record.value.title;
      var tail := [Llm(t), Events(t), EventsDone(t, |r.record.value.events|)];
      CompletionsAppend(scan.trace, tail);
      assert tail[1..][1..][1..] == [];
      assert Completions(tail[1..][1..]) == [(t, |r.record.value.events|)];
      assert Completions(tail) == [(t, |r.record.value.events|)];
    }
  }

  lemma SummariesAppend(a: seq<WikiPage>, b: seq<WikiPage>)
    ensures Summaries(a + b) == Summaries(a) + Summaries(b)
  {
    var u, v := Summaries(a + b), Summaries(a) + Summaries(b);
    forall k | 0 <= k < |u| ensures u[k] == v[k] {
      if k >= |a| {
        assert (a + b)[k] == b[k - |a|];
      }
    }
  }

  /** `clean` is the cleaning call to the generation service. */
  ghost predicate CleansVia(clean: string -> string, cfg: LlmClient.Config,
                      service: LlmClient.Request -> LlmClient.Exchange) {
    forall t :: clean(t) == LlmClient.CleanWithLlm(cfg, service, t).result
  }

  /** `extract` is the extraction call to the generation service. */
  ghost predicate ExtractsVia(extract: string -> seq<Json>, cfg: LlmClient.Config,
                        service: LlmClient.Request -> LlmClient.Exchange, parse: string -> Option<Json>) {
    forall t :: extract(t) == LlmClient.ExtractEventsWithLlm(cfg, service, parse, t).result
  }

  /**
   * When every exchange with the service fails, the run still completes and each record
   * degrades: its plain text is its raw content (or "" when that is blank) and its event
   * list is empty.
   */
  lemma OutageDegradesGracefully(cfg: LlmClient.Config, service: LlmClient.Request -> LlmClient.Exchange,
                                 parse: string -> Option<Json>, clean: string -> string,
                                 extract: string -> seq<Json>, es: seq<Element>, callback: bool)
    requires forall q :: LlmClient.ReplyText(service(q)).None?
    requires CleansVia(clean, cfg, service) && ExtractsVia(extract, cfg, service, parse)
    ensures var out := ProcessXml(es, clean, extract, callback);
      forall k :: 0 <= k < |out.records| ==>
        && out.records[k].events == []
        && out.records[k].plainTextContent ==
             (if Strings.AllSpace(out.records[k].rawContent) then "" else out.records[k].rawContent)
  {
    var out := ProcessXml(es, clean, extract, callback);
    RecordsEnriched(es, clean, extract, callback);
    forall k | 0 <= k < |out.records|
      ensures out.records[k].events == []
      ensures out.records[k].plainTextContent ==
             (if Strings.AllSpace(out.records[k].rawContent) then "" else out.records[k].rawContent)
    {
      OutageRecord(cfg, service, parse, clean, extract, out.records[k]);
    }
  }

  /** One record under an outage: cleaning fell back to its input, extraction to the empty list. */
  lemma OutageRecord(cfg: LlmClient.Config, service: LlmClient.Request -> LlmClient.Exchange,
                     parse: string -> Option<Json>, clean: string -> string,
                     extract: string -> seq<Json>, r: WikiPage)
    requires forall q :: LlmClient.ReplyText(service(q)).None?
    requires CleansVia(clean, cfg, service) && ExtractsVia(extract, cfg, service, parse)
    requires Enriched(r, clean, extract)
    ensures r.events == []
    ensures r.plainTextContent == (if Strings.AllSpace(r.rawContent) then "" else r.rawContent)
  {
    assert LlmClient.ReplyText(service(LlmClient.CleanRequest(cfg, r.rawContent))).None?;
    assert LlmClient.ReplyText(service(LlmClient.ExtractRequest(cfg, r.plainTextContent))).None?;
  }

  /** The tag `local` qualified by namespace `uri`, as the XML reader reports it. */
  function Qualified(uri: string, local: string): string {
    "{" + uri + "}" + local
  }

  /**
   * Two pages with non-page elements before and between them: two clears, and the
   * records are the two pages' own records, in document order.
   */
  lemma InterleavedClears(lead: seq<Element>, page1: Element, mid: seq<Element>, page2: Element,
                          clean: string -> string, extract: string -> seq<Json>)
    requires forall k :: 0 <= k < |lead| ==> !IsPage(lead[k])
    requires forall k :: 0 <= k < |mid| ==> !IsPage(mid[k])
    requires IsPage(page1) && IsPage(page2)
    ensures ProcessXml(lead + ([page1] + (mid + [page2])), clean, extract, false).clears == 2
  {
    assert ProcessXml([page2], clean, extract, false).clears == 1 by {
      PageFirst(page2, [], clean, extract);
      assert [page2] + [] == [page2];
    }
    assert ProcessXml(mid + [page2], clean, extract, false).clears == 1 by {
      SkipNonPages(mid, [page2], clean, extract);
    }
    assert ProcessXml([page1] + (mid + [page2]), clean, extract, false).clears == 2 by {
      PageFirst(page1, mid + [page2], clean, extract);
    }
    SkipNonPages(lead, [page1] + (mid + [page2]), clean, extract);
  }

  lemma InterleavedRecords(lead: seq<Element>, page1: Element, mid: seq<Element>, page2: Element,
                           clean: string -> string, extract: string -> seq<Json>)
    requires forall k :: 0 <= k < |lead| ==> !IsPage(lead[k])
    requires forall k :: 0 <= k < |mid| ==> !IsPage(mid[k])
    requires IsPage(page1) && IsPage(page2)
    ensures ProcessXml(lead + ([page1] + (mid + [page2])), clean, extract, false).records
         == AsSeq(ProcessPage(page1, clean, extract, false).record) + AsSeq(ProcessPage(page2, clean, extract, false).record)
  {
    var r1 := AsSeq(ProcessPage(page1, clean, extract, false).record);
    var r2 := AsSeq(ProcessPage(page2, clean, extract, false).record);
    assert ProcessXml([page2], clean, extract, false).records == r2 by {
      PageFirst(page2, [], clean, extract);
      assert [page2] + [] == [page2];
      assert r2 + [] == r2;
    }
    assert ProcessXml(mid + [page2], clean, extract, false).records == r2 by {
      SkipNonPages(mid, [page2], clean, extract);
    }
    assert ProcessXml([page1] + (mid + [page2]), clean, extract, false).records == r1 + r2 by {
      PageFirst(page1, mid + [page2], clean, extract);
    }
    SkipNonPages(lead, [page1] + (mid + [page2]), clean, extract);
  }

  /**
   * A stream of end tags for two pages, the first titled "Example" with some revision
   * text and the second without a title, each page preceded by its children: exactly
   * one record, for "Example", and two clears.
   */
  lemma TwoPages(title: Element, text: Element, rev: Element, page1: Element, page2: Element,
                 clean: string -> string, extract: string -> seq<Json>)
    requires !IsPage(title) && !IsPage(text) && !IsPage(rev) && IsPage(page1) && IsPage(page2)
    requires page1.children == [title, rev] && page2.children == [rev]
    requires IsTitle(title) && title.text == Some("Example") && !IsTitle(rev)
    requires CarriesText(rev) && RevisionText(rev) == Some(Some("'''Bold''' text."))
    ensures var out := ProcessXml([title, text, rev, page1, text, rev, page2], clean, extract, false);
      && out.clears == 2
      && |out.records| == 1
      && out.records[0].title == "Example"
      && out.records[0].rawContent == "'''Bold''' text."
      && out.records[0].link == Tags.WikiPrefix + "Example"
      && out.records[0].events == extract(clean("'''Bold''' text."))
  {
    var lead, mid := [title, text, rev], [text, rev];
    assert [title, text, rev, page1, text, rev, page2] == lead + ([page1] + (mid + [page2]));
    InterleavedClears(lead, page1, mid, page2, clean, extract);
    InterleavedRecords(lead, page1, mid, page2, clean, extract);
    PageOne(page1, title, rev, clean, extract);
    PageTwo(page2, rev, clean, extract);
  }

  /**
   * The same dump under any namespace: the tags carry the namespace as the XML reader
   * reports it, and the pipeline still finds the one page with a title.
   */
  lemma TwoPageDump(uri: string, clean: string -> string, extract: string -> seq<Json>)
    requires '}' !in uri
    ensures var title := Element(Qualified(uri, "title"), Some("Example"), []);
      var text := Element(Qualified(uri, "text"), Some("'''Bold''' text."), []);
      var rev := Element(Qualified(uri, "revision"), None, [text]);
      var page1 := Element(Qualified(uri, "page"), None, [title, rev]);
      var page2 := Element(Qualified(uri, "page"), None, [rev]);
      var out := ProcessXml([title, text, rev, page1, text, rev, page2], clean, extract, false);
      && out.clears == 2
      && |out.records| == 1
      && out.records[0].title == "Example"
      && out.records[0].link == Tags.WikiPrefix + "Example"
  {
    Tags.NamespaceInvariance(uri, "title");
    Tags.NamespaceInvariance(uri, "text");
    Tags.NamespaceInvariance(uri, "revision");
    Tags.NamespaceInvariance(uri, "page");
    var title := Element(Qualified(uri, "title"), Some("Example"), []);
    var text := Element(Qualified(uri, "text"), Some("'''Bold''' text."), []);
    var rev := Element(Qualified(uri, "revision"), None, [text]);
    var page1 := Element(Qualified(uri, "page"), None, [title, rev]);
    var page2 := Element(Qualified(uri, "page"), None, [rev]);
    assert RevisionText(rev) == Some(Some("'''Bold''' text."));
    TwoPages(title, text, rev, page1, page2, clean, extract);
  }

  /** Elements other than pages contribute nothing: skipping them leaves records and clears as they were. */
  lemma SkipNonPages(a: seq<Element>, b: seq<Element>, clean: string -> string, extract: string -> seq<Json>)
    requires forall k :: 0 <= k < |a| ==> !IsPage(a[k])
    ensures ProcessXml(a + b, clean, extract, false).records == ProcessXml(b, clean, extract, false).records
    ensures ProcessXml(a + b, clean, extract, false).clears == ProcessXml(b, clean, extract, false).clears
  {
    NoPages(a, clean, extract);
    RecordsSplit(a, b, clean, extract, false);
    ClearsSplit(a, b, clean, extract, false);
  }

  /** A page at the head of the stream contributes its own record, if any, ahead of the rest, and one clear. */
  lemma PageFirst(p: Element, b: seq<Element>, clean: string -> string, extract: string -> seq<Json>)
    requires IsPage(p)
    ensures ProcessXml([p] + b, clean, extract, false).records
         == AsSeq(ProcessPage(p, clean, extract, false).record) + ProcessXml(b, clean, extract, false).records
    ensures ProcessXml([p] + b, clean, extract, false).clears == ProcessXml(b, clean, extract, false).clears + 1
  {
    assert ([p] + b)[0] == p;
    assert ([p] + b)[1..] == b;
  }

  /** A stream with no `page` element yields nothing and clears nothing. */
  lemma {:induction false} NoPages(es: seq<Element>, clean: string -> string, extract: string -> seq<Json>)
    requires forall k :: 0 <= k < |es| ==> !IsPage(es[k])
    ensures ProcessXml(es, clean, extract, false) == Output([], [], 0)
  {
    if es != [] {
      NoPages(es[1..], clean, extract);
    }
  }

  lemma PageOne(page: Element, title: Element, rev: Element, clean: string -> string, extract: string -> seq<Json>)
    requires page.children == [title, rev]
    requires IsTitle(title) && title.text == Some("Example")
    requires CarriesText(rev) && RevisionText(rev) == Some(Some("'''Bold''' text."))
    ensures var r := ProcessPage(page, clean, extract, false);
      && r.record.Some?
      && r.record.value.title == "Example"
      && r.record.value.rawContent == "'''Bold''' text."
      && r.record.value.link == Tags.WikiPrefix + "Example"
  {
    var cs := [title, rev];
    assert cs[..1] == [title];
    assert [title][..0] == [];
    assert ScanChildren(cs, false).title == Some("Example");
    assert ScanChildren(cs, false).text == Some("'''Bold''' text.");
    PageRecord(page, clean, extract, false);
    Tags.WikiUrlVerbatim("Example");
  }

  lemma PageTwo(page: Element, rev: Element, clean: string -> string, extract: string -> seq<Json>)
    requires page.children == [rev] && !IsTitle(rev)
    ensures ProcessPage(page, clean, extract, false).record.None?
  {
    assert [rev][..0] == [];
    assert ScanChildren([], false) == Scan(None, None, []);
    assert ScanChildren([rev], false).title == None;
  }
}
