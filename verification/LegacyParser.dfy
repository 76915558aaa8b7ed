/**
 * The earlier parser: the same page scan as `WikiParser`, but without progress reports or
 * event extraction, yielding four-field records. Its helpers (tag names, page links) are
 * the ones in `Tags`, which it defines identically.
 */
module LegacyParser {
  import opened Wrappers
  import opened Json
  import Tags
  import opened PageExtractor
  import WikiParser

  /** The output record of one page, without events. */
  datatype LegacyPage = LegacyPage(title: string, rawContent: string, plainTextContent: string, link: string)

  /** Records, and how many `page` elements were cleared. */
  datatype LegacyOutput = LegacyOutput(records: seq<LegacyPage>, clears: nat)

  /**
   * A page yields a record exactly when its final title is non-empty; the raw content is
   * the final text or "", and the plain text is the cleaned raw content.
   */
  function ProcessPage(page: Element, clean: string -> string): (r: Option<LegacyPage>)
    ensures r.Some? <==> Truthy(ScanChildren(page.children, false).title)
    ensures r.Some? ==>
      && r.value.title == ScanChildren(page.children, false).title.value
      && r.value.rawContent == OrEmpty(ScanChildren(page.children, false).text)
      && r.value.plainTextContent == clean(r.value.rawContent)
      && r.value.link == Tags.WikiUrl(r.value.title)
  {
    var s := ScanChildren(page.children, false);
    if Truthy(s.title) then
      var t := s.title.value;
      var raw := OrEmpty(s.text);
      Some(LegacyPage(t, raw, clean(raw), Tags.WikiUrl(t)))
    else
      None
  }

  /** The whole run: every page is cleared once and yields at most one record. */
  function ProcessXml(es: seq<Element>, clean: string -> string): (out: LegacyOutput)
    decreases |es|
    ensures |out.records| <= out.clears <= |es|
  {
    if es == [] then LegacyOutput([], 0)
    else
      var rest := ProcessXml(es[1..], clean);
      if !IsPage(es[0]) then rest
      else
        LegacyOutput(AsSeq(ProcessPage(es[0], clean)) + rest.records, rest.clears + 1)
  }

  /** A record of the later parser with its events dropped. */
  function DropEvents(p: WikiParser.WikiPage): LegacyPage {
    LegacyPage(p.title, p.rawContent, p.plainTextContent, p.link)
  }

  function DropAllEvents(ps: seq<WikiParser.WikiPage>): (ls: seq<LegacyPage>)
    ensures |ls| == |ps|
    ensures forall k :: 0 <= k < |ps| ==> ls[k] == DropEvents(ps[k])
  {
    if ps == [] then [] else [DropEvents(ps[0])] + DropAllEvents(ps[1..])
  }

  /**
   * The later parser only adds to the earlier one: for any extraction stage and with or
   * without a callback, its records with events dropped are the earlier parser's records,
   * and it clears the same pages.
   */
  lemma LaterParserExtends(es: seq<Element>, clean: string -> string, extract: string -> seq<Json>, callback: bool)
    ensures DropAllEvents(WikiParser.ProcessXml(es, clean, extract, callback).records) == ProcessXml(es, clean).records
    ensures WikiParser.ProcessXml(es, clean, extract, callback).clears == ProcessXml(es, clean).clears
  {
    SameRecords(es, clean, extract, callback);
    SameClears(es, clean, extract, callback);
  }

  lemma {:induction false} SameRecords(es: seq<Element>, clean: string -> string,
                                       extract: string -> seq<Json>, callback: bool)
    ensures DropAllEvents(WikiParser.ProcessXml(es, clean, extract, callback).records) == ProcessXml(es, clean).records
  {
    if es != [] {
      SameRecords(es[1..], clean, extract, callback);
      if IsPage(es[0]) {
        var later := AsSeq(WikiParser.ProcessPage(es[0], clean, extract, callback).record);
        var rest := WikiParser.ProcessXml(es[1..], clean, extract, callback).records;
        DropAllEventsAppend(later, rest);
        SamePage(es[0], clean, extract, callback);
      }
    }
  }

  lemma {:induction false} SameClears(es: seq<Element>, clean: string -> string,
                                      extract: string -> seq<Json>, callback: bool)
    ensures WikiParser.ProcessXml(es, clean, extract, callback).clears == ProcessXml(es, clean).clears
  {
    if es != [] {
      SameClears(es[1..], clean, extract, callback);
    }
  }

  lemma DropAllEventsAppend(a: seq<WikiParser.WikiPage>, b: seq<WikiParser.WikiPage>)
    ensures DropAllEvents(a + b) == DropAllEvents(a) + DropAllEvents(b)
  {
    assert forall k :: 0 <= k < |a + b| ==> DropAllEvents(a + b)[k] == (DropAllEvents(a) + DropAllEvents(b))[k];
  }

  /** On one page the two parsers agree once events are dropped. */
  lemma SamePage(page: Element, clean: string -> string, extract: string -> seq<Json>, callback: bool)
    ensures DropAllEvents(AsSeq(WikiParser.ProcessPage(page, clean, extract, callback).record))
         == AsSeq(ProcessPage(page, clean))
  {
    WikiParser.PageRecord(page, clean, extract, callback);
  }
}
