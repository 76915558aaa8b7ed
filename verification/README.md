# wikixml-process, modelled in Dafny

This project models the core of wikixml-process. That program reads a MediaWiki XML dump
page by page. The streaming parser, `src/wiki_parser.py`, handles every `page` element the
XML reader completes:

- it pulls out the page's title and revision text, reporting progress through an optional callback;
- when the title is non-empty, it sends the text to a text-generation service (Ollama) to be
  cleaned into plain text, sends the cleaned text again to extract a JSON list of historical
  events, and yields a record;
- it clears the element, whether or not the page had a title.

The older parser, `src/parser.py`, does the same with no extraction call and no progress
reports. It is the one `src/main.py` imports.

The model is pure and functional. It has one module per component:

| module | models |
|---|---|
| `Wrappers` | `Option` |
| `Strings` | the Python `str` operations the code uses: `strip()`, `in`, `split(sep)[0]`, `split(sep)[1]` and single-character `replace` |
| `Tags` | `get_tag_name` and `construct_wiki_url`, which are identical in `src/wiki_parser.py` and `src/parser.py` |
| `Json` | decoded JSON values |
| `LlmClient` | `clean_with_llm` and `extract_events_with_llm`: the input guard, the request sent, the fallbacks on transport failure, non-200 status and undecodable replies, and the recovery of an event list from a code-fenced reply |
| `PageExtractor` | the scan over a page's children: title, revision text, `start` and `content` reports |
| `WikiParser` | the streaming `process_xml`: records, the full progress trace, and one clear per page |
| `LegacyParser` | the older, event-free `process_xml` of `src/parser.py` |

The XML reader is modelled as the sequence of elements whose end tags it reports, in
document order. The two enrichment stages are parameters of the driver: `clean`
and `extract`. `WikiParser.CleansVia` and `WikiParser.ExtractsVia` tie them to the
service client.

The HTTP exchange is also a parameter. It is a function from the request the client
would send to what came back: either no response at all, or a status code with the
decoded body. JSON decoding of the reply text is a parameter `parse`, which yields
`None` where `json.loads` would raise.

The model follows the code wherever the code and its documented intent differ:

- Page fields. Every `title` child overwrites the title, so the last one wins. Every
  `revision` with a `text` child overwrites the text, even when that child has an empty or
  absent text. Only within one revision does the first `text` child win, because of the
  `break`. A "first title wins, first revision wins" reading is therefore not what runs.
  See `PageExtractor.ScanTitleIsLast` and `PageExtractor.ScanTextIsLastRevision`.
- Blank raw content. When a page's raw content is empty or only whitespace, cleaning
  returns `""` without calling the service. This holds even during an outage, so "plain
  text equals raw content when the service fails" is true only for non-blank content.
  See `WikiParser.OutageDegradesGracefully`.
- Reports without a record. A `start` or `content` report can be emitted for a page that
  then yields no record. This happens when a later `title` child has an empty text.
- An unset `OLLAMA_HOST` is formatted into the URL as the text `None`. That URL has no
  scheme, so building the request (src/llm_client.py:122 and :161) always fails inside the
  `try`, and both calls always fall back. The model leaves the `service` parameter free on
  that request. Its conclusions still hold, but it does not force the failure outcome.

## Model

| member | source | states |
|---|---|---|
| `Strings.Strip` | src/llm_client.py:126 | The result is the input with a maximal run of `str.isspace` characters removed at each end: a contiguous slice, whitespace outside it, not starting or ending with whitespace; empty exactly when the input is all whitespace |
| `Strings.StripIdempotent` | src/llm_client.py:165 | Stripping an already stripped string changes nothing |
| `Strings.StripPadded` | src/llm_client.py:171 | Whitespace added around a string does not change its stripped form |
| `Strings.IndexOf` | src/llm_client.py:170 | `p in s` holds exactly when an index is found; the index is the first occurrence |
| `Strings.Before` | src/llm_client.py:171 | `s.split(p)[0]` is a prefix of `s`; `p` occurs right after it exactly when `p` occurs in `s`; it is all of `s` when `p` does not occur; it contains no `p` |
| `Strings.After` | src/llm_client.py:171 | `s` is the first piece, then `p`, then this remainder |
| `Strings.SecondPiece` | src/llm_client.py:173 | `s.split(p)[1]` contains no occurrence of `p` |
| `Strings.SecondPieceLocated` | src/llm_client.py:173 | `s.split(p)[1]` starts right after the first occurrence of `p` and runs up to the next occurrence of `p` from there (`NextFrom`: no occurrence starts in between), or to the end of `s` if there is none |
| `Strings.SecondPieceBetween` | src/llm_client.py:171-173 | For the first occurrence of `p` at `i` and the next one (or the end) at `j`, `s.split(p)[1]` is exactly the text from `i + len(p)` to `j` |
| `Strings.NextFrom` | src/llm_client.py:173 | The index found is at or after the start, is the end of the string or an occurrence of `p`, and no occurrence of `p` starts between the start and it |
| `Strings.BeforeInSlice` | src/llm_client.py:171 | `split(p)[0]` of a slice ends at the first occurrence of `p` lying wholly inside the slice, or at the slice's end |
| `Strings.ReplaceChar` | src/wiki_parser.py:50 | `replace(c, d)` keeps the length, maps each `c` to `d` position by position, leaves all other characters, and leaves no `c` behind |
| `Tags.TagName` | src/wiki_parser.py:41-43 | Without a `}` the tag is unchanged; with one the result is strictly shorter than the tag |
| `Tags.AfterChar` | src/wiki_parser.py:42 | Splitting once at a character present in the string leaves a strictly shorter remainder |
| `Tags.AfterCharCut` | src/wiki_parser.py:42 | Splitting once at a character keeps exactly the suffix after its first occurrence: the dropped part ends with that character and holds no earlier one |
| `Tags.TagNameCut` | src/parser.py:16-17 | With a `}` in the tag, the name is the suffix after the first `}`, and no `}` comes before it |
| `Tags.NamespaceInvariance` | src/parser.py:11-18 | For any namespace URI and local name without `}`, `{uri}local` resolves to `local`, as the bare `local` does |
| `Tags.WikiUrl` | src/wiki_parser.py:50-51 | The link is the fixed prefix followed by the title with each space written as `_` and nothing else changed; its length is the prefix length plus the title's; it contains no space |
| `Tags.WikiUrlCollision` | src/wiki_parser.py:45-51 | Two titles share a link if and only if they have the same length and agree at each position once space and `_` are identified (no percent-encoding) |
| `Tags.WikiUrlVerbatim` | src/parser.py:25-33 | A title without spaces is appended to the prefix verbatim |
| `PageExtractor.Pages` | src/wiki_parser.py:62-65 | Exactly the elements whose tag resolves to `page` are processed: every element kept is a page, and every page of the stream is kept |
| `PageExtractor.PagesSplit` | src/wiki_parser.py:62-65 | Selecting pages commutes with concatenation, so the pages are kept in document order |
| `PageExtractor.PageCount` | src/wiki_parser.py:62-65 | As many pages are kept as there are positions of the stream that hold a page |
| `PageExtractor.OrEmpty` | src/wiki_parser.py:94 | `text_content or ""` is the text when it is non-empty, and `""` when it is absent or empty |
| `PageExtractor.FirstTagged` | src/wiki_parser.py:86-91 | The index found is the first child with the tag; none found means no child has it |
| `PageExtractor.RevisionText` | src/wiki_parser.py:85-91 | A revision sets the text if and only if it has a `text` child, and the value set is the text of its first such child |
| `PageExtractor.Step` | src/wiki_parser.py:79-91 | One child of the page only appends to the reports, at most one report, and none without a callback |
| `PageExtractor.ScanChildren` | src/wiki_parser.py:79-91 | Scanning the children makes at most one report per child |
| `PageExtractor.ScanReports` | src/wiki_parser.py:79-91 | With a callback, the scan's reports are exactly each child's own reports in child order: a `start` with the text of each `title` child whose text is non-empty, and a `content` with the current title and the text's length for each revision whose first `text` child and current title are both non-empty |
| `PageExtractor.StepTrace` | src/wiki_parser.py:80-90 | With a callback, one child appends exactly its own reports, given the title held before it |
| `PageExtractor.ReportsInterleave` | src/wiki_parser.py:79-91 | Children title A, revision x, title A, revision y, with non-empty texts, report `start`, `content`, `start`, `content` in that order, with the lengths of x and y |
| `PageExtractor.ScanTitleIsLast` | src/wiki_parser.py:79-82 | The scanned title is the text of the last `title` child, or none when there is no `title` child |
| `PageExtractor.ScanTextIsLastRevision` | src/wiki_parser.py:79-91 | The scanned text is the first `text` child's text in the last revision that has one, or none when no revision has one |
| `PageExtractor.ScanSilent` | src/wiki_parser.py:83-90 | Without a callback no report is made |
| `PageExtractor.ScanSameFields` | src/wiki_parser.py:79-91 | The title and text a scan ends with are the same with and without a callback |
| `PageExtractor.StartsFollowTitles` | src/wiki_parser.py:83-84 | One `start` report per `title` child with a non-empty text, in child order, carrying that text |
| `PageExtractor.StepStarts` | src/wiki_parser.py:80-84 | One child adds a `start` report exactly when it is a `title` child with a non-empty text, and that report carries the text |
| `PageExtractor.StepReports` | src/wiki_parser.py:80-90 | Scanning one more child keeps the reports well formed |
| `PageExtractor.ContentFollowsStart` | src/wiki_parser.py:89-90 | The scan reports only `start` and `content`; every `content` report has a positive length and follows a `start` for the same title; a non-empty final title has been reported by a `start` |
| `PageExtractor.ContentReports` | src/wiki_parser.py:85-90 | The `content` reports are exactly one per revision whose first `text` child has a non-empty text while the current title is non-empty, in child order, each carrying that current title and the length of that text |
| `PageExtractor.StepContents` | src/wiki_parser.py:85-90 | One child adds a `content` report exactly when it is a revision whose first `text` child has a non-empty text while the title so far is non-empty; the report carries that title and the text's length |
| `PageExtractor.FirstTextWins` | src/parser.py:64-67 | Of two `text` children of one revision, the first one's text is taken |
| `WikiParser.ProcessPage` | src/wiki_parser.py:93-118 | A record exists if and only if the final title is non-empty; without a callback the page makes no report |
| `WikiParser.PageRecord` | src/wiki_parser.py:93-118 | The record's title is the final title and its raw content is the final text or `""`. Its plain text is `clean` of the raw content, its events are `extract` of the plain text, and its link is built from the title, whether or not there is a callback |
| `WikiParser.PageTrace` | src/wiki_parser.py:95-110 | With a callback, a page's reports are the scan's reports, then `llm`, `events` and `events_done` with the event count when it yields a record |
| `WikiParser.ProcessXml` | src/wiki_parser.py:62-121 | At most one record per cleared page; no reports without a callback |
| `WikiParser.ClearsCountPages` | src/wiki_parser.py:120-121 | Every `page` element is cleared exactly once, and nothing else is: the clears equal the number of pages kept and the number of positions holding a page |
| `WikiParser.RecordsEnriched` | src/wiki_parser.py:93-118 | Every record has a non-empty title, plain text equal to `clean` of its raw content, events equal to `extract` of its plain text, and the link of its title |
| `WikiParser.StreamSplits` | src/wiki_parser.py:62-65 | Processing a stream in two halves and concatenating gives the same records, reports and clears: no state is carried between pages |
| `WikiParser.SingleElement` | src/wiki_parser.py:63-65 | A page contributes its own result and one clear; any other element contributes nothing |
| `WikiParser.SkipNonPages` | src/wiki_parser.py:65 | Elements other than pages leave records and clears unchanged |
| `WikiParser.PageFirst` | src/wiki_parser.py:62-121 | A page at the head of the stream contributes its record, if any, ahead of the rest, and one clear |
| `WikiParser.CallbackIrrelevant` | src/wiki_parser.py:79-110 | Records and clears are the same with and without a callback |
| `WikiParser.CompletionsMatchRecords` | src/wiki_parser.py:109-118 | With a callback there is exactly one `events_done` report per record, in record order, carrying that record's title and event count |
| `WikiParser.PageCompletions` | src/wiki_parser.py:93-110 | With a callback, one page makes one `events_done` report if it yields a record, carrying the record's title and event count, and none otherwise |
| `WikiParser.OutageDegradesGracefully` | src/llm_client.py:120-188 | When every exchange fails, each record's events are empty and its plain text is its raw content (or `""` for blank content) |
| `WikiParser.TwoPages` | src/wiki_parser.py:79-118 | Two pages, the first titled "Example" with revision text and the second without a title, give exactly one record, for "Example", with the link of "Example", and two clears |
| `WikiParser.TwoPageDump` | src/wiki_parser.py:53-121 | The same dump under any namespace URI gives one record, titled "Example" and linked to the prefix plus "Example", and two clears |
| `LlmClient.Endpoint` | src/llm_client.py:105 | The URL is the host text followed by `/api/generate` and nothing else; an unset host gives `None/api/generate` |
| `LlmClient.EndpointDeterminesHost` | src/llm_client.py:143 | Two configurations post to the same URL if and only if they format the same host text |
| `LlmClient.RequestsShareEndpoint` | src/llm_client.py:105-157 | Both calls post unstreamed to the same `/api/generate` URL with `num_predict` -1; only extraction asks for JSON format, at the higher temperature |
| `LlmClient.CleanRequest` | src/llm_client.py:105-118 | The cleaning payload goes to the service endpoint with the configured model and no format; its prompt is the preamble, a fixed marker, the text verbatim, and a closing marker |
| `LlmClient.ExtractRequest` | src/llm_client.py:143-157 | The extraction payload goes to the same endpoint with the configured model and JSON format; its prompt is the preamble, a fixed marker, the text verbatim, and a closing marker |
| `LlmClient.RequestsDetermineText` | src/llm_client.py:108 | The text can be read back off either request, so two texts give the same request if and only if they are equal |
| `LlmClient.Blank` | src/llm_client.py:102 | The guard `not text or not text.strip()` holds exactly when the text is empty or all whitespace |
| `LlmClient.ResponseField` | src/llm_client.py:125-126 | The `response` text of an object body, `""` when absent, and nothing when the code would raise (not an object, or `response` not a string) |
| `LlmClient.ReplyText` | src/llm_client.py:123-133 | Text is available only for status 200 with a decodable body; transport errors and other statuses give none |
| `LlmClient.CleanWithLlm` | src/llm_client.py:98-133 | A request is sent if and only if the input is not blank. Blank input gives `""`. A failed exchange gives the input unchanged. A successful one gives the stripped `response` text |
| `LlmClient.CleanResultShape` | src/llm_client.py:124-133 | Cleaning returns either its input untouched or a string with no surrounding whitespace |
| `LlmClient.BlankInputIgnoresService` | src/llm_client.py:102-103 | On blank input both calls return their empty result without any request, whatever the service would do |
| `LlmClient.Unfenced` | src/llm_client.py:171 | The result is `strip()` of the fence-free text, and it is itself trimmed and fence-free |
| `LlmClient.FenceCandidate` | src/llm_client.py:170-173 | A reply without a fence is passed on unchanged; with a fence, the candidate is trimmed and contains no fence |
| `LlmClient.JsonFenceBetween` | src/llm_client.py:170-171 | For every reply with a ```` ```json ````: with the first ```` ```json ```` at `i`, the next one (or the end) at `j`, and the first fence lying wholly between them at `m` (or `j`), the candidate is the stripped text from after the ```` ```json ```` to `m` |
| `LlmClient.PlainFenceBetween` | src/llm_client.py:172-173 | For every reply with a fence and no ```` ```json ````: with the first fence at `i` and the next fence (or the end) at `j`, the candidate is the stripped text between them |
| `LlmClient.JsonFenceUpToNextFence` | src/llm_client.py:170-171 | When no second ```` ```json ```` follows the first, the candidate is the stripped text from after the first ```` ```json ```` up to the next fence |
| `LlmClient.ListOrEmpty` | src/llm_client.py:175-181 | A decoded list is returned as is; anything else, including a decode failure, gives `[]` |
| `LlmClient.RecoverEventList` | src/llm_client.py:165-181 | For a reply with no backtick, fence stripping changes nothing: the events are the decoded list of the stripped reply, or `[]` |
| `LlmClient.ExtractEventsWithLlm` | src/llm_client.py:135-188 | A request is sent if and only if the input is not blank. Blank input and a failed exchange give `[]`. Otherwise the result is the decoded list of the fence-stripped reply, or `[]` when that is not a list |
| `LlmClient.JsonFencedCandidate` | src/llm_client.py:170-171 | A reply ```` ```json ```` + x + ```` ``` ```` with no backtick in x yields x stripped |
| `LlmClient.PlainFencedCandidate` | src/llm_client.py:172-173 | A reply ```` ``` ```` + x + ```` ``` ```` with no backtick in x (starting on a new line) yields x stripped |
| `LlmClient.LoneFenceCandidate` | src/llm_client.py:172-173 | A reply that opens a fence and never closes it yields everything after the fence, stripped |
| `LlmClient.FenceWrappingInvariant` | src/llm_client.py:165-177 | A backtick-free JSON text wrapped in a ```` ```json ```` fence, or in a plain fence, recovers the same event list as the bare text |
| `LegacyParser.ProcessPage` | src/parser.py:59-76 | A record exists if and only if the final title is non-empty; its raw content is the final text or `""`, its plain text is `clean` of it, its link is built from the title |
| `LegacyParser.ProcessXml` | src/parser.py:46-79 | At most one record per cleared page, and no more clears than elements |
| `LegacyParser.LaterParserExtends` | src/parser.py:37-79 | For any extraction stage, with or without a callback, the streaming parser's records with events dropped are the older parser's records, and both clear the same pages |

## Left out

- I/O is not modelled: reading the dump with `ET.iterparse`, the HTTP request with `urllib`, and the `os.environ` configuration. The input is the sequence of completed elements, the exchange is a parameter, and host and model are fields of `LlmClient.Config`.
- Memory release: `elem.clear()` is counted, not performed.
- JSON encoding and decoding: the request payload is a datatype, not serialised bytes, and decoding is the parameter `parse`.
- The service is modelled as deterministic: one request always gets the same outcome. A real service may answer the same request differently each time.
- Prompt wording is not modelled: the preambles are opaque strings in `LlmClient.Config`. Stray commas make the alternative extraction preamble a tuple in Python. That changes only the prompt text.
- `src/schema.py` (schema-to-prompt text) and `src/main.py` (argument parsing, progress display, output file) are not part of this model.
- Debug prints to stdout and stderr are left out.
- Temperatures are kept as the constants 0.1 and 0.8. Event objects pass through as opaque JSON and are never inspected.
- WikiParser.ProcessXml: its own contract states only the record bound and the silent trace. That every page is cleared once, that records are enriched, and that records and reports come in document order are stated by `WikiParser.ClearsCountPages`, `WikiParser.RecordsEnriched` and `WikiParser.StreamSplits`, for proof economy.
- WikiParser.ProcessPage: its own contract states only when a record exists and the silent trace. The record's fields are stated by `WikiParser.PageRecord`, and the reports with a callback by `WikiParser.PageTrace`.
- Tags.TagName: its own contract states only the unchanged case and that a `}` shortens the tag. `Tags.TagNameCut` states which suffix is kept.
- LegacyParser.ProcessXml: its own contract states only bounds; `LegacyParser.LaterParserExtends` relates its records and clears to the streaming parser's.
- LlmClient.FenceCandidate: its own contract states only that a fence-free reply passes unchanged and that a fenced reply gives a trimmed, fence-free candidate. `LlmClient.JsonFenceBetween` and `LlmClient.PlainFenceBetween` state the candidate exactly for every fenced reply.
- Strings.SecondPiece: its own contract states only that the piece holds no separator. `Strings.SecondPieceLocated` and `Strings.SecondPieceBetween` state where it lies in the string.
- PageExtractor.Step: its own contract states only that a child appends at most one report, and none without a callback. The effect on title and text is stated by `PageExtractor.ScanTitleIsLast` and `PageExtractor.ScanTextIsLastRevision`; the report itself by `PageExtractor.StepTrace`, `PageExtractor.StepStarts` and `PageExtractor.StepContents`.
- PageExtractor.ScanChildren: its own contract states only a bound of one report per child. The final title and text are stated by `PageExtractor.ScanTitleIsLast` and `PageExtractor.ScanTextIsLastRevision`, and the full report sequence by `PageExtractor.ScanReports`.
- LlmClient.RecoverEventList: its own contract covers only replies with no backtick. For fenced replies the candidate is stated by `LlmClient.JsonFenceBetween` and `LlmClient.PlainFenceBetween`, and the composition of fence stripping, decoding and the list check by the contract of `LlmClient.ExtractEventsWithLlm`.
- Tags.AfterChar: its own contract states only that the remainder is shorter. `Tags.AfterCharCut` states that it is the suffix after the first occurrence.
- The generator is modelled as run to the end by its consumer. In Python, `elem.clear()` for a titled page runs only when the consumer resumes after the `yield`. A consumer that stops early leaves the last yielded page uncleared.
