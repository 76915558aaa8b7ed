/**
 * The two calls to the text-generation service: cleaning raw wikitext and extracting
 * events from cleaned text. The HTTP exchange is a parameter `service` that maps the
 * request the client would send to what came back; JSON decoding of the reply text is a
 * parameter `parse` that yields `None` where decoding would raise.
 */
module LlmClient {
  import opened Wrappers
  import opened Strings
  import opened Json

  /** What the process environment supplies: host, model name and the prompt preambles. */
  datatype Config = Config(
    host: Option<string>,
    model: Option<string>,
    cleanInstructions: string,
    extractInstructions: string)

  datatype GenerationOptions = GenerationOptions(temperature: real, numPredict: int)

  /** The JSON body POSTed to the service, with the URL it goes to. */
  datatype Request = Request(
    url: string,
    model: Option<string>,
    prompt: string,
    stream: bool,
    format: Option<string>,
    options: GenerationOptions)

  /**
   * The outcome of one exchange: no response at all (connection refused, bad URL, ...), or
   * a status code with the decoded body (`None` when the body is not valid JSON).
   */
  datatype Exchange = TransportError | Reply(status: int, body: Option<Json>)

  /** A call's return value together with the request it sent, if it sent one. */
  datatype LlmCall<T> = LlmCall(result: T, request: Option<Request>)

  const CleanTemperature: real := 0.1
  const ExtractTemperature: real := 0.8
  /** `num_predict` of -1: the service decides the output length. */
  const Unbounded: int := -1

  /** The host as an f-string formats it: the configured text, or `None` when unset. */
  function HostText(cfg: Config): string {
    match cfg.host case Some(h) => h case None => "None"
  }

  const ApiPath: string := "/api/generate"

  /**
   * The generate endpoint: the host text followed by the fixed path, and nothing else.
   * An unset host gives `None/api/generate`.
   */
  function Endpoint(cfg: Config): (url: string)
    ensures |url| == |HostText(cfg)| + |ApiPath|
    ensures url[..|HostText(cfg)|] == HostText(cfg)
    ensures url[|url| - |ApiPath|..] == ApiPath
    ensures cfg.host.Some? ==> url[..|cfg.host.value|] == cfg.host.value
    ensures cfg.host.None? ==> url == "None/api/generate"
  {
    HostText(cfg) + ApiPath
  }

  /** Two configurations share an endpoint exactly when they format the same host text. */
  lemma EndpointDeterminesHost(a: Config, b: Config)
    ensures Endpoint(a) == Endpoint(b) <==> HostText(a) == HostText(b)
  {
    if Endpoint(a) == Endpoint(b) {
      assert HostText(a) == Endpoint(a)[..|HostText(a)|];
    }
  }

  const CleanLead: string := "\n\nInput Wikitext:\n"
  const CleanTail: string := "\n\nPlain Text Output:"
  const ExtractLead: string := "\n\nInput Text:\n"
  const ExtractTail: string := "\n\nJSON Output:"

  /** The cleaning payload: the preamble, then the raw text verbatim between two fixed markers. */
  function CleanRequest(cfg: Config, text: string): (r: Request)
    ensures r.url == Endpoint(cfg) && r.model == cfg.model && r.format == None
    ensures |r.prompt| == |cfg.cleanInstructions| + |CleanLead| + |text| + |CleanTail|
    ensures r.prompt[..|cfg.cleanInstructions|] == cfg.cleanInstructions
    ensures r.prompt[|cfg.cleanInstructions| + |CleanLead|..|r.prompt| - |CleanTail|] == text
  {
    var prompt := cfg.cleanInstructions + CleanLead + text + CleanTail;
    assert prompt[|cfg.cleanInstructions| + |CleanLead|..|prompt| - |CleanTail|] == text;
    Request(Endpoint(cfg), cfg.model, prompt, false, None, GenerationOptions(CleanTemperature, Unbounded))
  }

  /** The extraction payload: the preamble, then the cleaned text verbatim between two fixed markers. */
  function ExtractRequest(cfg: Config, text: string): (r: Request)
    ensures r.url == Endpoint(cfg) && r.model == cfg.model && r.format == Some("json")
    ensures |r.prompt| == |cfg.extractInstructions| + |ExtractLead| + |text| + |ExtractTail|
    ensures r.prompt[..|cfg.extractInstructions|] == cfg.extractInstructions
    ensures r.prompt[|cfg.extractInstructions| + |ExtractLead|..|r.prompt| - |ExtractTail|] == text
  {
    var prompt := cfg.extractInstructions + ExtractLead + text + ExtractTail;
    assert prompt[|cfg.extractInstructions| + |ExtractLead|..|prompt| - |ExtractTail|] == text;
    Request(Endpoint(cfg), cfg.model, prompt, false, Some("json"), GenerationOptions(ExtractTemperature, Unbounded))
  }

  /** The text can be read back off the request, so different texts make different requests. */
  lemma RequestsDetermineText(cfg: Config, a: string, b: string)
    ensures CleanRequest(cfg, a) == CleanRequest(cfg, b) <==> a == b
    ensures ExtractRequest(cfg, a) == ExtractRequest(cfg, b) <==> a == b
  {
    var ca, cb := CleanRequest(cfg, a), CleanRequest(cfg, b);
    var ea, eb := ExtractRequest(cfg, a), ExtractRequest(cfg, b);
    if ca == cb {
      assert a == ca.prompt[|cfg.cleanInstructions| + |CleanLead|..|ca.prompt| - |CleanTail|];
    }
    if ea == eb {
      assert a == ea.prompt[|cfg.extractInstructions| + |ExtractLead|..|ea.prompt| - |ExtractTail|];
    }
  }

  /**
   * Both calls post to the same endpoint, unstreamed and with unbounded output; only the
   * extraction call asks for JSON output, and it samples at a higher temperature.
   */
  lemma RequestsShareEndpoint(cfg: Config, a: string, b: string)
    ensures CleanRequest(cfg, a).url == ExtractRequest(cfg, b).url == Endpoint(cfg)
    ensures Endpoint(cfg)[|Endpoint(cfg)| - |"/api/generate"|..] == "/api/generate"
    ensures !CleanRequest(cfg, a).stream && !ExtractRequest(cfg, b).stream
    ensures CleanRequest(cfg, a).options.numPredict == ExtractRequest(cfg, b).options.numPredict == -1
    ensures CleanRequest(cfg, a).format == None && ExtractRequest(cfg, b).format == Some("json")
    ensures CleanRequest(cfg, a).options.temperature < ExtractRequest(cfg, b).options.temperature
  {
  }

  /**
   * `body.get('response', '')` followed by `.strip()`'s demand for a string: `None` where
   * the code raises (the body is not an object, or its `response` is not a string).
   */
  function ResponseField(body: Json): (r: Option<string>)
    ensures r.Some? <==> body.JObject? && ("response" in body.fields ==> body.fields["response"].JString?)
    ensures r.Some? && "response" !in body.fields ==> r.value == ""
    ensures r.Some? && "response" in body.fields ==> r.value == body.fields["response"].s
  {
    match body
    case JObject(m) =>
      if "response" !in m then Some("")
      else (match m["response"] case JString(s) => Some(s) case _ => None)
    case _ => None
  }

  /** The reply's `response` text when the exchange succeeded with status 200, else `None`. */
  function ReplyText(x: Exchange): (r: Option<string>)
    ensures x.TransportError? ==> r.None?
    ensures x.Reply? && x.status != 200 ==> r.None?
    ensures x.Reply? && x.body.None? ==> r.None?
    ensures x.Reply? && x.status == 200 && x.body.Some? ==> r == ResponseField(x.body.value)
  {
    match x
    case TransportError => None
    case Reply(code, body) =>
      if code != 200 then None
      else match body
        case None => None
        case Some(b) => ResponseField(b)
  }

  /** The input guard `not text or not text.strip()`: empty, or nothing but whitespace. */
  function Blank(text: string): (b: bool)
    ensures b <==> AllSpace(text)
  {
    text == [] || Strip(text) == []
  }

  /**
   * Cleaning: blank input gives "" without contacting the service; a failed exchange gives
   * the input back unchanged; a successful one gives the trimmed `response` text.
   */
  function CleanWithLlm(cfg: Config, service: Request -> Exchange, text: string): (call: LlmCall<string>)
    ensures call.request.None? <==> AllSpace(text)
    ensures call.request.Some? ==> call.request.value == CleanRequest(cfg, text)
    ensures AllSpace(text) ==> call.result == ""
    ensures !AllSpace(text) && ReplyText(service(CleanRequest(cfg, text))).None? ==> call.result == text
    ensures !AllSpace(text) && ReplyText(service(CleanRequest(cfg, text))).Some? ==>
      call.result == Strip(ReplyText(service(CleanRequest(cfg, text))).value)
  {
    if Blank(text) then LlmCall("", None)
    else
      var req := CleanRequest(cfg, text);
      match ReplyText(service(req))
      case None => LlmCall(text, Some(req))
      case Some(s) => LlmCall(Strip(s), Some(req))
  }

  /** Cleaning returns either its input untouched or a string with no surrounding whitespace. */
  lemma CleanResultShape(cfg: Config, service: Request -> Exchange, text: string)
    ensures var r := CleanWithLlm(cfg, service, text).result;
      r == text || Strip(r) == r
  {
    var req := CleanRequest(cfg, text);
    if !Blank(text) && ReplyText(service(req)).Some? {
      StripIdempotent(ReplyText(service(req)).value);
    }
  }

  /** On blank input neither call depends on the service: no request is made. */
  lemma BlankInputIgnoresService(cfg: Config, s1: Request -> Exchange, s2: Request -> Exchange,
                                 parse: string -> Option<Json>, text: string)
    requires AllSpace(text)
    ensures CleanWithLlm(cfg, s1, text) == CleanWithLlm(cfg, s2, text) == LlmCall("", None)
    ensures ExtractEventsWithLlm(cfg, s1, parse, text) == ExtractEventsWithLlm(cfg, s2, parse, text) == LlmCall([], None)
  {
  }

  const JsonFence: string := "```json"
  const Fence: string := "```"

  /** A ```json fence is in particular a fence. */
  lemma JsonFenceIsFence(t: string)
    requires Contains(t, JsonFence)
    ensures Contains(t, Fence)
  {
    assert JsonFence == Fence + "json";
    ContainsPrefix(t, Fence, "json");
  }

  /** `s.strip()` of a fence-free `s`, which stays trimmed and fence-free. */
  function Unfenced(s: string): (c: string)
    requires !Contains(s, Fence)
    ensures c == Strip(s)
    ensures Strip(c) == c && !Contains(c, Fence)
  {
    StripIdempotent(s);
    StripAvoids(s, Fence);
    Strip(s)
  }

  /**
   * The text handed to the JSON decoder, given the stripped reply: `split("```json")[1]`
   * cut at its first fence if there is a ```json, else `split("```")[1]` if there is a
   * fence, else the text itself.
   */
  function FenceCandidate(t: string): (c: string)
    ensures !Contains(t, Fence) ==> c == t
    ensures Contains(t, Fence) ==> Strip(c) == c && !Contains(c, Fence)
  {
    if Contains(t, JsonFence) then
      JsonFenceIsFence(t);
      Unfenced(Before(SecondPiece(t, JsonFence), Fence))
    else if Contains(t, Fence) then
      Unfenced(SecondPiece(t, Fence))
    else
      t
  }

  /** Stripping cannot create an occurrence of a pattern. */
  lemma StripAvoids(s: string, p: string)
    requires !Contains(s, p)
    ensures !Contains(Strip(s), p)
  {
    var i := LeadLen(s);
    SliceAvoids(s, p, i, i + |Strip(s)|);
  }

  /** Python's `isinstance(events, list)` rule: a decoded array as is, anything else empty. */
  function ListOrEmpty(decoded: Option<Json>): (events: seq<Json>)
    ensures decoded.Some? && decoded.value.JArray? ==> events == decoded.value.items
    ensures !(decoded.Some? && decoded.value.JArray?) ==> events == []
  {
    match decoded
    case Some(JArray(items)) => items
    case _ => []
  }

  /** Response recovery: strip, unwrap code fences, decode, keep only a list. */
  function RecoverEventList(parse: string -> Option<Json>, response: string): (events: seq<Json>)
    ensures '`' !in response ==> events == ListOrEmpty(parse(Strip(response)))
  {
    if '`' !in response then
      StripKeepsBacktickFree(response);
      BacktickFreeCandidate(Strip(response));
      ListOrEmpty(parse(FenceCandidate(Strip(response))))
    else
      ListOrEmpty(parse(FenceCandidate(Strip(response))))
  }

  /**
   * Extraction: blank input, a failed exchange, an undecodable reply or a non-list reply
   * all give the empty list; a decoded list comes back with its elements unvalidated.
   */
  function ExtractEventsWithLlm(cfg: Config, service: Request -> Exchange,
                                parse: string -> Option<Json>, text: string): (call: LlmCall<seq<Json>>)
    ensures call.request.None? <==> AllSpace(text)
    ensures call.request.Some? ==> call.request.value == ExtractRequest(cfg, text)
    ensures AllSpace(text) ==> call.result == []
    ensures !AllSpace(text) && ReplyText(service(ExtractRequest(cfg, text))).None? ==> call.result == []
    ensures !AllSpace(text) && ReplyText(service(ExtractRequest(cfg, text))).Some? ==>
      var c := FenceCandidate(Strip(ReplyText(service(ExtractRequest(cfg, text))).value));
      && (parse(c).Some? && parse(c).value.JArray? ==> call.result == parse(c).value.items)
      && (!(parse(c).Some? && parse(c).value.JArray?) ==> call.result == [])
  {
    if Blank(text) then LlmCall([], None)
    else
      var req := ExtractRequest(cfg, text);
      match ReplyText(service(req))
      case None => LlmCall([], Some(req))
      case Some(s) => LlmCall(RecoverEventList(parse, s), Some(req))
  }

  /** With no backtick in `x`, a pattern opening with a backtick cannot occur in `x + y` before `|x|`. */
  lemma NoEarlyOccurrence(x: string, y: string, p: string)
    requires '`' !in x && p != [] && p[0] == '`'
    ensures forall i: nat :: i < |x| ==> !OccursAt(x + y, p, i)
  {
    forall i: nat | i < |x| ensures !OccursAt(x + y, p, i) {
      if i + |p| <= |x + y| {
        assert (x + y)[i..i + |p|][0] == x[i];
      }
    }
  }

  /**
   * The ```json branch takes the text after the first ```json and cuts it at its first
   * fence, provided no second ```json follows.
   */
  lemma JsonFenceUpToNextFence(t: string)
    requires Contains(t, JsonFence) && !Contains(After(t, JsonFence), JsonFence)
    ensures FenceCandidate(t) == Strip(Before(After(t, JsonFence), Fence))
  {
  }

  /**
   * The ```json branch for every reply: with the first ```json at `i`, the next ```json
   * (or the end) at `j`, and the first fence lying wholly between them at `m` (or `m == j`
   * when there is none), the candidate is the stripped text from `i + 7` to `m`.
   */
  lemma JsonFenceBetween(t: string, i: nat, j: nat, m: nat)
    requires OccursAt(t, JsonFence, i) && forall k: nat :: k < i ==> !OccursAt(t, JsonFence, k)
    requires i + |JsonFence| <= j <= |t| && (j == |t| || OccursAt(t, JsonFence, j))
    requires forall k: nat :: i + |JsonFence| <= k < j ==> !OccursAt(t, JsonFence, k)
    requires i + |JsonFence| <= m <= j && (m == j || (m + |Fence| <= j && OccursAt(t, Fence, m)))
    requires forall k: nat :: i + |JsonFence| <= k < m && k + |Fence| <= j ==> !OccursAt(t, Fence, k)
    ensures FenceCandidate(t) == Strip(t[i + |JsonFence|..m])
  {
    SecondPieceBetween(t, JsonFence, i, j);
    BeforeInSlice(t, Fence, i + |JsonFence|, j, m);
  }

  /**
   * The plain-fence branch for every reply without ```json: with the first fence at `i` and
   * the next fence (or the end) at `j`, the candidate is the stripped text between them.
   */
  lemma PlainFenceBetween(t: string, i: nat, j: nat)
    requires !Contains(t, JsonFence)
    requires OccursAt(t, Fence, i) && forall k: nat :: k < i ==> !OccursAt(t, Fence, k)
    requires i + |Fence| <= j <= |t| && (j == |t| || OccursAt(t, Fence, j))
    requires forall k: nat :: i + |Fence| <= k < j ==> !OccursAt(t, Fence, k)
    ensures FenceCandidate(t) == Strip(t[i + |Fence|..j])
  {
    SecondPieceBetween(t, Fence, i, j);
  }

  /** A string that opens with `open` has its first occurrence of `open` at the start. */
  lemma OpensWith(open: string, rest: string)
    requires open != []
    ensures Contains(open + rest, open)
    ensures Before(open + rest, open) == []
    ensures After(open + rest, open) == rest
  {
    var w := open + rest;
    assert OccursAt(w, open, 0) by { assert w[0..|open|] == open; }
    assert Contains(w, open);
  }

  /** In `x + "```"` with no backtick in `x`, the only fence is the closing one. */
  lemma ClosingFence(x: string)
    requires '`' !in x
    ensures Before(x + Fence, Fence) == x
    ensures !Contains(x + Fence, JsonFence)
  {
    var y := x + Fence;
    assert OccursAt(y, Fence, |x|) by { assert y[|x|..|x| + 3] == Fence; }
    NoEarlyOccurrence(x, Fence, Fence);
    NoEarlyOccurrence(x, Fence, JsonFence);
  }

  /** A trimmed string free of backticks is left alone by fence stripping. */
  lemma BacktickFreeCandidate(t: string)
    requires '`' !in t
    ensures FenceCandidate(t) == t
  {
    forall i: nat ensures !OccursAt(t, Fence, i) {
      if i + 3 <= |t| {
        assert t[i..i + 3][0] == t[i];
      }
    }
  }

  /** A backtick-free string stays backtick-free when stripped. */
  lemma StripKeepsBacktickFree(t: string)
    requires '`' !in t
    ensures '`' !in Strip(t)
  {
    var r := Strip(t);
    var i := LeadLen(t);
    forall k | 0 <= k < |r| ensures r[k] != '`' {
      assert r[k] == t[i + k];
    }
  }

  /** The whole reply is trimmed already: it begins and ends with a backtick. */
  lemma FencedIsTrimmed(w: string)
    requires |w| > 0 && w[0] == '`' && w[|w| - 1] == '`'
    ensures Strip(w) == w
  {
    assert w[0..|w|] == w && w[|w|..] == [] && w[..0] == [];
    assert Trims(w, w, 0);
    StripUnique(w, w, 0);
  }

  /** The ```json-fenced reply yields the stripped inner text as its candidate. */
  lemma JsonFencedCandidate(x: string)
    requires '`' !in x
    ensures FenceCandidate(Strip(JsonFence + x + Fence)) == Strip(x)
  {
    var w := JsonFence + (x + Fence);
    assert w == JsonFence + x + Fence;
    FencedIsTrimmed(w);
    OpensWith(JsonFence, x + Fence);
    ClosingFence(x);
  }

  /** A plainly fenced backtick-free text holds no ```json. */
  lemma PlainFencedHasNoJsonFence(x: string)
    requires '`' !in x && |x| > 0 && x[0] == '\n'
    ensures !Contains(Fence + x + Fence, JsonFence)
  {
    var v := Fence + x + Fence;
    assert v[3..] == x + Fence;
    NoEarlyOccurrence(x, Fence, JsonFence);
    forall i: nat ensures !OccursAt(v, JsonFence, i) {
      if i < 3 {
        assert v[3] == '\n';
        if i + 7 <= |v| {
          assert v[i..i + 7][3 - i] == v[3];
        }
      } else if i + 7 <= |v| {
        assert v[i..i + 7] == (x + Fence)[i - 3..i - 3 + 7];
      }
    }
  }

  /** The plainly fenced reply yields the stripped inner text as its candidate. */
  lemma PlainFencedCandidate(x: string)
    requires '`' !in x && |x| > 0 && x[0] == '\n'
    ensures FenceCandidate(Strip(Fence + x + Fence)) == Strip(x)
  {
    var v := Fence + (x + Fence);
    assert v == Fence + x + Fence;
    FencedIsTrimmed(v);
    PlainFencedHasNoJsonFence(x);
    OpensWith(Fence, x + Fence);
    ClosingFence(x);
  }

  /** A reply that opens with a fence and never closes it: the candidate is everything after the fence. */
  lemma LoneFenceCandidate(x: string)
    requires '`' !in x && |x| > 0 && x[0] == '\n'
    ensures FenceCandidate(Fence + x) == Strip(x)
  {
    var v := Fence + x;
    forall i: nat ensures !OccursAt(v, JsonFence, i) {
      if i + 7 <= |v| {
        if i < 3 {
          assert v[3] == '\n';
          assert v[i..i + 7][3 - i] == v[3];
        } else {
          assert v[i..i + 7][0] == x[i - 3];
        }
      }
    }
    OpensWith(Fence, x);
    NoEarlyOccurrence(x, [], Fence);
    assert x + [] == x;
  }

  /**
   * Wrapping a backtick-free JSON text in a ```json fence, or in a plain fence, recovers
   * the same event list as the bare text.
   */
  lemma FenceWrappingInvariant(parse: string -> Option<Json>, j: string)
    requires '`' !in j
    ensures RecoverEventList(parse, "```json\n" + j + "\n```") == RecoverEventList(parse, j)
    ensures RecoverEventList(parse, "```\n" + j + "\n```") == RecoverEventList(parse, j)
  {
    StripKeepsBacktickFree(j);
    BacktickFreeCandidate(Strip(j));
    var x := "\n" + j + "\n";
    StripPadded("\n", j, "\n");
    JsonFencedCandidate(x);
    WrapShapes(j);
    PlainFencedCandidate(x);
  }

  lemma WrapShapes(j: string)
    ensures "```json\n" + j + "\n```" == JsonFence + ("\n" + j + "\n") + Fence
    ensures "```\n" + j + "\n```" == Fence + ("\n" + j + "\n") + Fence
  {
  }
}
