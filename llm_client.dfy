/** The Gemini client: the missing-key check, the request it would send, the status check on
    the reply, and how the answer text is taken out of the decoded reply. The HTTP exchange
    itself is a function parameter. */
module LlmClient {
  import opened Wrappers
  import opened Text
  import opened Json

  const ModelName: string := "gemini-2.5-flash"
  const DefaultApiUrl: string := "https://generativelanguage.googleapis.com"
  const MissingKeyMessage: string := "GEMINI_API_KEY not set in environment. See .env.example"

  /** The two settings read from the environment; an unset key is the empty string. */
  datatype Config = Config(apiUrl: string, apiKey: string)

  datatype Part = Part(text: string)
  datatype Content = Content(role: string, parts: seq<Part>)
  datatype GenerationConfig = GenerationConfig(maxOutputTokens: int, temperature: real)
  datatype Payload = Payload(contents: seq<Content>, generationConfig: GenerationConfig)
  datatype Request = Request(url: string, headers: seq<(string, string)>, payload: Payload)

  /** The reply: its status line and the body as `r.json()` decodes it. */
  datatype Reply = Reply(status: int, reason: string, body: Json)

  /** The error `call_gemini` raises, carrying the text `str(e)` gives. */
  datatype LlmError = MissingKey(message: string) | HttpError(message: string) | Transport(message: string)

  function Endpoint(apiUrl: string): (u: string)
    ensures StartsWith(u, apiUrl)
    ensures u[|apiUrl|..] == "/v1beta/models/" + ModelName + ":generateContent"
  {
    apiUrl + "/v1beta/models/" + ModelName + ":generateContent"
  }

  /** The request for a prompt: one user message with one text part, the generation settings
      passed through unchanged, the key in the `x-goog-api-key` header. */
  function BuildRequest(cfg: Config, prompt: string, maxTokens: int, temperature: real): (r: Request)
    ensures |r.payload.contents| == 1 && r.payload.contents[0].role == "user"
    ensures r.payload.contents[0].parts == [Part(prompt)]
    ensures r.payload.generationConfig.maxOutputTokens == maxTokens
    ensures r.payload.generationConfig.temperature == temperature
    ensures r.url == Endpoint(cfg.apiUrl)
    ensures ("x-goog-api-key", cfg.apiKey) in r.headers && ("Content-Type", "application/json") in r.headers
  {
    Request(Endpoint(cfg.apiUrl),
            [("x-goog-api-key", cfg.apiKey), ("Content-Type", "application/json")],
            Payload([Content("user", [Part(prompt)])], GenerationConfig(maxTokens, temperature)))
  }

  /** `raise_for_status()`: a 4xx or 5xx status becomes an error naming status, reason and url. */
  function StatusError(reply: Reply, url: string): (e: Option<LlmError>)
    ensures e.Some? <==> 400 <= reply.status < 600
    ensures e.Some? ==> e.value.HttpError? && StartsWith(e.value.message, IntText(reply.status) + " ")
  {
    if 400 <= reply.status < 500 then
      Some(HttpError(IntText(reply.status) + " Client Error: " + reply.reason + " for url: " + url))
    else if 500 <= reply.status < 600 then
      Some(HttpError(IntText(reply.status) + " Server Error: " + reply.reason + " for url: " + url))
    else None
  }

  // ---------------------------------------------------------------------
  // Extraction, with Python's behaviour on unexpected shapes
  // ---------------------------------------------------------------------

  /** `j[key]`, which only succeeds on an object holding that key. */
  function Key(j: Json, key: string): Option<Json>
  {
    match j
    case JObj(ms) => Lookup(ms, key)
    case _ => None
  }

  /** `j[0]` followed by a key lookup: only a non-empty list gets that far (the first character
      of a string is itself a string, on which the next lookup fails). */
  function First(j: Json): Option<Json>
  {
    match j
    case JArr(items) => if |items| > 0 then Some(items[0]) else None
    case _ => None
  }

  /** What the comprehension does with one element `p` of `parts`: skip it, take its text, or fail
      (`"text" in p` on a number, `p.get` on a string or list, a non-string text at `join`). */
  datatype Step = Skip | Take(text: string) | Fail

  function PartStep(p: Json): (r: Step)
    ensures r.Take? ==> p.JObj? && Lookup(p.members, "text") == Some(JStr(r.text))
    ensures p.JObj? && Lookup(p.members, "text").Some? && Lookup(p.members, "text").value.JStr? ==>
              r == Take(Lookup(p.members, "text").value.s)
    ensures r.Skip? ==> (p.JObj? && Lookup(p.members, "text").None?) || p.JStr? || p.JArr?
  {
    match p
    case JObj(ms) =>
      (match Lookup(ms, "text")
       case None => Skip
       case Some(JStr(s)) => Take(s)
       case Some(_) => Fail)
    case JStr(s) => if Contains(s, "text") then Fail else Skip
    case JArr(items) => if JStr("text") in items then Fail else Skip
    case _ => Fail
  }

  /** The texts of the parts, in order, or `None` if the comprehension or the join would raise. */
  function PartTexts(parts: seq<Json>): (r: Option<seq<string>>)
    ensures r.None? <==> exists i :: 0 <= i < |parts| && PartStep(parts[i]).Fail?
    ensures r.Some? ==> |r.value| <= |parts|
  {
    if parts == [] then Some([])
    else
      var rest := PartTexts(parts[1..]);
      assert forall i :: 1 <= i < |parts| ==> parts[i] == parts[1..][i - 1];
      match PartStep(parts[0])
      case Fail => None
      case Skip => rest
      case Take(s) => if rest.None? then None else Some([s] + rest.value)
  }

  /** The texts the comprehension collects from `parts`, whatever its JSON type: the items of a
      list; the keys of an object (strings, so any key containing "text" fails); the characters
      of a string (never containing "text"). Anything else cannot be iterated. */
  function Texts(parts: Json): (r: Option<seq<string>>)
    ensures parts.JArr? ==> r == PartTexts(parts.items)
    ensures r.Some? && r.value != [] ==> parts.JArr?
    ensures parts.JNull? || parts.JBool? || parts.JInt? ==> r.None?
  {
    match parts
    case JArr(items) => PartTexts(items)
    case JObj(ms) => if exists i :: 0 <= i < |ms| && Contains(ms[i].0, "text") then None else Some([])
    case JStr(_) => Some([])
    case _ => None
  }

  /** `out["candidates"][0]["content"]["parts"]`, then the joined and stripped texts. */
  function Extract(out: Json): (r: Option<string>)
    ensures r.Some? ==> Strip(r.value) == r.value
  {
    match Key(out, "candidates")
    case None => None
    case Some(candidates) =>
      match First(candidates)
      case None => None
      case Some(first) =>
        match Key(first, "content")
        case None => None
        case Some(content) =>
          match Key(content, "parts")
          case None => None
          case Some(parts) =>
            match Texts(parts)
            case None => None
            case Some(texts) =>
              StripIdempotent(Join(texts, "\n"));
              Some(Strip(Join(texts, "\n")))
  }

  /** The answer text: the extracted text, or else the whole reply as indented JSON. */
  function AnswerText(out: Json): (r: string)
    ensures Extract(out).Some? ==> r == Extract(out).value
  {
    match Extract(out)
    case Some(t) => t
    case None =>
      Dumps(out, Some(2))
  }

  /** `call_gemini(prompt, max_tokens, temperature)`: `send` stands for the HTTP exchange, giving
      the reply or a transport failure. */
  function CallGemini(cfg: Config, prompt: string, maxTokens: int, temperature: real,
                      send: Request -> Result<Reply, string>): (r: Result<string, LlmError>)
    ensures cfg.apiKey == "" ==> r == Err(MissingKey(MissingKeyMessage))
    ensures cfg.apiKey != "" && send(BuildRequest(cfg, prompt, maxTokens, temperature)).Err? ==>
              r == Err(Transport(send(BuildRequest(cfg, prompt, maxTokens, temperature)).error))
    ensures r.Err? && r.error.HttpError? ==>
              (cfg.apiKey != "" &&
               var reply := send(BuildRequest(cfg, prompt, maxTokens, temperature));
               reply.Ok? && 400 <= reply.value.status < 600)
    ensures r.Ok? ==>
              (cfg.apiKey != "" &&
               var reply := send(BuildRequest(cfg, prompt, maxTokens, temperature));
               reply.Ok? && !(400 <= reply.value.status < 600) && r.value == AnswerText(reply.value.body))
    ensures cfg.apiKey != "" ==>
              var request := BuildRequest(cfg, prompt, maxTokens, temperature);
              var reply := send(request);
              && (reply.Ok? && 400 <= reply.value.status < 600 ==>
                    r == Err(StatusError(reply.value, request.url).value))
              && (reply.Ok? && !(400 <= reply.value.status < 600) ==> r == Ok(AnswerText(reply.value.body)))
  {
    if cfg.apiKey == "" then Err(MissingKey(MissingKeyMessage))
    else
      var request := BuildRequest(cfg, prompt, maxTokens, temperature);
      match send(request)
      case Err(msg) => Err(Transport(msg))
      case Ok(reply) =>
        match StatusError(reply, request.url)
        case Some(e) => Err(e)
        case None => Ok(AnswerText(reply.body))
  }

  /** Without a key nothing is sent: the outcome does not depend on the exchange at all. */
  lemma MissingKeyBeforeRequest(cfg: Config, prompt: string, maxTokens: int, temperature: real,
                                send1: Request -> Result<Reply, string>, send2: Request -> Result<Reply, string>)
    requires cfg.apiKey == ""
    ensures CallGemini(cfg, prompt, maxTokens, temperature, send1) == CallGemini(cfg, prompt, maxTokens, temperature, send2)
  {
  }

  /** Only the first candidate is consulted: two replies whose candidate lists start alike give
      the same answer, whatever the later candidates and whatever other keys the replies hold. */
  lemma OnlyFirstCandidate(out1: Json, out2: Json, first: Json, others1: seq<Json>, others2: seq<Json>)
    requires Key(out1, "candidates") == Some(JArr([first] + others1))
    requires Key(out2, "candidates") == Some(JArr([first] + others2))
    ensures Extract(out1) == Extract(out2)
  {
    assert First(JArr([first] + others1)) == Some(first) == First(JArr([first] + others2));
  }

  /** When no text can be extracted, the answer is the reply itself as JSON that decodes back to it. */
  lemma FallbackDecodes(out: Json)
    requires Extract(out).None?
    ensures Loads(AnswerText(out)) == Some(out)
  {
    LoadsDumps(out, Some(2));
  }

  /** A reply without candidates is returned whole. */
  lemma NoCandidatesFallsBack(out: Json)
    requires Key(out, "candidates").None?
    ensures Loads(AnswerText(out)) == Some(out)
  {
    FallbackDecodes(out);
  }

  /** The texts of consecutive stretches of parts are concatenated: texts of `a`, then of `b`;
      a failing part anywhere makes the whole fail. */
  lemma {:induction false} PartTextsAppend(a: seq<Json>, b: seq<Json>)
    ensures PartTexts(a + b) ==
              if PartTexts(a).Some? && PartTexts(b).Some? then Some(PartTexts(a).value + PartTexts(b).value) else None
  {
    if a == [] {
      assert a + b == b;
      assert PartTexts(a) == Some([]);
      if PartTexts(b).Some? {
        assert [] + PartTexts(b).value == PartTexts(b).value;
      }
    } else {
      assert (a + b)[0] == a[0] && (a + b)[1..] == a[1..] + b;
      PartTextsAppend(a[1..], b);
      match PartStep(a[0])
      case Fail =>
      case Skip =>
      case Take(s) =>
        if PartTexts(a[1..]).Some? && PartTexts(b).Some? {
          assert [s] + (PartTexts(a[1..]).value + PartTexts(b).value) == [s] + PartTexts(a[1..]).value + PartTexts(b).value;
        }
    }
  }

  /** Parts without a "text" key are skipped wherever they stand; the others keep their order. */
  lemma TextPartsInOrder(a: seq<Json>, p: Json, b: seq<Json>)
    requires PartStep(p).Skip?
    ensures PartTexts(a + [p] + b) == PartTexts(a + b)
  {
    PartTextsAppend(a + [p], b);
    PartTextsAppend(a, [p]);
    PartTextsAppend(a, b);
    var empty: seq<Json> := [];
    assert [p][1..] == empty;
    if PartTexts(a).Some? {
      assert PartTexts(a).value + [] == PartTexts(a).value;
    }
  }

  /** When every part is an object with a string "text" (other keys allowed), the texts are
      exactly those strings, in order. */
  lemma {:induction false} AllTextParts(parts: seq<Json>, texts: seq<string>)
    requires |parts| == |texts|
    requires forall i :: 0 <= i < |parts| ==> parts[i].JObj? && Lookup(parts[i].members, "text") == Some(JStr(texts[i]))
    ensures PartTexts(parts) == Some(texts)
  {
    if parts != [] {
      AllTextParts(parts[1..], texts[1..]);
      assert PartStep(parts[0]) == Take(texts[0]);
      assert texts == [texts[0]] + texts[1..];
    }
  }

  /** The reply shape the client expects: one candidate whose content holds `parts`. */
  function OneCandidate(parts: seq<Json>): Json
  {
    JObj([("candidates", JArr([JObj([("content", JObj([("parts", JArr(parts))]))])]))])
  }

  /** From any reply whose first candidate's content holds a list of parts, the answer is the
      texts of the parts joined by newlines and stripped, or nothing when a part makes the
      comprehension fail; other keys and later candidates play no part. */
  lemma ExtractOneCandidate(out: Json, first: Json, others: seq<Json>, content: Json, parts: seq<Json>)
    requires Key(out, "candidates") == Some(JArr([first] + others))
    requires Key(first, "content") == Some(content)
    requires Key(content, "parts") == Some(JArr(parts))
    ensures PartTexts(parts).Some? ==> Extract(out) == Some(Strip(Join(PartTexts(parts).value, "\n")))
    ensures PartTexts(parts).None? ==> Extract(out) == None
  {
    assert First(JArr([first] + others)) == Some(first);
  }

  /** A text part, a part without text and another text part: the two texts are joined by a
      newline and the result is stripped. */
  lemma ExtractExample(a: string, b: string)
    ensures Extract(OneCandidate([JObj([("text", JStr(a))]), JObj([("inlineData", JNull)]), JObj([("text", JStr(b))])]))
            == Some(Strip(a + "\n" + b))
  {
    var p0, p1, p2 := JObj([("text", JStr(a))]), JObj([("inlineData", JNull)]), JObj([("text", JStr(b))]);
    var empty: seq<Json> := [];
    assert [p2][1..] == empty;
    assert PartStep(p2) == Take(b);
    assert PartTexts([p2]) == Some([b] + PartTexts(empty).value);
    assert [p1, p2][1..] == [p2];
    assert PartStep(p1) == Skip;
    assert [p0, p1, p2][1..] == [p1, p2];
    assert PartStep(p0) == Take(a);
    assert PartTexts([p0, p1, p2]) == Some([a] + PartTexts([p1, p2]).value);
    assert [a] + [b] == [a, b];
    assert Join([a, b], "\n") == a + "\n" + b;
    var parts := [p0, p1, p2];
    var first := JObj([("content", JObj([("parts", JArr(parts))]))]);
    var none: seq<Json> := [];
    assert [first] + none == [first];
    assert Key(OneCandidate(parts), "candidates") == Some(JArr([first] + none));
    assert Key(first, "content") == Some(JObj([("parts", JArr(parts))]));
    assert Key(JObj([("parts", JArr(parts))]), "parts") == Some(JArr(parts));
    ExtractOneCandidate(OneCandidate(parts), first, none, JObj([("parts", JArr(parts))]), parts);
  }

  lemma StripExample()
    ensures Strip("Hello\nworld ") == "Hello\nworld"
  {
    var s := "Hello\nworld ";
    assert !IsSpace('H') && !IsSpace('d') && IsSpace(' ');
    assert AllSpace(s[11..]);
    StripTrimmed("Hello\nworld");
    assert s == "Hello\nworld" + " ";
  }
}
