/** The `POST` handler of app/api/extract-event/route.ts: it checks the
    request, chooses the credential, asks the language model for the event
    and reads the reply as JSON, falling back to the first brace-delimited
    span when the reply is not JSON as a whole. The language model and
    `JSON.parse` are parameters: the model is a function of the credential
    and the text, and parsing is an oracle that yields a value or fails. */
module ExtractEvent {
  import opened Wrappers
  import opened JsString

  /** The two properties the handler destructures from the request body;
      `None` is `undefined` or `null`. */
  datatype RequestBody = RequestBody(text: Option<string>, apiKey: Option<string>)

  /** What the completion call gives back: an exception (network failure,
      rejected credential, no choices) or the first choice's message
      content, which may be `null`. */
  datatype BackendOutcome = Threw | Replied(content: Option<string>)

  /** The error responses of the handler. */
  datatype ApiError =
    | MissingText   // no text in the request
    | MissingApiKey // no credential in the request or the environment
    | EmptyReply    // the model's reply has no content
    | Unstructured  // the reply holds no JSON the parser accepts
    | Internal      // any exception caught by the outer handler

  /** The response: the parsed reply with status 200, or an error. */
  datatype Response<J> = Extracted(value: J) | Rejected(error: ApiError)

  /** The HTTP status of an error. */
  function ErrorStatus(e: ApiError): (status: int)
    ensures status == 400 <==> e == MissingText || e == MissingApiKey
    ensures status != 400 ==> status == 500
  {
    match e
    case MissingText => 400
    case MissingApiKey => 400
    case EmptyReply => 500
    case Unstructured => 500
    case Internal => 500
  }

  /** The `error` message of an error response. */
  function ErrorMessage(e: ApiError): (m: string)
    ensures m != ""
  {
    match e
    case MissingText => "El texto es requerido"
    case MissingApiKey => "Se requiere una clave API de OpenAI"
    case EmptyReply => "No se pudo extraer información del texto"
    case Unstructured => "No se pudo extraer información estructurada del texto"
    case Internal => "Error al procesar el texto"
  }

  /** Each error has a message of its own, so a caller can tell them apart
      by the message alone. */
  lemma ErrorMessageInjective(e1: ApiError, e2: ApiError)
    ensures ErrorMessage(e1) == ErrorMessage(e2) ==> e1 == e2
  {
  }

  /** The HTTP status of a response. */
  function Status<J>(r: Response<J>): (status: int)
    ensures status == 200 <==> r.Extracted?
    ensures r.Rejected? ==> status == ErrorStatus(r.error)
  {
    match r
    case Extracted(_) => 200
    case Rejected(e) => ErrorStatus(e)
  }

  /** `apiKey || process.env.OPENAI_API_KEY`, kept only when truthy: the
      key in the request wins, the environment's key is the fallback. */
  function Credential(apiKey: Option<string>, envKey: Option<string>): (r: Option<string>)
    ensures r.Some? <==> Truthy(apiKey) || Truthy(envKey)
    ensures r.Some? ==> r.value != []
    ensures Truthy(apiKey) ==> r == apiKey
    ensures !Truthy(apiKey) && Truthy(envKey) ==> r == envKey
  {
    var chosen := if Truthy(apiKey) then apiKey else envKey;
    if Truthy(chosen) then chosen else None
  }

  /** `s[i..j]` is a match of `/\{[\s\S]*\}/`: an opening brace, anything,
      and a closing brace. */
  predicate BraceMatch(s: string, i: int, j: int) {
    0 <= i && i + 2 <= j <= |s| && s[i] == '{' && s[j - 1] == '}'
  }

  /** Where `s.match(/\{[\s\S]*\}/)` matches: the leftmost start, and from
      it the longest match, since `[\s\S]*` is greedy and matches any code
      point. */
  function BraceSpan(s: string): (r: Option<(nat, nat)>)
    ensures r.Some? ==> BraceMatch(s, r.value.0, r.value.1)
    ensures r.Some? ==> forall i, j :: BraceMatch(s, i, j) ==> r.value.0 <= i && (i == r.value.0 ==> j <= r.value.1)
    ensures r.None? ==> forall i, j :: !BraceMatch(s, i, j)
  {
    match (IndexOf(s, '{'), LastIndexOf(s, '}'))
    case (Some(i), Some(j)) => if i < j then Some((i, j + 1)) else None
    case _ => None
  }

  /** `jsonMatch[0]`: the matched text, or `None` for a `null` match. */
  function JsonMatch(s: string): (r: Option<string>)
    ensures r.Some? ==> 2 <= |r.value| && r.value[0] == '{' && r.value[|r.value| - 1] == '}'
    ensures r.Some? <==> exists i, j :: BraceMatch(s, i, j)
  {
    match BraceSpan(s)
    case None => None
    case Some((i, j)) => Some(s[i..j])
  }

  /** Reading the reply: `JSON.parse` of the trimmed reply, and when that
      throws, `JSON.parse` of the matched span; `None` when both fail or
      nothing matches. */
  function ParseReply<J>(content: string, parse: string -> Option<J>): (r: Option<J>)
    ensures r.Some? ==> exists i, j :: 0 <= i <= j <= |content| && parse(content[i..j]) == r
    ensures parse(Trim(content)).Some? ==> r == parse(Trim(content))
    ensures parse(Trim(content)).None? && BraceSpan(content).None? ==> r.None?
    ensures parse(Trim(content)).None? && BraceSpan(content).Some? ==>
              r == parse(content[BraceSpan(content).value.0..BraceSpan(content).value.1])
  {
    match parse(Trim(content))
    case Some(v) => Some(v)
    case None =>
      match JsonMatch(content)
      case None => None
      case Some(m) => parse(m)
  }

  /** The handler. `body` is `None` when `req.json()` throws or yields
      nothing to destructure; `backend(key, text)` is the completion call
      made with credential `key` and user message `text`. */
  function Handle<J>(body: Option<RequestBody>, envKey: Option<string>,
                     backend: (string, string) -> BackendOutcome,
                     parse: string -> Option<J>): (r: Response<J>)
    ensures r == Rejected(MissingText) <==> body.Some? && !Truthy(body.value.text)
    ensures r == Rejected(MissingApiKey) <==>
              body.Some? && Truthy(body.value.text) && !Truthy(body.value.apiKey) && !Truthy(envKey)
    ensures r.Extracted? ==>
              && body.Some? && Truthy(body.value.text)
              && Credential(body.value.apiKey, envKey).Some?
              && backend(Credential(body.value.apiKey, envKey).value, body.value.text.value).Replied?
              && Truthy(backend(Credential(body.value.apiKey, envKey).value, body.value.text.value).content)
              && ParseReply(backend(Credential(body.value.apiKey, envKey).value, body.value.text.value).content.value, parse)
                 == Some(r.value)
    ensures r == Rejected(EmptyReply) <==>
              && body.Some? && Truthy(body.value.text)
              && Credential(body.value.apiKey, envKey).Some?
              && backend(Credential(body.value.apiKey, envKey).value, body.value.text.value).Replied?
              && !Truthy(backend(Credential(body.value.apiKey, envKey).value, body.value.text.value).content)
    ensures r == Rejected(Unstructured) <==>
              && body.Some? && Truthy(body.value.text)
              && Credential(body.value.apiKey, envKey).Some?
              && backend(Credential(body.value.apiKey, envKey).value, body.value.text.value).Replied?
              && Truthy(backend(Credential(body.value.apiKey, envKey).value, body.value.text.value).content)
              && ParseReply(backend(Credential(body.value.apiKey, envKey).value, body.value.text.value).content.value, parse).None?
    ensures r == Rejected(Internal) <==>
              || body.None?
              || (&& Truthy(body.value.text)
                  && Credential(body.value.apiKey, envKey).Some?
                  && backend(Credential(body.value.apiKey, envKey).value, body.value.text.value).Threw?)
  {
    match body
    case None => Rejected(Internal)
    case Some(b) =>
      if !Truthy(b.text) then Rejected(MissingText)
      else
        match Credential(b.apiKey, envKey)
        case None => Rejected(MissingApiKey)
        case Some(key) =>
          match backend(key, b.text.value)
          case Threw => Rejected(Internal)
          case Replied(content) =>
            if !Truthy(content) then Rejected(EmptyReply)
            else
              match ParseReply(content.value, parse)
              case None => Rejected(Unstructured)
              case Some(v) => Extracted(v)
  }

  /** A JSON object wrapped in prose is recovered whole, provided the prose
      before it opens no brace and the prose after it closes none. */
  lemma MatchInProse(before: string, obj: string, after: string)
    requires '{' !in before && '}' !in after
    requires 2 <= |obj| && obj[0] == '{' && obj[|obj| - 1] == '}'
    ensures JsonMatch(before + obj + after) == Some(obj)
  {
    var s := before + obj + after;
    var lo, hi := |before|, |before| + |obj|;
    assert BraceMatch(s, lo, hi);
    assert s[..lo] == before;
    assert s[hi..] == after;
    assert s[lo..hi] == obj;
  }

  /** Trimming the reply first would recover the same text: a match begins
      and ends with a brace, and braces are not whitespace. */
  lemma JsonMatchIgnoresTrim(s: string)
    ensures JsonMatch(Trim(s)) == JsonMatch(s)
  {
    var t, lo := Trim(s), LeadingSpace(s);
    var hi := lo + |t|;
    assert t == s[lo..hi];
    forall k | 0 <= k < |s| && !(lo <= k < hi)
      ensures s[k] != '{' && s[k] != '}'
    {
      SpaceIsNoBrace(s[k]);
    }
    JsonMatchOfSlice(s, lo, hi);
  }

  /** Braces are not whitespace. */
  lemma SpaceIsNoBrace(c: char)
    requires IsWhitespace(c)
    ensures c != '{' && c != '}'
  {
  }

  /** Cutting away parts of a string that hold no brace leaves the match
      unchanged. */
  lemma JsonMatchOfSlice(s: string, lo: nat, hi: nat)
    requires lo <= hi <= |s|
    requires forall k :: 0 <= k < |s| && !(lo <= k < hi) ==> s[k] != '{' && s[k] != '}'
    ensures JsonMatch(s[lo..hi]) == JsonMatch(s)
  {
    match BraceSpan(s)
    case None => NoMatchInSlice(s, lo, hi);
    case Some((i, j)) => SameMatchInSlice(s, lo, hi, i, j);
  }

  /** A string without a match has none in any slice. */
  lemma NoMatchInSlice(s: string, lo: nat, hi: nat)
    requires lo <= hi <= |s| && BraceSpan(s).None?
    ensures BraceSpan(s[lo..hi]).None?
  {
    if BraceSpan(s[lo..hi]).Some? {
      var (i, j) := BraceSpan(s[lo..hi]).value;
      MatchOfSlice(s, lo, hi, i, j);
    }
  }

  /** The match of a string, when the rest holds no brace, is the match of
      the slice. */
  lemma SameMatchInSlice(s: string, lo: nat, hi: nat, i: nat, j: nat)
    requires lo <= hi <= |s|
    requires forall k :: 0 <= k < |s| && !(lo <= k < hi) ==> s[k] != '{' && s[k] != '}'
    requires BraceSpan(s) == Some((i, j))
    ensures JsonMatch(s[lo..hi]) == Some(s[i..j])
  {
    var t := s[lo..hi];
    MatchInSlice(s, lo, hi, i, j);
    var (i', j') := BraceSpan(t).value;
    MatchOfSlice(s, lo, hi, i', j');
    JsonMatchOfSpan(t, i', j');
    SliceOfSlice(s, lo, hi, i', j', i, j);
  }

  /** The matched text is the span's slice. */
  lemma JsonMatchOfSpan(s: string, i: nat, j: nat)
    requires BraceSpan(s) == Some((i, j))
    ensures j <= |s| && JsonMatch(s) == Some(s[i..j])
  {
  }

  /** A slice of a slice is a slice of the whole string. */
  lemma SliceOfSlice(s: string, lo: nat, hi: nat, a: nat, b: nat, i: nat, j: nat)
    requires lo <= hi <= |s| && a <= b <= hi - lo
    requires i == lo + a && j == lo + b
    ensures s[lo..hi][a..b] == s[i..j]
  {
    forall k | 0 <= k < b - a
      ensures s[lo..hi][a..b][k] == s[i..j][k]
    {
      assert s[lo..hi][a..b][k] == s[lo..hi][a + k] == s[i + k];
    }
  }

  /** A match lying inside a slice is a match of the slice. */
  lemma MatchInSlice(s: string, lo: nat, hi: nat, i: int, j: int)
    requires lo <= hi <= |s| && BraceMatch(s, i, j)
    requires forall k :: 0 <= k < |s| && !(lo <= k < hi) ==> s[k] != '{' && s[k] != '}'
    ensures BraceMatch(s[lo..hi], i - lo, j - lo)
  {
    assert lo <= i < hi && lo <= j - 1 < hi;
  }

  /** A match of a slice is a match of the whole string. */
  lemma MatchOfSlice(s: string, lo: nat, hi: nat, i: int, j: int)
    requires lo <= hi <= |s| && BraceMatch(s[lo..hi], i, j)
    ensures BraceMatch(s, i + lo, j + lo)
  {
    assert s[lo..hi][i] == s[i + lo];
  }

  /** A reply that is not JSON as a whole but holds an object between prose
      without braces yields whatever the parser makes of that object. */
  lemma ProseWrappedReply<J>(before: string, obj: string, after: string, parse: string -> Option<J>)
    requires '{' !in before && '}' !in after
    requires 2 <= |obj| && obj[0] == '{' && obj[|obj| - 1] == '}'
    requires parse(Trim(before + obj + after)).None?
    ensures ParseReply(before + obj + after, parse) == parse(obj)
  {
    MatchInProse(before, obj, after);
  }

  /** Without text or without a credential the handler answers before any
      completion call: the answer does not depend on the backend. */
  lemma NoCallWithoutTextOrKey<J>(body: Option<RequestBody>, envKey: Option<string>,
                                  backend1: (string, string) -> BackendOutcome,
                                  backend2: (string, string) -> BackendOutcome,
                                  parse: string -> Option<J>)
    requires body.None? || !Truthy(body.value.text) || (!Truthy(body.value.apiKey) && !Truthy(envKey))
    ensures Handle(body, envKey, backend1, parse) == Handle(body, envKey, backend2, parse)
    ensures Handle(body, envKey, backend1, parse).Rejected?
  {
  }

  /** The completion call is made once, with the chosen credential and the
      request's text: two backends that agree there give the same answer. */
  lemma OneCallWithChosenKey<J>(body: RequestBody, envKey: Option<string>,
                                backend1: (string, string) -> BackendOutcome,
                                backend2: (string, string) -> BackendOutcome,
                                parse: string -> Option<J>)
    requires Truthy(body.text) && (Truthy(body.apiKey) || Truthy(envKey))
    requires backend1(Credential(body.apiKey, envKey).value, body.text.value)
          == backend2(Credential(body.apiKey, envKey).value, body.text.value)
    ensures Handle(Some(body), envKey, backend1, parse) == Handle(Some(body), envKey, backend2, parse)
  {
  }

  /** A request with text and a credential succeeds exactly when the model
      replies with content that the parser reads, directly or after
      recovery. */
  lemma ExtractedExactly<J>(body: RequestBody, envKey: Option<string>,
                            backend: (string, string) -> BackendOutcome,
                            parse: string -> Option<J>)
    requires Truthy(body.text) && (Truthy(body.apiKey) || Truthy(envKey))
    ensures var reply := backend(Credential(body.apiKey, envKey).value, body.text.value);
            Handle(Some(body), envKey, backend, parse).Extracted?
            <==> reply.Replied? && Truthy(reply.content) && ParseReply(reply.content.value, parse).Some?
  {
  }
}

