/** `Connector::getResult`, `parseResult` and `getLastJsonError`: how the answer to a request
    becomes either the decoded array or an exception. The HTTP client is a `Transport`
    function and `json_decode` / `json_last_error` a `Decoder` function; both are inputs. */
module Results {
  import opened Php
  import opened Errors
  import Params

  datatype HttpMethod = GET | POST | PUT | DELETE

  /** What the connector hands to the HTTP client: the method, the path below the service
      URL, the `query` option and the `json` option (present only when there is data). */
  datatype Request = Request(verb: HttpMethod, path: string, query: Entries, json: Option<Entries>)

  /** The HTTP answer: status code and body text. */
  datatype Response = Response(status: int, body: string)

  /** What `json_decode($body, true)` returns and what `json_last_error()` reports after it. */
  datatype Decoded = Decoded(value: Value, lastError: int)

  type Transport = Request -> Response
  type Decoder = string -> Decoded

  const JSON_ERROR_DEPTH: int := 1
  const JSON_ERROR_STATE_MISMATCH: int := 2
  const JSON_ERROR_CTRL_CHAR: int := 3
  const JSON_ERROR_SYNTAX: int := 4
  const JSON_ERROR_UTF8: int := 5

  const EMPTY_RESPONSE: string := "Empty response received"
  const MISSING_ENTITY_TYPE: string := "Missing entitytype in request"

  /** The reasons `getLastJsonError` knows, by error code. */
  function JsonErrorMessages(): map<int, string>
  {
    map[
      JSON_ERROR_DEPTH := "Maximum stack depth exceeded",
      JSON_ERROR_STATE_MISMATCH := "Underflow or the modes mismatch",
      JSON_ERROR_CTRL_CHAR := "Unexpected control character found",
      JSON_ERROR_SYNTAX := "Syntax error, malformed JSON",
      JSON_ERROR_UTF8 := "Malformed UTF-8 characters, possibly incorrectly encoded"
    ]
  }

  /** `getLastJsonError()` for the reported error code. */
  function LastJsonError(code: int): (reason: string)
    ensures reason == EMPTY_RESPONSE <==> !(1 <= code <= 5)
    ensures 1 <= code <= 5 ==> reason in JsonErrorMessages().Values
  {
    if code in JsonErrorMessages() then JsonErrorMessages()[code] else EMPTY_RESPONSE
  }

  /** `parseResult($body, $status)`: the decoded array, or an exception whose code is the HTTP
      status and whose message quotes the JSON reason followed by the body. */
  function ParseResult(body: string, status: int, decoded: Decoded): (r: Result<Entries>)
    ensures r.Ok? <==> decoded.value.Arr?
    ensures r.Ok? ==> r.value == decoded.value.entries
    ensures r.Err? ==> r.error.Raised? && r.error.e.code == status && r.error.e.errors == []
  {
    if decoded.value.Arr? then Ok(decoded.value.entries)
    else Fail("\"" + LastJsonError(decoded.lastError) + "\" in " + body, status)
  }

  /** The message of a failed parse: the reason in double quotes, " in " and the body. */
  lemma ParseFailureMessage(body: string, status: int, decoded: Decoded)
    requires !decoded.value.Arr?
    ensures var m := ParseResult(body, status, decoded).error.e.message;
      && m[0] == '"'
      && m[1..|LastJsonError(decoded.lastError)| + 1] == LastJsonError(decoded.lastError)
      && m[|LastJsonError(decoded.lastError)| + 1..] == "\" in " + body
  {
    QuotedReason(LastJsonError(decoded.lastError), body);
  }

  /** The layout of a parse failure message around any reason. */
  lemma QuotedReason(reason: string, body: string)
    ensures var m := "\"" + reason + "\" in " + body;
      && m[0] == '"'
      && m[1..|reason| + 1] == reason
      && m[|reason| + 1..] == "\" in " + body
  {
    var m := "\"" + reason + "\" in " + body;
    assert m == "\"" + (reason + ("\" in " + body));
  }

  // ---------------------------------------------------------------------------
  // The exception built from an error body

  /** `string $message` of the built-in exception constructor: scalars are converted, an array
      is refused. */
  function MessageArgument(v: Value): (m: Option<string>)
    ensures m.None? <==> v.Arr?
  {
    if v.Arr? then None else Some(StringOf(v))
  }

  /** `int $code` of the built-in exception constructor: null and booleans convert, so does a
      string holding an integer numeral; anything else is refused. */
  function CodeArgument(v: Value): (c: Option<int>)
    ensures v.Int? ==> c == Some(v.i)
    ensures v.Arr? ==> c.None?
  {
    match v
    case Null => Some(0)
    case Bool(b) => Some(if b then 1 else 0)
    case Int(i) => Some(i)
    case Str(s) =>
      if IsCanonicalDecimal(s) && PHP_INT_MIN <= CanonicalValue(s) <= PHP_INT_MAX
      then Some(CanonicalValue(s)) else None
    case Arr(_) => None
  }

  /** `($_ =& $data['errors']) ?: []` passed as `array $errors`: a falsy value becomes the
      empty array, an array is kept, any other truthy value is refused. */
  function ErrorsArgument(v: Value): (e: Option<Entries>)
    ensures IsEmpty(v) ==> e == Some([])
    ensures v.Arr? ==> e == Some(v.entries)
    ensures e.None? <==> !IsEmpty(v) && !v.Arr?
  {
    if IsEmpty(v) then Some([]) else if v.Arr? then Some(v.entries) else None
  }

  /** The exception `getResult` throws for a decoded error body; a mistyped field makes the
      constructor call itself fail. */
  function RemoteException(data: Entries): (t: Thrown)
    ensures t.Raised? || t == ArgumentError
  {
    var message := MessageArgument(GetOrNull(data, StrKey("message")));
    var code := CodeArgument(GetOrNull(data, StrKey("code")));
    var errors := ErrorsArgument(GetOrNull(data, StrKey("errors")));
    if message.Some? && code.Some? && errors.Some? then
      Raised(NewException(message.value, code.value, errors.value))
    else ArgumentError
  }

  /** A well-formed error body is passed on as it is: its message, its code and its errors. */
  lemma RemoteExceptionKeepsBody(data: Entries, message: string, code: int, errors: Entries)
    requires Get(data, StrKey("message")) == Some(Str(message))
    requires Get(data, StrKey("code")) == Some(Int(code))
    requires Get(data, StrKey("errors")) == Some(Arr(errors)) || !HasKey(data, StrKey("errors"))
    ensures !HasKey(data, StrKey("errors")) ==> RemoteException(data) == Raised(Exception(message, code, []))
    ensures HasKey(data, StrKey("errors")) ==> RemoteException(data) == Raised(Exception(message, code, errors))
  {
  }

  /** A body without message or code still gives an exception, with message "" and code 0. */
  lemma RemoteExceptionDefaults(data: Entries)
    requires !HasKey(data, StrKey("message")) && !HasKey(data, StrKey("code"))
    requires !HasKey(data, StrKey("errors"))
    ensures RemoteException(data) == Raised(Exception("", 0, []))
  {
  }

  // ---------------------------------------------------------------------------
  // getResult

  /** The request `getResult` sends: the parameters go through `preParseParams` as the query,
      the data is sent as JSON only when it is non-empty. */
  function RequestFor(verb: HttpMethod, path: string, params: Entries, data: Entries): (req: Request)
    ensures req.json.Some? <==> |data| > 0
  {
    Request(verb, path, Params.PreParseParamsSpec(params), if |data| > 0 then Some(data) else None)
  }

  /** `getResult($method, $path, $params, $data)`. A null `$params` or `$data` is the empty array. */
  function GetResult(verb: HttpMethod, path: string, params: Entries, data: Entries,
                     transport: Transport, decode: Decoder): (r: Result<Entries>)
    ensures StartsWith(path, ".json") ==> r == Err(InvalidArgument(MISSING_ENTITY_TYPE))
    ensures !StartsWith(path, ".json") ==>
      var response := transport(RequestFor(verb, path, params, data));
      var decoded := decode(response.body);
      && (r.Ok? <==> response.status == 200 && decoded.value.Arr?)
      && (r.Ok? ==> r.value == decoded.value.entries)
      && (!decoded.value.Arr? ==> r.Err? && r.error.Raised? && r.error.e.code == response.status)
      && (decoded.value.Arr? && response.status != 200 ==> r == Err(RemoteException(decoded.value.entries)))
  {
    if StartsWith(path, ".json") then Err(InvalidArgument(MISSING_ENTITY_TYPE))
    else
      var response := transport(RequestFor(verb, path, params, data));
      Answer(response, decode(response.body))
  }

  /** A path with an entity type is sent once, as `RequestFor` builds it, and the answer to
      that request decides the outcome. */
  lemma GetResultSends(verb: HttpMethod, path: string, params: Entries, data: Entries,
                       transport: Transport, decode: Decoder)
    requires !StartsWith(path, ".json")
    ensures var req := RequestFor(verb, path, params, data);
      GetResult(verb, path, params, data, transport, decode) == Answer(transport(req), decode(transport(req).body))
  {
  }

  /** Without parameters or data the request has an empty query and no JSON body. */
  lemma SendsBare(verb: HttpMethod, path: string, transport: Transport, decode: Decoder)
    requires !StartsWith(path, ".json")
    ensures var req := Request(verb, path, [], None);
      GetResult(verb, path, [], [], transport, decode) == Answer(transport(req), decode(transport(req).body))
  {
    Params.UnchangedWithoutFieldList([]);
    assert RequestFor(verb, path, [], []) == Request(verb, path, [], None);
    GetResultSends(verb, path, [], [], transport, decode);
  }

  /** What `getResult` makes of a response: the decoded array on a 200, the exception built
      from the error body otherwise, and the parse failure for a body that is not an array. */
  function Answer(response: Response, decoded: Decoded): (r: Result<Entries>)
    ensures r.Ok? <==> response.status == 200 && decoded.value.Arr?
    ensures r.Ok? ==> r.value == decoded.value.entries
    ensures !decoded.value.Arr? ==> r.Err? && r.error.Raised? && r.error.e.code == response.status
    ensures decoded.value.Arr? && response.status != 200 ==> r == Err(RemoteException(decoded.value.entries))
  {
    match ParseResult(response.body, response.status, decoded)
    case Err(e) => Err(e)
    case Ok(responseData) =>
      if response.status != 200 then Err(RemoteException(responseData)) else Ok(responseData)
  }

  /** A path without an entity type is refused before anything is sent: the outcome does not
      depend on the transport or the decoder. */
  lemma MissingEntityTypeSendsNothing(verb: HttpMethod, path: string, params: Entries, data: Entries,
                                      t1: Transport, t2: Transport, d1: Decoder, d2: Decoder)
    requires StartsWith(path, ".json")
    ensures GetResult(verb, path, params, data, t1, d1) == GetResult(verb, path, params, data, t2, d2)
  {
  }

  /** Every failure of `getResult` is one of: the missing entity type, an undecodable body,
      or the error body of a non-200 answer (or the constructor refusing its fields). */
  lemma GetResultFailures(verb: HttpMethod, path: string, params: Entries, data: Entries,
                          transport: Transport, decode: Decoder)
    requires GetResult(verb, path, params, data, transport, decode).Err?
    ensures var e := GetResult(verb, path, params, data, transport, decode).error;
      || e == InvalidArgument(MISSING_ENTITY_TYPE)
      || e.ArgumentError?
      || (e.Raised? && e.e.errors == [] &&
          var response := transport(RequestFor(verb, path, params, data));
          e.e.code == response.status &&
          e.e.message == "\"" + LastJsonError(decode(response.body).lastError) + "\" in " + response.body)
      || (e.Raised? && transport(RequestFor(verb, path, params, data)).status != 200)
  {
  }
}
