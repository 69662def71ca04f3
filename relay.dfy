/**
 * The chat-completion relay (api/analyze.php): refuse the request when the
 * server has no API key or the body lacks `messages` or `model`; otherwise
 * forward the four completion fields, with defaults, to the upstream API
 * under the server's bearer token, and answer with whatever the upstream
 * answered.
 */
module Relay {
  import opened Optional

  /**
   * A decoded JSON value, kept as JSON: objects stay objects. The script's
   * `json_decode($body, true)` turns objects into PHP arrays, which this
   * type does not follow (`{}` and `[]` are distinct here). Numbers are
   * decimal `mantissa * 10^exponent` and are passed through untouched.
   * A body that is not valid JSON decodes to `JNull`.
   */
  datatype Json =
    | JNull
    | JBool(b: bool)
    | JNum(mantissa: int, exponent: int)
    | JString(s: string)
    | JArray(items: seq<Json>)
    | JObject(fields: map<string, Json>)

  /** The outbound request: target URL, header lines and JSON body. */
  datatype Request = Request(url: string, headers: seq<string>, body: map<string, Json>)

  /** An HTTP status and a raw response body. */
  datatype Response = Response(status: int, body: string)

  /** What the relay decides before any network traffic. */
  datatype Outcome = Refuse(response: Response) | Forward(request: Request)

  const UpstreamUrl: string := "https://api.openai.com/v1/chat/completions"
  const ContentTypeHeader: string := "Content-Type: application/json"
  const AuthorizationPrefix: string := "Authorization: Bearer "
  const MissingKeyBody: string := "{\"error\":\"API key not configured\"}"
  const MissingParamsBody: string := "{\"error\":\"Missing required parameters\"}"
  const DefaultTemperature: Json := JNum(3, -1)
  const DefaultMaxTokens: Json := JNum(500, 0)
  const ForwardedFields: set<string> := {"model", "messages", "temperature", "max_tokens"}

  /** `if (!$apiKey)` fails for an unset variable (`getenv` gives `false`)
      and for the falsy strings `""` and `"0"`. */
  predicate KeyConfigured(apiKey: Option<string>): (r: bool)
    ensures apiKey.None? ==> !r
    ensures apiKey == Some("") ==> !r
    ensures apiKey.Some? && |apiKey.value| == 1 ==> (r <==> apiKey.value[0] != '0')
    ensures apiKey.Some? && |apiKey.value| >= 2 ==> r
  {
    apiKey.Some? && apiKey.value != "" && apiKey.value != "0"
  }

  /** `isset($input[name])`: the input is an object carrying `name` with a
      non-null value. Offsets into `null`, scalars, strings and lists are
      never set for these names. */
  predicate IsSet(input: Json, name: string): (r: bool)
    ensures !input.JObject? ==> !r
    ensures r ==> name in input.fields
    ensures input.JObject? && name in input.fields ==> (r <==> !input.fields[name].JNull?)
  {
    input.JObject? && name in input.fields && input.fields[name] != JNull
  }

  /** `$input[name] ?? default`. */
  function Coalesce(input: Json, name: string, default: Json): (v: Json)
    ensures IsSet(input, name) ==> v == input.fields[name]
    ensures !IsSet(input, name) ==> v == default
  {
    if IsSet(input, name) then input.fields[name] else default
  }

  /** The header that carries the server's key. */
  function AuthorizationHeader(apiKey: string): (h: string)
    ensures |h| == |AuthorizationPrefix| + |apiKey|
    ensures h[..|AuthorizationPrefix|] == AuthorizationPrefix && h[|AuthorizationPrefix|..] == apiKey
  {
    AuthorizationPrefix + apiKey
  }

  /** Reading a bearer token back out of an Authorization header line. */
  function BearerToken(header: string): (r: Option<string>)
    ensures r.Some? ==> header == AuthorizationPrefix + r.value
    ensures r.None? ==> forall k :: header != AuthorizationPrefix + k
  {
    if |header| >= |AuthorizationPrefix| && header[..|AuthorizationPrefix|] == AuthorizationPrefix
    then Some(header[|AuthorizationPrefix|..])
    else
      assert forall k :: (AuthorizationPrefix + k)[..|AuthorizationPrefix|] == AuthorizationPrefix;
      None
  }

  /** The forwarded header is read back as exactly the server's key. */
  lemma BearerRoundTrip(apiKey: string)
    ensures BearerToken(AuthorizationHeader(apiKey)) == Some(apiKey)
  {
    var h := AuthorizationHeader(apiKey);
    assert h[..|AuthorizationPrefix|] == AuthorizationPrefix;
    assert h[|AuthorizationPrefix|..] == apiKey;
  }

  /** The body posted upstream: `model` and `messages` as given, the two
      tuning fields with their defaults. */
  function ForwardBody(input: Json): (body: map<string, Json>)
    requires IsSet(input, "model") && IsSet(input, "messages")
    ensures body.Keys == ForwardedFields
    ensures body["model"] == input.fields["model"] && body["messages"] == input.fields["messages"]
    ensures body["temperature"] == Coalesce(input, "temperature", DefaultTemperature)
    ensures body["max_tokens"] == Coalesce(input, "max_tokens", DefaultMaxTokens)
    ensures "temperature" in input.fields && input.fields["temperature"] != JNull ==>
      body["temperature"] == input.fields["temperature"]
    ensures "temperature" !in input.fields || input.fields["temperature"] == JNull ==>
      body["temperature"] == DefaultTemperature
    ensures "max_tokens" in input.fields && input.fields["max_tokens"] != JNull ==>
      body["max_tokens"] == input.fields["max_tokens"]
    ensures "max_tokens" !in input.fields || input.fields["max_tokens"] == JNull ==>
      body["max_tokens"] == DefaultMaxTokens
  {
    map[
      "model" := input.fields["model"],
      "messages" := input.fields["messages"],
      "temperature" := Coalesce(input, "temperature", DefaultTemperature),
      "max_tokens" := Coalesce(input, "max_tokens", DefaultMaxTokens)]
  }

  /**
   * The relay's checks, in the script's order: the key first (before the
   * body is even decoded), then the two required fields.
   */
  function Gate(apiKey: Option<string>, input: Json): (r: Outcome)
    ensures !KeyConfigured(apiKey) ==> r == Refuse(Response(500, MissingKeyBody))
    ensures KeyConfigured(apiKey) && !(IsSet(input, "messages") && IsSet(input, "model")) ==>
      r == Refuse(Response(400, MissingParamsBody))
    ensures r.Forward? <==> KeyConfigured(apiKey) && IsSet(input, "messages") && IsSet(input, "model")
    ensures r.Forward? ==>
      && r.request.url == UpstreamUrl
      && r.request.headers == [ContentTypeHeader, AuthorizationHeader(apiKey.value)]
      && r.request.body == ForwardBody(input)
  {
    if !KeyConfigured(apiKey) then
      Refuse(Response(500, MissingKeyBody))
    else if !IsSet(input, "messages") || !IsSet(input, "model") then
      Refuse(Response(400, MissingParamsBody))
    else
      Forward(Request(UpstreamUrl, [ContentTypeHeader, AuthorizationHeader(apiKey.value)], ForwardBody(input)))
  }

  /** The status PHP answers with when no code has been set. */
  const DefaultStatus: int := 200

  /** `http_response_code($httpCode)`: PHP treats the code 0 as "no code
      given", so it sets nothing and the response keeps the default 200. */
  function RelayedStatus(httpCode: int): (status: int)
    ensures httpCode != 0 ==> status == httpCode
    ensures httpCode == 0 ==> status == DefaultStatus
  {
    if httpCode == 0 then DefaultStatus else httpCode
  }

  /**
   * The whole script: `upstream` is the completion API, seen as a function
   * from the request it receives to its status and raw body (status 0 and
   * an empty body when the transfer fails). A forwarded request is answered
   * with the upstream's body, and with its status unless that is 0.
   */
  function Handle(apiKey: Option<string>, input: Json, upstream: Request -> Response): (r: Response)
    ensures Gate(apiKey, input).Refuse? ==> r == Gate(apiKey, input).response
    ensures Gate(apiKey, input).Forward? ==> r.body == upstream(Gate(apiKey, input).request).body
    ensures Gate(apiKey, input).Forward? && upstream(Gate(apiKey, input).request).status != 0 ==>
      r.status == upstream(Gate(apiKey, input).request).status
    ensures Gate(apiKey, input).Forward? && upstream(Gate(apiKey, input).request).status == 0 ==>
      r.status == DefaultStatus
  {
    match Gate(apiKey, input)
    case Refuse(response) => response
    case Forward(request) =>
      var u := upstream(request);
      Response(RelayedStatus(u.status), u.body)
  }

  /** A transfer that fails outright is answered 200 with an empty body:
      curl reports status 0 and `false`, which `echo` prints as nothing. */
  lemma FailedTransferAnswersOk(apiKey: Option<string>, model: Json, messages: Json)
    requires KeyConfigured(apiKey) && model != JNull && messages != JNull
    ensures Handle(apiKey, JObject(map["model" := model, "messages" := messages]), q => Response(0, "")) ==
      Response(200, "")
  {
  }

  /** Without a key the answer is 500 whatever the body is, even one that
      also lacks the required fields, and the upstream is never consulted. */
  lemma MissingKeyComesFirst(apiKey: Option<string>, input: Json, upstream: Request -> Response)
    requires !KeyConfigured(apiKey)
    ensures Handle(apiKey, input, upstream) == Response(500, MissingKeyBody)
  {
  }

  /** A key made of the single character `0` counts as missing. */
  lemma ZeroKeyIsMissing(input: Json)
    ensures Gate(Some("0"), input) == Refuse(Response(500, MissingKeyBody))
  {
  }

  /** A body `{"model":"gpt-4"}` without `messages` is refused with 400. */
  lemma ModelWithoutMessages(apiKey: Option<string>)
    requires KeyConfigured(apiKey)
    ensures Gate(apiKey, JObject(map["model" := JString("gpt-4")])) == Refuse(Response(400, MissingParamsBody))
  {
  }

  /** A body `{"model": ..., "messages": null}`: an explicit null counts as missing. */
  lemma NullMessagesIsMissing(apiKey: Option<string>, model: Json)
    requires KeyConfigured(apiKey)
    ensures Gate(apiKey, JObject(map["model" := model, "messages" := JNull])) ==
      Refuse(Response(400, MissingParamsBody))
  {
  }

  /** A body that is not an object (or not JSON at all) is refused with 400. */
  lemma NonObjectBody(apiKey: Option<string>, input: Json)
    requires KeyConfigured(apiKey) && !input.JObject?
    ensures Gate(apiKey, input) == Refuse(Response(400, MissingParamsBody))
  {
  }

  /** With `temperature` and `max_tokens` absent, the forwarded body carries
      0.3 and 500. */
  lemma DefaultsApplied(apiKey: Option<string>, model: Json, messages: Json)
    requires KeyConfigured(apiKey) && model != JNull && messages != JNull
    ensures var r := Gate(apiKey, JObject(map["model" := model, "messages" := messages]));
      && r.Forward?
      && r.request.body == map["model" := model, "messages" := messages,
           "temperature" := JNum(3, -1), "max_tokens" := JNum(500, 0)]
  {
  }

  /** An explicit `null` for a tuning field is not set either, so the
      forwarded body carries the default in its place. */
  lemma NullTuningFieldsDefaulted(apiKey: Option<string>, model: Json, messages: Json)
    requires KeyConfigured(apiKey) && model != JNull && messages != JNull
    ensures var r := Gate(apiKey, JObject(map["model" := model, "messages" := messages,
                                             "temperature" := JNull, "max_tokens" := JNull]));
      && r.Forward?
      && r.request.body == map["model" := model, "messages" := messages,
           "temperature" := JNum(3, -1), "max_tokens" := JNum(500, 0)]
  {
  }

  /** Only the four completion fields of the input matter: two inputs that
      agree on them are forwarded identically, whatever else they carry. */
  lemma OnlyCompletionFieldsForwarded(apiKey: Option<string>, a: map<string, Json>, b: map<string, Json>)
    requires forall f :: f in ForwardedFields ==> (f in a <==> f in b) && (f in a ==> a[f] == b[f])
    ensures Gate(apiKey, JObject(a)) == Gate(apiKey, JObject(b))
  {
    var fs := ["model", "messages", "temperature", "max_tokens"];
    assert forall i :: 0 <= i < |fs| ==> fs[i] in ForwardedFields;
    assert IsSet(JObject(a), "model") == IsSet(JObject(b), "model");
    assert IsSet(JObject(a), "messages") == IsSet(JObject(b), "messages");
    assert IsSet(JObject(a), "temperature") == IsSet(JObject(b), "temperature");
    assert IsSet(JObject(a), "max_tokens") == IsSet(JObject(b), "max_tokens");
  }

  /** Relaying a forwarded body a second time forwards it unchanged: every
      field it carries is set, so no default applies twice. */
  lemma ForwardIsIdempotent(apiKey: Option<string>, input: Json)
    requires Gate(apiKey, input).Forward?
    ensures var body := Gate(apiKey, input).request.body;
      Gate(apiKey, JObject(body)) == Gate(apiKey, input)
  {
    var body := Gate(apiKey, input).request.body;
    assert body["temperature"] != JNull;
    assert body["max_tokens"] != JNull;
    assert ForwardBody(JObject(body)) == body;
  }
}
