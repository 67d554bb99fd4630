/**
  The server's `/api/mix-names` endpoint up to the point where it calls the
  language model: the guards on the request, the choice of the API key and of
  the client object, and the two routing rules for paths under `api/`.
 */
module Server {
  import opened Options
  import opened Strings

  /** A JSON value as the server's JSON parser hands it over. */
  datatype Json =
    | JNull
    | JBool(b: bool)
    | JNumber(n: int)
    | JString(s: string)
    | JArray(items: seq<Json>)
    | JObject(fields: map<string, Json>)

  /** Python's truth value of the parsed value: `None`, `False`, `0` and empty containers are false. */
  predicate Truthy(j: Json) {
    match j
    case JNull => false
    case JBool(b) => b
    case JNumber(n) => n != 0
    case JString(s) => s != []
    case JArray(items) => items != []
    case JObject(fields) => fields != map[]
  }

  /** The request body: text that is not JSON at all, or the parsed value. */
  datatype Body = Malformed | Parsed(data: Json)

  /** The four names handed on to the language model. */
  datatype Names = Names(leftFirst: string, leftLast: string, rightFirst: string, rightLast: string)

  /** Which client object makes the call: the one built at start-up from the environment, or a new one. */
  datatype Client = GlobalClient | FreshClient(apiKey: string)

  /**
    How the endpoint ends before the model is called: a JSON error with a
    status code, an uncaught Python exception (which the handler turns into a
    500 carrying the exception's text), or the go-ahead.
   */
  datatype Decision =
    | Reject(status: nat, error: string)
    | Crash
    | Proceed(names: Names, client: Client)

  const NotJsonError := "Content-Type must be application/json"
  const EmptyBodyError := "Invalid JSON in request body"
  const MissingNamesError := "All name fields are required"
  const NoKeyError := "API key not configured. Please set your Grok API key in the settings (gear icon) in the application."

  /** `data.get(key)`: the value under `key`, or `None`. */
  function Get(fields: map<string, Json>, key: string): Json {
    if key in fields then fields[key] else JNull
  }

  /**
    `(data.get(key) or '').strip()`: a false value becomes the empty text, a
    text is stripped of Python whitespace, and any other value has no
    `strip` and raises (`None` here).
   */
  function FieldText(fields: map<string, Json>, key: string): (r: Option<string>)
    ensures r.Some? ==> IsTrimmed(r.value, IsPySpace)
    ensures r.None? <==> Truthy(Get(fields, key)) && !Get(fields, key).JString?
    ensures !Truthy(Get(fields, key)) ==> r == Some([])
    ensures Truthy(Get(fields, key)) && Get(fields, key).JString? ==> r == Some(Trim(Get(fields, key).s, IsPySpace))
  {
    var v := Get(fields, key);
    if !Truthy(v) then Some([])
    else if v.JString? then Some(Trim(v.s, IsPySpace))
    else None
  }

  /** A text field is read as its core: the Python whitespace around it is dropped, and nothing else. */
  lemma FieldTextPadded(fields: map<string, Json>, key: string, a: string, core: string, b: string)
    requires AllOf(a, IsPySpace) && AllOf(b, IsPySpace) && IsTrimmed(core, IsPySpace)
    requires Get(fields, key) == JString(a + core + b)
    ensures FieldText(fields, key) == Some(core)
  {
    TrimPadded(a, core, b, IsPySpace);
    if a + core + b == [] {
      assert core == [];
    }
  }

  /** A field that was read without raising and is not empty. */
  predicate Present(t: Option<string>) {
    t.Some? && t.value != []
  }

  /**
    The guards of `mix_names`, in order: the content type, a true body, a
    dictionary, the four names read and stripped (any of them may raise), all
    four non-empty, the request's key read and stripped, a usable key, and
    the client. `envKey` is the `XAI_API_KEY` environment variable; the
    start-up client exists exactly when it is a non-empty text.
   */
  function MixNames(isJson: bool, body: Body, envKey: Option<string>): (d: Decision)
    ensures d.Proceed?
      ==> d.names.leftFirst != [] && d.names.leftLast != [] && d.names.rightFirst != [] && d.names.rightLast != []
    ensures d.Proceed? ==> (
      IsTrimmed(d.names.leftFirst, IsPySpace) && IsTrimmed(d.names.leftLast, IsPySpace)
      && IsTrimmed(d.names.rightFirst, IsPySpace) && IsTrimmed(d.names.rightLast, IsPySpace))
    ensures d.Proceed? && d.client.FreshClient? ==> d.client.apiKey != []
    ensures d.Reject? ==> (d.status == 400) != (d.error == NoKeyError && d.status == 500)
  {
    if !isJson then Reject(400, NotJsonError)
    else match body
      case Malformed => Crash
      case Parsed(data) =>
        if !Truthy(data) then Reject(400, EmptyBodyError)
        else if !data.JObject? then Crash
        else FromFields(data.fields, envKey)
  }

  /** The guards of `mix_names` that read the fields of a non-empty dictionary body. */
  function FromFields(fields: map<string, Json>, envKey: Option<string>): (d: Decision)
    ensures d.Proceed?
      ==> d.names.leftFirst != [] && d.names.leftLast != [] && d.names.rightFirst != [] && d.names.rightLast != []
    ensures d.Proceed? ==> (
      IsTrimmed(d.names.leftFirst, IsPySpace) && IsTrimmed(d.names.leftLast, IsPySpace)
      && IsTrimmed(d.names.rightFirst, IsPySpace) && IsTrimmed(d.names.rightLast, IsPySpace))
    ensures d.Proceed? && d.client.FreshClient? ==> d.client.apiKey != []
    ensures d.Reject? ==> d == Reject(400, MissingNamesError) || d == Reject(500, NoKeyError)
  {
    FieldGuards(
      FieldText(fields, "leftFirstName"), FieldText(fields, "leftLastName"),
      FieldText(fields, "rightFirstName"), FieldText(fields, "rightLastName"),
      FieldText(fields, "apiKey"), envKey)
  }

  /**
    The guards over the fields as read: the four names (a raising read is
    `None`) must all be non-empty; only then does the request's key matter.
   */
  function FieldGuards(
    leftFirst: Option<string>, leftLast: Option<string>, rightFirst: Option<string>, rightLast: Option<string>,
    requestKey: Option<string>, envKey: Option<string>): (d: Decision)
    ensures d.Proceed? ==> Present(leftFirst) && Present(leftLast) && Present(rightFirst) && Present(rightLast)
    ensures d.Proceed? ==> d.names == Names(leftFirst.value, leftLast.value, rightFirst.value, rightLast.value)
    ensures d.Proceed? && d.client.FreshClient? ==> d.client.apiKey != []
    ensures d.Reject? ==> d == Reject(400, MissingNamesError) || d == Reject(500, NoKeyError)
  {
    if leftFirst.None? || leftLast.None? || rightFirst.None? || rightLast.None? then Crash
    else if !(Present(leftFirst) && Present(leftLast) && Present(rightFirst) && Present(rightLast)) then
      Reject(400, MissingNamesError)
    else
      var names := Names(leftFirst.value, leftLast.value, rightFirst.value, rightLast.value);
      match requestKey
      case None => Crash
      case Some(key) => WithKey(names, key, envKey)
  }

  /**
    The last two guards, once the names are read and the request's key is
    stripped: a usable key, then the client that will use it.
   */
  function WithKey(names: Names, requestKey: string, envKey: Option<string>): (d: Decision)
    ensures d.Proceed? ==> d.names == names
    ensures d.Proceed? && d.client.FreshClient? ==> d.client.apiKey != []
    ensures d.Reject? ==> d == Reject(500, NoKeyError)
    ensures !d.Crash?
  {
    var activeKey := if requestKey != [] then Some(requestKey) else envKey;
    if activeKey.None? || activeKey.value == [] then Reject(500, NoKeyError)
    else if requestKey == [] && Present(envKey) then Proceed(names, GlobalClient)
    else Proceed(names, FreshClient(activeKey.value))
  }

  /** Without a JSON content type nothing else is looked at. */
  lemma NotJsonFirst(body: Body, envKey: Option<string>)
    ensures MixNames(false, body, envKey) == Reject(400, NotJsonError)
  {
  }

  /**
    A JSON request is refused as empty exactly when its body parses to a
    false value; text that does not parse raises instead.
   */
  lemma EmptyBody(body: Body, envKey: Option<string>)
    ensures MixNames(true, body, envKey) == Reject(400, EmptyBodyError) <==> body.Parsed? && !Truthy(body.data)
    ensures body.Malformed? ==> MixNames(true, body, envKey) == Crash
  {
  }

  /** A non-empty dictionary goes on to the field guards; any other true value raises on `data.get`. */
  lemma DictionaryBody(data: Json, envKey: Option<string>)
    requires Truthy(data)
    ensures data.JObject? ==> MixNames(true, Parsed(data), envKey) == FromFields(data.fields, envKey)
    ensures !data.JObject? ==> MixNames(true, Parsed(data), envKey) == Crash
  {
  }

  /**
    When the four names were read without raising, the request is refused
    for missing names exactly when one of them is empty, and then neither
    the key field nor the environment matters.
   */
  lemma MissingNames(
    leftFirst: Option<string>, leftLast: Option<string>, rightFirst: Option<string>, rightLast: Option<string>,
    requestKey: Option<string>, envKey: Option<string>, otherKey: Option<string>, otherEnv: Option<string>)
    requires leftFirst.Some? && leftLast.Some? && rightFirst.Some? && rightLast.Some?
    ensures FieldGuards(leftFirst, leftLast, rightFirst, rightLast, requestKey, envKey) == Reject(400, MissingNamesError)
      <==> (leftFirst.value == [] || leftLast.value == [] || rightFirst.value == [] || rightLast.value == [])
    ensures FieldGuards(leftFirst, leftLast, rightFirst, rightLast, requestKey, envKey) == Reject(400, MissingNamesError)
      ==> FieldGuards(leftFirst, leftLast, rightFirst, rightLast, otherKey, otherEnv) == Reject(400, MissingNamesError)
  {
  }

  /** Replacing the key field leaves the name fields as they are read. */
  lemma KeyFieldApart(fields: map<string, Json>, otherKey: Json, envKey: Option<string>)
    ensures var other := fields["apiKey" := otherKey];
      FromFields(other, envKey) == FieldGuards(
        FieldText(fields, "leftFirstName"), FieldText(fields, "leftLastName"),
        FieldText(fields, "rightFirstName"), FieldText(fields, "rightLastName"),
        FieldText(other, "apiKey"), envKey)
  {
    var other := fields["apiKey" := otherKey];
    assert Get(other, "leftFirstName") == Get(fields, "leftFirstName");
    assert Get(other, "leftLastName") == Get(fields, "leftLastName");
    assert Get(other, "rightFirstName") == Get(fields, "rightFirstName");
    assert Get(other, "rightLastName") == Get(fields, "rightLastName");
  }

  /** A name field that raises makes the whole request raise, before the names are checked. */
  lemma FieldRaises(
    leftFirst: Option<string>, leftLast: Option<string>, rightFirst: Option<string>, rightLast: Option<string>,
    requestKey: Option<string>, envKey: Option<string>)
    requires leftFirst.None? || leftLast.None? || rightFirst.None? || rightLast.None?
    ensures FieldGuards(leftFirst, leftLast, rightFirst, rightLast, requestKey, envKey) == Crash
  {
  }

  /**
    The key the call uses: the request's stripped key when it is not empty,
    otherwise the environment's. With neither the endpoint answers 500.
   */
  lemma ActiveKey(names: Names, requestKey: string, envKey: Option<string>)
    ensures WithKey(names, requestKey, envKey) == Reject(500, NoKeyError) <==> requestKey == [] && !Present(envKey)
    ensures var d := WithKey(names, requestKey, envKey);
      d.Proceed? && d.client.FreshClient? && requestKey == [] ==> Some(d.client.apiKey) == envKey
  {
  }

  /**
    The start-up client is reused exactly when the request brings no key of
    its own; a key in the request always gets a new client built from it.
   */
  lemma ClientChoice(names: Names, requestKey: string, envKey: Option<string>)
    requires WithKey(names, requestKey, envKey).Proceed?
    ensures var d := WithKey(names, requestKey, envKey);
      (d.client == GlobalClient <==> requestKey == [])
      && (d.client.FreshClient? ==> d.client.apiKey == requestKey)
      && (d.client == GlobalClient ==> Present(envKey))
  {
  }

  /** What the server answers for a path nobody routes: a JSON 404, or the page itself. */
  datatype Response = JsonError(status: nat, error: string) | File(name: string)

  /** The 404 handler: JSON for paths under `/api/`, the index page for every other path. */
  function NotFound(path: string): (r: Response)
    ensures r.JsonError? <==> "/api/" <= path
    ensures r.JsonError? ==> r.status == 404
    ensures r.File? ==> r == File("index.html")
  {
    if "/api/" <= path then JsonError(404, "API endpoint not found") else File("index.html")
  }

  /** The catch-all file route: paths under `api/` are never served as files. */
  function ServeStatic(path: string): (r: Response)
    ensures r.JsonError? <==> "api/" <= path
    ensures r.JsonError? ==> r.status == 404
    ensures r.File? ==> r.name == path
  {
    if "api/" <= path then JsonError(404, "Not found") else File(path)
  }

  /**
    The file route gets the request path without its leading `/`; both rules
    then agree on which requests are API requests.
   */
  lemma ApiPathsAgree(rest: string)
    ensures ServeStatic(rest).JsonError? <==> NotFound("/" + rest).JsonError?
  {
    PrefixAfter('/', "api/", rest);
    assert "/api/" == ['/'] + "api/";
  }

  /** Putting the same character in front of both strings keeps the prefix relation. */
  lemma PrefixAfter(c: char, prefix: string, s: string)
    ensures [c] + prefix <= [c] + s <==> prefix <= s
  {
    if |prefix| <= |s| {
      assert ([c] + s)[..|prefix| + 1] == [c] + s[..|prefix|];
    }
    if [c] + prefix <= [c] + s {
      assert prefix == ([c] + prefix)[1..];
      assert s[..|prefix|] == ([c] + s)[1..|prefix| + 1];
    }
  }
}
