/**
  The page and the server together: the JSON body the page posts, what the
  server's guards make of it, and how the server's refusals reach the user.
 */
module Interop {
  import opened Options
  import opened Strings
  import opened NameParser
  import opened MixClient
  import opened Server
  import Settings

  /** `JSON.stringify` of the page's request body; a missing stored key is sent as `null`. */
  function RequestBody(r: MixRequest): (body: Json)
    ensures body.JObject? && body.fields.Keys == {"leftFirstName", "leftLastName", "rightFirstName", "rightLastName", "apiKey"}
    ensures body.fields["apiKey"].JNull? <==> r.apiKey.None?
  {
    JObject(map[
      "leftFirstName" := JString(r.leftFirstName),
      "leftLastName" := JString(r.leftLastName),
      "rightFirstName" := JString(r.rightFirstName),
      "rightLastName" := JString(r.rightLastName),
      "apiKey" := match r.apiKey case Some(k) => JString(k) case None => JNull])
  }

  /** Whitespace that Python strips and JavaScript's `trim()` keeps. */
  predicate IsPythonOnlySpace(c: char) {
    IsPySpace(c) && !IsJsSpace(c)
  }

  /** A name the page sends: non-empty and trimmed the JavaScript way. */
  predicate SentName(name: string) {
    name != [] && IsTrimmed(name, IsJsSpace)
  }

  /** Neither end of `name` is whitespace that only Python strips. */
  predicate CleanEnds(name: string) {
    name == [] || (!IsPythonOnlySpace(name[0]) && !IsPythonOnlySpace(name[|name| - 1]))
  }

  /** A name the page sends with clean ends is left as it is by the server's `strip()`. */
  lemma StripKeepsSentName(name: string)
    requires SentName(name) && CleanEnds(name)
    ensures Trim(name, IsPySpace) == name
  {
    TrimmedIsFixed(name, IsPySpace);
  }

  /**
    The server reads each field of the page's body back as the page wrote
    it, stripped the Python way.
   */
  lemma BodyFields(r: MixRequest)
    ensures var fields := RequestBody(r).fields;
      Get(fields, "leftFirstName") == JString(r.leftFirstName)
      && Get(fields, "leftLastName") == JString(r.leftLastName)
      && Get(fields, "rightFirstName") == JString(r.rightFirstName)
      && Get(fields, "rightLastName") == JString(r.rightLastName)
      && Get(fields, "apiKey") == (match r.apiKey case Some(k) => JString(k) case None => JNull)
  {
  }

  /**
    A request whose names the page accepted, and whose names have clean ends,
    passes every guard of the server but the one for a missing key: the
    server goes on with exactly the page's four names. It refuses for want of
    a key exactly when the stored key strips to nothing and the environment
    has none either.
   */
  lemma ServerTakesSentNames(r: MixRequest, envKey: Option<string>)
    requires SentName(r.leftFirstName) && SentName(r.leftLastName)
    requires SentName(r.rightFirstName) && SentName(r.rightLastName)
    requires CleanEnds(r.leftFirstName) && CleanEnds(r.leftLastName)
    requires CleanEnds(r.rightFirstName) && CleanEnds(r.rightLastName)
    ensures var d := MixNames(true, Parsed(RequestBody(r)), envKey);
      d.Proceed? || d == Reject(500, NoKeyError)
    ensures var d := MixNames(true, Parsed(RequestBody(r)), envKey);
      d.Proceed? ==> d.names == Names(r.leftFirstName, r.leftLastName, r.rightFirstName, r.rightLastName)
    ensures MixNames(true, Parsed(RequestBody(r)), envKey) == Reject(500, NoKeyError)
      <==> (r.apiKey.None? || AllOf(r.apiKey.value, IsPySpace)) && !Present(envKey)
  {
    var names := Names(r.leftFirstName, r.leftLastName, r.rightFirstName, r.rightLastName);
    var requestKey := SentRequestGuards(r, envKey);
    ActiveKey(names, requestKey, envKey);
    if r.apiKey.Some? {
      TrimBlank(r.apiKey.value, IsPySpace);
    }
  }

  /** For a request the page sent, only the last two guards are left to decide. */
  lemma SentRequestGuards(r: MixRequest, envKey: Option<string>) returns (requestKey: string)
    requires SentName(r.leftFirstName) && SentName(r.leftLastName)
    requires SentName(r.rightFirstName) && SentName(r.rightLastName)
    requires CleanEnds(r.leftFirstName) && CleanEnds(r.leftLastName)
    requires CleanEnds(r.rightFirstName) && CleanEnds(r.rightLastName)
    ensures requestKey == match r.apiKey case Some(k) => Trim(k, IsPySpace) case None => []
    ensures MixNames(true, Parsed(RequestBody(r)), envKey)
      == WithKey(Names(r.leftFirstName, r.leftLastName, r.rightFirstName, r.rightLastName), requestKey, envKey)
  {
    var fields := RequestBody(r).fields;
    requestKey := SentNamesRead(r);
    calc {
      MixNames(true, Parsed(RequestBody(r)), envKey);
      { DictionaryBody(RequestBody(r), envKey); }
      FromFields(fields, envKey);
      { FieldsAsRead(fields, envKey, r.leftFirstName, r.leftLastName, r.rightFirstName, r.rightLastName, requestKey); }
      FieldGuards(
        Some(r.leftFirstName), Some(r.leftLastName), Some(r.rightFirstName), Some(r.rightLastName),
        Some(requestKey), envKey);
      { NamesPresent(r.leftFirstName, r.leftLastName, r.rightFirstName, r.rightLastName, requestKey, envKey); }
      WithKey(Names(r.leftFirstName, r.leftLastName, r.rightFirstName, r.rightLastName), requestKey, envKey);
    }
  }

  lemma FieldsAsRead(fields: map<string, Json>, envKey: Option<string>, a: string, b: string, c: string, d: string, k: string)
    requires FieldText(fields, "leftFirstName") == Some(a) && FieldText(fields, "leftLastName") == Some(b)
    requires FieldText(fields, "rightFirstName") == Some(c) && FieldText(fields, "rightLastName") == Some(d)
    requires FieldText(fields, "apiKey") == Some(k)
    ensures FromFields(fields, envKey) == FieldGuards(Some(a), Some(b), Some(c), Some(d), Some(k), envKey)
  {
  }

  lemma NamesPresent(a: string, b: string, c: string, d: string, k: string, envKey: Option<string>)
    requires a != [] && b != [] && c != [] && d != []
    ensures FieldGuards(Some(a), Some(b), Some(c), Some(d), Some(k), envKey) == WithKey(Names(a, b, c, d), k, envKey)
  {
  }

  /**
    The server reads the page's four names back unchanged and the request's
    key as its Python-stripped text.
   */
  lemma SentNamesRead(r: MixRequest) returns (requestKey: string)
    requires SentName(r.leftFirstName) && SentName(r.leftLastName)
    requires SentName(r.rightFirstName) && SentName(r.rightLastName)
    requires CleanEnds(r.leftFirstName) && CleanEnds(r.leftLastName)
    requires CleanEnds(r.rightFirstName) && CleanEnds(r.rightLastName)
    ensures var fields := RequestBody(r).fields;
      FieldText(fields, "leftFirstName") == Some(r.leftFirstName)
      && FieldText(fields, "leftLastName") == Some(r.leftLastName)
      && FieldText(fields, "rightFirstName") == Some(r.rightFirstName)
      && FieldText(fields, "rightLastName") == Some(r.rightLastName)
      && FieldText(fields, "apiKey") == Some(requestKey)
    ensures requestKey == match r.apiKey case Some(k) => Trim(k, IsPySpace) case None => []
    ensures Truthy(RequestBody(r))
  {
    var fields := RequestBody(r).fields;
    BodyFields(r);
    ReadSentName(fields, "leftFirstName", r.leftFirstName);
    ReadSentName(fields, "leftLastName", r.leftLastName);
    ReadSentName(fields, "rightFirstName", r.rightFirstName);
    ReadSentName(fields, "rightLastName", r.rightLastName);
    requestKey := ReadKey(fields, r.apiKey);
    assert "apiKey" in fields;
  }

  /** The key field, a text or `null`, is read as its stripped text or the empty text. */
  lemma ReadKey(fields: map<string, Json>, key: Option<string>) returns (requestKey: string)
    requires Get(fields, "apiKey") == match key case Some(k) => JString(k) case None => JNull
    ensures requestKey == match key case Some(k) => Trim(k, IsPySpace) case None => []
    ensures FieldText(fields, "apiKey") == Some(requestKey)
  {
    match key
    case Some(k) =>
      requestKey := Trim(k, IsPySpace);
      if k == [] {
        assert AllOf(k, IsPySpace);
      }
    case None =>
      requestKey := [];
  }

  /** One field holding a name the page sent with clean ends is read back unchanged. */
  lemma ReadSentName(fields: map<string, Json>, key: string, name: string)
    requires Get(fields, key) == JString(name)
    requires SentName(name) && CleanEnds(name)
    ensures FieldText(fields, key) == Some(name)
  {
    StripKeepsSentName(name);
  }

  /**
    From the two text boxes to the server: when the page sends a request and
    the parsed names have clean ends, the server continues with the very
    names the page parsed, or refuses only for want of a key.
   */
  lemma SubmittedNamesReachModel(leftValue: string, rightValue: string, storedKey: Option<string>, envKey: Option<string>)
    requires Validate(leftValue, rightValue, storedKey).Send?
    requires var r := Validate(leftValue, rightValue, storedKey).request;
      CleanEnds(r.leftFirstName) && CleanEnds(r.leftLastName) && CleanEnds(r.rightFirstName) && CleanEnds(r.rightLastName)
    ensures var d := MixNames(true, Parsed(RequestBody(Validate(leftValue, rightValue, storedKey).request)), envKey);
      d.Proceed? || d == Reject(500, NoKeyError)
    ensures var d := MixNames(true, Parsed(RequestBody(Validate(leftValue, rightValue, storedKey).request)), envKey);
      d.Proceed? ==> d.names == Names(
        Parse(leftValue).firstName, Parse(leftValue).lastName, Parse(rightValue).firstName, Parse(rightValue).lastName)
  {
    var r := Validate(leftValue, rightValue, storedKey).request;
    RequestNamesTrimmed(leftValue, rightValue, storedKey);
    SentRequest(leftValue, rightValue, storedKey);
    ServerTakesSentNames(r, envKey);
  }

  /**
    A key saved through the settings dialog has clean ends when it has no
    Python-only whitespace at its ends; the server then builds a new client
    from that very key.
   */
  lemma StoredKeyUsed(r: MixRequest, envKey: Option<string>, key: string)
    requires SentName(r.leftFirstName) && SentName(r.leftLastName)
    requires SentName(r.rightFirstName) && SentName(r.rightLastName)
    requires CleanEnds(r.leftFirstName) && CleanEnds(r.leftLastName)
    requires CleanEnds(r.rightFirstName) && CleanEnds(r.rightLastName)
    requires r.apiKey == Some(key) && SentName(key) && CleanEnds(key)
    ensures MixNames(true, Parsed(RequestBody(r)), envKey).Proceed?
    ensures MixNames(true, Parsed(RequestBody(r)), envKey).client == FreshClient(key)
  {
    var names := Names(r.leftFirstName, r.leftLastName, r.rightFirstName, r.rightLastName);
    var requestKey := SentRequestGuards(r, envKey);
    StripKeepsSentName(key);
    ClientChoice(names, key, envKey);
  }

  /**
    A key saved through the settings dialog from the input `input`, and sent
    with clean-ended names, is the key of the client the server builds.
   */
  lemma SavedKeyUsed(r: MixRequest, envKey: Option<string>, input: string)
    requires SentName(r.leftFirstName) && SentName(r.leftLastName)
    requires SentName(r.rightFirstName) && SentName(r.rightLastName)
    requires CleanEnds(r.leftFirstName) && CleanEnds(r.leftLastName)
    requires CleanEnds(r.rightFirstName) && CleanEnds(r.rightLastName)
    requires Settings.KeyToSave(input).Some? && r.apiKey == Settings.KeyToSave(input)
    requires CleanEnds(Settings.KeyToSave(input).value)
    ensures MixNames(true, Parsed(RequestBody(r)), envKey).Proceed?
    ensures MixNames(true, Parsed(RequestBody(r)), envKey).client == FreshClient(Settings.KeyToSave(input).value)
  {
    StoredKeyUsed(r, envKey, Settings.KeyToSave(input).value);
  }

  /**
    The two trims differ: a first name made of the character U+001C alone is
    non-empty and trimmed for the page, but the server strips it to nothing
    and refuses the request, whatever the other fields hold.
   */
  lemma PythonOnlySpaceRefused(r: MixRequest, envKey: Option<string>)
    requires r.leftFirstName == ['\U{1C}']
    ensures SentName(r.leftFirstName)
    ensures MixNames(true, Parsed(RequestBody(r)), envKey) == Reject(400, MissingNamesError)
  {
    assert IsPythonOnlySpace(r.leftFirstName[0]);
    assert AllOf(r.leftFirstName, IsPySpace);
    BlankFirstNameRefused(r, envKey);
  }

  /** A first name that is all Python whitespace is refused by the server as missing. */
  lemma BlankFirstNameRefused(r: MixRequest, envKey: Option<string>)
    requires AllOf(r.leftFirstName, IsPySpace)
    ensures MixNames(true, Parsed(RequestBody(r)), envKey) == Reject(400, MissingNamesError)
  {
    var fields := RequestBody(r).fields;
    BodyFields(r);
    assert FieldText(fields, "leftFirstName") == Some([]);
    assert "apiKey" in fields;
    DictionaryBody(RequestBody(r), envKey);
    MissingNames(
      FieldText(fields, "leftFirstName"), FieldText(fields, "leftLastName"),
      FieldText(fields, "rightFirstName"), FieldText(fields, "rightLastName"),
      FieldText(fields, "apiKey"), envKey, None, None);
  }

  /** The server's JSON answer to a refused request, as the page receives it. */
  function RefusalReply(d: Decision): Reply
    requires d.Reject?
  {
    Received(false, ReplyBody(Some(d.error), None, None))
  }

  /** Every refusal of the server reaches the user as the server's own text, never the generic one. */
  lemma RefusalShownVerbatim(isJson: bool, body: Body, envKey: Option<string>)
    requires MixNames(isJson, body, envKey).Reject?
    ensures var d := MixNames(isJson, body, envKey);
      Outcome(RefusalReply(d)) == ErrorMessage(Verbatim(d.error))
  {
  }
}
