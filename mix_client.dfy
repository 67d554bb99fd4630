/**
  The "Mix Names" action of the browser client (`handleMixNames`): it checks
  the two input boxes, parses each into a name pair, sends the four names and
  the stored API key to the server, and shows either the mixed pair that comes
  back or an error message.

  The network exchange is not modelled; the server's answer enters as a
  `Reply` value. Messages from the translation table appear as their keys.
 */
module MixClient {
  import opened Options
  import opened Strings
  import opened NameParser
  import opened Storage

  /** The client's own error texts, by their key in the translation table. */
  datatype MessageKey = ErrorBothFields | ErrorLeftName | ErrorRightName | ErrorGeneric

  /** A message as shown to the user: a translated text, or a string taken verbatim. */
  datatype Message = Localized(key: MessageKey) | Verbatim(text: string)

  /** The JSON body posted to `/api/mix-names`. */
  datatype MixRequest = MixRequest(
    leftFirstName: string, leftLastName: string,
    rightFirstName: string, rightLastName: string,
    apiKey: Option<string>)

  /** What the checks before the request decide: an error to show, or a request to send. */
  datatype Submission = Rejected(key: MessageKey) | Send(request: MixRequest)

  /** The fields of the server's JSON answer that the client reads; None where absent or null. */
  datatype ReplyBody = ReplyBody(error: Option<string>, mixedFirstName: Option<string>, mixedLastName: Option<string>)

  /**
    How the exchange ended: the fetch or the JSON decoding threw an exception
    with this message, or a JSON body arrived with the response's `ok` flag.
   */
  datatype Reply = Thrown(message: string) | Received(ok: bool, body: ReplyBody)

  /** What the page shows once the exchange has ended. */
  datatype Shown = ResultPair(firstName: string, lastName: string) | ErrorMessage(message: Message)

  /** A parsed pair that has both names (an empty string is falsy). */
  predicate Complete(p: NamePair) {
    p.firstName != [] && p.lastName != []
  }

  /** What a DOM text node shows for a value that may be absent: absent reads as empty. */
  function OrEmpty(s: Option<string>): string {
    match s
    case Some(v) => v
    case None => []
  }

  /** The parser's result does not change when the text is trimmed first. */
  lemma ParseIgnoresOuterSpace(text: string)
    ensures Parse(Trim(text, IsJsSpace)) == Parse(text)
  {
    TrimmedIsFixed(Trim(text, IsJsSpace), IsJsSpace);
  }

  /**
    The checks of `handleMixNames` before anything is sent: both boxes must
    hold more than whitespace, then the left pair must be complete, then the
    right one. A request carries the four parsed names and the stored key.
   */
  function Validate(leftValue: string, rightValue: string, storedKey: Option<string>): (s: Submission)
    ensures s.Rejected? ==> s.key != ErrorGeneric
  {
    if Trim(leftValue, IsJsSpace) == [] || Trim(rightValue, IsJsSpace) == [] then Rejected(ErrorBothFields)
    else
      // The page parses the trimmed texts; by ParseIgnoresOuterSpace that is
      // the same as parsing the texts themselves.
      var leftName := Parse(leftValue);
      var rightName := Parse(rightValue);
      if !Complete(leftName) then Rejected(ErrorLeftName)
      else if !Complete(rightName) then Rejected(ErrorRightName)
      else Send(MixRequest(leftName.firstName, leftName.lastName, rightName.firstName, rightName.lastName, storedKey))
  }

  /**
    The checks of `handleMixNames` as it runs them, with the imperative parser.
   */
  method CheckInputs(leftValue: string, rightValue: string, storedKey: Option<string>) returns (s: Submission)
    ensures s == Validate(leftValue, rightValue, storedKey)
  {
    var leftText := Trim(leftValue, IsJsSpace);
    var rightText := Trim(rightValue, IsJsSpace);
    if leftText == [] || rightText == [] {
      return Rejected(ErrorBothFields);
    }
    var leftName := ParseNameInput(leftText);
    var rightName := ParseNameInput(rightText);
    ParseIgnoresOuterSpace(leftValue);
    ParseIgnoresOuterSpace(rightValue);
    if leftName.firstName == [] || leftName.lastName == [] {
      return Rejected(ErrorLeftName);
    }
    if rightName.firstName == [] || rightName.lastName == [] {
      return Rejected(ErrorRightName);
    }
    s := Send(MixRequest(leftName.firstName, leftName.lastName, rightName.firstName, rightName.lastName, storedKey));
  }

  /**
    The order of the checks: blank boxes first, then the left pair, then the
    right pair; past all three a request is sent.
   */
  lemma ValidationOrder(leftValue: string, rightValue: string, storedKey: Option<string>)
    ensures var s := Validate(leftValue, rightValue, storedKey);
      if AllOf(leftValue, IsJsSpace) || AllOf(rightValue, IsJsSpace) then s == Rejected(ErrorBothFields)
      else if !Complete(Parse(leftValue)) then s == Rejected(ErrorLeftName)
      else if !Complete(Parse(rightValue)) then s == Rejected(ErrorRightName)
      else s.Send?
  {
    if AllOf(leftValue, IsJsSpace) || AllOf(rightValue, IsJsSpace) {
      assert Trim(leftValue, IsJsSpace) == [] || Trim(rightValue, IsJsSpace) == [];
    } else {
      assert Trim(leftValue, IsJsSpace) != [] && Trim(rightValue, IsJsSpace) != [];
    }
  }
  /** A request is sent exactly when both texts parse to complete pairs. */
  lemma ValidationSends(leftValue: string, rightValue: string, storedKey: Option<string>)
    ensures Validate(leftValue, rightValue, storedKey).Send?
        <==> Complete(Parse(leftValue)) && Complete(Parse(rightValue))
  {
    if Complete(Parse(leftValue)) && Complete(Parse(rightValue)) {
      if AllOf(leftValue, IsJsSpace) { BlankText(leftValue); }
      if AllOf(rightValue, IsJsSpace) { BlankText(rightValue); }
      assert Trim(leftValue, IsJsSpace) != [];
      assert Trim(rightValue, IsJsSpace) != [];
    }
  }

  /** A request carries the four names the parser read from the two texts, and the stored key. */
  lemma SentRequest(leftValue: string, rightValue: string, storedKey: Option<string>)
    requires Validate(leftValue, rightValue, storedKey).Send?
    ensures Validate(leftValue, rightValue, storedKey).request == MixRequest(
      Parse(leftValue).firstName, Parse(leftValue).lastName,
      Parse(rightValue).firstName, Parse(rightValue).lastName, storedKey)
  {
    assert Trim(leftValue, IsJsSpace) != [] && Trim(rightValue, IsJsSpace) != [];
  }

  /** Every name a request carries is non-empty and trimmed. */
  lemma RequestNamesTrimmed(leftValue: string, rightValue: string, storedKey: Option<string>)
    requires Validate(leftValue, rightValue, storedKey).Send?
    ensures var r := Validate(leftValue, rightValue, storedKey).request;
      r.leftFirstName != [] && r.leftLastName != [] && r.rightFirstName != [] && r.rightLastName != []
      && IsTrimmed(r.leftFirstName, IsJsSpace) && IsTrimmed(r.leftLastName, IsJsSpace)
      && IsTrimmed(r.rightFirstName, IsJsSpace) && IsTrimmed(r.rightLastName, IsJsSpace)
  {
    SentRequest(leftValue, rightValue, storedKey);
    ValidationSends(leftValue, rightValue, storedKey);
    ParseTrimmed(leftValue);
    ParseTrimmed(rightValue);
  }

  /**
    What the page shows for a reply: the server's pair on an ok answer;
    otherwise the server's `error` text, the exception's message, or the
    generic text when that string is missing or empty.
   */
  function Outcome(reply: Reply): (shown: Shown)
    ensures shown.ErrorMessage? && shown.message.Verbatim? ==> shown.message.text != []
  {
    match reply
    case Thrown(message) =>
      ErrorMessage(if message == [] then Localized(ErrorGeneric) else Verbatim(message))
    case Received(ok, body) =>
      if ok then ResultPair(OrEmpty(body.mixedFirstName), OrEmpty(body.mixedLastName))
      else if body.error.Some? && body.error.value != [] then ErrorMessage(Verbatim(body.error.value))
      else ErrorMessage(Localized(ErrorGeneric))
  }

  /** The result pair is shown exactly on an ok answer, and it is the server's pair. */
  lemma OkShowsServerPair(reply: Reply)
    ensures Outcome(reply).ResultPair? <==> reply.Received? && reply.ok
    ensures reply.Received? && reply.ok && reply.body.mixedFirstName.Some? && reply.body.mixedLastName.Some?
        ==> Outcome(reply) == ResultPair(reply.body.mixedFirstName.value, reply.body.mixedLastName.value)
  {
  }

  /** On a failed answer the server's error text is shown when it has one, else the generic text. */
  lemma FailureShowsServerError(body: ReplyBody)
    ensures body.error.Some? && body.error.value != [] ==> Outcome(Received(false, body)) == ErrorMessage(Verbatim(body.error.value))
    ensures body.error.None? || body.error.value == [] ==> Outcome(Received(false, body)) == ErrorMessage(Localized(ErrorGeneric))
  {
  }

  /** A thrown error (a network failure, a body that is not JSON) shows its message, or the generic text when it has none. */
  lemma ExceptionShowsMessage(message: string)
    ensures message != [] ==> Outcome(Thrown(message)) == ErrorMessage(Verbatim(message))
    ensures message == [] ==> Outcome(Thrown(message)) == ErrorMessage(Localized(ErrorGeneric))
  {
  }

  /**
    The mix part of the page. `busy` is the disabled state of the mix button
    and `loading` the visibility of the spinner. Ctrl/Cmd+Enter in either box
    runs the handler without looking at the button, so nothing here requires
    the page to be idle.
   */
  class MixPage {
    const storage: LocalStorage
    var busy: bool
    var loading: bool
    var resultsShown: bool
    var resultFirstName: string
    var resultLastName: string
    var errorShown: bool
    var errorMessage: Message

    /** The spinner runs exactly while the button is disabled. */
    predicate Valid()
      reads this
    {
      loading == busy
    }

    constructor (storage: LocalStorage)
      ensures Valid()
      ensures this.storage == storage
      ensures !busy && !loading && !resultsShown && !errorShown
      ensures resultFirstName == [] && resultLastName == []
    {
      this.storage := storage;
      busy, loading := false, false;
      resultsShown, resultFirstName, resultLastName := false, [], [];
      errorShown, errorMessage := false, Localized(ErrorGeneric);
    }

    /**
      `handleMixNames` up to the network call, once the checks have decided:
      a rejection shows its error and leaves everything else as it was; a
      request hides the previous result and error, shows the spinner and
      disables the button.
     */
    method Begin(submission: Submission) returns (request: Option<MixRequest>)
      requires Valid()
      modifies this
      ensures Valid()
      ensures match submission
        case Rejected(key) =>
          && request.None?
          && errorShown && errorMessage == Localized(key)
          && busy == old(busy) && loading == old(loading) && resultsShown == old(resultsShown)
          && resultFirstName == old(resultFirstName) && resultLastName == old(resultLastName)
        case Send(r) =>
          && request == Some(r)
          && busy && loading && !resultsShown && !errorShown
          && errorMessage == old(errorMessage)
          && resultFirstName == old(resultFirstName) && resultLastName == old(resultLastName)
    {
      match submission {
        case Rejected(key) =>
          errorMessage, errorShown := Localized(key), true;
          request := None;
        case Send(r) =>
          resultsShown := false;
          errorShown := false;
          loading := true;
          busy := true;
          request := Some(r);
      }
    }

    /**
      `handleMixNames` after the network call: the outcome of the reply is
      shown, and on every path the spinner is hidden and the button enabled.
     */
    method Finish(reply: Reply)
      requires Valid()
      modifies this
      ensures Valid()
      ensures !busy && !loading
      ensures match Outcome(reply)
        case ResultPair(first, last) =>
          && resultsShown && resultFirstName == first && resultLastName == last
          && errorShown == old(errorShown) && errorMessage == old(errorMessage)
        case ErrorMessage(m) =>
          && errorShown && errorMessage == m
          && resultsShown == old(resultsShown)
          && resultFirstName == old(resultFirstName) && resultLastName == old(resultLastName)
    {
      match reply {
        case Thrown(message) =>
          errorMessage := if message == [] then Localized(ErrorGeneric) else Verbatim(message);
          errorShown := true;
        case Received(ok, body) =>
          if ok {
            resultFirstName := OrEmpty(body.mixedFirstName);
            resultLastName := OrEmpty(body.mixedLastName);
            resultsShown := true;
          } else {
            var thrown := if body.error.Some? && body.error.value != [] then body.error.value else [];
            errorMessage := if thrown == [] then Localized(ErrorGeneric) else Verbatim(thrown);
            errorShown := true;
          }
      }
      loading := false;
      busy := false;
    }

    /**
      The whole handler with the server abstracted as `respond`: a rejected
      submission sends nothing; a sent one ends with the button enabled and
      exactly one of the result and the error visible.
     */
    method HandleMixNames(leftValue: string, rightValue: string, respond: MixRequest -> Reply)
      returns (request: Option<MixRequest>)
      requires Valid()
      modifies this
      ensures Valid()
      ensures match Validate(leftValue, rightValue, storage.GetItem(GrokApiKey))
        case Rejected(key) =>
          && request.None?
          && errorShown && errorMessage == Localized(key)
          && busy == old(busy) && resultsShown == old(resultsShown)
          && resultFirstName == old(resultFirstName) && resultLastName == old(resultLastName)
        case Send(r) =>
          && request == Some(r)
          && !busy && !loading
          && match Outcome(respond(r))
             case ResultPair(first, last) =>
               resultsShown && resultFirstName == first && resultLastName == last && !errorShown
             case ErrorMessage(m) =>
               errorShown && errorMessage == m && !resultsShown
               && resultFirstName == old(resultFirstName) && resultLastName == old(resultLastName)
    {
      // `handleMixNames` reads the stored key only after the checks; nothing in
      // between touches the storage, so reading it first changes nothing.
      var submission := CheckInputs(leftValue, rightValue, storage.GetItem(GrokApiKey));
      request := Begin(submission);
      if request.Some? {
        Finish(respond(request.value));
      }
    }
  }
}
