# Name Mixer: a Dafny model of the input handling

Name Mixer is a small web application. The browser page takes two people's
names, each from a free-text box. The Flask server asks a language model to
mix the names into a new pair. This project models the logic on both sides
of that exchange, up to the call to the language model, and proves
properties of the model:

- **Name parser (`app.js`, `parseNameInput`).** It splits the text into
  trimmed, non-empty lines. Then it searches every line for the labels
  `First Name:`, `fn=`, `tên:` and their last-name twins. This search is
  modelled as an explicit leftmost search that includes the regular
  expression's backtracking. When no line is labelled, the parser falls back
  to reading the names by position (module `NameParser`). Module
  `LabelSearch` proves what the search finds: a line that starts with a
  label, in any case and spacing, yields the trimmed text after its
  separator, and the match taken is the leftmost one.
- **Mix action (`handleMixNames`).**
  - It checks the two boxes and parses them.
  - It sends the four names and the stored API key.
  - It shows either the returned pair or an error.
  - The page's visible state is a class whose fields the handler updates
    (module `MixClient`).
- **Settings dialog.** A password gate with the fixed password `1111` guards
  a form that saves the API key to local storage. Local storage is a class
  holding a map (modules `Settings` and `Storage`).
- **Cookie reader (`getCookie`)** (module `Cookies`).
- **Server guards (`server.py`, `mix_names`).** These are the guards before
  the model call:
  - the JSON content type;
  - a non-empty dictionary body;
  - the four names, each stripped;
  - the API key, taken from the request or from the environment;
  - the choice between the start-up client and a new one.

  The module also has the two rules that answer 404 for unknown paths under
  `api/` (module `Server`).
- **How the two sides fit together** (module `Interop`). The server accepts
  every name the page sends once it has stripped the name, with one
  exception. JavaScript's `trim()` and Python's `strip()` treat different
  characters as whitespace, and a lemma exhibits the case where they part.

Whitespace is modelled as two explicit sets of code points. `IsJsSpace` is
the whitespace of JavaScript's `trim()` and `\s`. `IsPySpace` is the
whitespace of Python's `str.isspace()`. They differ:

- U+001C to U+001F and U+0085 count only for Python;
- U+FEFF counts only for JavaScript.

In these details the model follows the code:

- A body that is not valid JSON does not get the 400 answer. The read of
  `request.json` raises inside the handler's `try`, and the handler answers
  500 with the exception text. The model records this as `Crash`, the same
  as any other uncaught exception.
- The positional case "one line with a space" tests for the space character
  itself. A line whose only interior whitespace is a tab is taken as a first
  name alone.
- The rest of that line is joined with single spaces, whatever whitespace
  run separated the words.
- A missing stored key is sent in the body as `null`.
- Ctrl/Cmd+Enter calls the handler even while the mix button is disabled.
  For this reason the handler does not require the page to be idle.
- A failed answer whose `error` is empty shows the generic message, not the
  server's text.

## Model

| member | source | states |
|---|---|---|
| Strings.IsJsSpace | app.js:123 | the whitespace of `trim()` and `\s`; `Strings.WhitespaceSetsDiffer` says where it parts from Python's |
| Strings.IsPySpace | server.py:82-85 | the whitespace of `strip()`; `Strings.WhitespaceSetsDiffer` says where it parts from JavaScript's |
| Strings.WhitespaceSetsDiffer | server.py:82-85 | a character is whitespace for Python and not for JavaScript exactly when it is U+001C to U+001F or U+0085, and the other way round exactly when it is U+FEFF |
| Strings.Trim | app.js:123 | the result has no whitespace at either end, and it is empty exactly when the whole input is whitespace |
| Strings.TrimPadded | app.js:134 | trimming whitespace padding off a trimmed core gives back exactly that core |
| Strings.TrimmedIsFixed | app.js:403 | trimming is idempotent: a trimmed string is its own trim |
| Strings.TrimBlank | server.py:92-96 | all-whitespace input, and nothing else, trims to the empty text |
| Strings.Split | app.js:123 | split on one character: at least one piece, no piece holds the separator, and joining the pieces with it gives back the input |
| Strings.SplitJoin | app.js:275 | splitting pieces that were joined with the separator gives back those pieces |
| Strings.SplitFirst | app.js:123 | the first piece is a prefix of the input; it starts with the input's first character unless that character is the separator |
| Strings.Join | app.js:147 | `join`: `Strings.SplitJoin` and `Strings.SplitOnSpaceJoin` show that splitting the joined text gives the parts back, and `NameParser.JoinTrimmed` that words joined by spaces are trimmed |
| Strings.SplitOnSpace | app.js:145 | `split(/\s+/)`: no piece holds whitespace, and the first piece is the input up to its first whitespace character |
| Strings.SplitOnSpaceTrimmed | app.js:144-145 | on a trimmed string, every piece is non-empty |
| Strings.SplitOnSpaceJoin | app.js:145-147 | splitting words that were joined by single spaces gives back those words |
| Strings.SplitOnSpaceSpaced | app.js:145 | `split(/\s+/)` of words separated by any non-empty whitespace runs gives back exactly those words |
| NameParser.Lines | app.js:123 | every line the parser sees is non-empty and trimmed; `LinesArePieces` and `LinesOfJoin` say which lines they are |
| NameParser.KeepTrimmed | app.js:123 | map-trim-filter never grows the list and keeps only non-empty trimmed lines; `KeepTrimmedOne` and `KeepTrimmedConcat` pin down which, in order |
| NameParser.KeepTrimmedConcat | app.js:123 | parts are kept or dropped one at a time, in order: map-trim-filter of a concatenation is the concatenation of the results |
| NameParser.KeepTrimmedOne | app.js:123 | one part is dropped when it is blank and kept as its trim otherwise |
| NameParser.KeepTrimmedOfTrimmed | app.js:123 | parts that are already non-empty and trimmed are all kept, unchanged |
| NameParser.LinesArePieces | app.js:123 | trimming the whole text first changes nothing: the lines are the trimmed, non-blank pieces between the line feeds, in order |
| NameParser.LinesOfJoin | app.js:123 | non-empty trimmed lines without line feeds, joined by line feeds, are read back as exactly those lines |
| NameParser.LinesEmptyIffBlank | app.js:123 | there are no lines exactly when the text is blank |
| NameParser.Fold | app.js:130-131 | the case folding of the `i` flag for the label letters; `LabelSearch.FoldKeepsSpace` shows that a character folds to whitespace exactly when it is whitespace |
| NameParser.Labels | app.js:130-131 | the three alternatives of each label; `LabelSearch.LabelWordsStartSolid` shows that every label word has two or more letters and starts with a non-space, and `LabelSearch.EarlierAlternativesFail` that where the first word of one alternative matches at the start of a line, the alternatives before it do not match |
| NameParser.SkipSpace | app.js:130-131 | `\s*` consumes a maximal whitespace run |
| NameParser.LineEnd | app.js:130-131 | `(.+)` runs to the first line terminator |
| NameParser.AltEnd | app.js:130-131 | a label alternative ends inside the line; `LabelSearch.AltEndSpelled` shows where it ends for any case and spacing |
| NameParser.AfterLabel | app.js:130-131 | the capture after a label is non-empty, holds no line terminator and starts with a non-space on a trimmed line; `LabelSearch.AfterLabelValue` gives the value |
| NameParser.MatchAt | app.js:130-131 | a match at a position is non-empty, holds no line terminator and starts with a non-space on a trimmed line; `LabelSearch.MatchAtAlternative` and `LabelSearch.MatchAtSkips` say which alternative decides it |
| NameParser.Capture | app.js:130-131 | a capture is non-empty and holds no line terminator; on a trimmed line it starts with a non-space; `LabelSearch.CaptureValue` and `LabelSearch.CaptureBacktracks` say what it is |
| NameParser.Search | app.js:130-131 | a match is non-empty and holds no line terminator; on a trimmed line it starts with a non-space; `LabelSearch.SearchLeftmost`, `LabelSearch.SearchFound` and `LabelSearch.LabelledLine` say where it is found and what it is |
| NameParser.LabelValue | app.js:130-137 | a line's labelled value is trimmed and holds no line break; on a trimmed line it is never empty; `LabelSearch.LabelledLine` says which value a labelled line yields |
| LabelSearch.CaptureValue | app.js:130-131 | `\s*(.+)` over whitespace and then a value that starts with a non-space captures exactly that value, up to the line's end or the next line terminator |
| LabelSearch.CaptureNothing | app.js:130-131 | nothing after the separator: no capture |
| LabelSearch.CaptureBacktracks | app.js:130-131 | when only whitespace follows and the last character is no line terminator, `\s*` gives that character back and it alone is captured |
| LabelSearch.AfterLabelValue | app.js:130-131 | after a label, whitespace, `:` or `=`, whitespace and a value give exactly that value |
| LabelSearch.AltEndSpelled | app.js:130-131 | a label alternative written in any case, with any whitespace between its words, matches and ends right after its last word |
| LabelSearch.EarlierAlternativesFail | app.js:130-131 | where one alternative of a label matches at the start of a line, the alternatives before it do not |
| LabelSearch.MatchAtAlternative | app.js:130-131 | the first alternative that matches and is followed by a separator and a value decides the match at that position |
| LabelSearch.LabelledLine | app.js:130-137 | a line that starts with a label of the field, in any case and spacing, then `:` or `=` and a value, gives the field that value, trimmed |
| LabelSearch.SearchSkips | app.js:130-131 | positions where nothing matches are passed over by the search |
| LabelSearch.SearchLeftmost | app.js:130-131 | the search gives the match at the leftmost position where the pattern matches |
| LabelSearch.SearchFound | app.js:130-131 | whatever the search finds is the match at a position before which nothing matches |
| LabelSearch.NoMatchPastSeparators | app.js:130-131 | from a position past the last `:` and `=` of a line, the search finds nothing |
| LabelSearch.FirstNameLine | app.js:130-137 | `first name: ` in any case, followed by a plain value, gives that value as the first name and matches no last-name label |
| LabelSearch.LastNameLine | app.js:130-137 | `last name: ` in any case, followed by a plain value, gives that value as the last name and matches no first-name label |
| LabelSearch.LabelledPair | app.js:129-142 | a first-name line followed by a last-name line, each matching only its own label, gives the pair of their values |
| LabelSearch.TwoLinesText | app.js:123 | two parser lines joined by a line feed are read back as those two lines |
| LabelSearch.TwoLabelledLines | app.js:122-161 | the text `first name: a` newline `last name: b`, each label in any case, for plain values `a` and `b`, parses to the pair `(a, b)` |
| LabelSearch.DocumentedExample | app.js:118 | the documented input `First Name: John` newline `Last Name: Doe` parses to `("John", "Doe")` |
| NameParser.LastValue | app.js:129-139 | the value of the last line a matcher accepts; `NameParser.LastValueStep`, `NameParser.LastValueFromLastMatch`, `NameParser.LastValueUnmatched` and `NameParser.LastValueNonEmptyIffMatched` pin it down |
| NameParser.LastLabelled | app.js:129-139 | the labelled pass: each field ends as the value of the last line labelled with it, as `NameParser.LabelledField` states |
| NameParser.Positional | app.js:142-158 | no lines give two empty names; otherwise the first name is a non-empty prefix of the first line when that line starts with a non-space; `NameParser.SeveralLines`, `NameParser.SingleWord`, `NameParser.SpacedLine` and `NameParser.PositionalTrimmed` give each case |
| NameParser.ReadLines | app.js:129-161 | the labelled pass, and the positional reading only when it found nothing, as `NameParser.LabelledMeansNoFallback` and `NameParser.UnlabelledMeansFallback` state |
| NameParser.Parse | app.js:122-161 | the whole parser; `NameParser.ParseNameInput` ties the loop to it, and `NameParser.ParseTrimmed`, `NameParser.BlankText` and `LabelSearch.TwoLabelledLines` say what it returns |
| NameParser.NoSeparatorNoLabel | app.js:130-131 | a line that has neither `:` nor `=` labels neither field |
| NameParser.PlainLines | app.js:129-142 | lines without `:` or `=` leave both fields empty, so the positional reading decides |
| NameParser.ParseNameInput | app.js:122-161 | the loop over the lines followed by the fallback computes the specification `Parse` |
| NameParser.LastValueStep | app.js:129-139 | one more line overwrites a field exactly when that line matches its label |
| NameParser.LastValueFromLastMatch | app.js:129-139 | a field holds the value from the last line that labels it |
| NameParser.LastValueUnmatched | app.js:129-139 | a field that no line labels stays empty |
| NameParser.LastValueNonEmptyIffMatched | app.js:133-139 | on trimmed lines, a field is non-empty exactly when some line labels it |
| NameParser.LastValueTrimmed | app.js:134-137 | labelled values are trimmed |
| NameParser.LabelledMeansNoFallback | app.js:142 | if any line is labelled, the result is the labelled pair and no fallback runs |
| NameParser.UnlabelledMeansFallback | app.js:142-158 | if no line is labelled, the result is the positional reading |
| NameParser.LoneFirstLabel | app.js:133-142 | only a first-name label gives that non-empty value and an empty last name |
| NameParser.LabelledField | app.js:129-139 | whatever the order of the lines, each field is the value from the last line that labels it |
| NameParser.BlankText | app.js:123-126 | blank text gives two empty names |
| NameParser.SingleLineWithSpace | app.js:144-148 | one line with a space gives a first word free of whitespace and a trimmed, non-empty rest; the two together, split again, are the line's words, and the rest is the other words joined by single spaces |
| NameParser.PositionalSingleLine | app.js:144-148 | the same, for the positional reading of one trimmed line with a space |
| NameParser.SpacedLine | app.js:144-148 | an unlabelled line of words separated by whitespace runs, one holding a space, gives the first word and the other words joined by single spaces |
| NameParser.JoinTrimmed | app.js:147 | non-empty words without whitespace, joined by spaces, are non-empty and trimmed |
| NameParser.SeveralLines | app.js:150-153 | two or more unlabelled lines: the first two lines are the names |
| NameParser.SingleWord | app.js:155-157 | one unlabelled line without a space is the first name, and the last name is empty |
| NameParser.ParseTrimmed | app.js:122-161 | both returned names are trimmed |
| NameParser.LastLabelledTrimmed | app.js:134-137 | the labelled pass gives trimmed values |
| NameParser.PositionalTrimmed | app.js:142-158 | the positional reading of trimmed lines gives trimmed names |
| Storage.LocalStorage.constructor | app.js:385 | storage starts empty |
| Storage.LocalStorage.GetItem | app.js:385 | `getItem` finds a value exactly when the key is stored, and it is the stored value |
| Storage.LocalStorage.SetItem | app.js:405 | `setItem` maps the key to the value and changes no other key |
| Cookies.Lookup | app.js:276-281 | the raw value of the first segment that names the cookie, as `Cookies.LookupFirst` and `Cookies.LookupNone` state |
| Cookies.CookieValue | app.js:273-282 | what `getCookie` returns; `Cookies.CookieFromSegments` and `Cookies.CookieAbsent` say when it is a value, null or the decoding error |
| Cookies.LookupFirst | app.js:276-279 | the first segment that starts with `name=` (after leading spaces) decides the value |
| Cookies.LookupNone | app.js:276-281 | the result is null exactly when no segment starts with `name=` |
| Cookies.Decoded | app.js:279 | decoding ends in a value exactly when it succeeds, and in the decoding error (`URIError`) otherwise; never in null |
| Cookies.CookieFromSegments | app.js:273-282 | for a cookie string joined from `;`-free segments, the first segment that names the cookie gives the decoded rest of that segment, or the decoding error |
| Cookies.CookieAbsent | app.js:273-282 | `getCookie` returns null exactly when no segment names the cookie |
| Cookies.GetCookie | app.js:273-282 | the split, space-skipping loop with its early return computes `CookieValue`, the decoding error included |
| MixClient.ParseIgnoresOuterSpace | app.js:165-176 | parsing the trimmed text gives the same pair as parsing the raw text |
| MixClient.Validate | app.js:165-186 | a rejection always carries one of the three validation messages, never the generic one |
| MixClient.CheckInputs | app.js:165-186 | the trims, the early returns and the two parses compute `Validate` |
| MixClient.ValidationOrder | app.js:169-186 | blank boxes are reported first, then the left pair, then the right pair; past all three a request is sent |
| MixClient.ValidationSends | app.js:175-186 | a request is sent exactly when both texts parse to pairs that have both names |
| MixClient.SentRequest | app.js:200-214 | the request carries the four parsed names and the stored key |
| MixClient.RequestNamesTrimmed | app.js:179-186 | every name in a request is non-empty and trimmed |
| MixClient.Outcome | app.js:219-231 | an error shown verbatim is never empty; the lemmas below give each kind of reply |
| MixClient.OrEmpty | app.js:224-225 | a missing result field is shown as empty text; `MixClient.OkShowsServerPair` shows the server's pair through it |
| MixClient.OkShowsServerPair | app.js:219-227 | the result pair is shown exactly on an ok answer, and it is the server's pair |
| MixClient.FailureShowsServerError | app.js:219-231 | a failed answer shows the server's error text when it is non-empty, and the generic message otherwise |
| MixClient.ExceptionShowsMessage | app.js:229-231 | a thrown error shows its message when it is non-empty, and the generic message otherwise |
| MixClient.MixPage.constructor | app.js:163-237 | the page starts idle, with nothing shown |
| MixClient.MixPage.Begin | app.js:169-196 | a rejection shows its error and changes nothing else; a request hides the old result and error, shows the spinner and disables the button |
| MixClient.MixPage.Finish | app.js:217-236 | the reply's outcome is shown, and on every path the spinner is hidden and the button is enabled again |
| MixClient.MixPage.HandleMixNames | app.js:163-237 | the whole handler: a rejected input sends nothing; a sent request ends with the button enabled and either the result or the error visible, never both |
| Settings.KeyToSave | app.js:402-405 | something is saved exactly when the input is not blank; it is non-empty and trimmed |
| Settings.SavedKeyIsStable | app.js:385-405 | a saved key, loaded back into the input and saved again, is saved unchanged |
| Settings.SaveTrimsPadding | app.js:403-404 | a key padded with whitespace is saved as the bare key, and blank input saves nothing |
| Settings.SettingsPanel.constructor | app.js:353-363 | the dialog starts closed, on the password step, with empty inputs |
| Settings.SettingsPanel.Open | app.js:356-363 | the dialog opens on the password step with the password cleared, and the error and the notice hidden |
| Settings.SettingsPanel.Close | app.js:366-368 | the dialog closes and nothing else changes |
| Settings.SettingsPanel.ClickModal | app.js:371-375 | the dialog closes exactly when the click lands on the backdrop |
| Settings.SettingsPanel.VerifyPassword | app.js:378-392 | the key step opens exactly on the password `1111`, which also loads a stored non-empty key; any other input only shows the error |
| Settings.SettingsPanel.PasswordKeyPress | app.js:395-399 | Enter has exactly the effect of the verify button; any other key changes nothing |
| Settings.SettingsPanel.SaveApiKey | app.js:402-411 | non-blank input is stored trimmed under `grokApiKey` and the notice appears; blank input changes nothing |
| Settings.SettingsPanel.ApiKeyKeyPress | app.js:414-418 | Enter has exactly the effect of the save button; any other key leaves storage and the notice alone; the inputs, the step and the error never change |
| Server.FieldText | server.py:82-85 | `(v or '').strip()`: a false value reads as the empty text, a text as its strip, and any other true value raises |
| Server.FieldTextPadded | server.py:82-85 | a text field read back drops the Python whitespace around its core and nothing else |
| Server.MixNames | server.py:69-103 | the go-ahead carries four non-empty stripped names, and a new client only with a non-empty key; every refusal is a 400, or the 500 for a missing key |
| Server.FromFields | server.py:82-103 | on a dictionary body, any refusal is for missing names or a missing key |
| Server.FieldGuards | server.py:82-103 | the go-ahead needs all four names present, and it carries exactly those names |
| Server.WithKey | server.py:92-103 | once the names are read, the only outcomes are the go-ahead with those names and the 500 for a missing key |
| Server.Truthy | server.py:74 | Python's truth value; `Server.EmptyBody` and `Server.FieldText` show where it decides the answer |
| Server.Get | server.py:82-85 | `data.get(key)`; `Server.FieldText` states how each kind of value it returns is read |
| Server.NotJsonFirst | server.py:69-71 | without a JSON content type the answer is 400, whatever the body |
| Server.EmptyBody | server.py:73-76 | the empty-body refusal happens exactly when the body parses to a false value; an unparsable body raises |
| Server.DictionaryBody | server.py:73-89 | a true dictionary goes on to the field guards; any other true value raises |
| Server.MissingNames | server.py:82-89 | the missing-names refusal happens exactly when a stripped name is empty, and then neither the key nor the environment matters |
| Server.KeyFieldApart | server.py:82-92 | replacing the `apiKey` field does not change how the names are read |
| Server.FieldRaises | server.py:82-85 | a name field that raises makes the request raise before any name is checked |
| Server.ActiveKey | server.py:92-97 | the 500 for a missing key happens exactly when the request key is empty and the environment has no key |
| Server.ClientChoice | server.py:100-103 | the start-up client is reused exactly when the request brings no key; a request key always gets a new client built from it |
| Server.NotFound | server.py:16-20 | unknown paths under `/api/`, and only those, get a JSON 404; every other path gets the index page |
| Server.ServeStatic | server.py:177-182 | paths under `api/`, and only those, are refused with 404; every other path is handed to the file server |
| Server.ApiPathsAgree | server.py:18-20 | the file route and the 404 handler agree on which paths are API paths |
| Interop.StripKeepsSentName | server.py:82-85 | the server's strip leaves alone a name the page trimmed, when neither end is Python-only whitespace |
| Interop.RequestBody | app.js:208-214 | the body is an object with exactly the four name fields and `apiKey`, and `apiKey` is `null` exactly when no key is stored; `Interop.BodyFields` shows each field is read back as written |
| Interop.BodyFields | app.js:208-214 | the server reads back each field of the page's JSON body as the page wrote it |
| Interop.ServerTakesSentNames | server.py:69-103 | a request the page could send, when no name ends in Python-only whitespace, passes every guard except the key check and carries the page's names; it is refused exactly when no usable key exists |
| Interop.SentRequestGuards | server.py:73-97 | for a request from the page, only the key guards are left to decide |
| Interop.SentNamesRead | server.py:82-92 | the four names are read unchanged, and the key is read stripped |
| Interop.ReadKey | server.py:92 | a text or `null` key is read as its stripped text or as the empty text |
| Interop.SubmittedNamesReachModel | app.js:163-214 | from the boxes to the server: the names the server continues with are the names the page parsed |
| Interop.StoredKeyUsed | server.py:92-103 | a non-empty, trimmed request key without Python-only whitespace at its ends gets a new client built from exactly that key |
| Interop.SavedKeyUsed | app.js:402-405 | a key saved through the settings dialog and sent with the names gets a new client built from exactly that saved key, when its ends hold no Python-only whitespace |
| Interop.PythonOnlySpaceRefused | server.py:82-89 | a first name made of U+001C alone passes the page's checks but is refused by the server as missing |
| Interop.BlankFirstNameRefused | server.py:82-89 | a first name made only of Python whitespace is refused as missing |
| Interop.RefusalShownVerbatim | app.js:219-231 | every refusal from the server reaches the user as the server's own text |

## Left out

- The DOM, CSS classes and the translation table are left out. The model
  represents a message as its translation key (`Localized`) or as a
  verbatim string.
- `fetch` and `response.json()` are not modelled. The server's answer
  enters `HandleMixNames` as a function `respond` from request to `Reply`.
  The reply's `error`, `mixedFirstName` and `mixedLastName` are modelled as
  optional text. The server hands the language model's JSON on unchanged
  (server.py:163-165), so these fields may hold a number, an object or
  another non-text value, which the page would show through its `String()`
  form (app.js:220, 224-225). Such values are not modelled.
- The prompt and the call to the language model (server.py:105-170) are
  left out, and so is the parsing of the model's answer. They are foreign
  calls.
- The `XAI_API_KEY` environment variable and the start-up client
  (server.py:46-55) enter the model as the parameter `envKey`.
- The 500 handlers and the text of an uncaught exception (server.py:22-41,
  169-170) are left out. An uncaught exception is modelled only as `Crash`.
- `request.is_json` is a boolean parameter. The JSON parser is modelled by
  its result. JSON numbers are integers only; floats are not modelled.
- `decodeURIComponent` is a parameter of `GetCookie` that may fail; a
  failure stands for the `URIError` it throws. What the caller then does is
  not modelled. `setCookie` and `deleteCookie` are not part of this model.
- Server.ServeStatic: `File(path)` abstracts the file system. A missing
  file makes `send_from_directory` raise NotFound, which `not_found`
  (server.py:16-20) answers with index.html; the model does not look at
  which files exist.
- The calculator, the language switch, `loadTextareaValues`, the timestamp
  and all `console`/`print` logging are left out.
- Settings.SettingsPanel.SaveApiKey: the timer that hides the saved notice
  after three seconds (app.js:407-409) is not modelled.
- Event dispatch is not modelled. Clicks and key presses are method calls,
  with the click target reduced to a flag. Concurrent runs of the async
  handler are not modelled.
- MixClient.MixPage.HandleMixNames: the stored key is read before the
  checks, not after them. Nothing in between touches storage, so the model
  does not capture when local storage is read.
- Unicode: the whitespace sets are written out as lists of code points.
  Case folding for the `i` flag covers only the letters that occur in the
  labels.
