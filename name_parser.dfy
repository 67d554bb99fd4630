/**
  The free-text name parser of the browser client (`parseNameInput`): it turns
  the text of one input box into a first-name / last-name pair. A labelled pass
  looks for `First Name: …` / `Last Name: …` (also `fn`, `ln`, and the
  Vietnamese `tên`, `họ`) on every line; only when it finds nothing does a
  positional fallback read `John Doe` or `John` / `Doe`.
 */
module NameParser {
  import opened Options
  import opened Strings

  datatype NamePair = NamePair(firstName: string, lastName: string)

  /** Which of the parser's two labelled patterns is meant. */
  datatype Field = First | Last

  // ---------------------------------------------------------------------------
  // Lines

  /** The trimmed, non-empty lines of `text`, in order. */
  function Lines(text: string): (lines: seq<string>)
    ensures forall i :: 0 <= i < |lines| ==> lines[i] != [] && IsTrimmed(lines[i], IsJsSpace)
  {
    KeepTrimmed(Split(Trim(text, IsJsSpace), '\n'), IsJsSpace)
  }

  /** `parts.map(p => p.trim()).filter(p => p)`, for the whitespace class `sp`. */
  function KeepTrimmed(parts: seq<string>, sp: char -> bool): (lines: seq<string>)
    ensures |lines| <= |parts|
    ensures forall i :: 0 <= i < |lines| ==> lines[i] != [] && IsTrimmed(lines[i], sp)
  {
    if parts == [] then []
    else
      var t := Trim(parts[0], sp);
      (if t == [] then [] else [t]) + KeepTrimmed(parts[1..], sp)
  }

  /** The parser sees no line at all exactly when the text is blank. */
  lemma LinesEmptyIffBlank(text: string)
    ensures Lines(text) == [] <==> AllOf(text, IsJsSpace)
  {
    var t := Trim(text, IsJsSpace);
    if t != [] {
      var parts := Split(t, '\n');
      SplitFirst(t, '\n');
      assert !IsJsSpace(parts[0][0]);
      assert Trim(parts[0], IsJsSpace) != [];
      assert KeepTrimmed(parts, IsJsSpace) == [Trim(parts[0], IsJsSpace)] + KeepTrimmed(parts[1..], IsJsSpace);
    } else {
      assert Split(t, '\n') == [[]];
      assert KeepTrimmed([[]], IsJsSpace) == [] + KeepTrimmed([], IsJsSpace);
    }
  }

  /** Parts are kept or dropped one by one, in order: KeepTrimmed distributes over concatenation. */
  lemma {:induction false} KeepTrimmedConcat(x: seq<string>, y: seq<string>, sp: char -> bool)
    ensures KeepTrimmed(x + y, sp) == KeepTrimmed(x, sp) + KeepTrimmed(y, sp)
  {
    if x == [] {
      assert x + y == y;
    } else {
      var head, tail := [x[0]], x[1..];
      KeepTrimmedConcat(tail, y, sp);
      assert x + y == head + (tail + y) by {
        assert x == head + tail;
        ConcatAssoc(head, tail, y);
      }
      KeepTrimmedCons(x[0], tail + y, sp);
      KeepTrimmedCons(x[0], tail, sp);
      assert x == [x[0]] + tail;
      ConcatAssoc(KeepTrimmed(head, sp), KeepTrimmed(tail, sp), KeepTrimmed(y, sp));
    }
  }

  lemma KeepTrimmedCons(p: string, rest: seq<string>, sp: char -> bool)
    ensures KeepTrimmed([p] + rest, sp) == KeepTrimmed([p], sp) + KeepTrimmed(rest, sp)
  {
    assert ([p] + rest)[0] == p && ([p] + rest)[1..] == rest;
    assert [p][1..] == [];
  }

  /** A single part is dropped when it is blank and kept trimmed otherwise. */
  lemma KeepTrimmedOne(p: string, sp: char -> bool)
    ensures KeepTrimmed([p], sp) == if AllOf(p, sp) then [] else [Trim(p, sp)]
  {
    assert [p][1..] == [];
  }

  /** Parts that are already non-empty and trimmed are all kept, unchanged. */
  lemma {:induction false} KeepTrimmedOfTrimmed(parts: seq<string>, sp: char -> bool)
    requires forall i :: 0 <= i < |parts| ==> parts[i] != [] && IsTrimmed(parts[i], sp)
    ensures KeepTrimmed(parts, sp) == parts
  {
    if parts != [] {
      TrimmedIsFixed(parts[0], sp);
      KeepTrimmedOfTrimmed(parts[1..], sp);
      assert parts == [parts[0]] + parts[1..];
    }
  }

  /**
    Trimming the whole text first changes nothing: the lines are the
    trimmed, non-blank pieces between the line feeds of the text, in order.
   */
  lemma LinesArePieces(text: string)
    ensures Lines(text) == KeepTrimmed(Split(text, '\n'), IsJsSpace)
  {
    assert IsJsSpace('\n');
    PiecesIgnoreOuterBlank(text, IsJsSpace);
  }

  /** For any class `sp` that holds the line feed, blank text around the pieces is dropped with them. */
  lemma PiecesIgnoreOuterBlank(text: string, sp: char -> bool)
    requires sp('\n')
    ensures KeepTrimmed(Split(Trim(text, sp), '\n'), sp) == KeepTrimmed(Split(text, '\n'), sp)
  {
    var a, b := TrimSplits(text, sp);
    var t := Trim(text, sp);
    BlankSuffix(t, b, sp);
    BlankPrefix(a, t + b, sp);
    ConcatAssoc(a, t, b);
  }

  lemma {:induction false} BlankPrefix(a: string, s: string, sp: char -> bool)
    requires sp('\n') && AllOf(a, sp)
    ensures KeepTrimmed(Split(a + s, '\n'), sp) == KeepTrimmed(Split(s, '\n'), sp)
    decreases |a|
  {
    if a == [] {
      assert a + s == s;
    } else {
      AllOfTail(a, sp);
      BlankPrefix(a[1..], s, sp);
      ConsAppend(a, s);
      BlankCons(a[0], a[1..] + s, sp);
    }
  }

  lemma BlankCons(c: char, r: string, sp: char -> bool)
    requires sp(c)
    ensures KeepTrimmed(Split([c] + r, '\n'), sp) == KeepTrimmed(Split(r, '\n'), sp)
  {
    var rest := Split(r, '\n');
    var parts := Split([c] + r, '\n');
    if c == '\n' {
      assert parts == [[]] + rest by {
        SplitAfterPiece([], r, '\n');
        assert [] + ['\n'] + r == [c] + r;
      }
      KeepTrimmedCons([], rest, sp);
      KeepTrimmedOne([], sp);
    } else {
      var first := [c] + rest[0];
      assert parts == [first] + rest[1..] by {
        SplitCons(c, r, '\n');
      }
      KeepTrimmedCons(first, rest[1..], sp);
      KeepTrimmedCons(rest[0], rest[1..], sp);
      TrimCons(c, rest[0], sp);
      KeepTrimmedSameTrim(first, rest[0], sp);
      assert rest == [rest[0]] + rest[1..];
    }
  }

  /** Two parts with the same trim are kept or dropped alike. */
  lemma KeepTrimmedSameTrim(p: string, q: string, sp: char -> bool)
    requires Trim(p, sp) == Trim(q, sp)
    ensures KeepTrimmed([p], sp) == KeepTrimmed([q], sp)
  {
    KeepTrimmedOne(p, sp);
    KeepTrimmedOne(q, sp);
  }

  lemma {:induction false} BlankSuffix(s: string, b: string, sp: char -> bool)
    requires sp('\n') && AllOf(b, sp)
    ensures KeepTrimmed(Split(s + b, '\n'), sp) == KeepTrimmed(Split(s, '\n'), sp)
    decreases |b|
  {
    if b == [] {
      assert s + b == s;
    } else {
      AllOfInit(b, sp);
      BlankSuffix(s, b[..|b| - 1], sp);
      SnocAppend(s, b);
      BlankSnoc(s + b[..|b| - 1], b[|b| - 1], sp);
    }
  }

  lemma BlankSnoc(s: string, c: char, sp: char -> bool)
    requires sp(c)
    ensures KeepTrimmed(Split(s + [c], '\n'), sp) == KeepTrimmed(Split(s, '\n'), sp)
  {
    SplitSnoc(s, c, '\n');
    if c == '\n' {
      EmptyLastPiece(Split(s, '\n'), sp);
    } else {
      LastPieceBlank(Split(s, '\n'), c, sp);
    }
  }

  /** A line feed at the end of the text adds an empty piece, which is dropped. */
  lemma EmptyLastPiece(parts: seq<string>, sp: char -> bool)
    ensures KeepTrimmed(parts + [[]], sp) == KeepTrimmed(parts, sp)
  {
    KeepTrimmedConcat(parts, [[]], sp);
    KeepTrimmedOne([], sp);
    assert KeepTrimmed(parts, sp) + [] == KeepTrimmed(parts, sp);
  }

  /** A blank character at the end of the last piece does not change which trimmed lines are kept. */
  lemma LastPieceBlank(parts: seq<string>, c: char, sp: char -> bool)
    requires parts != [] && sp(c)
    ensures KeepTrimmed(parts[..|parts| - 1] + [parts[|parts| - 1] + [c]], sp) == KeepTrimmed(parts, sp)
  {
    var init, last := parts[..|parts| - 1], parts[|parts| - 1];
    assert parts == init + [last];
    TrimSnoc(last, c, sp);
    LastSameTrim(init, last + [c], last, sp);
  }

  /** Replacing the last part by one with the same trim keeps the same lines. */
  lemma LastSameTrim(init: seq<string>, p: string, q: string, sp: char -> bool)
    requires Trim(p, sp) == Trim(q, sp)
    ensures KeepTrimmed(init + [p], sp) == KeepTrimmed(init + [q], sp)
  {
    KeepTrimmedConcat(init, [p], sp);
    KeepTrimmedConcat(init, [q], sp);
    KeepTrimmedSameTrim(p, q, sp);
  }

  /** Text written as trimmed, non-empty lines joined by line feeds is read back as exactly those lines. */
  lemma LinesOfJoin(ls: seq<string>)
    requires ParserLines(ls)
    requires forall i :: 0 <= i < |ls| ==> '\n' !in ls[i]
    ensures Lines(Join(ls, "\n")) == ls
  {
    if ls == [] {
      LinesEmptyIffBlank([]);
    } else {
      LinesArePieces(Join(ls, "\n"));
      assert "\n" == ['\n'];
      SplitJoin(ls, '\n');
      KeepTrimmedOfTrimmed(ls, IsJsSpace);
    }
  }

  // ---------------------------------------------------------------------------
  // The labelled search: `(?:first\s*name|fn|tên)\s*[:=]\s*(.+)` with flag `i`,
  // and its `last name` twin, as an explicit leftmost search.

  /**
    Case folding for the `i` flag. It maps to lower case every character that
    JavaScript's case-insensitive matching identifies with a letter of a label:
    ASCII letters, Ê (U+00CA) and Ọ (U+1ECC); other characters are left alone.
   */
  function Fold(c: char): char {
    if 'A' <= c <= 'Z' then (c as int + 32) as char
    else if c as int == 0xCA then 0xEA as char
    else if c as int == 0x1ECC then 0x1ECD as char
    else c
  }

  /** The alternatives of a label, lower case; the words of one alternative are separated by `\s*`. */
  function Labels(f: Field): seq<seq<string>> {
    match f
    case First => [["first", "name"], ["fn"], ["tên"]]
    case Last => [["last", "name"], ["ln"], ["họ"]]
  }

  /** `w` occurs at position `i` of `line`, ignoring case. */
  predicate MatchesWord(line: string, i: nat, w: string) {
    i + |w| <= |line| && forall k :: 0 <= k < |w| ==> Fold(line[i + k]) == w[k]
  }

  /** The end of the maximal whitespace run that starts at `i` (greedy `\s*`). */
  function SkipSpace(line: string, i: nat): (j: nat)
    requires i <= |line|
    ensures i <= j <= |line|
    ensures forall k :: i <= k < j ==> IsJsSpace(line[k])
    ensures j < |line| ==> !IsJsSpace(line[j])
    decreases |line| - i
  {
    if i < |line| && IsJsSpace(line[i]) then SkipSpace(line, i + 1) else i
  }

  /** The end of the run of non-line-terminators that starts at `i` (greedy `.*`). */
  function LineEnd(line: string, i: nat): (j: nat)
    requires i <= |line|
    ensures i <= j <= |line|
    ensures forall k :: i <= k < j ==> !IsLineTerminator(line[k])
    ensures j < |line| ==> IsLineTerminator(line[j])
    decreases |line| - i
  {
    if i < |line| && !IsLineTerminator(line[i]) then LineEnd(line, i + 1) else i
  }

  /** The last position in `[p, q)` that `.` can match: where backtracking `\s*` lets `(.+)` start. */
  function LastNonTerminator(line: string, p: nat, q: nat): (j: Option<nat>)
    requires p <= q <= |line|
    ensures j.Some? ==> p <= j.value < q && !IsLineTerminator(line[j.value])
    decreases q
  {
    if q <= p then None
    else if !IsLineTerminator(line[q - 1]) then Some(q - 1)
    else LastNonTerminator(line, p, q - 1)
  }

  /**
    The end of the label alternative `words` if it occurs at `i`; the words are
    separated by `\s*`, which cannot backtrack usefully because no word starts
    with whitespace.
   */
  function AltEnd(line: string, i: nat, words: seq<string>): (e: Option<nat>)
    requires i <= |line|
    ensures e.Some? ==> i <= e.value <= |line|
    decreases |words|
  {
    if words == [] then Some(i)
    else if !MatchesWord(line, i, words[0]) then None
    else if |words| == 1 then Some(i + |words[0]|)
    else AltEnd(line, SkipSpace(line, i + |words[0]|), words[1..])
  }

  /**
    `\s*(.+)` at `p`: the greedy whitespace run, then the capture up to the next
    line terminator. When the run reaches the end of the line, `\s*` gives back
    characters until `(.+)` can match one. On a line with no whitespace at its
    end the capture always starts with a non-whitespace character.
   */
  function Capture(line: string, p: nat): (cap: Option<string>)
    requires p <= |line|
    ensures cap.Some? ==> cap.value != [] && NoneOf(cap.value, IsLineTerminator)
    ensures cap.Some? && IsTrimmed(line, IsJsSpace) ==> !IsJsSpace(cap.value[0])
  {
    var q := SkipSpace(line, p);
    if q < |line| then
      Some(line[q..LineEnd(line, q)])
    else
      match LastNonTerminator(line, p, q)
      case Some(j) =>
        assert IsJsSpace(line[|line| - 1]);
        Some(line[j..LineEnd(line, j)])
      case None => None
  }

  /** `\s*[:=]\s*(.+)` after the label that ends at `e`. */
  function AfterLabel(line: string, e: nat): (cap: Option<string>)
    requires e <= |line|
    ensures cap.Some? ==> cap.value != [] && NoneOf(cap.value, IsLineTerminator)
    ensures cap.Some? && IsTrimmed(line, IsJsSpace) ==> !IsJsSpace(cap.value[0])
  {
    var k := SkipSpace(line, e);
    if k < |line| && (line[k] == ':' || line[k] == '=') then Capture(line, k + 1) else None
  }

  /** The capture of the first alternative in `alts` that matches, starting at `i`. */
  function MatchAt(line: string, i: nat, alts: seq<seq<string>>): (cap: Option<string>)
    requires i <= |line|
    ensures cap.Some? ==> cap.value != [] && NoneOf(cap.value, IsLineTerminator)
    ensures cap.Some? && IsTrimmed(line, IsJsSpace) ==> !IsJsSpace(cap.value[0])
    decreases |alts|
  {
    if alts == [] then None
    else
      match AltEnd(line, i, alts[0])
      case Some(e) =>
        (match AfterLabel(line, e)
         case Some(c) => Some(c)
         case None => MatchAt(line, i, alts[1..]))
      case None => MatchAt(line, i, alts[1..])
  }

  /** The unanchored search: the capture of the leftmost start position from `i` on where the pattern matches. */
  function Search(line: string, alts: seq<seq<string>>, i: nat): (cap: Option<string>)
    requires i <= |line|
    ensures cap.Some? ==> cap.value != [] && NoneOf(cap.value, IsLineTerminator)
    ensures cap.Some? && IsTrimmed(line, IsJsSpace) ==> !IsJsSpace(cap.value[0])
    decreases |line| - i
  {
    match MatchAt(line, i, alts)
    case Some(c) => Some(c)
    case None => if i == |line| then None else Search(line, alts, i + 1)
  }

  /**
    The value a line gives to field `f`: the trimmed capture of the label search,
    or None when the line does not match. A match on a trimmed line is never
    empty, and the value is trimmed and holds no line break.
   */
  function LabelValue(line: string, f: Field): (v: Option<string>)
    ensures v.Some? ==> IsTrimmed(v.value, IsJsSpace) && NoneOf(v.value, IsLineTerminator)
    ensures v.Some? && IsTrimmed(line, IsJsSpace) ==> v.value != []
  {
    match Search(line, Labels(f), 0)
    case Some(c) =>
      TrimKeepsAbsent(c, IsJsSpace, IsLineTerminator);
      Some(Trim(c, IsJsSpace))
    case None => None
  }

  /** A line without `:` or `=` has no separator after any label, so it labels neither field. */
  lemma NoSeparatorNoLabel(line: string, f: Field)
    requires ':' !in line && '=' !in line
    ensures LabelValue(line, f).None?
  {
    SearchNeedsSeparator(line, Labels(f), 0);
  }

  lemma {:induction false} SearchNeedsSeparator(line: string, alts: seq<seq<string>>, i: nat)
    requires i <= |line| && ':' !in line && '=' !in line
    ensures Search(line, alts, i).None?
    decreases |line| - i
  {
    MatchAtNeedsSeparator(line, i, alts);
    if i < |line| {
      SearchNeedsSeparator(line, alts, i + 1);
    }
  }

  lemma {:induction false} MatchAtNeedsSeparator(line: string, i: nat, alts: seq<seq<string>>)
    requires i <= |line| && ':' !in line && '=' !in line
    ensures MatchAt(line, i, alts).None?
    decreases |alts|
  {
    if alts != [] {
      match AltEnd(line, i, alts[0])
      case Some(e) =>
        var k := SkipSpace(line, e);
        assert k < |line| ==> line[k] in line;
        MatchAtNeedsSeparator(line, i, alts[1..]);
      case None =>
        MatchAtNeedsSeparator(line, i, alts[1..]);
    }
  }

  /** Lines without `:` or `=` are unlabelled: the positional reading decides. */
  lemma PlainLines(lines: seq<string>)
    requires forall i :: 0 <= i < |lines| ==> ':' !in lines[i] && '=' !in lines[i]
    ensures Unlabelled(lines)
    ensures ReadLines(lines) == Positional(lines)
  {
    forall i | 0 <= i < |lines|
      ensures LabelValue(lines[i], First).None? && LabelValue(lines[i], Last).None?
    {
      NoSeparatorNoLabel(lines[i], First);
      NoSeparatorNoLabel(lines[i], Last);
    }
    UnlabelledMeansFallback(lines);
  }

  // ---------------------------------------------------------------------------
  // The specification of the parser

  /** The per-line match of field `f`, as a function value. */
  function FieldValue(f: Field): (value: string -> Option<string>)
    ensures forall line :: value(line) == LabelValue(line, f)
  {
    line => LabelValue(line, f)
  }

  /** The value of the last line of `lines` that `value` matches; empty if it matches none. */
  function LastValue(lines: seq<string>, value: string -> Option<string>): string {
    if lines == [] then []
    else
      match value(lines[|lines| - 1])
      case Some(v) => v
      case None => LastValue(lines[..|lines| - 1], value)
  }

  /** The value of field `f` after the labelled pass over `lines`. */
  function LastLabelled(lines: seq<string>, f: Field): string {
    LastValue(lines, FieldValue(f))
  }

  /** No line matches either label. */
  predicate Unlabelled(lines: seq<string>) {
    forall i :: 0 <= i < |lines| ==> LabelValue(lines[i], First).None? && LabelValue(lines[i], Last).None?
  }

  /** The positional reading, used when the labelled pass found nothing. */
  function Positional(lines: seq<string>): (p: NamePair)
    ensures lines == [] ==> p == NamePair([], [])
    ensures lines != [] && lines[0] != [] && !IsJsSpace(lines[0][0]) ==> p.firstName != [] && p.firstName <= lines[0]
  {
    if |lines| == 1 && ' ' in lines[0] then
      var parts := SplitOnSpace(lines[0]);
      NamePair(parts[0], Join(parts[1..], " "))
    else if |lines| >= 2 then NamePair(lines[0], lines[1])
    else if |lines| == 1 then NamePair(lines[0], [])
    else NamePair([], [])
  }

  /** The labelled pass over `lines`, then the positional reading when it left both fields empty. */
  function ReadLines(lines: seq<string>): NamePair {
    var first := LastLabelled(lines, First);
    var last := LastLabelled(lines, Last);
    if first == [] && last == [] then Positional(lines) else NamePair(first, last)
  }

  /** What `parseNameInput(text)` returns. */
  function Parse(text: string): NamePair {
    ReadLines(Lines(text))
  }

  /** The lines the parser works on: non-empty and trimmed. */
  predicate ParserLines(lines: seq<string>) {
    forall i :: 0 <= i < |lines| ==> lines[i] != [] && IsTrimmed(lines[i], IsJsSpace)
  }

  /**
    `parseNameInput`: one pass over the lines in which every matching line
    overwrites the field it labels, then the positional fallback when both
    fields are still empty.
   */
  method ParseNameInput(text: string) returns (r: NamePair)
    ensures r == Parse(text)
  {
    var lines := Lines(text);
    var firstName: string := [];
    var lastName: string := [];
    for i := 0 to |lines|
      invariant firstName == LastLabelled(lines[..i], First)
      invariant lastName == LastLabelled(lines[..i], Last)
    {
      var firstMatch := LabelValue(lines[i], First);
      var lastMatch := LabelValue(lines[i], Last);
      LastValueStep(lines, FieldValue(First), i);
      LastValueStep(lines, FieldValue(Last), i);
      if firstMatch.Some? {
        firstName := firstMatch.value;
      }
      if lastMatch.Some? {
        lastName := lastMatch.value;
      }
    }
    assert lines[..|lines|] == lines;
    if firstName == [] && lastName == [] {
      var p := Positional(lines);
      firstName, lastName := p.firstName, p.lastName;
    }
    r := NamePair(firstName, lastName);
  }

  /** One more line in the labelled pass: it overwrites the value if it matches. */
  lemma LastValueStep(lines: seq<string>, value: string -> Option<string>, i: nat)
    requires i < |lines|
    ensures LastValue(lines[..i + 1], value)
      == match value(lines[i]) case Some(v) => v case None => LastValue(lines[..i], value)
  {
    assert lines[..i + 1][..i] == lines[..i];
  }

  // ---------------------------------------------------------------------------
  // Properties

  /** Last write wins: a field takes its value from the last line that matches its label. */
  lemma {:induction false} LastValueFromLastMatch(lines: seq<string>, value: string -> Option<string>, k: nat)
    requires k < |lines| && value(lines[k]).Some?
    requires forall j :: k < j < |lines| ==> value(lines[j]).None?
    ensures LastValue(lines, value) == value(lines[k]).value
    decreases |lines|
  {
    if k < |lines| - 1 {
      var init := lines[..|lines| - 1];
      assert forall j :: k < j < |init| ==> init[j] == lines[j];
      LastValueFromLastMatch(init, value, k);
    }
  }

  /** A field that no line labels stays empty. */
  lemma {:induction false} LastValueUnmatched(lines: seq<string>, value: string -> Option<string>)
    requires forall j :: 0 <= j < |lines| ==> value(lines[j]).None?
    ensures LastValue(lines, value) == []
    decreases |lines|
  {
    if lines != [] {
      var init := lines[..|lines| - 1];
      assert forall j :: 0 <= j < |init| ==> init[j] == lines[j];
      LastValueUnmatched(init, value);
    }
  }

  /** When every match is non-empty, the field is non-empty after the pass exactly when some line matches. */
  lemma {:induction false} LastValueNonEmptyIffMatched(lines: seq<string>, value: string -> Option<string>)
    requires forall j :: 0 <= j < |lines| && value(lines[j]).Some? ==> value(lines[j]).value != []
    ensures LastValue(lines, value) != [] <==> exists j :: 0 <= j < |lines| && value(lines[j]).Some?
    decreases |lines|
  {
    if lines != [] {
      var init := lines[..|lines| - 1];
      assert forall j :: 0 <= j < |init| ==> init[j] == lines[j];
      LastValueNonEmptyIffMatched(init, value);
      if value(lines[|lines| - 1]).None? {
        assert (exists j :: 0 <= j < |lines| && value(lines[j]).Some?)
          ==> exists j :: 0 <= j < |init| && value(init[j]).Some?;
      } else {
        assert value(lines[|lines| - 1]).value != [];
      }
    }
  }

  /** When every match is trimmed, so is the value after the pass. */
  lemma {:induction false} LastValueTrimmed(lines: seq<string>, value: string -> Option<string>)
    requires forall j :: 0 <= j < |lines| && value(lines[j]).Some? ==> IsTrimmed(value(lines[j]).value, IsJsSpace)
    ensures IsTrimmed(LastValue(lines, value), IsJsSpace)
    decreases |lines|
  {
    if lines != [] {
      var init := lines[..|lines| - 1];
      assert forall j :: 0 <= j < |init| ==> init[j] == lines[j];
      LastValueTrimmed(init, value);
      if value(lines[|lines| - 1]).Some? {
        assert IsTrimmed(value(lines[|lines| - 1]).value, IsJsSpace);
      }
    }
  }

  /** Some labelled line: the labelled values are the result and there is no fallback. */
  lemma LabelledMeansNoFallback(lines: seq<string>)
    requires ParserLines(lines) && !Unlabelled(lines)
    ensures ReadLines(lines) == NamePair(LastLabelled(lines, First), LastLabelled(lines, Last))
  {
    LastValueNonEmptyIffMatched(lines, FieldValue(First));
    LastValueNonEmptyIffMatched(lines, FieldValue(Last));
  }

  /** No labelled line: the positional reading is the result. */
  lemma UnlabelledMeansFallback(lines: seq<string>)
    requires Unlabelled(lines)
    ensures ReadLines(lines) == Positional(lines)
  {
    LastValueUnmatched(lines, FieldValue(First));
    LastValueUnmatched(lines, FieldValue(Last));
  }

  /**
    A first-name label alone gives the last labelled first name and an empty
    last name; the positional fallback does not run.
   */
  lemma LoneFirstLabel(lines: seq<string>, k: nat)
    requires ParserLines(lines)
    requires k < |lines| && LabelValue(lines[k], First).Some?
    requires forall j :: k < j < |lines| ==> LabelValue(lines[j], First).None?
    requires forall j :: 0 <= j < |lines| ==> LabelValue(lines[j], Last).None?
    ensures ReadLines(lines) == NamePair(LabelValue(lines[k], First).value, [])
    ensures ReadLines(lines).firstName != []
  {
    LastValueFromLastMatch(lines, FieldValue(First), k);
    LastValueUnmatched(lines, FieldValue(Last));
  }

  /** Each field is the value of the last line that labels it, whatever the order of the lines. */
  lemma LabelledField(lines: seq<string>, f: Field, k: nat)
    requires ParserLines(lines)
    requires k < |lines| && LabelValue(lines[k], f).Some?
    requires forall j :: k < j < |lines| ==> LabelValue(lines[j], f).None?
    ensures var r := ReadLines(lines); (if f == First then r.firstName else r.lastName) == LabelValue(lines[k], f).value
  {
    LastValueFromLastMatch(lines, FieldValue(f), k);
    LabelledMeansNoFallback(lines);
  }

  /** Blank or whitespace-only text parses to two empty names. */
  lemma BlankText(text: string)
    requires AllOf(text, IsJsSpace)
    ensures Parse(text) == NamePair([], [])
  {
    LinesEmptyIffBlank(text);
  }

  /**
    One unlabelled line holding a space: the first name is the line up to its
    first whitespace, non-empty and without whitespace; the last name is the
    remaining words joined by single spaces, so splitting it gives back exactly
    the line's other words.
   */
  lemma SingleLineWithSpace(line: string)
    requires ParserLines([line]) && ' ' in line && Unlabelled([line])
    ensures var r := ReadLines([line]);
      && r.firstName != [] && NoneOf(r.firstName, IsJsSpace)
      && r.firstName < line && IsJsSpace(line[|r.firstName|])
      && r.lastName != [] && IsTrimmed(r.lastName, IsJsSpace)
      && [r.firstName] + SplitOnSpace(r.lastName) == SplitOnSpace(line)
      && r.lastName == Join(SplitOnSpace(line)[1..], " ")
  {
    UnlabelledMeansFallback([line]);
    PositionalSingleLine(line);
  }

  /** The positional reading of one trimmed line holding a space. */
  lemma PositionalSingleLine(line: string)
    requires line != [] && IsTrimmed(line, IsJsSpace) && ' ' in line
    ensures var r := Positional([line]);
      && r.firstName != [] && NoneOf(r.firstName, IsJsSpace)
      && r.firstName < line && IsJsSpace(line[|r.firstName|])
      && r.lastName != [] && IsTrimmed(r.lastName, IsJsSpace)
      && [r.firstName] + SplitOnSpace(r.lastName) == SplitOnSpace(line)
      && r.lastName == Join(SplitOnSpace(line)[1..], " ")
  {
    assert !NoneOf(line, IsJsSpace) by {
      var k :| 0 <= k < |line| && line[k] == ' ';
      assert IsJsSpace(line[k]);
    }
    var parts := SplitOnSpace(line);
    SplitOnSpaceTrimmed(line);
    var words := parts[1..];
    assert forall i :: 0 <= i < |words| ==> words[i] == parts[i + 1];
    SplitOnSpaceJoin(words);
    JoinTrimmed(words);
    assert parts == [parts[0]] + words;
  }

  /**
    An unlabelled line of words separated by whitespace runs, one of them holding
    a literal space, gives its first word as the first name and the other words,
    joined by single spaces, as the last name: `"Anna  Maria\tLe"` gives
    `("Anna", "Maria Le")`.
   */
  lemma SpacedLine(words: seq<string>, gaps: seq<string>)
    requires |words| == |gaps| + 1 && gaps != []
    requires forall i :: 0 <= i < |words| ==> words[i] != [] && NoneOf(words[i], IsJsSpace)
    requires forall i :: 0 <= i < |gaps| ==> gaps[i] != [] && AllOf(gaps[i], IsJsSpace)
    requires ' ' in Spaced(words, gaps) && Unlabelled([Spaced(words, gaps)])
    ensures ReadLines([Spaced(words, gaps)]) == NamePair(words[0], Join(words[1..], " "))
  {
    var line := Spaced(words, gaps);
    SplitOnSpaceSpaced(words, gaps);
    UnlabelledMeansFallback([line]);
  }

  /** Words without whitespace joined by spaces give a trimmed string. */
  lemma {:induction false} JoinTrimmed(words: seq<string>)
    requires words != []
    requires forall i :: 0 <= i < |words| ==> words[i] != [] && NoneOf(words[i], IsJsSpace)
    ensures Join(words, " ") != [] && IsTrimmed(Join(words, " "), IsJsSpace)
  {
    if |words| > 1 {
      JoinTrimmed(words[1..]);
      var j := Join(words[1..], " ");
      assert Join(words, " ") == words[0] + " " + j;
      assert Join(words, " ")[|Join(words, " ")| - 1] == j[|j| - 1];
    }
  }

  /** Several unlabelled lines: the first two are the names and the rest is ignored. */
  lemma SeveralLines(lines: seq<string>)
    requires |lines| >= 2 && Unlabelled(lines)
    ensures ReadLines(lines) == NamePair(lines[0], lines[1])
  {
    UnlabelledMeansFallback(lines);
  }

  /** One unlabelled line without a space character (a tab does not count): it is the first name only. */
  lemma SingleWord(line: string)
    requires ' ' !in line && Unlabelled([line])
    ensures ReadLines([line]) == NamePair(line, [])
  {
    UnlabelledMeansFallback([line]);
  }

  /** Both names the parser returns are trimmed. */
  lemma ParseTrimmed(text: string)
    ensures IsTrimmed(Parse(text).firstName, IsJsSpace) && IsTrimmed(Parse(text).lastName, IsJsSpace)
  {
    var lines := Lines(text);
    LastLabelledTrimmed(lines, First);
    LastLabelledTrimmed(lines, Last);
    PositionalTrimmed(lines);
  }

  lemma LastLabelledTrimmed(lines: seq<string>, f: Field)
    ensures IsTrimmed(LastLabelled(lines, f), IsJsSpace)
  {
    LastValueTrimmed(lines, FieldValue(f));
  }

  /** The positional reading of trimmed lines gives trimmed names. */
  lemma PositionalTrimmed(lines: seq<string>)
    requires forall i :: 0 <= i < |lines| ==> lines[i] != [] && IsTrimmed(lines[i], IsJsSpace)
    ensures IsTrimmed(Positional(lines).firstName, IsJsSpace) && IsTrimmed(Positional(lines).lastName, IsJsSpace)
  {
    if |lines| == 1 && ' ' in lines[0] {
      PositionalSingleLine(lines[0]);
    }
  }
}
