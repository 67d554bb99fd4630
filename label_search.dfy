/**
  What the labelled search of the name parser finds: a line that starts with a
  label spelled in any case, with any whitespace between its words and around
  the separator, yields the text after the separator; the search takes the
  leftmost position where the pattern matches; and two labelled lines are read
  back as the two names they carry.
 */
module LabelSearch {
  import opened Options
  import opened Strings
  import opened NameParser

  /** `s` occurs in `line` at position `i`. */
  predicate At(line: string, i: nat, s: string) {
    i + |s| <= |line| && line[i..i + |s|] == s
  }

  /** `written` is `w` with some letters in another case. */
  predicate FoldsTo(written: string, w: string) {
    |written| == |w| && forall k :: 0 <= k < |w| ==> Fold(written[k]) == w[k]
  }

  // ---------------------------------------------------------------------------
  // Positions in a line

  lemma AtWhole(line: string)
    ensures At(line, 0, line)
  {
  }

  /** An occurrence of `a + b` is an occurrence of `a` followed by one of `b`. */
  lemma AtSplit(line: string, i: nat, a: string, b: string)
    requires At(line, i, a + b)
    ensures At(line, i, a) && At(line, i + |a|, b)
  {
    var whole := line[i..i + |a| + |b|];
    assert whole == a + b;
    assert line[i..i + |a|] == whole[..|a|];
    assert line[i + |a|..i + |a| + |b|] == whole[|a|..];
  }

  lemma AtSlice(line: string, i: nat, s: string)
    requires At(line, i, s)
    ensures line[i..i + |s|] == s
  {
  }

  lemma AtTail(line: string, i: nat, s: string)
    requires At(line, i, s) && s != []
    ensures line[i] == s[0] && At(line, i + 1, s[1..])
  {
    assert line[i] == line[i..i + |s|][0];
    assert line[i + 1..i + |s|] == line[i..i + |s|][1..];
  }

  /** The character `k` places after an occurrence of `s` starts is `s[k]`. */
  lemma AtIndex(line: string, i: nat, s: string, k: nat)
    requires At(line, i, s) && k < |s|
    ensures line[i + k] == s[k]
  {
    assert line[i + k] == line[i..i + |s|][k];
  }

  /** A greedy `\s*` that starts at a whitespace run ends where that run ends. */
  lemma {:induction false} SkipSpaceRun(line: string, i: nat, ws: string)
    requires At(line, i, ws) && AllOf(ws, IsJsSpace)
    requires i + |ws| == |line| || !IsJsSpace(line[i + |ws|])
    ensures SkipSpace(line, i) == i + |ws|
    decreases |ws|
  {
    if ws != [] {
      AtTail(line, i, ws);
      AllOfTail(ws, IsJsSpace);
      SkipSpaceRun(line, i + 1, ws[1..]);
    }
  }

  /** A greedy `.*` stops at the first line terminator or at the end. */
  lemma {:induction false} LineEndRun(line: string, i: nat, v: string)
    requires At(line, i, v) && NoneOf(v, IsLineTerminator)
    requires i + |v| == |line| || IsLineTerminator(line[i + |v|])
    ensures LineEnd(line, i) == i + |v|
    decreases |v|
  {
    if v != [] {
      AtTail(line, i, v);
      assert forall k :: 0 <= k < |v| - 1 ==> v[1..][k] == v[k + 1];
      LineEndRun(line, i + 1, v[1..]);
    }
  }

  // ---------------------------------------------------------------------------
  // Case folding

  /** Folding never turns whitespace into a letter or a letter into whitespace. */
  lemma FoldKeepsSpace(c: char)
    ensures IsJsSpace(Fold(c)) == IsJsSpace(c)
  {
  }

  lemma SpelledMatches(line: string, i: nat, written: string, w: string)
    requires At(line, i, written) && FoldsTo(written, w)
    ensures MatchesWord(line, i, w)
  {
    forall k | 0 <= k < |w|
      ensures Fold(line[i + k]) == w[k]
    {
      AtIndex(line, i, written, k);
    }
  }

  /** One character that folds to something else rules the word out. */
  lemma Mismatch(line: string, i: nat, u: string, k: nat)
    requires k < |u| && i + k < |line| && Fold(line[i + k]) != u[k]
    ensures !MatchesWord(line, i, u)
  {
  }

  /** Every word of every label starts with a character that is not whitespace. */
  lemma LabelWordsStartSolid(f: Field, alt: nat)
    requires alt < |Labels(f)|
    ensures forall n :: 0 <= n < |Labels(f)[alt]| ==> |Labels(f)[alt][n]| >= 2 && !IsJsSpace(Labels(f)[alt][n][0])
  {
  }

  // ---------------------------------------------------------------------------
  // One label alternative

  /**
    A label alternative spelled in any case, with whitespace runs of any length
    (none included) between its words, matches and ends where the spelling ends.
   */
  lemma {:induction false} AltEndSpelled(line: string, i: nat, words: seq<string>, parts: seq<string>, gaps: seq<string>)
    requires SpelledAlternative(words, parts, gaps)
    requires At(line, i, Spaced(parts, gaps))
    ensures AltEnd(line, i, words) == Some(i + |Spaced(parts, gaps)|)
    ensures MatchesWord(line, i, words[0])
    decreases |gaps|
  {
    if gaps == [] {
      AltEndOneWord(line, i, words, parts);
    } else {
      var j := AltEndFirstWord(line, i, words, parts, gaps);
      SpelledAlternativeTail(words, parts, gaps);
      AltEndSpelled(line, j, words[1..], parts[1..], gaps[1..]);
    }
  }

  lemma AltEndOneWord(line: string, i: nat, words: seq<string>, parts: seq<string>)
    requires SpelledAlternative(words, parts, [])
    requires At(line, i, Spaced(parts, []))
    ensures AltEnd(line, i, words) == Some(i + |Spaced(parts, [])|)
    ensures MatchesWord(line, i, words[0])
  {
    SpelledMatches(line, i, parts[0], words[0]);
  }

  /** `parts` spells the words of `words` in any case, and `gaps` are the whitespace runs between them. */
  predicate SpelledAlternative(words: seq<string>, parts: seq<string>, gaps: seq<string>) {
    && |words| == |parts| == |gaps| + 1
    && (forall n :: 0 <= n < |words| ==> FoldsTo(parts[n], words[n]) && words[n] != [] && !IsJsSpace(words[n][0]))
    && (forall n :: 0 <= n < |gaps| ==> AllOf(gaps[n], IsJsSpace))
  }

  lemma SpelledAlternativeTail(words: seq<string>, parts: seq<string>, gaps: seq<string>)
    requires SpelledAlternative(words, parts, gaps) && gaps != []
    ensures SpelledAlternative(words[1..], parts[1..], gaps[1..])
  {
    forall n | 0 <= n < |words| - 1
      ensures FoldsTo(parts[1..][n], words[1..][n]) && words[1..][n] != [] && !IsJsSpace(words[1..][n][0])
    {
      assert parts[1..][n] == parts[n + 1] && words[1..][n] == words[n + 1];
    }
    forall n | 0 <= n < |gaps| - 1
      ensures AllOf(gaps[1..][n], IsJsSpace)
    {
      assert gaps[1..][n] == gaps[n + 1];
    }
  }

  /** The first word of a spelled alternative of two or more words, then the whitespace after it. */
  lemma AltEndFirstWord(line: string, i: nat, words: seq<string>, parts: seq<string>, gaps: seq<string>) returns (j: nat)
    requires SpelledAlternative(words, parts, gaps) && gaps != []
    requires At(line, i, Spaced(parts, gaps))
    ensures j == i + |parts[0]| + |gaps[0]| && j + |Spaced(parts[1..], gaps[1..])| == i + |Spaced(parts, gaps)|
    ensures At(line, j, Spaced(parts[1..], gaps[1..]))
    ensures MatchesWord(line, i, words[0])
    ensures AltEnd(line, i, words) == AltEnd(line, j, words[1..])
  {
    var p, g := parts[0], gaps[0];
    j := i + |p| + |g|;
    SpacedPieces(line, i, parts, gaps);
    SpelledMatches(line, i, p, words[0]);
    assert SkipSpace(line, i + |words[0]|) == j by {
      NextWordSolid(line, j, words, parts, gaps);
      SkipSpaceRun(line, i + |p|, g);
    }
    AltEndStep(line, i, words, j);
  }

  /** After a matched word, the alternative goes on where the whitespace after it ends. */
  lemma AltEndStep(line: string, i: nat, words: seq<string>, j: nat)
    requires i <= |line| && |words| > 1 && MatchesWord(line, i, words[0])
    requires i + |words[0]| <= |line| && SkipSpace(line, i + |words[0]|) == j
    ensures AltEnd(line, i, words) == AltEnd(line, j, words[1..])
  {
  }

  lemma SpacedPieces(line: string, i: nat, parts: seq<string>, gaps: seq<string>)
    requires |parts| == |gaps| + 1 && gaps != []
    requires At(line, i, Spaced(parts, gaps))
    ensures At(line, i, parts[0]) && At(line, i + |parts[0]|, gaps[0])
    ensures At(line, i + |parts[0]| + |gaps[0]|, Spaced(parts[1..], gaps[1..]))
    ensures |Spaced(parts, gaps)| == |parts[0]| + |gaps[0]| + |Spaced(parts[1..], gaps[1..])|
  {
    AtSplit3(line, i, parts[0], gaps[0], Spaced(parts[1..], gaps[1..]));
  }

  lemma AtSplit3(line: string, i: nat, a: string, b: string, c: string)
    requires At(line, i, a + b + c)
    ensures At(line, i, a) && At(line, i + |a|, b) && At(line, i + |a| + |b|, c)
  {
    AtSplit(line, i, a + b, c);
    AtSplit(line, i, a, b);
  }

  /** The second word of a spelled alternative starts with a character that is not whitespace. */
  lemma NextWordSolid(line: string, j: nat, words: seq<string>, parts: seq<string>, gaps: seq<string>)
    requires SpelledAlternative(words, parts, gaps) && gaps != []
    requires At(line, j, Spaced(parts[1..], gaps[1..]))
    ensures j < |line| && !IsJsSpace(line[j])
  {
    SpacedStart(parts[1..], gaps[1..]);
    AtTail(line, j, Spaced(parts[1..], gaps[1..]));
    FoldKeepsSpace(parts[1][0]);
    assert Fold(parts[1][0]) == words[1][0];
  }

  /** `\s*(.+)` after a whitespace run followed by a value that runs to the end of its line captures that value. */
  lemma CaptureValue(line: string, p: nat, ws: string, v: string)
    requires At(line, p, ws) && AllOf(ws, IsJsSpace)
    requires At(line, p + |ws|, v) && v != [] && !IsJsSpace(v[0]) && NoneOf(v, IsLineTerminator)
    requires p + |ws| + |v| == |line| || IsLineTerminator(line[p + |ws| + |v|])
    ensures Capture(line, p) == Some(v)
  {
    var q := p + |ws|;
    AtTail(line, q, v);
    SkipSpaceRun(line, p, ws);
    LineEndRun(line, q, v);
    AtSlice(line, q, v);
  }

  /** Nothing after the separator: `(.+)` has nothing to match. */
  lemma CaptureNothing(line: string)
    ensures Capture(line, |line|).None?
  {
  }

  /**
    Only whitespace after the separator, ending in a character that is not a line
    terminator: `\s*` gives that last character back and `(.+)` captures it alone.
   */
  lemma CaptureBacktracks(line: string, p: nat)
    requires p < |line| && forall k :: p <= k < |line| ==> IsJsSpace(line[k])
    requires !IsLineTerminator(line[|line| - 1])
    ensures Capture(line, p) == Some([line[|line| - 1]])
  {
    var n := |line|;
    assert SkipSpace(line, p) == n;
    assert LastNonTerminator(line, p, n) == Some(n - 1);
    assert LineEnd(line, n - 1) == n;
    assert line[n - 1..n] == [line[n - 1]];
  }

  /** `\s*[:=]\s*(.+)` after the label: the value after the separator. */
  lemma AfterLabelValue(line: string, e: nat, ws1: string, sep: char, ws2: string, v: string)
    requires At(line, e, ws1) && AllOf(ws1, IsJsSpace) && (sep == ':' || sep == '=')
    requires e + |ws1| < |line| && line[e + |ws1|] == sep
    requires At(line, e + |ws1| + 1, ws2) && AllOf(ws2, IsJsSpace)
    requires At(line, e + |ws1| + 1 + |ws2|, v) && v != [] && !IsJsSpace(v[0]) && NoneOf(v, IsLineTerminator)
    requires e + |ws1| + 1 + |ws2| + |v| == |line| || IsLineTerminator(line[e + |ws1| + 1 + |ws2| + |v|])
    ensures AfterLabel(line, e) == Some(v)
  {
    var k := e + |ws1|;
    calc {
      AfterLabel(line, e);
      { SkipToSeparator(line, e, ws1, sep);
        AfterLabelAt(line, e, k); }
      Capture(line, k + 1);
      { CaptureValue(line, k + 1, ws2, v); }
      Some(v);
    }
  }

  lemma SkipToSeparator(line: string, e: nat, ws1: string, sep: char)
    requires At(line, e, ws1) && AllOf(ws1, IsJsSpace) && (sep == ':' || sep == '=')
    requires e + |ws1| < |line| && line[e + |ws1|] == sep
    ensures SkipSpace(line, e) == e + |ws1|
  {
    SeparatorNotSpace(sep);
    SkipSpaceRun(line, e, ws1);
  }

  lemma SeparatorNotSpace(sep: char)
    requires sep == ':' || sep == '='
    ensures !IsJsSpace(sep)
  {
  }

  /** After the whitespace that follows the label, a separator: the capture starts after it. */
  lemma AfterLabelAt(line: string, e: nat, k: nat)
    requires e <= |line| && SkipSpace(line, e) == k && k < |line| && (line[k] == ':' || line[k] == '=')
    ensures AfterLabel(line, e) == Capture(line, k + 1)
  {
  }

  // ---------------------------------------------------------------------------
  // The alternatives, in order

  /** Alternatives that do not match at `i` are passed over. */
  lemma {:induction false} MatchAtSkips(line: string, i: nat, alts: seq<seq<string>>, j: nat)
    requires i <= |line| && j < |alts|
    requires forall n :: 0 <= n < j ==> AltEnd(line, i, alts[n]).None?
    ensures MatchAt(line, i, alts) == MatchAt(line, i, alts[j..])
    decreases j
  {
    if j > 0 {
      assert forall n :: 0 <= n < j - 1 ==> alts[1..][n] == alts[n + 1];
      MatchAtSkips(line, i, alts[1..], j - 1);
      assert alts[1..][j - 1..] == alts[j..];
    }
  }

  /**
    Where one alternative of a label matches, the earlier ones do not: the
    first words of the alternatives differ within their first two letters.
   */
  lemma EarlierAlternativesFail(line: string, f: Field, alt: nat)
    requires alt < |Labels(f)| && MatchesWord(line, 0, Labels(f)[alt][0])
    ensures forall n :: 0 <= n < alt ==> AltEnd(line, 0, Labels(f)[n]).None?
  {
    var w := Labels(f)[alt][0];
    LabelWordsStartSolid(f, alt);
    assert Fold(line[0 + 0]) == w[0] && Fold(line[0 + 1]) == w[1];
    forall n | 0 <= n < alt
      ensures AltEnd(line, 0, Labels(f)[n]).None?
    {
      var u := Labels(f)[n][0];
      LabelWordsStartSolid(f, n);
      var k := if u[0] != w[0] then 0 else 1;
      assert u[k] != w[k];
      Mismatch(line, 0, u, k);
    }
  }

  /**
    A line that starts with a label of field `f` spelled in any case, with any
    whitespace between its words, then optional whitespace, `:` or `=`,
    optional whitespace, and a value that starts with a non-whitespace
    character and runs to the end of the line (or to a line terminator), gives
    `f` that value, trimmed.
   */
  lemma LabelledLine(f: Field, alt: nat, parts: seq<string>, gaps: seq<string>, ws1: string, sep: char, ws2: string, v: string, rest: string)
    requires alt < |Labels(f)|
    requires |parts| == |Labels(f)[alt]| == |gaps| + 1
    requires forall n :: 0 <= n < |parts| ==> FoldsTo(parts[n], Labels(f)[alt][n])
    requires forall n :: 0 <= n < |gaps| ==> AllOf(gaps[n], IsJsSpace)
    requires AllOf(ws1, IsJsSpace) && (sep == ':' || sep == '=') && AllOf(ws2, IsJsSpace)
    requires v != [] && !IsJsSpace(v[0]) && NoneOf(v, IsLineTerminator)
    requires rest == [] || IsLineTerminator(rest[0])
    ensures LabelValue(Spaced(parts, gaps) + ws1 + [sep] + ws2 + v + rest, f) == Some(Trim(v, IsJsSpace))
  {
    LabelSpelled(f, alt, parts, gaps);
    var line := Spaced(parts, gaps) + ws1 + [sep] + ws2 + v + rest;
    ValueAfterLabel(line, Spaced(parts, gaps), ws1, sep, ws2, v, rest);
    LabelledAt(line, f, alt, parts, gaps, v);
    LabelValueAtStart(line, f, v);
  }

  lemma LabelSpelled(f: Field, alt: nat, parts: seq<string>, gaps: seq<string>)
    requires alt < |Labels(f)|
    requires |parts| == |Labels(f)[alt]| == |gaps| + 1
    requires forall n :: 0 <= n < |parts| ==> FoldsTo(parts[n], Labels(f)[alt][n])
    requires forall n :: 0 <= n < |gaps| ==> AllOf(gaps[n], IsJsSpace)
    ensures SpelledAlternative(Labels(f)[alt], parts, gaps)
  {
    LabelWordsStartSolid(f, alt);
  }

  /** The separator and the value after the label of a labelled line. */
  lemma ValueAfterLabel(line: string, spelled: string, ws1: string, sep: char, ws2: string, v: string, rest: string)
    requires line == spelled + ws1 + [sep] + ws2 + v + rest
    requires AllOf(ws1, IsJsSpace) && (sep == ':' || sep == '=') && AllOf(ws2, IsJsSpace)
    requires v != [] && !IsJsSpace(v[0]) && NoneOf(v, IsLineTerminator)
    requires rest == [] || IsLineTerminator(rest[0])
    ensures At(line, 0, spelled) && AfterLabel(line, |spelled|) == Some(v)
  {
    var z := LinePieces(line, spelled, ws1, sep, ws2, v, rest);
    assert z == |line| || IsLineTerminator(line[z]) by {
      if rest != [] {
        AtIndex(line, z, rest, 0);
      }
    }
    AfterLabelValue(line, |spelled|, ws1, sep, ws2, v);
  }

  /** Where the positions of the pieces of a labelled line are. */
  lemma LinePieces(line: string, spelled: string, ws1: string, sep: char, ws2: string, v: string, rest: string) returns (z: nat)
    requires line == spelled + ws1 + [sep] + ws2 + v + rest
    ensures z == |spelled| + |ws1| + 1 + |ws2| + |v|
    ensures At(line, 0, spelled) && At(line, |spelled|, ws1)
    ensures |spelled| + |ws1| < |line| && line[|spelled| + |ws1|] == sep
    ensures At(line, |spelled| + |ws1| + 1, ws2) && At(line, |spelled| + |ws1| + 1 + |ws2|, v) && At(line, z, rest)
  {
    z := |spelled| + |ws1| + 1 + |ws2| + |v|;
    AtWhole(line);
    AtSplit(line, 0, spelled + ws1 + [sep] + ws2 + v, rest);
    AtSplit(line, 0, spelled + ws1 + [sep] + ws2, v);
    AtSplit(line, 0, spelled + ws1 + [sep], ws2);
    AtSplit(line, 0, spelled + ws1, [sep]);
    AtSplit(line, 0, spelled, ws1);
    AtIndex(line, |spelled| + |ws1|, [sep], 0);
  }

  /** A label alternative spelled at the start of a line, followed by a separator and a value, is what the line matches at 0. */
  lemma LabelledAt(line: string, f: Field, alt: nat, parts: seq<string>, gaps: seq<string>, v: string)
    requires alt < |Labels(f)| && SpelledAlternative(Labels(f)[alt], parts, gaps)
    requires At(line, 0, Spaced(parts, gaps))
    requires AfterLabel(line, |Spaced(parts, gaps)|) == Some(v)
    ensures MatchAt(line, 0, Labels(f)) == Some(v)
  {
    AltEndSpelled(line, 0, Labels(f)[alt], parts, gaps);
    EarlierAlternativesFail(line, f, alt);
    MatchAtAlternative(line, 0, Labels(f), alt, |Spaced(parts, gaps)|, v);
  }

  /** The first alternative that occurs and is followed by a separator and a value decides the match. */
  lemma MatchAtAlternative(line: string, i: nat, alts: seq<seq<string>>, alt: nat, e: nat, v: string)
    requires i <= |line| && alt < |alts|
    requires forall n :: 0 <= n < alt ==> AltEnd(line, i, alts[n]).None?
    requires AltEnd(line, i, alts[alt]) == Some(e) && AfterLabel(line, e) == Some(v)
    ensures MatchAt(line, i, alts) == Some(v)
  {
    MatchAtSkips(line, i, alts, alt);
    assert alts[alt..][0] == alts[alt];
  }

  /** A match at the very start of the line is what the search finds. */
  lemma LabelValueAtStart(line: string, f: Field, v: string)
    requires MatchAt(line, 0, Labels(f)) == Some(v)
    ensures LabelValue(line, f) == Some(Trim(v, IsJsSpace))
  {
    assert Search(line, Labels(f), 0) == Some(v);
  }

  // ---------------------------------------------------------------------------
  // The leftmost match

  /** Start positions where no alternative matches are passed over. */
  lemma {:induction false} SearchSkips(line: string, alts: seq<seq<string>>, i: nat, p: nat)
    requires i <= p <= |line|
    requires forall j :: i <= j < p ==> MatchAt(line, j, alts).None?
    ensures Search(line, alts, i) == Search(line, alts, p)
    decreases p - i
  {
    if i < p {
      calc {
        Search(line, alts, i);
        { SearchStep(line, alts, i); }
        Search(line, alts, i + 1);
        { SearchSkips(line, alts, i + 1, p); }
        Search(line, alts, p);
      }
    }
  }

  lemma SearchStep(line: string, alts: seq<seq<string>>, i: nat)
    requires i < |line| && MatchAt(line, i, alts).None?
    ensures Search(line, alts, i) == Search(line, alts, i + 1)
  {
  }

  /** The search gives the match at the leftmost position where the pattern matches. */
  lemma SearchLeftmost(line: string, alts: seq<seq<string>>, p: nat)
    requires p <= |line|
    requires forall j :: 0 <= j < p ==> MatchAt(line, j, alts).None?
    requires MatchAt(line, p, alts).Some?
    ensures Search(line, alts, 0) == MatchAt(line, p, alts)
  {
    SearchSkips(line, alts, 0, p);
  }

  /** A match the search finds is the match at some position before which nothing matches. */
  lemma {:induction false} SearchFound(line: string, alts: seq<seq<string>>, i: nat) returns (p: nat)
    requires i <= |line| && Search(line, alts, i).Some?
    ensures i <= p <= |line| && MatchAt(line, p, alts) == Search(line, alts, i)
    ensures forall j :: i <= j < p ==> MatchAt(line, j, alts).None?
    decreases |line| - i
  {
    if MatchAt(line, i, alts).Some? {
      p := i;
    } else {
      assert i < |line| && Search(line, alts, i) == Search(line, alts, i + 1);
      p := SearchFound(line, alts, i + 1);
      forall j | i <= j < p
        ensures MatchAt(line, j, alts).None?
      {
        if j == i {
          assert MatchAt(line, i, alts).None?;
        } else {
          assert i + 1 <= j < p;
        }
      }
    }
  }

  /** No `:` or `=` from position `i` on. */
  predicate NoSeparatorFrom(line: string, i: nat) {
    forall k :: i <= k < |line| ==> line[k] != ':' && line[k] != '='
  }

  /** Past the last separator of a line no alternative can match. */
  lemma NoMatchPastSeparators(line: string, alts: seq<seq<string>>, i: nat)
    requires i <= |line| && NoSeparatorFrom(line, i)
    ensures Search(line, alts, i).None?
  {
    if Search(line, alts, i).Some? {
      var p := SearchFound(line, alts, i);
      MatchAtNoSeparator(line, p, alts);
    }
  }

  lemma {:induction false} MatchAtNoSeparator(line: string, i: nat, alts: seq<seq<string>>)
    requires i <= |line| && NoSeparatorFrom(line, i)
    ensures MatchAt(line, i, alts).None?
    decreases |alts|
  {
    if alts != [] {
      MatchAtNoSeparator(line, i, alts[1..]);
    }
  }

  /** No alternative of `alts` can start at `j` when its first word cannot. */
  lemma NoWordNoMatch(line: string, j: nat, alts: seq<seq<string>>)
    requires j <= |line|
    requires forall n :: 0 <= n < |alts| ==> alts[n] != [] && !MatchesWord(line, j, alts[n][0])
    ensures MatchAt(line, j, alts).None?
  {
    MatchAtSkipsAll(line, j, alts);
  }

  lemma {:induction false} MatchAtSkipsAll(line: string, j: nat, alts: seq<seq<string>>)
    requires j <= |line|
    requires forall n :: 0 <= n < |alts| ==> AltEnd(line, j, alts[n]).None?
    ensures MatchAt(line, j, alts).None?
    decreases |alts|
  {
    if alts != [] {
      assert forall n :: 0 <= n < |alts| - 1 ==> alts[1..][n] == alts[n + 1];
      MatchAtSkipsAll(line, j, alts[1..]);
    }
  }

  /** A word whose `k`-th letter folds from no character of `pre` cannot start inside `pre` with that letter inside it too. */
  lemma NotInPrefix(line: string, pre: string, j: nat, u: string, k: nat)
    requires At(line, 0, pre) && j + k < |pre| && k < |u|
    requires forall t :: 0 <= t < |pre| ==> Fold(pre[t]) != u[k]
    ensures !MatchesWord(line, j, u)
  {
    AtIndex(line, 0, pre, j + k);
    Mismatch(line, j, u, k);
  }

  // ---------------------------------------------------------------------------
  // Two labelled lines

  /** A value a labelled line can carry whole: non-empty, trimmed, on one line, without `:` or `=`. */
  predicate PlainValue(v: string) {
    v != [] && IsTrimmed(v, IsJsSpace) && NoneOf(v, IsLineTerminator) && ':' !in v && '=' !in v
  }

  /**
    A `first name:` line spelled in any case, around a plain value, gives that
    value to the first name and matches no last-name label.
   */
  lemma FirstNameLine(pre: string, a: string)
    requires FoldsTo(pre, "first name: ") && PlainValue(a)
    ensures LabelValue(pre + a, First) == Some(a)
    ensures LabelValue(pre + a, Last).None?
  {
    FirstLineValue(pre, a);
    FirstLineNoLast(pre, a);
  }

  /**
    A `last name:` line spelled in any case, around a plain value, gives that
    value to the last name and matches no first-name label.
   */
  lemma LastNameLine(pre: string, b: string)
    requires FoldsTo(pre, "last name: ") && PlainValue(b)
    ensures LabelValue(pre + b, Last) == Some(b)
    ensures LabelValue(pre + b, First).None?
  {
    LastLineValue(pre, b);
    LastLineNoFirst(pre, b);
  }

  /** Folding changes only letters: a character that folds to anything but a label letter is that character. */
  lemma FoldFixes(c: char, d: char)
    requires Fold(c) == d && !('a' <= d <= 'z') && d as int != 0xEA && d as int != 0x1ECD
    ensures c == d
  {
  }

  /**
    A spelling of `w1 + " name: "` in any case splits into the label's two
    words, the space between them, the colon and the space after it.
   */
  lemma NameLabelPieces(pre: string, w1: string)
    requires FoldsTo(pre, w1 + " name: ")
    ensures pre == Spaced([pre[..|w1|], pre[|w1| + 1..|w1| + 5]], [" "]) + [] + [':'] + " "
    ensures FoldsTo(pre[..|w1|], w1) && FoldsTo(pre[|w1| + 1..|w1| + 5], "name")
  {
    var n, w := |w1|, w1 + " name: ";
    assert w[n] == ' ' && w[n + 5] == ':' && w[n + 6] == ' ';
    FoldFixes(pre[n], ' ');
    FoldFixes(pre[n + 5], ':');
    FoldFixes(pre[n + 6], ' ');
    forall k | 0 <= k < 4
      ensures Fold(pre[n + 1..n + 5][k]) == "name"[k]
    {
      assert w[n + 1 + k] == "name"[k];
    }
    forall k | 0 <= k < n
      ensures Fold(pre[..n][k]) == w1[k]
    {
      assert w[k] == w1[k];
    }
    assert Spaced([pre[..n], pre[n + 1..n + 5]], [" "]) == pre[..n] + " " + pre[n + 1..n + 5];
    assert pre == pre[..n] + " " + pre[n + 1..n + 5] + [':'] + " ";
  }

  lemma FirstLineValue(pre: string, a: string)
    requires FoldsTo(pre, "first name: ") && PlainValue(a)
    ensures LabelValue(pre + a, First) == Some(a)
  {
    var parts := [pre[..5], pre[6..10]];
    assert "first name: " == "first" + " name: ";
    NameLabelPieces(pre, "first");
    assert pre + a == Spaced(parts, [" "]) + [] + [':'] + " " + a + [];
    LabelledLine(First, 0, parts, [" "], [], ':', " ", a, []);
    TrimmedIsFixed(a, IsJsSpace);
  }

  lemma LastLineValue(pre: string, b: string)
    requires FoldsTo(pre, "last name: ") && PlainValue(b)
    ensures LabelValue(pre + b, Last) == Some(b)
  {
    var parts := [pre[..4], pre[5..9]];
    assert "last name: " == "last" + " name: ";
    NameLabelPieces(pre, "last");
    assert pre + b == Spaced(parts, [" "]) + [] + [':'] + " " + b + [];
    LabelledLine(Last, 0, parts, [" "], [], ':', " ", b, []);
    TrimmedIsFixed(b, IsJsSpace);
  }

  lemma FirstLineNoLast(pre: string, a: string)
    requires FoldsTo(pre, "first name: ") && PlainValue(a)
    ensures LabelValue(pre + a, Last).None?
  {
    var line := pre + a;
    assert At(line, 0, pre) by {
      AtWhole(line);
      AtSplit(line, 0, pre, a);
    }
    FirstPrefixLetters(pre);
    forall j | 0 <= j < 11
      ensures MatchAt(line, j, Labels(Last)).None?
    {
      NoLastLabelIn(line, pre, j);
    }
    assert NoSeparatorFrom(line, 11) by {
      FoldFixes(pre[11], ' ');
      NoSeparatorAfter(pre, a, 11);
    }
    assert Search(line, Labels(Last), 0).None? by {
      NoMatchPastSeparators(line, Labels(Last), 11);
      SearchSkips(line, Labels(Last), 0, 11);
    }
  }

  lemma LastLineNoFirst(pre: string, b: string)
    requires FoldsTo(pre, "last name: ") && PlainValue(b)
    ensures LabelValue(pre + b, First).None?
  {
    var line := pre + b;
    assert At(line, 0, pre) by {
      AtWhole(line);
      AtSplit(line, 0, pre, b);
    }
    LastPrefixLetters(pre);
    forall j | 0 <= j < 10
      ensures MatchAt(line, j, Labels(First)).None?
    {
      NoFirstLabelIn(line, pre, j);
    }
    assert NoSeparatorFrom(line, 10) by {
      FoldFixes(pre[10], ' ');
      NoSeparatorAfter(pre, b, 10);
    }
    assert Search(line, Labels(First), 0).None? by {
      NoMatchPastSeparators(line, Labels(First), 10);
      SearchSkips(line, Labels(First), 0, 10);
    }
  }

  /** No letter of a `first name:` spelling folds to `l` or `h`, the first letters of the last-name labels. */
  lemma FirstPrefixLetters(pre: string)
    requires FoldsTo(pre, "first name: ")
    ensures forall t :: 0 <= t < |pre| ==> Fold(pre[t]) != 'l' && Fold(pre[t]) != 'h'
  {
    var w := "first name: ";
    assert forall t :: 0 <= t < |w| ==> w[t] != 'l' && w[t] != 'h';
  }

  /** No letter of a `last name:` spelling folds to `f` or `ê`, letters the first-name labels need. */
  lemma LastPrefixLetters(pre: string)
    requires FoldsTo(pre, "last name: ")
    ensures forall t :: 0 <= t < |pre| ==> Fold(pre[t]) != 'f' && Fold(pre[t]) != 'ê'
  {
    var w := "last name: ";
    assert forall t :: 0 <= t < |w| ==> w[t] != 'f' && w[t] != 'ê';
  }

  /** No last-name label starts inside a `first name:` spelling. */
  lemma NoLastLabelIn(line: string, pre: string, j: nat)
    requires At(line, 0, pre) && |pre| == 12 && j < 11
    requires forall t :: 0 <= t < |pre| ==> Fold(pre[t]) != 'l' && Fold(pre[t]) != 'h'
    ensures MatchAt(line, j, Labels(Last)).None?
  {
    NotInPrefix(line, pre, j, "last", 0);
    NotInPrefix(line, pre, j, "ln", 0);
    NotInPrefix(line, pre, j, "họ", 0);
    NoWordNoMatch(line, j, Labels(Last));
  }

  /** No first-name label starts inside a `last name:` spelling. */
  lemma NoFirstLabelIn(line: string, pre: string, j: nat)
    requires At(line, 0, pre) && |pre| == 11 && j < 10
    requires forall t :: 0 <= t < |pre| ==> Fold(pre[t]) != 'f' && Fold(pre[t]) != 'ê'
    ensures MatchAt(line, j, Labels(First)).None?
  {
    NotInPrefix(line, pre, j, "first", 0);
    NotInPrefix(line, pre, j, "fn", 0);
    NotInPrefix(line, pre, j, "tên", 1);
    NoWordNoMatch(line, j, Labels(First));
  }

  lemma NoSeparatorAfter(pre: string, a: string, i: nat)
    requires i <= |pre| && NoSeparatorFrom(pre, i) && ':' !in a && '=' !in a
    ensures NoSeparatorFrom(pre + a, i)
  {
    forall t | i <= t < |pre + a|
      ensures (pre + a)[t] != ':' && (pre + a)[t] != '='
    {
      if t >= |pre| {
        assert (pre + a)[t] == a[t - |pre|];
      }
    }
  }

  /** Two lines that label one field each are read back as those two values. */
  lemma LabelledPair(l1: string, l2: string, a: string, b: string)
    requires LabelValue(l1, First) == Some(a) && LabelValue(l1, Last).None?
    requires LabelValue(l2, Last) == Some(b) && LabelValue(l2, First).None?
    requires a != []
    ensures ReadLines([l1, l2]) == NamePair(a, b)
  {
    var lines := [l1, l2];
    assert LastLabelled(lines, First) == a by {
      var value := FieldValue(First);
      assert value(lines[0]) == Some(a) && value(lines[1]).None?;
      LastValueFromLastMatch(lines, value, 0);
    }
    assert LastLabelled(lines, Last) == b by {
      var value := FieldValue(Last);
      assert value(lines[1]) == Some(b);
      LastValueFromLastMatch(lines, value, 1);
    }
  }

  /** Two parser lines joined by a line feed are seen as those two lines. */
  lemma TwoLinesText(l1: string, l2: string)
    requires ParserLines([l1, l2]) && '\n' !in l1 && '\n' !in l2
    ensures Parse(l1 + "\n" + l2) == ReadLines([l1, l2])
  {
    var lines := [l1, l2];
    assert forall i :: 0 <= i < |lines| ==> '\n' !in lines[i];
    LinesOfJoin(lines);
    assert Join(lines, "\n") == l1 + "\n" + l2;
  }

  /** A labelled line around a plain value is a parser line. */
  lemma LabelledLineShape(pre: string, a: string)
    requires pre != [] && !IsJsSpace(pre[0]) && '\n' !in pre && PlainValue(a)
    ensures ParserLines([pre + a]) && '\n' !in pre + a
  {
    var l := pre + a;
    assert l[0] == pre[0] && l[|l| - 1] == a[|a| - 1];
    assert forall k :: 0 <= k < |a| ==> a[k] != '\n' by {
      forall k | 0 <= k < |a| ensures a[k] != '\n' {
        assert !IsLineTerminator(a[k]);
      }
    }
    assert forall k :: 0 <= k < |l| ==> l[k] == if k < |pre| then pre[k] else a[k - |pre|];
  }

  /**
    A `first name:` line and a `last name:` line, in that order and each
    spelled in any case, are read back as the two values they carry, whether
    or not the text around them is already split into lines.
   */
  lemma TwoLabelledLines(p1: string, p2: string, a: string, b: string)
    requires FoldsTo(p1, "first name: ") && FoldsTo(p2, "last name: ")
    requires PlainValue(a) && PlainValue(b)
    ensures ReadLines([p1 + a, p2 + b]) == NamePair(a, b)
    ensures Parse(p1 + a + "\n" + p2 + b) == NamePair(a, b)
  {
    LabelledLinesRead(p1, p2, a, b);
    LabelledLinesText(p1, p2, a, b);
  }

  lemma LabelledLinesRead(p1: string, p2: string, a: string, b: string)
    requires FoldsTo(p1, "first name: ") && FoldsTo(p2, "last name: ")
    requires PlainValue(a) && PlainValue(b)
    ensures ReadLines([p1 + a, p2 + b]) == NamePair(a, b)
  {
    FirstNameLine(p1, a);
    LastNameLine(p2, b);
    LabelledPair(p1 + a, p2 + b, a, b);
  }

  lemma LabelledLinesText(p1: string, p2: string, a: string, b: string)
    requires FoldsTo(p1, "first name: ") && FoldsTo(p2, "last name: ")
    requires PlainValue(a) && PlainValue(b)
    ensures Parse(p1 + a + "\n" + p2 + b) == ReadLines([p1 + a, p2 + b])
  {
    var l1, l2 := p1 + a, p2 + b;
    PrefixShape(p1, "first name: ");
    PrefixShape(p2, "last name: ");
    LabelledLineShape(p1, a);
    LabelledLineShape(p2, b);
    TwoLinesText(l1, l2);
    ConcatAssoc(l1 + "\n", p2, b);
  }

  /** A spelling of a label starts with a non-space and has no line feed, as the label does. */
  lemma PrefixShape(pre: string, w: string)
    requires FoldsTo(pre, w) && w != [] && !IsJsSpace(w[0]) && '\n' !in w
    ensures pre != [] && !IsJsSpace(pre[0]) && '\n' !in pre
  {
    FoldKeepsSpace(pre[0]);
    forall t | 0 <= t < |pre|
      ensures pre[t] != '\n'
    {
      assert Fold(pre[t]) == w[t] && w[t] != '\n';
    }
  }

  /** The example of the parser's documentation: `First Name: John` and `Last Name: Doe` on two lines. */
  lemma DocumentedExample(text: string)
    requires text == "First Name: John\nLast Name: Doe"
    ensures Parse(text) == NamePair("John", "Doe")
  {
    ExampleText(text, "First Name: ", "Last Name: ", "John", "Doe");
  }

  lemma ExampleText(text: string, p1: string, p2: string, a: string, b: string)
    requires p1 == "First Name: " && p2 == "Last Name: " && a == "John" && b == "Doe"
    requires text == p1 + a + "\n" + p2 + b
    ensures Parse(text) == NamePair(a, b)
  {
    ExampleSpellings(p1, p2);
    ExampleValues(a, b);
    TwoLabelledLines(p1, p2, a, b);
  }

  lemma ExampleSpellings(p1: string, p2: string)
    requires p1 == "First Name: " && p2 == "Last Name: "
    ensures FoldsTo(p1, "first name: ") && FoldsTo(p2, "last name: ")
  {
  }

  lemma ExampleValues(a: string, b: string)
    requires a == "John" && b == "Doe"
    ensures PlainValue(a) && PlainValue(b)
  {
  }
}
