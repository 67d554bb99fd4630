/**
  Character classes and the string built-ins that the browser client (JavaScript)
  and the server (Python) apply to names: trimming, splitting on a separator,
  splitting on whitespace runs, and joining.
 */
module Strings {

  /** The characters that `.` in a JavaScript regular expression does not match. */
  predicate IsLineTerminator(c: char) {
    c == '\n' || c == '\r' || c as int == 0x2028 || c as int == 0x2029
  }

  /** The Unicode space separators (category Zs), whitespace in both languages. */
  predicate IsSpaceSeparator(c: char) {
    var n := c as int;
    n == 0x20 || n == 0xA0 || n == 0x1680 || 0x2000 <= n <= 0x200A
    || n == 0x202F || n == 0x205F || n == 0x3000
  }

  /** Whitespace for JavaScript's `trim()` and for `\s` in a regular expression. */
  predicate IsJsSpace(c: char) {
    var n := c as int;
    n == 0x09 || n == 0x0B || n == 0x0C || n == 0xFEFF
    || IsSpaceSeparator(c) || IsLineTerminator(c)
  }

  /** Whitespace for Python's `str.strip()`: the characters `str.isspace()` accepts. */
  predicate IsPySpace(c: char) {
    var n := c as int;
    0x09 <= n <= 0x0D || 0x1C <= n <= 0x1F || n == 0x85
    || IsSpaceSeparator(c) || n == 0x2028 || n == 0x2029
  }

  /**
    Where the two whitespace sets part: U+001C to U+001F and U+0085 are
    whitespace only for Python, U+FEFF only for JavaScript.
   */
  lemma WhitespaceSetsDiffer(c: char)
    ensures (IsPySpace(c) && !IsJsSpace(c)) <==> (0x1C <= c as int <= 0x1F || c as int == 0x85)
    ensures (IsJsSpace(c) && !IsPySpace(c)) <==> c as int == 0xFEFF
  {
  }

  /** `s` has no character of class `sp` at either end. */
  predicate IsTrimmed(s: string, sp: char -> bool) {
    s == [] || (!sp(s[0]) && !sp(s[|s| - 1]))
  }

  /** Every character of `s` is of class `sp`. */
  predicate AllOf(s: string, sp: char -> bool) {
    forall k :: 0 <= k < |s| ==> sp(s[k])
  }

  /** No character of `s` is of class `sp`. */
  predicate NoneOf(s: string, sp: char -> bool) {
    forall k :: 0 <= k < |s| ==> !sp(s[k])
  }

  /** The length of the leading run of `sp` characters of `s`. */
  function LeadingRun(s: string, sp: char -> bool): (n: nat)
    ensures n <= |s|
    ensures AllOf(s[..n], sp)
    ensures n < |s| ==> !sp(s[n])
  {
    if s != [] && sp(s[0]) then
      var m := LeadingRun(s[1..], sp);
      1 + m
    else 0
  }

  /** The length of the trailing run of `sp` characters of `s`. */
  function TrailingRun(s: string, sp: char -> bool): (n: nat)
    ensures n <= |s|
    ensures AllOf(s[|s| - n..], sp)
    ensures n == |s| ==> AllOf(s, sp)
    ensures n < |s| ==> !sp(s[|s| - n - 1])
  {
    if s != [] && sp(s[|s| - 1]) then
      var m := TrailingRun(s[..|s| - 1], sp);
      1 + m
    else 0
  }

  /** `s` without its leading run of `sp` characters. */
  function TrimStart(s: string, sp: char -> bool): (r: string)
    ensures r != [] ==> !sp(r[0])
  {
    s[LeadingRun(s, sp)..]
  }

  /** `s` without its trailing run of `sp` characters. */
  function TrimEnd(s: string, sp: char -> bool): (r: string)
    ensures r != [] ==> !sp(r[|r| - 1])
  {
    s[..|s| - TrailingRun(s, sp)]
  }

  /**
    `s` without whitespace at either end: JavaScript's `trim()` with IsJsSpace,
    Python's `strip()` with IsPySpace. The result is empty exactly when `s` is
    all whitespace.
   */
  function Trim(s: string, sp: char -> bool): (r: string)
    ensures IsTrimmed(r, sp)
    ensures r == [] <==> AllOf(s, sp)
  {
    TrimBlank(s, sp);
    TrimEnd(TrimStart(s, sp), sp)
  }

  /** Both trims together leave nothing exactly when `s` is all of class `sp`. */
  lemma TrimBlank(s: string, sp: char -> bool)
    ensures TrimEnd(TrimStart(s, sp), sp) == [] <==> AllOf(s, sp)
  {
    var n := LeadingRun(s, sp);
    var t := s[n..];
    var m := TrailingRun(t, sp);
    if t != [] {
      assert t[0] == s[n] && !sp(t[0]);
      assert m < |t|;
    }
    if m == |t| {
      assert s[..n] == s;
    }
    if AllOf(s, sp) {
      assert n == |s|;
    }
  }

  /** Trimming removes characters and adds none: a class absent from `s` is absent from the result. */
  lemma TrimKeepsAbsent(s: string, sp: char -> bool, absent: char -> bool)
    requires NoneOf(s, absent)
    ensures NoneOf(Trim(s, sp), absent)
  {
    var t := TrimStart(s, sp);
    SliceKeepsAbsent(s, |s| - |t|, |s|, absent);
    SliceKeepsAbsent(t, 0, |TrimEnd(t, sp)|, absent);
  }

  lemma SliceKeepsAbsent(s: string, i: nat, j: nat, absent: char -> bool)
    requires i <= j <= |s| && NoneOf(s, absent)
    ensures NoneOf(s[i..j], absent)
  {
    forall k | 0 <= k < j - i
      ensures !absent(s[i..j][k])
    {
      assert s[i..j][k] == s[i + k];
    }
  }

  /** Trimming finds the core of a padded string: the partner of Trim. */
  lemma {:induction false} TrimPadded(a: string, core: string, b: string, sp: char -> bool)
    requires AllOf(a, sp) && AllOf(b, sp) && IsTrimmed(core, sp)
    ensures Trim(a + core + b, sp) == if core == [] then [] else core
  {
    var s := a + core + b;
    if core == [] {
      assert AllOf(s, sp) by {
        forall k | 0 <= k < |s| ensures sp(s[k]) {
          if k < |a| { assert s[k] == a[k]; } else { assert s[k] == b[k - |a|]; }
        }
      }
    } else {
      TrimStartPadded(a, core + b, sp);
      assert a + core + b == a + (core + b);
      TrimEndPadded(core, b, sp);
    }
  }

  lemma {:induction false} TrimStartPadded(a: string, rest: string, sp: char -> bool)
    requires AllOf(a, sp) && rest != [] && !sp(rest[0])
    ensures TrimStart(a + rest, sp) == rest
  {
    if a != [] {
      assert (a + rest)[1..] == a[1..] + rest;
      TrimStartPadded(a[1..], rest, sp);
    } else {
      assert a + rest == rest;
    }
  }

  lemma {:induction false} TrimEndPadded(body: string, b: string, sp: char -> bool)
    requires AllOf(b, sp) && body != [] && !sp(body[|body| - 1])
    ensures TrimEnd(body + b, sp) == body
  {
    if b != [] {
      assert (body + b)[..|body + b| - 1] == body + b[..|b| - 1];
      TrimEndPadded(body, b[..|b| - 1], sp);
    } else {
      assert body + b == body;
    }
  }

  /** A string that is already trimmed is left as it is. */
  lemma TrimmedIsFixed(s: string, sp: char -> bool)
    requires IsTrimmed(s, sp)
    ensures Trim(s, sp) == s
  {
    TrimPadded([], s, [], sp);
    assert [] + s + [] == s;
  }

  /** Every string is its trim with a run of `sp` characters on either side. */
  lemma TrimSplits(s: string, sp: char -> bool) returns (a: string, b: string)
    ensures s == a + Trim(s, sp) + b
    ensures AllOf(a, sp) && AllOf(b, sp)
  {
    a := TrimStartSplits(s, sp);
    b := TrimEndSplits(TrimStart(s, sp), sp);
    ConcatAssoc(a, Trim(s, sp), b);
  }

  lemma TrimStartSplits(s: string, sp: char -> bool) returns (a: string)
    ensures s == a + TrimStart(s, sp) && AllOf(a, sp)
  {
    var n := LeadingRun(s, sp);
    a := s[..n];
    assert s == s[..n] + s[n..];
  }

  lemma TrimEndSplits(t: string, sp: char -> bool) returns (b: string)
    ensures t == TrimEnd(t, sp) + b && AllOf(b, sp)
  {
    var k := |t| - TrailingRun(t, sp);
    b := t[k..];
    assert TrimEnd(t, sp) == t[..k];
    assert t == t[..k] + b;
  }

  /** `s` is its first element followed by the rest, also after concatenation. */
  lemma ConsAppend<T>(a: seq<T>, s: seq<T>)
    requires a != []
    ensures a + s == [a[0]] + (a[1..] + s)
  {
    assert a == [a[0]] + a[1..];
  }

  /** `b` is its initial part followed by its last element, also after concatenation. */
  lemma SnocAppend<T>(s: seq<T>, b: seq<T>)
    requires b != []
    ensures s + b == (s + b[..|b| - 1]) + [b[|b| - 1]]
  {
    assert b == b[..|b| - 1] + [b[|b| - 1]];
  }

  lemma AllOfTail(a: string, sp: char -> bool)
    requires a != [] && AllOf(a, sp)
    ensures sp(a[0]) && AllOf(a[1..], sp)
  {
    assert forall k :: 0 <= k < |a| - 1 ==> a[1..][k] == a[k + 1];
  }

  lemma AllOfInit(b: string, sp: char -> bool)
    requires b != [] && AllOf(b, sp)
    ensures sp(b[|b| - 1]) && AllOf(b[..|b| - 1], sp)
  {
    assert forall k :: 0 <= k < |b| - 1 ==> b[..|b| - 1][k] == b[k];
  }

  lemma ConcatAssoc<T>(a: seq<T>, b: seq<T>, c: seq<T>)
    ensures a + (b + c) == a + b + c
  {
  }

  /** A leading character of class `sp` does not change the trim. */
  lemma TrimCons(c: char, s: string, sp: char -> bool)
    requires sp(c)
    ensures Trim([c] + s, sp) == Trim(s, sp)
  {
    var cs := [c] + s;
    assert cs[0] == c && cs[1..] == s;
    assert LeadingRun(cs, sp) == 1 + LeadingRun(s, sp);
    assert TrimStart(cs, sp) == TrimStart(s, sp);
  }

  /** A trailing character of class `sp` does not change the trim. */
  lemma TrimSnoc(s: string, c: char, sp: char -> bool)
    requires sp(c)
    ensures Trim(s + [c], sp) == Trim(s, sp)
  {
    var a, b := TrimSplits(s, sp);
    var core := Trim(s, sp);
    assert AllOf(b + [c], sp) by {
      forall k | 0 <= k < |b + [c]| ensures sp((b + [c])[k]) {
        if k < |b| { assert (b + [c])[k] == b[k]; }
      }
    }
    assert s + [c] == a + core + (b + [c]);
    TrimPadded(a, core, b + [c], sp);
  }

  /** The separator `parts` are joined with, as JavaScript's `join` and Python's `join` do. */
  function Join(parts: seq<string>, sep: string): string {
    if parts == [] then []
    else if |parts| == 1 then parts[0]
    else parts[0] + sep + Join(parts[1..], sep)
  }

  /**
    JavaScript's `s.split(sep)` for a one-character separator: the pieces between
    the separators, in order; joining them back with `sep` gives `s`.
   */
  function Split(s: string, sep: char): (parts: seq<string>)
    ensures |parts| >= 1
    ensures forall i :: 0 <= i < |parts| ==> sep !in parts[i]
    ensures Join(parts, [sep]) == s
  {
    if s == [] then [[]]
    else
      var rest := Split(s[1..], sep);
      if s[0] == sep then
        assert s == [] + [sep] + Join(rest, [sep]);
        [[]] + rest
      else
        var parts := [[s[0]] + rest[0]] + rest[1..];
        assert Join(parts, [sep]) == s by {
          if |rest| == 1 {
            assert s == [s[0]] + s[1..];
          } else {
            assert Join(rest, [sep]) == rest[0] + [sep] + Join(rest[1..], [sep]);
            assert parts[1..] == rest[1..];
            assert s == [s[0]] + s[1..];
          }
        }
        parts
  }

  /** The first piece of a split ends just before the first separator. */
  lemma {:induction false} SplitFirst(s: string, sep: char)
    ensures Split(s, sep)[0] <= s
    ensures s != [] && s[0] != sep ==> Split(s, sep)[0] != [] && Split(s, sep)[0][0] == s[0]
  {
    if s != [] {
      SplitFirst(s[1..], sep);
    }
  }

  /** A first character that is not the separator starts the first piece. */
  lemma SplitCons(c: char, r: string, sep: char)
    requires c != sep
    ensures var rest := Split(r, sep);
      Split([c] + r, sep) == [[c] + rest[0]] + rest[1..]
  {
    var s := [c] + r;
    assert s[0] == c && s[1..] == r;
  }

  /** Splitting what Join built gives back the pieces: the partner of Split. */
  lemma {:induction false} SplitJoin(parts: seq<string>, sep: char)
    requires parts != []
    requires forall i :: 0 <= i < |parts| ==> sep !in parts[i]
    ensures Split(Join(parts, [sep]), sep) == parts
  {
    if |parts| == 1 {
      SplitNoSeparator(parts[0], sep);
    } else {
      SplitJoin(parts[1..], sep);
      SplitAfterPiece(parts[0], Join(parts[1..], [sep]), sep);
      assert parts == [parts[0]] + parts[1..];
    }
  }

  lemma {:induction false} SplitNoSeparator(p: string, sep: char)
    requires sep !in p
    ensures Split(p, sep) == [p]
  {
    if p != [] {
      SplitNoSeparator(p[1..], sep);
      assert p == [p[0]] + p[1..];
    }
  }

  lemma {:induction false} SplitAfterPiece(p: string, rest: string, sep: char)
    requires sep !in p
    ensures Split(p + [sep] + rest, sep) == [p] + Split(rest, sep)
  {
    var s := p + [sep] + rest;
    if p == [] {
      assert s == [sep] + rest;
      assert s[1..] == rest;
    } else {
      assert s[0] == p[0] && p[0] != sep;
      assert s[1..] == p[1..] + [sep] + rest;
      SplitAfterPiece(p[1..], rest, sep);
      var r := Split(s[1..], sep);
      assert r[0] == p[1..] && r[1..] == Split(rest, sep);
      assert p == [p[0]] + p[1..];
    }
  }

  /** Joining with one more piece puts the separator and that piece at the end. */
  lemma {:induction false} JoinSnoc(parts: seq<string>, q: string, sep: string)
    requires parts != []
    ensures Join(parts + [q], sep) == Join(parts, sep) + sep + q
  {
    if |parts| > 1 {
      JoinSnoc(parts[1..], q, sep);
      assert (parts + [q])[1..] == parts[1..] + [q];
    }
  }

  /** A character appended to the last piece is appended to the joined string. */
  lemma {:induction false} JoinExtendLast(parts: seq<string>, c: char, sep: string)
    requires parts != []
    ensures Join(parts[..|parts| - 1] + [parts[|parts| - 1] + [c]], sep) == Join(parts, sep) + [c]
  {
    var last := parts[|parts| - 1];
    if |parts| == 1 {
      assert parts[..0] + [last + [c]] == [last + [c]];
    } else {
      var rest := parts[1..];
      JoinExtendLast(rest, c, sep);
      var ext := parts[..|parts| - 1] + [last + [c]];
      assert ext[1..] == rest[..|rest| - 1] + [rest[|rest| - 1] + [c]];
      assert ext[0] == parts[0];
    }
  }

  /** Splitting after one more character: a new empty piece for a separator, else a longer last piece. */
  lemma SplitSnoc(s: string, c: char, sep: char)
    ensures var parts := Split(s, sep);
      Split(s + [c], sep)
        == if c == sep then parts + [[]]
           else parts[..|parts| - 1] + [parts[|parts| - 1] + [c]]
  {
    var parts := Split(s, sep);
    if c == sep {
      JoinSnoc(parts, [], [sep]);
      assert Join(parts + [[]], [sep]) == s + [c];
      assert forall i :: 0 <= i < |parts + [[]]| ==> sep !in (parts + [[]])[i] by {
        forall i | 0 <= i < |parts + [[]]| ensures sep !in (parts + [[]])[i] {
          if i < |parts| { assert (parts + [[]])[i] == parts[i]; }
        }
      }
      SplitJoin(parts + [[]], sep);
    } else {
      var ext := parts[..|parts| - 1] + [parts[|parts| - 1] + [c]];
      JoinExtendLast(parts, c, [sep]);
      assert forall i :: 0 <= i < |ext| ==> sep !in ext[i] by {
        forall i | 0 <= i < |ext| ensures sep !in ext[i] {
          if i < |parts| - 1 { assert ext[i] == parts[i]; }
          else { assert ext[i] == parts[|parts| - 1] + [c]; }
        }
      }
      SplitJoin(ext, sep);
    }
  }

  /**
    JavaScript's `s.split(/\s+/)`: the pieces between maximal runs of whitespace.
    No piece holds whitespace; the first piece is the start of `s` up to its
    first whitespace character.
   */
  function SplitOnSpace(s: string): (parts: seq<string>)
    ensures |parts| >= 1
    ensures forall i :: 0 <= i < |parts| ==> NoneOf(parts[i], IsJsSpace)
    ensures parts[0] <= s
    ensures |parts[0]| < |s| ==> IsJsSpace(s[|parts[0]|])
    decreases |s|
  {
    if s == [] then [[]]
    else if IsJsSpace(s[0]) then [[]] + SplitOnSpace(TrimStart(s[1..], IsJsSpace))
    else
      var rest := SplitOnSpace(s[1..]);
      assert s == [s[0]] + s[1..];
      [[s[0]] + rest[0]] + rest[1..]
  }

  /**
    In a trimmed string that holds whitespace every piece is non-empty and there
    are at least two of them.
   */
  lemma {:induction false} SplitOnSpaceTrimmed(s: string)
    requires IsTrimmed(s, IsJsSpace)
    requires !NoneOf(s, IsJsSpace)
    ensures |SplitOnSpace(s)| >= 2
    ensures forall i :: 0 <= i < |SplitOnSpace(s)| ==> SplitOnSpace(s)[i] != []
  {
    var parts := SplitOnSpace(s);
    SplitOnSpaceLaterPieces(s);
    assert !IsJsSpace(s[0]);
    assert parts[0] != [];
    if |parts| == 1 {
      SplitOnSpaceSingle(s);
      assert false;
    }
  }

  /** When `s` does not end in whitespace, every piece after the first is non-empty. */
  lemma {:induction false} SplitOnSpaceLaterPieces(s: string)
    requires s != [] ==> !IsJsSpace(s[|s| - 1])
    ensures forall i :: 0 < i < |SplitOnSpace(s)| ==> SplitOnSpace(s)[i] != []
    decreases |s|
  {
    if s == [] {
    } else if IsJsSpace(s[0]) {
      var t := TrimStart(s[1..], IsJsSpace);
      assert |s| > 1;
      assert !IsJsSpace(s[1..][|s| - 2]);
      assert t != [];
      assert t == s[|s| - |t|..];
      assert t[|t| - 1] == s[|s| - 1];
      SplitOnSpaceLaterPieces(t);
      var tail := SplitOnSpace(t);
      assert !IsJsSpace(t[0]);
      assert tail[0] != [];
    } else {
      if |s| > 1 { assert s[1..][|s| - 2] == s[|s| - 1]; }
      SplitOnSpaceLaterPieces(s[1..]);
    }
  }

  /** A piece that covers all of `s` is the only piece. */
  lemma {:induction false} SplitOnSpaceSingle(s: string)
    requires |SplitOnSpace(s)| == 1
    ensures SplitOnSpace(s)[0] == s
    decreases |s|
  {
    if s != [] && !IsJsSpace(s[0]) {
      SplitOnSpaceSingle(s[1..]);
    }
  }

  /** Splitting words joined by single spaces gives back the words: the partner of SplitOnSpace. */
  lemma {:induction false} SplitOnSpaceJoin(words: seq<string>)
    requires words != []
    requires forall i :: 0 <= i < |words| ==> words[i] != [] && NoneOf(words[i], IsJsSpace)
    ensures SplitOnSpace(Join(words, " ")) == words
  {
    if |words| == 1 {
      SplitOnSpaceWord(words[0], []);
      assert words[0] + [] == words[0];
    } else {
      var j := Join(words[1..], " ");
      SplitOnSpaceJoin(words[1..]);
      JoinStartsWith(words[1..], " ");
      assert Join(words, " ") == words[0] + (" " + j);
      SplitOnSpaceWord(words[0], " " + j);
      assert (" " + j)[1..] == j;
      TrimmedStartIsFixed(j);
      var t := SplitOnSpace(" " + j);
      assert t == [[]] + words[1..];
      assert t[0] == [] && t[1..] == words[1..];
      assert words[0] + t[0] == words[0];
      assert words == [words[0]] + words[1..];
    }
  }

  lemma TrimmedStartIsFixed(s: string)
    requires s != [] && !IsJsSpace(s[0])
    ensures TrimStart(s, IsJsSpace) == s
  {
  }

  lemma {:induction false} JoinStartsWith(words: seq<string>, sep: string)
    requires words != [] && words[0] != []
    ensures Join(words, sep) != [] && Join(words, sep)[0] == words[0][0]
  {
  }

  lemma {:induction false} SplitOnSpaceWord(w: string, rest: string)
    requires NoneOf(w, IsJsSpace)
    ensures SplitOnSpace(w + rest) == [w + SplitOnSpace(rest)[0]] + SplitOnSpace(rest)[1..]
    decreases |w|
  {
    if w != [] {
      var s := w + rest;
      assert s[0] == w[0];
      assert s[1..] == w[1..] + rest;
      assert !IsJsSpace(w[0]);
      var r := SplitOnSpace(s[1..]);
      assert SplitOnSpace(s) == [[s[0]] + r[0]] + r[1..];
      SplitOnSpaceWord(w[1..], rest);
      var t := SplitOnSpace(rest);
      assert r[0] == w[1..] + t[0] && r[1..] == t[1..];
      assert [w[0]] + (w[1..] + t[0]) == w + t[0];
    } else {
      var t := SplitOnSpace(rest);
      assert w + rest == rest && w + t[0] == t[0];
      assert [t[0]] + t[1..] == t;
    }
  }

  /** Words with whitespace runs between them: `words[0] + gaps[0] + words[1] + ...`. */
  function Spaced(words: seq<string>, gaps: seq<string>): string
    requires |words| == |gaps| + 1
    decreases |gaps|
  {
    if gaps == [] then words[0] else words[0] + gaps[0] + Spaced(words[1..], gaps[1..])
  }

  /**
    Splitting words separated by any non-empty whitespace runs gives back the
    words: `split(/\s+/)` cuts at every maximal run and nowhere else.
   */
  lemma {:induction false} SplitOnSpaceSpaced(words: seq<string>, gaps: seq<string>)
    requires |words| == |gaps| + 1
    requires forall i :: 0 <= i < |words| ==> words[i] != [] && NoneOf(words[i], IsJsSpace)
    requires forall i :: 0 <= i < |gaps| ==> gaps[i] != [] && AllOf(gaps[i], IsJsSpace)
    ensures SplitOnSpace(Spaced(words, gaps)) == words
    decreases |gaps|
  {
    if gaps == [] {
      SplitOnSpaceWord(words[0], []);
      assert words[0] + [] == words[0];
    } else {
      var g, rest := gaps[0], Spaced(words[1..], gaps[1..]);
      SplitOnSpaceSpaced(words[1..], gaps[1..]);
      SpacedStart(words[1..], gaps[1..]);
      assert Spaced(words, gaps) == words[0] + (g + rest);
      SplitOnSpaceWord(words[0], g + rest);
      SplitOnSpaceGap(g, rest);
      var t := SplitOnSpace(g + rest);
      assert t[0] == [] && t[1..] == words[1..];
      assert words[0] + t[0] == words[0];
      assert words == [words[0]] + words[1..];
    }
  }

  lemma {:induction false} SpacedStart(words: seq<string>, gaps: seq<string>)
    requires |words| == |gaps| + 1 && words[0] != []
    ensures Spaced(words, gaps) != [] && Spaced(words, gaps)[0] == words[0][0]
  {
  }

  /** A whitespace run in front of a word starts a new, empty first piece. */
  lemma SplitOnSpaceGap(g: string, rest: string)
    requires g != [] && AllOf(g, IsJsSpace)
    requires rest != [] && !IsJsSpace(rest[0])
    ensures SplitOnSpace(g + rest) == [[]] + SplitOnSpace(rest)
  {
    assert (g + rest)[0] == g[0];
    assert (g + rest)[1..] == g[1..] + rest;
    TrimStartPadded(g[1..], rest, IsJsSpace);
  }
}
