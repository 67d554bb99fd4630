/**
  Reading one cookie out of `document.cookie`, a `;`-separated list of
  `name=value` segments. Percent-decoding (`decodeURIComponent`) is a
  parameter of the model that may fail, as the real one throws `URIError`
  on a malformed escape.
 */
module Cookies {
  import opened Options
  import opened Strings

  /** The only character stripped from the front of a segment: the plain space. */
  predicate IsBlank(c: char) {
    c == ' '
  }

  /** A segment with its leading spaces removed. */
  function Stripped(segment: string): string {
    TrimStart(segment, IsBlank)
  }

  /** `segment` is the one looked for: after its leading spaces it starts with `prefix`. */
  predicate Names(segment: string, prefix: string) {
    prefix <= Stripped(segment)
  }

  /**
    The raw value of the first segment that `Names` the prefix: what follows
    the prefix in that segment, or nothing when no segment does.
   */
  function Lookup(segments: seq<string>, prefix: string): Option<string> {
    if segments == [] then None
    else if Names(segments[0], prefix) then Some(Stripped(segments[0])[|prefix|..])
    else Lookup(segments[1..], prefix)
  }

  /**
    How `getCookie` ends: it returns a decoded value, it returns null, or the
    decoding of the value it found throws.
   */
  datatype CookieRead = Found(value: string) | Absent | DecodeError

  /** The outcome of decoding a raw value: None is a `URIError`. */
  function Decoded(d: Option<string>): (r: CookieRead)
    ensures !r.Absent?
    ensures r.DecodeError? <==> d.None?
    ensures r.Found? ==> d == Some(r.value)
  {
    match d
    case Some(v) => Found(v)
    case None => DecodeError
  }

  /** The outcome of `getCookie(name)` for the cookie string `cookie`. */
  function CookieValue(cookie: string, name: string, decode: string -> Option<string>): CookieRead {
    match Lookup(Split(cookie, ';'), name + "=")
    case Some(raw) => Decoded(decode(raw))
    case None => Absent
  }

  /** The first segment naming the prefix decides the lookup, whatever follows it. */
  lemma {:induction false} LookupFirst(segments: seq<string>, prefix: string, i: nat)
    requires i < |segments| && Names(segments[i], prefix)
    requires forall j :: 0 <= j < i ==> !Names(segments[j], prefix)
    ensures Lookup(segments, prefix) == Some(Stripped(segments[i])[|prefix|..])
  {
    if i > 0 {
      assert !Names(segments[0], prefix);
      forall j | 0 <= j < i - 1 ensures !Names(segments[1..][j], prefix) {
        assert segments[1..][j] == segments[j + 1];
      }
      LookupFirst(segments[1..], prefix, i - 1);
    }
  }

  /** The lookup finds nothing exactly when no segment names the prefix. */
  lemma {:induction false} LookupNone(segments: seq<string>, prefix: string)
    ensures Lookup(segments, prefix).None? <==> forall i :: 0 <= i < |segments| ==> !Names(segments[i], prefix)
  {
    if segments != [] && !Names(segments[0], prefix) {
      LookupNone(segments[1..], prefix);
      forall i | 1 <= i < |segments| ensures segments[i] == segments[1..][i - 1] { }
    }
  }

  /**
    A cookie string put together from segments without `;` is looked up
    segment by segment: the first segment that names the cookie gives the
    decoded value, or the decoding error when its rest is not valid.
   */
  lemma CookieFromSegments(segments: seq<string>, name: string, decode: string -> Option<string>, i: nat)
    requires forall k :: 0 <= k < |segments| ==> ';' !in segments[k]
    requires i < |segments| && Names(segments[i], name + "=")
    requires forall j :: 0 <= j < i ==> !Names(segments[j], name + "=")
    ensures CookieValue(Join(segments, ";"), name, decode) == Decoded(decode(Stripped(segments[i])[|name| + 1..]))
  {
    SplitJoin(segments, ';');
    LookupFirst(segments, name + "=", i);
  }

  /** `getCookie` returns null exactly when no segment of the cookie string names the cookie; decoding never makes it null. */
  lemma CookieAbsent(cookie: string, name: string, decode: string -> Option<string>)
    ensures CookieValue(cookie, name, decode).Absent?
        <==> forall i :: 0 <= i < |Split(cookie, ';')| ==> !Names(Split(cookie, ';')[i], name + "=")
  {
    var segments, prefix := Split(cookie, ';'), name + "=";
    LookupNone(segments, prefix);
    assert CookieValue(cookie, name, decode).Absent? <==> Lookup(segments, prefix).None?;
    if forall i :: 0 <= i < |segments| ==> !Names(segments[i], prefix) {
      assert Lookup(segments, prefix).None?;
    } else {
      var k :| 0 <= k < |segments| && Names(segments[k], prefix);
      assert Names(Split(cookie, ';')[k], name + "=");
      assert !CookieValue(cookie, name, decode).Absent?;
    }
  }

  /**
    `getCookie`: split the cookie string on `;`, strip the leading spaces of
    each segment in turn and return the decoded rest of the first one that
    starts with `name=`; null when there is none. The decoding may throw.
   */
  method GetCookie(cookie: string, name: string, decode: string -> Option<string>) returns (r: CookieRead)
    ensures r == CookieValue(cookie, name, decode)
  {
    var nameEQ := name + "=";
    var ca := Split(cookie, ';');
    for i := 0 to |ca|
      invariant Lookup(ca[i..], nameEQ) == Lookup(ca, nameEQ)
    {
      var c := ca[i];
      while c != [] && c[0] == ' '
        invariant Stripped(c) == Stripped(ca[i])
      {
        assert c[LeadingRun(c, IsBlank)..] == c[1..][LeadingRun(c[1..], IsBlank)..];
        c := c[1..];
      }
      assert ca[i..][1..] == ca[i + 1..];
      if |nameEQ| <= |c| && c[..|nameEQ|] == nameEQ {
        return Decoded(decode(c[|nameEQ|..]));
      }
    }
    return Absent;
  }
}
