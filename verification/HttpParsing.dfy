/**
  Where one HTTP request ends in the received bytes (src/http/http_parsing.cpp).
 */
module HttpParsing {
  import opened Bytes
  import opened Wrappers

  /** The first index from `at` on where `what` stands in s. */
  function Find(s: string, what: string, at: nat): (r: Option<nat>)
    ensures r.Some? ==> at <= r.value && r.value + |what| <= |s| && s[r.value..r.value + |what|] == what
    decreases |s| - at
  {
    if at + |what| > |s| then None
    else if s[at..at + |what|] == what then Some(at)
    else if at == |s| then None
    else Find(s, what, at + 1)
  }

  lemma {:induction false} FindStable(s: string, t: string, what: string, at: nat)
    requires Find(s, what, at).Some?
    ensures Find(s + t, what, at) == Find(s, what, at)
    decreases |s| - at
  {
    assert (s + t)[at..at + |what|] == s[at..at + |what|];
    if s[at..at + |what|] != what {
      FindStable(s, t, what, at + 1);
    }
  }

  const BLANK_LINE: string := "\r\n\r\n"

  function Lower(c: char): char {
    if 'A' <= c <= 'Z' then c + 32 as char else c
  }

  predicate EqualsIgnoringCase(a: string, b: string) {
    |a| == |b| && forall i :: 0 <= i < |a| ==> Lower(a[i]) == Lower(b[i])
  }

  method IEquals(a: string, b: string) returns (r: bool)
    ensures r == EqualsIgnoringCase(a, b)
  {
    if |a| != |b| { return false; }
    for i := 0 to |a|
      invariant forall k :: 0 <= k < i ==> Lower(a[k]) == Lower(b[k])
    {
      if Lower(a[i]) != Lower(b[i]) { return false; }
    }
    return true;
  }

  function SkipSpaces(v: string): string {
    if v != "" && v[0] == ' ' then SkipSpaces(v[1..]) else v
  }

  /** The digits at the front of v, in size_t arithmetic, on top of what was read before. */
  function Digits(v: string, parsed: nat): nat {
    if v == "" || v[0] < '0' || v[0] > '9' then parsed
    else Digits(v[1..], (parsed * 10 + (v[0] as int - '0' as int)) % TWO_64)
  }

  function WithoutCr(line: string): string {
    if line != "" && line[|line| - 1] == '\r' then line[..|line| - 1] else line
  }

  /** The length a header line announces, if it is a Content-Length line. */
  function LineLength(line: string): Option<nat> {
    var colon :- Find(line, ":", 0);
    if EqualsIgnoringCase(line[..colon], "Content-Length") then Some(Digits(SkipSpaces(line[colon + 1..]), 0))
    else None
  }

  /** The last Content-Length of the header lines from `pos` on, or `found`. */
  function LengthFrom(header: string, pos: nat, found: nat): nat
    requires pos <= |header|
    decreases |header| - pos
  {
    var nl := Find(header, "\n", pos);
    var line := WithoutCr(header[pos..if nl.Some? then nl.value else |header|]);
    var found' := if LineLength(line).Some? then LineLength(line).value else found;
    if nl.None? then found' else LengthFrom(header, nl.value + 1, found')
  }

  function HeadersLen(s: string): Option<nat> {
    var e :- Find(s, BLANK_LINE, 0);
    Some(e + 4)
  }

  function ContentLength(s: string): nat
    requires HeadersLen(s).Some?
  {
    LengthFrom(s[..HeadersLen(s).value - 4], 0, 0)
  }

  /** The length of the request at the front of s, if it is all there; the sum wraps around. */
  function Boundary(s: string): Option<nat> {
    var h :- HeadersLen(s);
    var total := (h + ContentLength(s)) % TWO_64;
    if |s| < total then None else Some(total)
  }

  method ParseLength(value: string) returns (parsed: nat)
    ensures parsed == Digits(SkipSpaces(value), 0)
  {
    var at := 0;
    assert value[0..] == value;
    while at < |value| && value[at] == ' '
      invariant 0 <= at <= |value|
      invariant SkipSpaces(value[at..]) == SkipSpaces(value)
    {
      assert value[at..][1..] == value[at + 1..];
      at := at + 1;
    }
    parsed := 0;
    ghost var digits := value[at..];
    assert digits == SkipSpaces(value);
    while at < |value| && '0' <= value[at] <= '9'
      invariant 0 <= at <= |value|
      invariant Digits(value[at..], parsed) == Digits(digits, 0)
    {
      assert value[at..][1..] == value[at + 1..];
      parsed := (parsed * 10 + (value[at] as int - '0' as int)) % TWO_64;
      at := at + 1;
    }
  }

  method FindRequestBoundary(buffered: string) returns (r: Option<nat>)
    ensures r == Boundary(buffered)
  {
    hide EqualsIgnoringCase, Digits, SkipSpaces, WithoutCr, Find;
    var headerEnd := Find(buffered, BLANK_LINE, 0);
    if headerEnd.None? { return None; }
    var headersLen := headerEnd.value + 4;

    var contentLength: nat := 0;
    var header := buffered[..headerEnd.value];
    var pos := 0;
    while true
      invariant pos <= |header|
      invariant LengthFrom(header, pos, contentLength) == LengthFrom(header, 0, 0)
      decreases |header| - pos
    {
      var nl := Find(header, "\n", pos);
      var line := WithoutCr(header[pos..if nl.Some? then nl.value else |header|]);
      var colon := Find(line, ":", 0);
      if colon.Some? {
        var isLength := IEquals(line[..colon.value], "Content-Length");
        if isLength {
          contentLength := ParseLength(line[colon.value + 1..]);
        }
      }
      if nl.None? { break; }
      pos := nl.value + 1;
    }

    var total := (headersLen + contentLength) % TWO_64;
    return if |buffered| < total then None else Some(total);
  }

  /** A found boundary survives any suffix. */
  lemma BoundaryStable(s: string, t: string)
    requires Boundary(s).Some?
    ensures Boundary(s + t) == Boundary(s)
  {
    hide HeadersLen, ContentLength;
    HeadersStable(s, t);
  }

  lemma HeadersStable(s: string, t: string)
    requires HeadersLen(s).Some?
    ensures HeadersLen(s + t) == HeadersLen(s)
    ensures ContentLength(s + t) == ContentLength(s)
  {
    hide Find, LengthFrom;
    FindStable(s, t, BLANK_LINE, 0);
    var e := HeadersLen(s).value - 4;
    assert (s + t)[..e] == s[..e];
  }

  /** No prefix shorter than the boundary yields one. */
  lemma NoEarlierBoundary(s: string, k: nat)
    requires Boundary(s).Some? && k < Boundary(s).value
    ensures Boundary(s[..k]) == None
  {
    hide HeadersLen, ContentLength;
    var p := s[..k];
    assert p + s[k..] == s;
    if HeadersLen(p).Some? {
      HeadersStable(p, s[k..]);
    }
  }

  lemma {:induction false} DigitsBelow(v: string, parsed: nat)
    requires parsed < TWO_64
    ensures Digits(v, parsed) < TWO_64
  {
    if !(v == "" || v[0] < '0' || v[0] > '9') {
      DigitsBelow(v[1..], (parsed * 10 + (v[0] as int - '0' as int)) % TWO_64);
    }
  }

  lemma {:induction false} LengthBelow(header: string, pos: nat, found: nat)
    requires pos <= |header| && found < TWO_64
    ensures LengthFrom(header, pos, found) < TWO_64
    decreases |header| - pos
  {
    hide Find, WithoutCr, Digits, SkipSpaces, EqualsIgnoringCase;
    var nl := Find(header, "\n", pos);
    var line := WithoutCr(header[pos..if nl.Some? then nl.value else |header|]);
    if Find(line, ":", 0).Some? {
      DigitsBelow(SkipSpaces(line[Find(line, ":", 0).value + 1..]), 0);
    }
    var found' := if LineLength(line).Some? then LineLength(line).value else found;
    if nl.Some? { LengthBelow(header, nl.value + 1, found'); }
  }

  /** The boundary covers the header block, four bytes at least, exactly when the sum did not wrap around. */
  lemma BoundaryCoversHeaders(s: string)
    requires Boundary(s).Some? && HeadersLen(s).value < TWO_64
    ensures 4 <= HeadersLen(s).value <= Boundary(s).value <==> HeadersLen(s).value + ContentLength(s) < TWO_64
    ensures Boundary(s).value <= |s|
  {
    hide Find, LengthFrom;
    LengthBelow(s[..HeadersLen(s).value - 4], 0, 0);
  }

  /** Without wrap-around the prefix of that length is exactly one request: found there, and not before. */
  lemma BoundaryExact(s: string, k: nat)
    requires Boundary(s).Some? && HeadersLen(s).value + ContentLength(s) < TWO_64 && k <= |s|
    ensures Boundary(s[..k]).Some? <==> k >= Boundary(s).value
  {
    hide HeadersLen, ContentLength;
    if k < Boundary(s).value {
      NoEarlierBoundary(s, k);
    } else {
      HeadersOfPrefix(s, k);
    }
  }

  lemma {:induction false} FindPrefix(s: string, k: nat, what: string, at: nat)
    requires k <= |s| && Find(s, what, at).Some? && Find(s, what, at).value + |what| <= k
    ensures Find(s[..k], what, at) == Find(s, what, at)
    decreases |s| - at
  {
    assert s[..k][at..at + |what|] == s[at..at + |what|];
    if s[at..at + |what|] != what {
      FindPrefix(s, k, what, at + 1);
    }
  }

  lemma HeadersOfPrefix(s: string, k: nat)
    requires HeadersLen(s).Some? && HeadersLen(s).value <= k <= |s|
    ensures HeadersLen(s[..k]) == HeadersLen(s) && ContentLength(s[..k]) == ContentLength(s)
  {
    hide Find, LengthFrom;
    FindPrefix(s, k, BLANK_LINE, 0);
    var e := HeadersLen(s).value - 4;
    assert s[..k][..e] == s[..e];
  }
}
