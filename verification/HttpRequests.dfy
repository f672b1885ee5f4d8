/**
  Whole HTTP requests, in the words of RFC 9112: header lines that end in CR LF, a blank line,
  and a body.  Where src/http/http_parsing.cpp finds the end of such a request, and what
  src/http/http_server.cpp serves of a stream of them.
 */
module HttpRequests {
  import opened Bytes
  import opened Wrappers
  import opened Decimals
  import H = HttpParsing
  import S = HttpSession

  /** The lines with CR LF between them. */
  function Joined(lines: seq<string>): string {
    if lines == [] then "" else if |lines| == 1 then lines[0] else lines[0] + "\r\n" + Joined(lines[1..])
  }

  function Request(lines: seq<string>, body: string): string {
    Joined(lines) + "\r\n\r\n" + body
  }

  /** A line that does not end the header and does not break into two. */
  predicate Plain(line: string) {
    line != "" && '\r' !in line && '\n' !in line
  }

  predicate AllPlain(lines: seq<string>) {
    forall i :: 0 <= i < |lines| ==> Plain(lines[i])
  }

  /** "Content-Length" in any mixture of upper and lower case. */
  predicate NamesLength(name: string) {
    |name| == 14 && forall i :: 0 <= i < 14 ==> name[i] == "content-length"[i] || name[i] == "CONTENT-LENGTH"[i]
  }

  predicate IsLengthLine(line: string) {
    |line| >= 15 && line[14] == ':' && NamesLength(line[..14])
  }

  predicate AllSpaces(s: string) {
    forall i :: 0 <= i < |s| ==> s[i] == ' '
  }

  /** A text that does not continue a number. */
  predicate EndsNumber(s: string) {
    s == "" || !('0' <= s[0] <= '9')
  }

  /** The line announces n bytes; with n == None it announces none, there being no digit. */
  predicate Announces(line: string, spaces: string, n: Option<nat>, more: string) {
    && IsLengthLine(line) && AllSpaces(spaces) && EndsNumber(more)
    && (n.None? ==> !(" " <= more))
    && line[15..] == spaces + (if n.Some? then Decimal(n.value) else "") + more
  }

  // ---------- one line ----------

  lemma FindIs(s: string, what: string, at: nat, r: nat)
    requires at <= r && r + |what| <= |s| && s[r..r + |what|] == what && what != ""
    requires forall i :: at <= i < r ==> s[i] != what[0] || s[i..i + |what|] != what
    ensures H.Find(s, what, at) == Some(r)
    decreases r - at
  {
    if at < r {
      assert s[at] != what[0] ==> s[at..at + |what|] != what by { assert s[at..at + |what|][0] == s[at]; }
      FindIs(s, what, at + 1, r);
    }
  }

  lemma FindNone(s: string, c: char, at: nat)
    requires at <= |s| && c !in s[at..]
    ensures H.Find(s, [c], at) == None
    decreases |s| - at
  {
    if at < |s| {
      assert s[at..][0] == s[at] && s[at..][1..] == s[at + 1..];
      assert s[at..at + 1] == [s[at]];
      FindNone(s, c, at + 1);
    }
  }

  lemma NameIgnoresCase(name: string)
    ensures H.EqualsIgnoringCase(name, "Content-Length") <==> NamesLength(name)
  {
    forall i | 0 <= i < 14 && |name| == 14
      ensures H.Lower(name[i]) == H.Lower("Content-Length"[i])
              <==> name[i] == "content-length"[i] || name[i] == "CONTENT-LENGTH"[i]
    {
      LetterIgnoresCase(name[i], "Content-Length"[i]);
    }
  }

  lemma LetterIgnoresCase(c: char, d: char)
    ensures 'a' <= d <= 'z' ==> (H.Lower(c) == H.Lower(d) <==> c == d || c == d - 32 as char)
    ensures 'A' <= d <= 'Z' ==> (H.Lower(c) == H.Lower(d) <==> c == d || c == d + 32 as char)
    ensures d == '-' ==> (H.Lower(c) == H.Lower(d) <==> c == d)
  {}

  /** The digits of n are read back, modulo 2^64, and what follows them continues the number. */
  lemma {:induction false} DecimalIsRead(n: nat, more: string)
    ensures H.Digits(Decimal(n) + more, 0) == H.Digits(more, n % TWO_64)
    decreases n
  {
    var d := [Digit(n % 10)] + more;
    assert d[1..] == more;
    if n < 10 {
      assert Decimal(n) + more == d;
    } else {
      DecimalIsRead(n / 10, d);
      assert Decimal(n) + more == Decimal(n / 10) + d;
      AppendDigit(n);
    }
  }

  lemma AppendDigit(n: nat)
    ensures (n / 10 % TWO_64 * 10 + n % 10) % TWO_64 == n % TWO_64
  {
    var q, r := n / 10 / TWO_64, n / 10 % TWO_64;
    assert n == q * 10 * TWO_64 + (r * 10 + n % 10);
    RemoveMultiples(q * 10, r * 10 + n % 10);
  }

  lemma RemoveMultiples(k: nat, x: nat)
    ensures (k * TWO_64 + x) % TWO_64 == x % TWO_64
  {}

  lemma {:induction false} SpacesSkipped(spaces: string, more: string)
    requires AllSpaces(spaces) && !(" " <= more)
    ensures H.SkipSpaces(spaces + more) == more
  {
    if spaces == "" {
      assert spaces + more == more;
    } else {
      assert (spaces + more)[1..] == spaces[1..] + more;
      SpacesSkipped(spaces[1..], more);
    }
  }

  lemma {:induction false} DecimalStartsWithDigit(n: nat)
    ensures Decimal(n) != "" && '0' <= Decimal(n)[0] <= '9'
    decreases n
  {
    if n >= 10 { DecimalStartsWithDigit(n / 10); }
  }

  /** The length a line announces, modulo 2^64, whatever the case of its name. */
  lemma AnnouncedLength(line: string, spaces: string, n: Option<nat>, more: string)
    requires Announces(line, spaces, n, more)
    ensures H.LineLength(line) == Some(if n.Some? then n.value % TWO_64 else 0)
  {
    hide H.Digits, H.SkipSpaces, H.EqualsIgnoringCase, H.Find, Decimal;
    ColonFound(line);
    NameIgnoresCase(line[..14]);
    if n.Some? {
      var digits := Decimal(n.value) + more;
      DecimalStartsWithDigit(n.value);
      assert spaces + Decimal(n.value) + more == spaces + digits;
      assert digits[0] == Decimal(n.value)[0];
      SpacesSkipped(spaces, digits);
      DecimalIsRead(n.value, more);
      NumberEnds(more, n.value % TWO_64);
    } else {
      assert spaces + "" + more == spaces + more;
      SpacesSkipped(spaces, more);
      NumberEnds(more, 0);
    }
  }

  lemma NumberEnds(more: string, parsed: nat)
    requires EndsNumber(more)
    ensures H.Digits(more, parsed) == parsed
  {}

  lemma ColonFound(line: string)
    requires IsLengthLine(line)
    ensures H.Find(line, ":", 0) == Some(14)
  {
    assert forall i :: 0 <= i < 14 ==> line[i] == line[..14][i];
    FindIs(line, ":", 0, 14);
  }

  /** Every other line announces nothing. */
  lemma OtherLine(line: string)
    requires !IsLengthLine(line)
    ensures H.LineLength(line) == None
  {
    hide H.Digits, H.SkipSpaces, H.EqualsIgnoringCase;
    var colon := H.Find(line, ":", 0);
    if colon.Some? {
      assert line[colon.value..colon.value + 1][0] == line[colon.value];
      NameIgnoresCase(line[..colon.value]);
    }
  }

  // ---------- the header ----------

  /** The length announced by the last line that announces one. */
  function LastLength(lines: seq<string>, found: nat): nat {
    if lines == [] then found
    else LastLength(lines[1..], if H.LineLength(lines[0]).Some? then H.LineLength(lines[0]).value else found)
  }

  /** Every CR of the header is followed by LF and a character that is not CR. */
  lemma {:induction false} CrInside(lines: seq<string>, i: nat)
    requires AllPlain(lines) && i < |Joined(lines)| && Joined(lines)[i] == '\r'
    ensures i + 2 < |Joined(lines)| && Joined(lines)[i + 2] != '\r'
  {
    var first := lines[0];
    assert Plain(first);
    if |lines| > 1 {
      var tail := Joined(lines[1..]);
      assert Joined(lines) == first + ("\r\n" + tail);
      assert tail != "" && tail[0] != '\r' by { StartsPlain(lines[1..]); }
      if i > |first| {
        assert Joined(lines)[i] == tail[i - |first| - 2];
        CrInside(lines[1..], i - |first| - 2);
      }
    }
  }

  lemma StartsPlain(lines: seq<string>)
    requires AllPlain(lines) && lines != []
    ensures Joined(lines) != "" && Joined(lines)[0] != '\r'
  {
    assert Plain(lines[0]);
    assert Joined(lines)[0] == lines[0][0];
  }

  lemma HeaderEnd(lines: seq<string>, body: string)
    requires AllPlain(lines) && lines != []
    ensures H.HeadersLen(Request(lines, body)) == Some(|Joined(lines)| + 4)
  {
    hide Joined, AllPlain;
    forall i | 0 <= i < |Joined(lines)| && Joined(lines)[i] == '\r'
      ensures i + 2 < |Joined(lines)| && Joined(lines)[i + 2] != '\r'
    {
      CrInside(lines, i);
    }
    BlankLineAt(Joined(lines), body);
  }

  lemma BlankLineAt(head: string, body: string)
    requires forall i :: 0 <= i < |head| && head[i] == '\r' ==> i + 2 < |head| && head[i + 2] != '\r'
    ensures H.Find(head + "\r\n\r\n" + body, H.BLANK_LINE, 0) == Some(|head|)
  {
    hide H.Find;
    var s := head + "\r\n\r\n" + body;
    assert s[|head|..|head| + 4] == H.BLANK_LINE;
    forall i | 0 <= i < |head|
      ensures s[i] != '\r' || s[i..i + 4] != H.BLANK_LINE
    {
      if s[i] == '\r' { assert s[i..i + 4][2] == head[i + 2]; }
    }
    FindIs(s, H.BLANK_LINE, 0, |head|);
  }

  lemma {:induction false} LengthOfLines(header: string, pos: nat, lines: seq<string>, found: nat)
    requires AllPlain(lines) && lines != [] && pos <= |header| && header[pos..] == Joined(lines)
    ensures H.LengthFrom(header, pos, found) == LastLength(lines, found)
    decreases |lines|
  {
    hide H.LineLength, H.Find, H.WithoutCr;
    var first := lines[0];
    var end := pos + |first|;
    LineAt(header, pos, lines);
    assert H.LengthFrom(header, pos, found) ==
           var nl := H.Find(header, "\n", pos);
           var length := H.LineLength(first);
           var found' := if length.Some? then length.value else found;
           if nl.None? then found' else H.LengthFrom(header, nl.value + 1, found');
    if |lines| > 1 {
      var length := H.LineLength(first);
      LengthOfLines(header, end + 2, lines[1..], if length.Some? then length.value else found);
    } else {
      assert lines[1..] == [];
    }
  }

  /** The line that starts at pos, cut at its LF, and without its CR. */
  lemma LineAt(header: string, pos: nat, lines: seq<string>)
    requires AllPlain(lines) && lines != [] && pos <= |header| && header[pos..] == Joined(lines)
    ensures H.Find(header, "\n", pos) == if |lines| == 1 then None else Some(pos + |lines[0]| + 1)
    ensures |lines| > 1 ==> pos + |lines[0]| + 2 <= |header| && header[pos + |lines[0]| + 2..] == Joined(lines[1..])
    ensures var nl := H.Find(header, "\n", pos);
            H.WithoutCr(header[pos..if nl.Some? then nl.value else |header|]) == lines[0]
  {
    var first := lines[0];
    assert Plain(first);
    if |lines| == 1 {
      FindNone(header, '\n', pos);
    } else {
      CutAtLf(header, pos, first, Joined(lines[1..]));
    }
  }

  lemma CutAtLf(header: string, pos: nat, first: string, tail: string)
    requires Plain(first) && pos <= |header| && header[pos..] == first + "\r\n" + tail
    ensures var end := pos + |first|;
            && end + 2 <= |header| && header[end + 2..] == tail
            && H.Find(header, "\n", pos) == Some(end + 1)
            && H.WithoutCr(header[pos..end + 1]) == first
  {
    hide H.Find;
    var end := pos + |first|;
    LineBytes(header, pos, first, tail);
    assert forall i :: 0 <= i < |first| ==> first[i] != '\n';
    FindIs(header, "\n", pos, end + 1);
    assert header[pos..end + 1] == first + "\r";
  }

  lemma LineBytes(header: string, pos: nat, first: string, tail: string)
    requires pos <= |header| && header[pos..] == first + "\r\n" + tail
    ensures var end := pos + |first|;
            && |header| == end + 2 + |tail| && header[end + 2..] == tail
            && header[end] == '\r' && header[end + 1] == '\n' && header[end + 1..end + 2] == "\n"
            && header[pos..end] == first && (forall i :: pos <= i < end ==> header[i] == first[i - pos])
  {
    var s := header[pos..];
    assert forall i :: 0 <= i < |s| ==> header[pos + i] == s[i];
    assert s[|first|] == '\r' && s[|first| + 1] == '\n';
    assert s[|first| + 2..] == tail && s[..|first|] == first;
  }

  lemma {:induction false} NoLengthLine(lines: seq<string>, found: nat)
    requires forall i :: 0 <= i < |lines| ==> !IsLengthLine(lines[i])
    ensures LastLength(lines, found) == found
  {
    hide IsLengthLine, H.LineLength;
    if lines != [] {
      OtherLine(lines[0]);
      NoLengthLine(lines[1..], found);
    }
  }

  lemma {:induction false} LastLineDecides(lines: seq<string>, k: nat, found: nat)
    requires k < |lines| && H.LineLength(lines[k]).Some?
    requires forall i :: k < i < |lines| ==> !IsLengthLine(lines[i])
    ensures LastLength(lines, found) == H.LineLength(lines[k]).value
  {
    hide IsLengthLine, H.LineLength;
    var found' := if H.LineLength(lines[0]).Some? then H.LineLength(lines[0]).value else found;
    if k == 0 {
      NoLengthLine(lines[1..], found');
    } else {
      LastLineDecides(lines[1..], k - 1, found');
    }
  }

  lemma HeaderLength(lines: seq<string>, body: string)
    requires AllPlain(lines) && lines != []
    ensures H.HeadersLen(Request(lines, body)) == Some(|Joined(lines)| + 4)
    ensures H.ContentLength(Request(lines, body)) == LastLength(lines, 0)
  {
    hide H.HeadersLen, H.LengthFrom;
    HeaderEnd(lines, body);
    assert Request(lines, body)[..|Joined(lines)|] == Joined(lines);
    assert Joined(lines)[0..] == Joined(lines);
    LengthOfLines(Joined(lines), 0, lines, 0);
  }

  // ---------- the boundary ----------

  /** Without a Content-Length line the request ends with its header. */
  lemma BoundaryWithoutLength(lines: seq<string>, rest: string)
    requires AllPlain(lines) && lines != [] && |Joined(lines)| + 4 < TWO_64
    requires forall i :: 0 <= i < |lines| ==> !IsLengthLine(lines[i])
    ensures H.Boundary(Request(lines, rest)) == Some(|Joined(lines)| + 4)
  {
    hide H.HeadersLen, H.ContentLength, IsLengthLine;
    HeaderLength(lines, rest);
    NoLengthLine(lines, 0);
  }

  /**
    The last Content-Length line decides, in whatever case and with whatever spaces: the request
    ends the announced number of bytes behind the header, and is not there before them.  The
    number and the sum wrap around at 2^64.
   */
  lemma BoundaryWithLength(lines: seq<string>, k: nat, spaces: string, n: Option<nat>, more: string, rest: string)
    requires AllPlain(lines) && k < |lines| && Announces(lines[k], spaces, n, more)
    requires forall i :: k < i < |lines| ==> !IsLengthLine(lines[i])
    ensures var head := |Joined(lines)| + 4;
            var length := if n.Some? then n.value else 0;
            && |Request(lines, rest)| == head + |rest|
            && (head + length < TWO_64 ==>
                  H.Boundary(Request(lines, rest)) == if length <= |rest| then Some(head + length) else None)
            && var total := (head + length % TWO_64) % TWO_64;
               H.Boundary(Request(lines, rest)) == if total <= head + |rest| then Some(total) else None
  {
    hide H.HeadersLen, H.ContentLength, H.LineLength, H.Boundary;
    hide IsLengthLine, Announces, Decimal, Joined, AllPlain, LastLength;
    HeaderLength(lines, rest);
    AnnouncedLength(lines[k], spaces, n, more);
    LastLineDecides(lines, k, 0);
    WrappedSum(Request(lines, rest), |Joined(lines)| + 4, if n.Some? then n.value else 0);
  }

  lemma WrappedSum(s: string, head: nat, length: nat)
    requires H.HeadersLen(s) == Some(head) && head <= |s| && H.ContentLength(s) == length % TWO_64
    ensures head + length < TWO_64 ==> H.Boundary(s) == if length <= |s| - head then Some(head + length) else None
    ensures var total := (head + length % TWO_64) % TWO_64;
            H.Boundary(s) == if total <= |s| then Some(total) else None
  {
    hide H.HeadersLen, H.ContentLength;
  }

  // ---------- a stream of requests ----------

  datatype Message = Message(lines: seq<string>, body: string) {
    function Text(): string { Request(lines, body) }
  }

  predicate LengthLineAt(m: Message, k: nat, spaces: string, more: string) {
    && k < |m.lines| && Announces(m.lines[k], spaces, Some(|m.body|), more)
    && forall i :: k < i < |m.lines| ==> !IsLengthLine(m.lines[i])
  }

  /** Its last Content-Length line announces the length of its body, or it has neither. */
  ghost predicate WellFormed(m: Message) {
    && m.lines != [] && AllPlain(m.lines) && |m.Text()| < TWO_64
    && ((m.body == "" && forall i :: 0 <= i < |m.lines| ==> !IsLengthLine(m.lines[i]))
        || exists k, spaces, more :: LengthLineAt(m, k, spaces, more))
  }

  ghost predicate AllWellFormed(ms: seq<Message>) {
    forall i :: 0 <= i < |ms| ==> WellFormed(ms[i])
  }

  function Stream(ms: seq<Message>): string {
    if ms == [] then "" else ms[0].Text() + Stream(ms[1..])
  }

  lemma MessageBoundary(m: Message, rest: string)
    requires WellFormed(m)
    ensures m.Text() != "" && H.Boundary(m.Text() + rest) == Some(|m.Text()|)
  {
    hide H.Boundary, Announces, IsLengthLine, Joined, AllPlain;
    assert m.Text() + rest == Request(m.lines, m.body + rest);
    if k, spaces, more :| LengthLineAt(m, k, spaces, more) {
      BoundaryWithLength(m.lines, k, spaces, Some(|m.body|), more, m.body + rest);
    } else {
      BoundaryWithoutLength(m.lines, m.body + rest);
    }
  }

  lemma {:induction false} ServesInOrder(cfg: S.Config, ms: seq<Message>, k: nat)
    requires AllWellFormed(ms) && S.Serve(cfg, Stream(ms), k).Some?
    ensures k <= |ms| && |S.Serve(cfg, Stream(ms), k).value.0| == k
    ensures forall i :: 0 <= i < k ==> S.Serve(cfg, Stream(ms), k).value.0[i].raw == ms[i].Text()
    ensures S.Serve(cfg, Stream(ms), k).value.1 == Stream(ms[k..])
    ensures var served := S.Serve(cfg, Stream(ms), k).value.0;
            k < |ms| && !S.LastWord(served) ==> S.Serve(cfg, Stream(ms), k + 1).Some?
  {
    hide H.Boundary, S.KeepsAlive, WellFormed, S.LastWord;
    if k > 0 {
      ServesInOrder(cfg, ms, k - 1);
      NextMessage(ms, k - 1);
    } else {
      assert ms[0..] == ms;
    }
    NextMessage(ms, k);
  }

  /** At the front of what is left stands the next message, or nothing. */
  lemma NextMessage(ms: seq<Message>, k: nat)
    requires AllWellFormed(ms) && k <= |ms|
    ensures var rest := Stream(ms[k..]);
            if k < |ms| then
              var n := |ms[k].Text()|;
              && H.Boundary(rest) == Some(n) && n <= |rest|
              && rest[..n] == ms[k].Text() && rest[n..] == Stream(ms[k + 1..])
            else H.Boundary(rest) == None
  {
    if k < |ms| {
      hide WellFormed, H.Boundary;
      assert ms[k..][1..] == ms[k + 1..];
      assert WellFormed(ms[k]);
      MessageBoundary(ms[k], Stream(ms[k + 1..]));
    }
  }

  /**
    Of a stream of well-formed requests, however it was cut into reads, a settled session has served
    those requests in order, and all of them unless a response closed the connection.  A response
    keeps it open exactly if its request asks for it and the cap on requests is not reached.
   */
  lemma {:induction false} RequestsServed(cfg: S.Config, ms: seq<Message>, events: seq<S.Event>, st: S.State)
    requires AllWellFormed(ms)
    requires S.Reached(cfg, events, st) && S.Quiet(events) && !st.capped
    requires S.SettledOn(st, S.Received(events), Stream(ms))
    ensures |st.served| <= |ms|
    ensures forall i :: 0 <= i < |st.served| ==> st.served[i].raw == ms[i].Text()
    ensures forall i :: 0 <= i < |st.served| ==>
              (st.served[i].keepAlive <==>
                 cfg.keepAlive(st.served[i].raw) && (cfg.maxRequests == 0 || i + 1 < cfg.maxRequests))
    ensures |st.served| < |ms| ==> st.served != [] && !st.served[|st.served| - 1].keepAlive
  {
    hide S.Serve, S.Reached, S.Quiet, S.SettledOn, S.Received, AllWellFormed, Stream, H.Boundary;
    S.KeepAliveExactly(cfg, events, st);
    S.SettledIsComplete(cfg, events, st, Stream(ms));
    ServesInOrder(cfg, ms, |st.served|);
  }
}
