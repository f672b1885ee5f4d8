/**
  The Base64 encoder of src/mqtt/websocket_codec.cpp, and a decoder written from
  section 4 of RFC 4648 that inverts it.

  The functions take the alphabet as a parameter, so that the round trip is
  proved for any table of 64 distinct symbols; `Alphabet` is the one in use.
 */
module Base64 {
  import opened Wrappers

  /** The bytes of this component are bit vectors: the encoder is all masks and shifts. */
  type byte = bv8
  type sextet = v: bv8 | v < 64

  predicate Usable(table: string) {
    && |table| == 64
    && '=' !in table
    && forall i, j :: 0 <= i < j < 64 ==> table[i] != table[j]
  }

  function Alphabet(): (table: string)
    ensures |table| == 64
  {
    "ABCDEFGHIJKLMNOPQRSTUVWXYZ" + "abcdefghijklmnopqrstuvwxyz" + "0123456789+/"
  }

  lemma AlphabetCodes(i: nat)
    requires i < 64
    ensures Alphabet()[i] as int ==
      if i < 26 then 65 + i else if i < 52 then 97 + (i - 26) else if i < 62 then 48 + (i - 52)
      else if i == 62 then 43 else 47
  {
    if i < 26 { UpperAt(i); } else if i < 52 { LowerAt(i - 26); } else { OtherAt(i - 52); }
  }

  lemma UpperAt(i: nat)
    requires i < 26
    ensures "ABCDEFGHIJKLMNOPQRSTUVWXYZ"[i] as int == 65 + i
  {}

  lemma LowerAt(i: nat)
    requires i < 26
    ensures "abcdefghijklmnopqrstuvwxyz"[i] as int == 97 + i
  {}

  lemma OtherAt(i: nat)
    requires i < 12
    ensures "0123456789+/"[i] as int == if i < 10 then 48 + i else if i == 10 then 43 else 47
  {}

  lemma AlphabetUsable()
    ensures Usable(Alphabet())
  {
    var table := Alphabet();
    forall i: nat | i < 64
      ensures table[i] as int ==
        if i < 26 then 65 + i else if i < 52 then 97 + (i - 26) else if i < 62 then 48 + (i - 52)
        else if i == 62 then 43 else 47
    {
      AlphabetCodes(i);
    }
  }

  /** The four 6-bit groups of a 24-bit group, as the encoder cuts them. */
  function Cut0(a: byte): sextet { (a & 0xFC) >> 2 }
  function Cut1(a: byte, b: byte): sextet { ((a & 0x03) << 4) + ((b & 0xF0) >> 4) }
  function Cut2(b: byte, c: byte): sextet { ((b & 0x0F) << 2) + ((c & 0xC0) >> 6) }
  function Cut3(c: byte): sextet { c & 0x3F }

  function EncodeGroup(table: string, a: byte, b: byte, c: byte): (g: string)
    requires |table| == 64
    ensures |g| == 4
  {
    [table[Cut0(a) as int], table[Cut1(a, b) as int], table[Cut2(b, c) as int], table[Cut3(c) as int]]
  }

  /** The last, short group of one or two bytes. */
  function EncodeTail(table: string, s: seq<byte>, at: nat): string
    requires |table| == 64 && at <= |s| < at + 3
  {
    if at == |s| then ""
    else if at + 1 == |s| then [table[Cut0(s[at]) as int], table[Cut1(s[at], 0) as int], '=', '=']
    else [table[Cut0(s[at]) as int], table[Cut1(s[at], s[at + 1]) as int], table[Cut2(s[at + 1], 0) as int], '=']
  }

  /** The encoding of the bytes from index `at` on. */
  function EncodedFrom(table: string, s: seq<byte>, at: nat): string
    requires |table| == 64 && at <= |s|
    decreases |s| - at
  {
    if |s| < at + 3 then EncodeTail(table, s, at)
    else EncodeGroup(table, s[at], s[at + 1], s[at + 2]) + EncodedFrom(table, s, at + 3)
  }

  function Encoded(table: string, s: seq<byte>): string
    requires |table| == 64
  {
    EncodedFrom(table, s, 0)
  }

  method Encode(table: string, data: seq<byte>) returns (ret: string)
    requires |table| == 64
    ensures ret == Encoded(table, data)
  {
    hide EncodeGroup, Cut0, Cut1, Cut2, Cut3;
    ret := "";
    var i := 0;
    var char3 := new byte[3](_ => 0);
    var at := 0;
    ghost var base := 0;  // where the bytes still in the buffer start
    while at < |data|
      invariant 0 <= i < 3 && base + i == at <= |data|
      invariant forall k :: 0 <= k < i ==> char3[k] == data[base + k]
      invariant ret + EncodedFrom(table, data, base) == Encoded(table, data)
    {
      char3[i] := data[at];
      i := i + 1;
      at := at + 1;
      if i == 3 {
        Flush(table, data, base, ret);
        base := at;
        ret := ret + EncodeGroup(table, char3[0], char3[1], char3[2]);
        i := 0;
      }
    }

    if i > 0 {
      var tail := EncodeRest(table, char3, i, data);
      ret := ret + tail;
    }
  }

  lemma Flush(table: string, data: seq<byte>, at: nat, done: string)
    requires |table| == 64 && at + 3 <= |data|
    ensures done + EncodedFrom(table, data, at) ==
            done + EncodeGroup(table, data[at], data[at + 1], data[at + 2]) + EncodedFrom(table, data, at + 3)
  {}

  /** The padded end: zero the unused bytes, emit one symbol more than there are bytes, then pad. */
  method EncodeRest(table: string, char3: array<byte>, count: nat, ghost data: seq<byte>) returns (ret: string)
    requires |table| == 64 && char3.Length == 3 && 0 < count < 3 && count <= |data|
    requires forall k :: 0 <= k < count ==> char3[k] == data[|data| - count + k]
    modifies char3
    ensures ret == EncodeTail(table, data, |data| - count)
  {
    hide EncodeGroup, EncodeTail, Pads;
    ZeroFrom(char3, count);
    TailFromGroup(table, data, |data| - count);
    var group := EncodeGroup(table, char3[0], char3[1], char3[2]);
    ret := AppendPads(group[..count + 1], 3 - count);
  }

  /** The short group is the start of the group that zero bytes fill up. */
  lemma TailFromGroup(table: string, s: seq<byte>, at: nat)
    requires |table| == 64 && at < |s| < at + 3
    ensures EncodeTail(table, s, at) ==
            EncodeGroup(table, s[at], if at + 1 < |s| then s[at + 1] else 0, 0)[..|s| - at + 1] + Pads(3 - (|s| - at))
  {
    hide Cut0, Cut1, Cut2, Cut3;
    assert Pads(1) == "=" && Pads(2) == "==";
  }

  method ZeroFrom(char3: array<byte>, count: nat)
    requires char3.Length == 3 && count < 3
    modifies char3
    ensures forall k :: 0 <= k < count ==> char3[k] == old(char3[k])
    ensures forall k :: count <= k < 3 ==> char3[k] == 0
  {
    for j := count to 3
      invariant forall k :: 0 <= k < count ==> char3[k] == old(char3[k])
      invariant forall k :: count <= k < j ==> char3[k] == 0
    {
      char3[j] := 0;
    }
  }

  method AppendPads(body: string, n: nat) returns (ret: string)
    ensures ret == body + Pads(n)
  {
    ret := body;
    for i := 0 to n
      invariant ret == body + Pads(i)
    {
      ret := ret + "=";
    }
  }

  function Pads(n: nat): string {
    if n == 0 then "" else Pads(n - 1) + "="
  }

  // ---------- section 4 of RFC 4648 ----------

  function IndexOf(table: string, c: char): Option<nat> {
    if table == "" then None
    else if table[|table| - 1] == c then Some(|table| - 1)
    else IndexOf(table[..|table| - 1], c)
  }

  lemma {:induction false} IndexOfSymbol(table: string, v: nat)
    requires v < |table|
    requires forall i, j :: 0 <= i < j < |table| ==> table[i] != table[j]
    ensures IndexOf(table, table[v]) == Some(v)
  {
    if v < |table| - 1 {
      IndexOfSymbol(table[..|table| - 1], v);
    }
  }

  /** One group of four characters: three bytes, or fewer when it ends in padding. */
  function DecodeQuad(table: string, q: string): Option<seq<byte>>
    requires |table| == 64 && |q| == 4
  {
    var v0, v1, v2, v3 := Lookup(table, q[0]), Lookup(table, q[1]), Lookup(table, q[2]), Lookup(table, q[3]);
    if v0.None? || v1.None? then None
    else if q[2] == '=' && q[3] == '=' then Some([Glue0(v0.value, v1.value)])
    else if v2.None? then None
    else if q[3] == '=' then Some([Glue0(v0.value, v1.value), Glue1(v1.value, v2.value)])
    else if v3.None? then None
    else Some([Glue0(v0.value, v1.value), Glue1(v1.value, v2.value), Glue2(v2.value, v3.value)])
  }

  function Glue0(v0: sextet, v1: sextet): byte { (v0 << 2) | (v1 >> 4) }
  function Glue1(v1: sextet, v2: sextet): byte { (v1 << 4) | (v2 >> 2) }
  function Glue2(v2: sextet, v3: sextet): byte { (v2 << 6) | v3 }

  function Lookup(table: string, c: char): (r: Option<sextet>)
    requires |table| == 64
  {
    var i := IndexOf(table, c);
    if i.None? || i.value >= 64 then None else Some(i.value as bv8)
  }

  /** Decodes groups of four characters; padding may end only the last group. */
  function Decoded(table: string, e: string): Option<seq<byte>>
    requires |table| == 64
  {
    if e == "" then Some([])
    else if |e| < 4 then None
    else
      var first, rest := DecodeQuad(table, e[..4]), Decoded(table, e[4..]);
      if first.None? || rest.None? || (|e| > 4 && |first.value| < 3) then None
      else Some(first.value + rest.value)
  }

  lemma GlueCut(a: byte, b: byte, c: byte)
    ensures Glue0(Cut0(a), Cut1(a, b)) == a
    ensures Glue1(Cut1(a, b), Cut2(b, c)) == b
    ensures Glue2(Cut2(b, c), Cut3(c)) == c
  {}

  lemma LookupSymbol(table: string, v: sextet)
    requires Usable(table)
    ensures Lookup(table, table[v as int]) == Some(v) && table[v as int] != '='
  {
    IndexOfSymbol(table, v as int);
  }

  lemma FullQuad(table: string, q: string, v0: sextet, v1: sextet, v2: sextet, v3: sextet)
    requires Usable(table)
    requires q == [table[v0 as int], table[v1 as int], table[v2 as int], table[v3 as int]]
    ensures DecodeQuad(table, q) == Some([Glue0(v0, v1), Glue1(v1, v2), Glue2(v2, v3)])
  {
    LookupSymbol(table, v0);
    LookupSymbol(table, v1);
    LookupSymbol(table, v2);
    LookupSymbol(table, v3);
  }

  lemma PaddedQuad(table: string, q: string, v0: sextet, v1: sextet, v2: sextet)
    requires Usable(table)
    ensures q == [table[v0 as int], table[v1 as int], table[v2 as int], '='] ==>
      DecodeQuad(table, q) == Some([Glue0(v0, v1), Glue1(v1, v2)])
    ensures q == [table[v0 as int], table[v1 as int], '=', '='] ==>
      DecodeQuad(table, q) == Some([Glue0(v0, v1)])
  {
    LookupSymbol(table, v0);
    LookupSymbol(table, v1);
    LookupSymbol(table, v2);
  }

  lemma FullGroupRoundTrip(table: string, a: byte, b: byte, c: byte)
    requires Usable(table)
    ensures DecodeQuad(table, EncodeGroup(table, a, b, c)) == Some([a, b, c])
  {
    FullQuad(table, EncodeGroup(table, a, b, c), Cut0(a), Cut1(a, b), Cut2(b, c), Cut3(c));
    GlueCut(a, b, c);
  }

  lemma TailRoundTrip(table: string, s: seq<byte>, at: nat)
    requires Usable(table) && at < |s| < at + 3
    ensures |EncodeTail(table, s, at)| == 4 && DecodeQuad(table, EncodeTail(table, s, at)) == Some(s[at..])
  {
    if at + 1 == |s| {
      PaddedQuad(table, EncodeTail(table, s, at), Cut0(s[at]), Cut1(s[at], 0), 0);
      GlueCut(s[at], 0, 0);
      assert s[at..] == [s[at]];
    } else {
      PaddedQuad(table, EncodeTail(table, s, at), Cut0(s[at]), Cut1(s[at], s[at + 1]), Cut2(s[at + 1], 0));
      GlueCut(s[at], s[at + 1], 0);
      assert s[at..] == [s[at], s[at + 1]];
    }
  }

  lemma DecodedStep(table: string, quad: string, rest: string, first: seq<byte>, more: seq<byte>)
    requires |table| == 64 && |quad| == 4
    requires DecodeQuad(table, quad) == Some(first) && Decoded(table, rest) == Some(more)
    requires rest == "" || |first| == 3
    ensures Decoded(table, quad + rest) == Some(first + more)
  {
    var e := quad + rest;
    assert e[..4] == quad && e[4..] == rest;
  }

  lemma {:induction false} RoundTripFrom(table: string, s: seq<byte>, at: nat)
    requires Usable(table) && at <= |s|
    ensures Decoded(table, EncodedFrom(table, s, at)) == Some(s[at..])
    decreases |s| - at
  {
    hide EncodeGroup, EncodeTail, DecodeQuad;
    if at + 3 <= |s| {
      FullGroupRoundTrip(table, s[at], s[at + 1], s[at + 2]);
      RoundTripFrom(table, s, at + 3);
      DecodedStep(table, EncodeGroup(table, s[at], s[at + 1], s[at + 2]), EncodedFrom(table, s, at + 3),
                  [s[at], s[at + 1], s[at + 2]], s[at + 3..]);
      assert s[at..] == [s[at], s[at + 1], s[at + 2]] + s[at + 3..];
    } else if at < |s| {
      TailRoundTrip(table, s, at);
      DecodedStep(table, EncodeTail(table, s, at), "", s[at..], []);
      assert EncodeTail(table, s, at) + "" == EncodeTail(table, s, at) && s[at..] + [] == s[at..];
    } else {
      assert EncodeTail(table, s, at) == "" by { EmptyTail(table, s); }
      assert s[at..] == [];
    }
  }

  lemma EmptyTail(table: string, s: seq<byte>)
    requires |table| == 64
    ensures EncodeTail(table, s, |s|) == ""
  {}

  /** A decoder that follows the standard recovers every input. */
  lemma RoundTrip(table: string, s: seq<byte>)
    requires Usable(table)
    ensures Decoded(table, Encoded(table, s)) == Some(s)
  {
    RoundTripFrom(table, s, 0);
    assert s[0..] == s;
  }

  /** Distinct inputs have distinct encodings. */
  lemma Injective(s: seq<byte>, t: seq<byte>)
    requires Encoded(Alphabet(), s) == Encoded(Alphabet(), t)
    ensures s == t
  {
    AlphabetUsable();
    RoundTrip(Alphabet(), s);
    RoundTrip(Alphabet(), t);
  }

  function Padding(n: nat): nat {
    if n % 3 == 0 then 0 else 3 - n % 3
  }

  lemma ThreeFewer(n: nat)
    requires n >= 3
    ensures Padding(n) == Padding(n - 3) <= (n - 3 + 2) / 3 * 4
    ensures (n + 2) / 3 * 4 == (n - 3 + 2) / 3 * 4 + 4
  {}

  predicate PaddedAfter(table: string, e: string, body: int) {
    forall k :: 0 <= k < |e| ==> if k < body then e[k] in table else e[k] == '='
  }

  lemma PaddedAfterStep(table: string, quad: string, rest: string, body: int)
    requires |quad| == 4 && (forall k :: 0 <= k < 4 ==> quad[k] in table)
    requires PaddedAfter(table, rest, body) && body >= 0
    ensures PaddedAfter(table, quad + rest, body + 4)
  {
    forall k | 0 <= k < |quad + rest|
      ensures if k < body + 4 then (quad + rest)[k] in table else (quad + rest)[k] == '='
    {
      if k >= 4 { assert (quad + rest)[k] == rest[k - 4]; }
    }
  }

  lemma GroupShape(table: string, a: byte, b: byte, c: byte)
    requires |table| == 64
    ensures forall k :: 0 <= k < 4 ==> EncodeGroup(table, a, b, c)[k] in table
  {}

  lemma TailShape(table: string, s: seq<byte>, at: nat)
    requires |table| == 64 && at <= |s| < at + 3
    ensures |EncodeTail(table, s, at)| == (|s| - at + 2) / 3 * 4
    ensures PaddedAfter(table, EncodeTail(table, s, at), |EncodeTail(table, s, at)| - Padding(|s| - at))
  {
    if at < |s| { assert (|s| - at + 2) / 3 == 1; }
  }

  lemma {:induction false} ShapeFrom(table: string, s: seq<byte>, at: nat)
    requires |table| == 64 && at <= |s|
    ensures |EncodedFrom(table, s, at)| == (|s| - at + 2) / 3 * 4
    ensures PaddedAfter(table, EncodedFrom(table, s, at), |EncodedFrom(table, s, at)| - Padding(|s| - at))
    decreases |s| - at
  {
    hide EncodeGroup, EncodeTail, Padding, PaddedAfter;
    if at + 3 <= |s| {
      ShapeFrom(table, s, at + 3);
      ThreeFewer(|s| - at);
      GroupShape(table, s[at], s[at + 1], s[at + 2]);
      PaddedAfterStep(table, EncodeGroup(table, s[at], s[at + 1], s[at + 2]), EncodedFrom(table, s, at + 3),
                      |EncodedFrom(table, s, at + 3)| - Padding(|s| - at - 3));
    } else {
      TailShape(table, s, at);
    }
  }

  /** Length 4*ceil(n/3): symbols of the table, then exactly the padding the length calls for. */
  lemma Shape(table: string, s: seq<byte>)
    requires |table| == 64
    ensures |Encoded(table, s)| == (|s| + 2) / 3 * 4
    ensures PaddedAfter(table, Encoded(table, s), |Encoded(table, s)| - Padding(|s|))
  {
    ShapeFrom(table, s, 0);
  }

  // ---------- the 24-bit groups of section 4 ----------

  /** Four sextets side by side, and three bytes side by side. */
  function Sextets(v0: sextet, v1: sextet, v2: sextet, v3: sextet): bv24 {
    ((v0 as bv24) << 18) | ((v1 as bv24) << 12) | ((v2 as bv24) << 6) | (v3 as bv24)
  }

  function Octets(a: byte, b: byte, c: byte): bv24 {
    ((a as bv24) << 16) | ((b as bv24) << 8) | (c as bv24)
  }

  lemma CutsAreTheGroup(a: byte, b: byte, c: byte)
    ensures Sextets(Cut0(a), Cut1(a, b), Cut2(b, c), Cut3(c)) == Octets(a, b, c)
  {}

  lemma {:induction false} GroupAt(table: string, s: seq<byte>, at: nat, k: nat)
    requires |table| == 64 && at + 3 * k < |s|
    ensures |EncodedFrom(table, s, at)| >= 4 * k + 4
    ensures EncodedFrom(table, s, at)[4 * k..4 * k + 4] == EncodedFrom(table, s, at + 3 * k)[..4]
    ensures |EncodedFrom(table, s, at + 3 * k)| >= 4
    decreases k
  {
    hide EncodeGroup, EncodeTail, Padding;
    if k == 0 {
      ShapeFrom(table, s, at);
    } else {
      GroupAt(table, s, at + 3, k - 1);
      var g, rest := EncodeGroup(table, s[at], s[at + 1], s[at + 2]), EncodedFrom(table, s, at + 3);
      assert (g + rest)[4 * k..4 * k + 4] == rest[4 * (k - 1)..4 * (k - 1) + 4];
    }
  }

  /**
    Symbols 4k to 4k + 3 stand for the k-th three bytes, taken as one group of 24 bits from the left; where
    bytes are missing at the end, zeros fill the last sextet and '=' takes the place of the others.
   */
  lemma GroupsOfSix(table: string, s: seq<byte>, k: nat) returns (v0: sextet, v1: sextet, v2: sextet, v3: sextet)
    requires |table| == 64 && 3 * k < |s|
    ensures |Encoded(table, s)| >= 4 * k + 4
    ensures var e, left := Encoded(table, s), |s| - 3 * k;
            && Sextets(v0, v1, v2, v3) ==
                 Octets(s[3 * k], if left > 1 then s[3 * k + 1] else 0, if left > 2 then s[3 * k + 2] else 0)
            && e[4 * k..4 * k + 4] == [table[v0 as int], table[v1 as int],
                                       if left > 1 then table[v2 as int] else '=',
                                       if left > 2 then table[v3 as int] else '=']
  {
    hide Sextets, Octets, Cut0, Cut1, Cut2, Cut3, EncodedFrom;
    var a, b, c := s[3 * k], if |s| > 3 * k + 1 then s[3 * k + 1] else 0, if |s| > 3 * k + 2 then s[3 * k + 2] else 0;
    v0, v1, v2, v3 := Cut0(a), Cut1(a, b), Cut2(b, c), Cut3(c);
    CutsAreTheGroup(a, b, c);
    GroupAt(table, s, 0, k);
    FirstFour(table, s, 3 * k, a, b, c);
  }

  lemma FirstFour(table: string, s: seq<byte>, at: nat, a: byte, b: byte, c: byte)
    requires |table| == 64 && at < |s| && s[at] == a
    requires b == (if at + 1 < |s| then s[at + 1] else 0) && c == (if at + 2 < |s| then s[at + 2] else 0)
    ensures var e, left := EncodedFrom(table, s, at), |s| - at;
            && |e| >= 4
            && e[..4] == [table[Cut0(a) as int], table[Cut1(a, b) as int],
                          if left > 1 then table[Cut2(b, c) as int] else '=',
                          if left > 2 then table[Cut3(c) as int] else '=']
  {
    hide Cut0, Cut1, Cut2, Cut3;
  }
}
