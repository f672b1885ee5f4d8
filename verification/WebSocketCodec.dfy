/**
  WebSocket framing (src/mqtt/websocket_codec.cpp; sections 5.2 and 5.3 of RFC 6455).
 */
module WebSocketCodec {
  import opened Bytes

  datatype Frame = Frame(fin: bool, opcode: byte, payload: seq<byte>)

  /**
    `Incomplete` is the source's return value 0.  `LengthError` is the exception of
    `payload.resize`: it is reached when header and payload length together wrap
    around 2^64, so that the incompleteness test passes for an impossible length.
   */
  datatype DecodeResult = Incomplete | LengthError | Decoded(frame: Frame, consumed: nat)

  // ---------- decoding ----------

  function ExtraLengthBytes(b1: byte): nat {
    if b1 % 128 == 126 then 2 else if b1 % 128 == 127 then 8 else 0
  }

  function HeaderLen(b1: byte): nat {
    2 + ExtraLengthBytes(b1) + (if b1 >= 128 then 4 else 0)
  }

  function PayloadLen(data: seq<byte>): nat
    requires |data| >= 2 && |data| >= 2 + ExtraLengthBytes(data[1])
  {
    if ExtraLengthBytes(data[1]) == 0 then data[1] % 128
    else FromBigEndian(data[2..2 + ExtraLengthBytes(data[1])])
  }

  function Unmask(data: seq<byte>, mask: seq<byte>): (r: seq<byte>)
    requires |mask| == 4
    ensures |r| == |data|
  {
    seq(|data|, i requires 0 <= i < |data| => Xor(data[i], mask[i % 4]))
  }

  /** The payload behind a complete header. */
  function Payload(data: seq<byte>, len: nat): seq<byte>
    requires |data| >= 2 && |data| >= HeaderLen(data[1]) + len
  {
    var h := HeaderLen(data[1]);
    if data[1] >= 128 then Unmask(data[h..h + len], data[h - 4..h]) else data[h..h + len]
  }

  function Decode(data: seq<byte>): DecodeResult {
    if |data| < 2 || |data| < HeaderLen(data[1]) then Incomplete
    else
      var h, len := HeaderLen(data[1]), PayloadLen(data);
      if |data| < (h + len) % TWO_64 then Incomplete
      else if h + len >= TWO_64 then LengthError
      else Decoded(Frame(data[0] >= 128, data[0] % 16, Payload(data, len)), h + len)
  }

  method DecodeFrame(data: seq<byte>) returns (r: DecodeResult)
    ensures r == Decode(data)
  {
    hide Xor, FromBigEndian, Unmask;
    if |data| < 2 { return Incomplete; }
    var b0, b1 := data[0], data[1];
    var fin, opcode := b0 >= 128, b0 % 16;
    var masked := b1 >= 128;
    var payloadLen: nat := b1 % 128;
    var headerLen := 2;

    if payloadLen == 126 {
      if |data| < 4 { return Incomplete; }
      payloadLen := data[2] as int * 256 + data[3];
      headerLen := headerLen + 2;
      TwoBytes(data[2..4]);
    } else if payloadLen == 127 {
      if |data| < 10 { return Incomplete; }
      payloadLen := ReadLength64(data);
      headerLen := headerLen + 8;
    }

    var mask: seq<byte> := [0, 0, 0, 0];
    if masked {
      if |data| < headerLen + 4 { return Incomplete; }
      mask := data[headerLen..headerLen + 4];
      headerLen := headerLen + 4;
    }

    assert headerLen == HeaderLen(b1) && payloadLen == PayloadLen(data);
    LengthBelow64(data);
    if |data| < (headerLen + payloadLen) % TWO_64 { return Incomplete; }
    if headerLen + payloadLen >= TWO_64 { return LengthError; }

    var payload: seq<byte>;
    if masked {
      payload := UnmaskLoop(data[headerLen..headerLen + payloadLen], mask);
    } else {
      payload := data[headerLen..headerLen + payloadLen];
    }
    return Decoded(Frame(fin, opcode, payload), headerLen + payloadLen);
  }

  /** The eight length bytes of the long form, most significant first. */
  method ReadLength64(data: seq<byte>) returns (len: nat)
    requires |data| >= 10
    ensures len == FromBigEndian(data[2..10])
  {
    len := 0;
    var i := 0;
    while i < 8
      invariant 0 <= i <= 8
      invariant len == FromBigEndian(data[2..2 + i])
    {
      assert data[2..2 + i + 1][..i] == data[2..2 + i];
      len := len * 256 + data[2 + i];
      i := i + 1;
    }
  }

  method UnmaskLoop(src: seq<byte>, mask: seq<byte>) returns (payload: seq<byte>)
    requires |mask| == 4
    ensures payload == Unmask(src, mask)
  {
    payload := [];
    var i := 0;
    while i < |src|
      invariant i == |payload| <= |src|
      invariant forall k :: 0 <= k < i ==> payload[k] == Xor(src[k], mask[k % 4])
    {
      payload := payload + [Xor(src[i], mask[i % 4])];
      i := i + 1;
    }
  }

  lemma TwoBytes(s: seq<byte>)
    requires |s| == 2
    ensures FromBigEndian(s) == s[0] as int * 256 + s[1]
  {
    assert s[..1] == [s[0]];
    assert FromBigEndian(s[..1]) == FromBigEndian([]) * 256 + s[0];
  }

  lemma LengthBelow64(data: seq<byte>)
    requires |data| >= 2 && |data| >= 2 + ExtraLengthBytes(data[1])
    ensures PayloadLen(data) < TWO_64
  {
    Pow256Values();
    if ExtraLengthBytes(data[1]) > 0 {
      FromBigEndianBound(data[2..2 + ExtraLengthBytes(data[1])]);
    }
  }

  /** Every decoded frame takes at least two bytes, all of them present. */
  lemma ConsumedBounds(data: seq<byte>)
    requires Decode(data).Decoded?
    ensures 2 <= Decode(data).consumed <= |data|
  {}

  lemma LengthStable(data: seq<byte>, more: seq<byte>)
    requires |data| >= 2 && |data| >= 2 + ExtraLengthBytes(data[1])
    ensures PayloadLen(data + more) == PayloadLen(data)
  {
    var e := 2 + ExtraLengthBytes(data[1]);
    assert (data + more)[2..e] == data[2..e];
  }

  lemma PayloadStable(data: seq<byte>, more: seq<byte>, len: nat)
    requires |data| >= 2 && |data| >= HeaderLen(data[1]) + len
    ensures Payload(data + more, len) == Payload(data, len)
  {
    hide Unmask;
    var h := HeaderLen(data[1]);
    SliceOfPrefix(data, more, h, h + len);
    if data[1] >= 128 { SliceOfPrefix(data, more, h - 4, h); }
    hide HeaderLen;
  }

  lemma SliceOfPrefix(data: seq<byte>, more: seq<byte>, i: nat, j: nat)
    requires i <= j <= |data|
    ensures (data + more)[i..j] == data[i..j]
  {}

  /** Once decoded, or once refused, more bytes change nothing. */
  lemma DecodeStable(data: seq<byte>, more: seq<byte>)
    requires Decode(data) != Incomplete
    ensures Decode(data + more) == Decode(data)
  {
    LengthStable(data, more);
    LengthBelow64(data);
    if HeaderLen(data[1]) + PayloadLen(data) < TWO_64 {
      PayloadStable(data, more, PayloadLen(data));
    }
  }

  /** The bytes a frame takes are enough to decode it. */
  lemma ConsumedSuffices(data: seq<byte>, k: nat)
    requires Decode(data).Decoded? && Decode(data).consumed <= k <= |data|
    ensures Decode(data[..k]) == Decode(data)
  {
    var d := data[..k];
    assert d + data[k..] == data;
    LengthStable(d, data[k..]);
    PayloadStable(d, data[k..], PayloadLen(d));
  }

  lemma PrefixIncomplete(data: seq<byte>, k: nat)
    requires k <= |data| && Decode(data) == Incomplete
    ensures Decode(data[..k]) == Incomplete
  {
    assert data == data[..k] + data[k..];
    if Decode(data[..k]) != Incomplete {
      DecodeStable(data[..k], data[k..]);
    }
  }

  // ---------- encoding ----------

  /** The length field of section 5.2 in its three forms; maskBit is 0 or 128. */
  function LengthField(len: nat, maskBit: byte): seq<byte>
    requires maskBit == 0 || maskBit == 128
  {
    if len <= 125 then [maskBit + len]
    else if len <= 65535 then [maskBit + 126] + BigEndian(len, 2)
    else [maskBit + 127] + BigEndian(len, 8)
  }

  function Encode(payload: seq<byte>, opcode: byte): seq<byte> {
    [128 + opcode % 16] + LengthField(|payload|, 0) + payload
  }

  /** A client's frame: the same header with the mask bit, the mask, and the masked payload. */
  function EncodeMasked(payload: seq<byte>, opcode: byte, mask: seq<byte>): seq<byte>
    requires |mask| == 4
  {
    [128 + opcode % 16] + LengthField(|payload|, 128) + mask + Unmask(payload, mask)
  }

  /** len >> (8 * k). */
  function ShiftBytes(n: nat, k: nat): nat {
    if k == 0 then n else ShiftBytes(n, k - 1) / 256
  }

  method EncodeFrame(payload: seq<byte>, opcode: byte) returns (frame: seq<byte>)
    ensures frame == Encode(payload, opcode)
  {
    var len := |payload|;
    frame := [128 + opcode % 16];
    if len <= 125 {
      frame := frame + [len];
    } else if len <= 65535 {
      frame := frame + [126];
      assert BigEndian(len, 2) == BigEndian(len / 256, 1) + [len % 256];
      assert BigEndian(len / 256, 1) == BigEndian(len / 256 / 256, 0) + [len / 256 % 256];
      frame := frame + [len / 256 % 256];
      frame := frame + [len % 256];
    } else {
      frame := frame + [127];
      ghost var start := frame;
      var i := 7;
      while i >= 0
        invariant -1 <= i <= 7
        invariant frame == start + BigEndian(ShiftBytes(len, i + 1), 7 - i)
      {
        frame := frame + [ShiftBytes(len, i) % 256];
        i := i - 1;
      }
    }
    frame := frame + payload;
  }

  /** Reading back the header of a frame, masked or not, with anything after it. */
  lemma HeaderRoundTrip(first: byte, len: nat, maskBit: byte, rest: seq<byte>)
    requires maskBit == 0 || maskBit == 128
    requires len < TWO_64
    ensures var data := [first] + LengthField(len, maskBit) + rest;
            && |data| >= 2
            && data[0] == first
            && (data[1] >= 128) == (maskBit == 128)
            && 2 + ExtraLengthBytes(data[1]) == 1 + |LengthField(len, maskBit)|
            && PayloadLen(data) == len
  {
    hide FromBigEndian, BigEndian;
    if len <= 125 {
      assert [first] + LengthField(len, maskBit) + rest == [first] + [maskBit + len] + rest;
    } else if len <= 65535 {
      LongHeader(first, maskBit + 126, len, 2, rest);
    } else {
      LongHeader(first, maskBit + 127, len, 8, rest);
    }
  }

  /** A length in `width` bytes behind the second byte. */
  lemma LongHeader(first: byte, second: byte, len: nat, width: nat, rest: seq<byte>)
    requires ExtraLengthBytes(second) == width && width > 0
    requires if width == 2 then len <= 65535 else len < TWO_64 && width == 8
    ensures var data := [first] + ([second] + BigEndian(len, width)) + rest;
            && |BigEndian(len, width)| == width
            && |data| >= 2 + width && data[0] == first && data[1] == second && PayloadLen(data) == len
  {
    hide FromBigEndian, BigEndian;
    var data := [first] + ([second] + BigEndian(len, width)) + rest;
    assert data[1] == second;
    assert data[2..2 + width] == BigEndian(len, width);
    Pow256Values();
    BigEndianRoundTrip(len, width);
  }

  /** Over all three length classes, and with any bytes following. */
  lemma RoundTrip(payload: seq<byte>, opcode: byte, rest: seq<byte>)
    requires |payload| + 10 < TWO_64
    ensures Decode(Encode(payload, opcode) + rest)
            == Decoded(Frame(true, opcode % 16, payload), |Encode(payload, opcode)|)
  {
    hide Decode, FromBigEndian, PayloadLen, LengthField;
    var field := LengthField(|payload|, 0);
    var data := Encode(payload, opcode) + rest;
    HeaderRoundTrip(128 + opcode % 16, |payload|, 0, payload + rest);
    assert data == [128 + opcode % 16] + field + (payload + rest);
    var h := HeaderLen(data[1]);
    assert data[h..h + |payload|] == payload;
    DecodeComplete(data, |payload|);
  }

  /** A frame that is there completely decodes. */
  lemma DecodeComplete(data: seq<byte>, len: nat)
    requires |data| >= 2 && |data| >= HeaderLen(data[1]) + len && PayloadLen(data) == len
    requires HeaderLen(data[1]) + len < TWO_64
    ensures Decode(data) ==
            Decoded(Frame(data[0] >= 128, data[0] % 16, Payload(data, len)), HeaderLen(data[1]) + len)
  {
    hide Payload, PayloadLen, HeaderLen;
  }

  lemma UnmaskTwice(payload: seq<byte>, mask: seq<byte>)
    requires |mask| == 4
    ensures Unmask(Unmask(payload, mask), mask) == payload
  {
    hide Xor;
    var masked := Unmask(payload, mask);
    forall i | 0 <= i < |payload|
      ensures Unmask(masked, mask)[i] == payload[i]
    {
      XorTwice(payload[i], mask[i % 4]);
    }
  }

  /** A masked frame decodes to its unmasked payload. */
  lemma MaskedRoundTrip(payload: seq<byte>, opcode: byte, mask: seq<byte>, rest: seq<byte>)
    requires |payload| + 14 < TWO_64 && |mask| == 4
    ensures Decode(EncodeMasked(payload, opcode, mask) + rest)
            == Decoded(Frame(true, opcode % 16, payload), |EncodeMasked(payload, opcode, mask)|)
  {
    hide Decode, Unmask, PayloadLen, LengthField;
    var field := LengthField(|payload|, 128);
    var masked := Unmask(payload, mask);
    var data := EncodeMasked(payload, opcode, mask) + rest;
    HeaderRoundTrip(128 + opcode % 16, |payload|, 128, mask + masked + rest);
    assert data == [128 + opcode % 16] + field + (mask + masked + rest);
    var h := HeaderLen(data[1]);
    assert data[h - 4..h] == mask && data[h..h + |payload|] == masked;
    UnmaskTwice(payload, mask);
    DecodeComplete(data, |payload|);
  }

  /** No proper prefix of a frame decodes to anything. */
  lemma ProperPrefixIncomplete(payload: seq<byte>, opcode: byte, k: nat)
    requires |payload| + 10 < TWO_64
    requires k < |Encode(payload, opcode)|
    ensures Decode(Encode(payload, opcode)[..k]) == Incomplete
  {
    var e := Encode(payload, opcode);
    RoundTrip(payload, opcode, []);
    assert e + [] == e && e == e[..k] + e[k..];
    if Decode(e[..k]) != Incomplete {
      DecodeStable(e[..k], e[k..]);
    }
  }

  // ---------- the bytes on the wire, in the words of RFC 6455 ----------

  /** The header that section 5.2 draws: FIN and opcode, then the length in 7, 16 or 64 bits. */
  lemma EncodedLayout(payload: seq<byte>, opcode: byte)
    requires opcode < 16 && |payload| < TWO_64
    ensures var e := Encode(payload, opcode);
            && |e| >= 2 && e[0] == 128 + opcode
            && (|payload| <= 125 ==> e == [128 + opcode, |payload|] + payload)
            && (125 < |payload| <= 65535 ==>
                  |e| == 4 + |payload| && e[1] == 126 && 256 * e[2] as int + e[3] == |payload| && e[4..] == payload)
            && (|payload| > 65535 ==>
                  |e| == 10 + |payload| && e[1] == 127 && e[10..] == payload
                  && forall at :: 2 <= at < 10 ==> e[at] == |payload| / Pow256(9 - at) % 256)
  {
    var e, len := Encode(payload, opcode), |payload|;
    if 125 < len <= 65535 {
      hide Pow256;
      assert BigEndian(len, 2) == BigEndian(len / 256, 1) + [len % 256];
      assert BigEndian(len / 256, 1) == BigEndian(len / 256 / 256, 0) + [len / 256 % 256];
      assert e[2..4] == Be16(len);
      Be16Holds(len);
    } else if len > 65535 {
      hide Pow256, BigEndian;
      forall at | 2 <= at < 10
        ensures e[at] == len / Pow256(9 - at) % 256
      {
        assert e[at] == BigEndian(len, 8)[at - 2];
        BigEndianByte(len, 8, at - 2);
      }
    }
  }

  /** What the header of a decoded frame says: section 5.2 again, read from the other side. */
  lemma DecodedHeader(data: seq<byte>)
    requires Decode(data).Decoded?
    ensures var Decoded(f, n) := Decode(data);
            var from := n - |f.payload|;
            var len7, masked := data[1] % 128, data[1] >= 128;
            && 2 <= |data| && n <= |data|
            && (f.fin <==> Bit(data[0], 7) == 1) && f.opcode == data[0] % 16
            && from == (if len7 == 126 then 4 else if len7 == 127 then 10 else 2) + (if masked then 4 else 0)
            && |f.payload| == if len7 == 126 then 256 * data[2] as int + data[3]
                              else if len7 == 127 then FromBigEndian(data[2..10]) else len7
  {
    hide FromBigEndian, Unmask;
    if data[1] % 128 == 126 { TwoBytes(data[2..4]); }
    TopBit(data[0]);
  }

  /**
    Undecided is exactly what is not there completely, header or payload; a header whose frame would
    have 2^64 bytes or more is refused, however many bytes follow it.
   */
  lemma UndecodedWhy(data: seq<byte>)
    ensures Decode(data) == Incomplete <==>
              || |data| < 2
              || |data| < HeaderLen(data[1])
              || |data| < HeaderLen(data[1]) + PayloadLen(data) < TWO_64
    ensures Decode(data) == LengthError <==>
              |data| >= 2 && |data| >= HeaderLen(data[1]) && HeaderLen(data[1]) + PayloadLen(data) >= TWO_64
  {
    if |data| >= 2 && |data| >= HeaderLen(data[1]) {
      hide FromBigEndian, Payload, PayloadLen;
      LengthBelow64(data);
      WrapsBelow(HeaderLen(data[1]), PayloadLen(data));
    }
  }

  lemma WrapsBelow(h: nat, len: nat)
    requires len < TWO_64 && h <= 14
    ensures (h + len) % TWO_64 == if h + len < TWO_64 then h + len else h + len - TWO_64
  {}

  lemma TopBit(b: byte)
    ensures Bit(b, 7) == 1 <==> b >= 128
  {
    hide Bit;
    BitStep(b, 7);
    BitStep(b / 2, 6);
    BitStep(b / 4, 5);
    BitStep(b / 8, 4);
    BitStep(b / 16, 3);
    BitStep(b / 32, 2);
    BitStep(b / 64, 1);
    BitStep(b / 128, 0);
  }

  /**
    Section 5.3: each bit of a masked payload is the bit on the wire plus the bit of the masking
    key, modulo 2, the four bytes of the key being used in turn.  Without a mask the payload is
    what is on the wire.
   */
  lemma DecodedPayload(data: seq<byte>)
    requires Decode(data).Decoded?
    ensures var Decoded(f, n) := Decode(data);
            var from := n - |f.payload|;
            && 0 <= from <= n <= |data|
            && (data[1] < 128 ==> f.payload == data[from..n])
            && (data[1] >= 128 ==> from >= 4 && forall i, k :: 0 <= i < |f.payload| && 0 <= k < 8 ==>
                  Bit(f.payload[i], k) == (Bit(data[from + i], k) + Bit(data[from - 4 + i % 4], k)) % 2)
  {
    hide FromBigEndian, Xor, Bit;
    var Decoded(f, n) := Decode(data);
    var from := n - |f.payload|;
    if data[1] >= 128 {
      forall i, k | 0 <= i < |f.payload| && 0 <= k < 8
        ensures Bit(f.payload[i], k) == (Bit(data[from + i], k) + Bit(data[from - 4 + i % 4], k)) % 2
      {
        var wire, mask := data[from..n], data[from - 4..from];
        assert f.payload[i] == Xor(wire[i], mask[i % 4]);
        XorIsBitwise(wire[i], mask[i % 4], k);
      }
    }
  }

  lemma PowersOfTwo()
    ensures Pow2(7) == 128 && Pow2(6) == 64
  {
    assert Pow2(3) == 8;
    assert Pow2(6) == 2 * Pow2(5) && Pow2(5) == 2 * Pow2(4) && Pow2(4) == 2 * Pow2(3);
  }

  lemma XorOfPing()
    ensures Xor(0xC1, 0x01) == 0xC0 && Xor(0x02, 0x02) == 0x00
  {
    hide XorBits, Pow2;
    assert Pow2(7) > 96 && Pow2(6) > 0 by { PowersOfTwo(); }
    XorStep(0xC1, 0x01, 8);
    XorBitsZero(96, 7);
    XorStep(0x02, 0x02, 8);
    XorStep(1, 1, 7);
    XorBitsZero(0, 6);
  }

  lemma UnmaskTwoBytes(a: byte, b: byte, mask: seq<byte>)
    requires |mask| == 4
    ensures Unmask([a, b], mask) == [Xor(a, mask[0]), Xor(b, mask[1])]
  {
    hide Xor;
  }

  /** A client's PINGREQ under the masking key 01 02 03 04. */
  lemma MaskedPing()
    ensures Decode([0x82, 0x82, 0x01, 0x02, 0x03, 0x04, 0xC1, 0x02]) == Decoded(Frame(true, 2, [0xC0, 0x00]), 8)
  {
    hide Xor, Unmask, Decode, FromBigEndian;
    var data := [0x82, 0x82, 0x01, 0x02, 0x03, 0x04, 0xC1, 0x02];
    assert HeaderLen(0x82) == 6 && PayloadLen(data) == 2;
    hide HeaderLen, PayloadLen;
    DecodeComplete(data, 2);
    PayloadOfPing(data);
  }

  lemma PayloadOfPing(data: seq<byte>)
    requires data == [0x82, 0x82, 0x01, 0x02, 0x03, 0x04, 0xC1, 0x02]
    ensures |data| >= HeaderLen(data[1]) + 2 && Payload(data, 2) == [0xC0, 0x00]
  {
    hide Xor, Unmask;
    XorOfPing();
    assert data[6..8] == [0xC1, 0x02];
    UnmaskTwoBytes(0xC1, 0x02, data[2..6]);
  }
}
