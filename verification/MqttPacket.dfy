/**
  MQTT packets (src/mqtt/mqtt_packet.cpp).

  Each packet function has a specification over the whole packet (`...Spec`) and a
  method that works through the bytes as the source does.  A thrown exception and a
  `false` result are both `None`: every decoder catches its own exceptions.
 */
module MqttPacket {
  import opened Bytes
  import opened Wrappers

  const TWO_21: nat := 2097152

  datatype Publish = Publish(topic: seq<byte>, payload: seq<byte>, packetId: nat, qos: nat, retain: bool)
  datatype Connect = Connect(clientId: seq<byte>, username: seq<byte>, password: seq<byte>, keepAlive: nat)
  datatype Subscribe = Subscribe(packetId: nat, topics: seq<seq<byte>>)

  // ---------- remaining length ----------

  function EncodeLength(n: nat): seq<byte> {
    if n < 128 then [n] else [128 + n % 128] + EncodeLength(n / 128)
  }

  method EncodeRemainingLength(length: nat, buf: seq<byte>) returns (out: seq<byte>)
    ensures out == buf + EncodeLength(length)
  {
    out := buf;
    var n := length;
    var more := true;
    while more
      invariant more ==> out + EncodeLength(n) == buf + EncodeLength(length)
      invariant !more ==> out == buf + EncodeLength(length)
      decreases more, n
    {
      var d := n % 128;
      n := n / 128;
      if n > 0 {
        d := d + 128;
      } else {
        more := false;
      }
      out := out + [d];
    }
  }

  /**
    The value of the length field at index `at` after `k` bytes of it, with the number of
    bytes it takes.  The multiplier check refuses the fourth byte, whatever it holds.
   */
  function DecodeLength(data: seq<byte>, at: nat, k: nat): (r: Option<(nat, nat)>)
    ensures r.Some? ==> at < at + r.value.1 <= |data|
    decreases 4 - k
  {
    if at >= |data| || k >= 3 then None
    else if data[at] < 128 then Some((data[at], 1))
    else
      var rest :- DecodeLength(data, at + 1, k + 1);
      Some((data[at] % 128 + 128 * rest.0, 1 + rest.1))
  }

  function Pow128(k: nat): nat {
    if k == 0 then 1 else 128 * Pow128(k - 1)
  }

  /** x in the place of digit k of the field, for the places the loop reaches. */
  function Place(k: nat, x: int): int {
    if k == 0 then x else if k == 1 then 128 * x else if k == 2 then 16384 * x else 2097152 * x
  }

  method DecodeRemainingLength(data: seq<byte>, start: nat) returns (r: Option<(nat, nat)>)
    ensures r == DecodeLength(data, start, 0)
  {
    var multiplier, value, read := 1, 0, 0;
    ghost var whole := DecodeLength(data, start, 0);
    hide DecodeLength, Place;
    PlacesOf(0);
    while true
      invariant 0 <= read <= 3 && multiplier == Place(read, 1) && value >= 0
      invariant Sum(value, read, DecodeLength(data, start + read, read)) == whole
      decreases 4 - read
    {
      LengthTurn(data, start + read, read, value);
      PlacesOf(read);
      if start + read >= |data| { return None; }
      var b := data[start + read];
      read := read + 1;
      value := value + Times(b % 128, multiplier);
      multiplier := multiplier * 128;
      if multiplier > 128 * 128 * 128 { return None; }
      if b < 128 { return Some((value, read)); }
    }
  }

  /** What has been read so far, with what the rest of the field gives. */
  function Sum(value: int, read: nat, rest: Option<(nat, nat)>): Option<(int, nat)> {
    if rest.None? then None else Some((value + Place(read, rest.value.0), read + rest.value.1))
  }

  lemma PlacesOf(k: nat)
    ensures k == 0 ==> Place(k, 1) == 1
    ensures k < 3 ==> Place(k + 1, 1) == 128 * Place(k, 1)
    ensures Place(k, 1) == (if k == 0 then 1 else if k == 1 then 128 else if k == 2 then 16384 else 2097152)
  {}

  /** One turn of the loop. */
  lemma LengthTurn(data: seq<byte>, at: nat, k: nat, value: int)
    requires k <= 3
    ensures var all := Sum(value, k, DecodeLength(data, at, k));
            if at >= |data| || k == 3 then all == None
            else
              var more := value + (data[at] % 128) * Place(k, 1);
              all == if data[at] < 128 then Some((more, k + 1)) else Sum(more, k + 1, DecodeLength(data, at + 1, k + 1))
  {}

  /** A product whose second factor is one of the multipliers. */
  function Times(digit: nat, multiplier: int): (r: int)
    ensures r == digit * multiplier
  {
    if multiplier == 1 then digit
    else if multiplier == 128 then digit * 128
    else if multiplier == 16384 then digit * 16384
    else digit * multiplier
  }

  lemma PowersOf128()
    ensures Pow128(0) == 1 && Pow128(1) == 128 && Pow128(2) == 16384 && Pow128(3) == TWO_21
    ensures Pow128(4) == 128 * TWO_21
  {
    assert Pow128(2) == 128 * Pow128(1) && Pow128(3) == 128 * Pow128(2) && Pow128(4) == 128 * Pow128(3);
  }

  lemma Pow128Step(k: nat)
    ensures Pow128(k) >= 1 && Pow128(k + 1) == 128 * Pow128(k) >= 128
  {
    if k > 0 { Pow128Step(k - 1); }
  }

  /** Where the encoding of n stands in the data, decoding from byte k of the field finds it, or refuses. */
  lemma {:induction false} LengthAt(data: seq<byte>, at: nat, n: nat, k: nat)
    requires k < 3 || (k == 3 && n > 0)
    requires at + |EncodeLength(n)| <= |data|
    requires data[at..at + |EncodeLength(n)|] == EncodeLength(n)
    ensures DecodeLength(data, at, k) == if n < Pow128(3 - k) then Some((n, |EncodeLength(n)|)) else None
    decreases n
  {
    var e := EncodeLength(n);
    assert data[at] == e[0];
    if k < 3 {
      Pow128Step(2 - k);
      if n >= 128 {
        SliceOfSlice(data, at, e, 1, |e|);
        LengthAt(data, at + 1, n / 128, k + 1);
      }
    }
  }

  /** Decoding inverts encoding exactly below 2^21. */
  lemma LengthRoundTrip(n: nat, rest: seq<byte>)
    ensures DecodeLength(EncodeLength(n) + rest, 0, 0) ==
            if n < TWO_21 then Some((n, |EncodeLength(n)|)) else None
  {
    var data := EncodeLength(n) + rest;
    assert data[0..|EncodeLength(n)|] == EncodeLength(n);
    LengthAt(data, 0, n, 0);
    PowersOf128();
  }

  /** The decoder of section 2.2.3 of MQTT 3.1.1: the same digits, but up to four of them. */
  function StandardLength(data: seq<byte>, k: nat): Option<nat>
    decreases 4 - k
  {
    if data == [] || k >= 4 then None
    else if data[0] < 128 then Some(data[0])
    else
      var rest :- StandardLength(data[1..], k + 1);
      Some(data[0] % 128 + 128 * rest)
  }

  lemma {:induction false} StandardInverts(n: nat, k: nat, rest: seq<byte>)
    requires k < 4 && n < Pow128(4 - k)
    ensures StandardLength(EncodeLength(n) + rest, k) == Some(n)
    decreases n
  {
    if n >= 128 {
      assert Pow128(4 - k) == 128 * Pow128(3 - k);
      assert (EncodeLength(n) + rest)[1..] == EncodeLength(n / 128) + rest;
      StandardInverts(n / 128, k + 1, rest);
    }
  }

  /** The four-byte lengths that the standard allows are all refused. */
  lemma FourByteLengthsRefused(n: nat, rest: seq<byte>)
    requires TWO_21 <= n < 128 * TWO_21
    ensures StandardLength(EncodeLength(n) + rest, 0) == Some(n)
    ensures DecodeLength(EncodeLength(n) + rest, 0, 0) == None
  {
    PowersOf128();
    StandardInverts(n, 0, rest);
    LengthRoundTrip(n, rest);
  }

  // ---------- fields ----------

  function ReadString(data: seq<byte>, at: nat): (r: Option<(seq<byte>, nat)>)
    ensures r.Some? ==> at + 2 <= r.value.1 <= |data|
  {
    if at + 2 > |data| then None
    else
      var len := data[at] as int * 256 + data[at + 1];
      if at + 2 + len > |data| then None else Some((data[at + 2..at + 2 + len], at + 2 + len))
  }

  function ReadU8(data: seq<byte>, at: nat): Option<(byte, nat)> {
    if at + 1 > |data| then None else Some((data[at], at + 1))
  }

  function ReadU16(data: seq<byte>, at: nat): Option<(nat, nat)> {
    if at + 2 > |data| then None else Some((data[at] as int * 256 + data[at + 1], at + 2))
  }

  /** The length prefix is cast to 16 bits; the characters are written whole. */
  function WriteString(s: seq<byte>): seq<byte> {
    Be16(|s| % 65536) + s
  }

  /** Reading where a string was written: all of it, or the prefix its 16-bit length names. */
  lemma StringAt(data: seq<byte>, at: nat, s: seq<byte>)
    requires at + 2 + |s| <= |data|
    requires data[at..at + 2 + |s|] == WriteString(s)
    ensures ReadString(data, at) == Some((s[..|s| % 65536], at + 2 + |s| % 65536))
  {
    var w := WriteString(s);
    var len := |s| % 65536;
    SliceOfSlice(data, at, w, 2, 2 + len);
    assert w[2..2 + len] == s[..len];
    assert data[at] == w[0] && data[at + 1] == w[1];
  }

  lemma U16At(data: seq<byte>, at: nat, n: nat)
    requires at + 2 <= |data| && n < 65536 && data[at..at + 2] == Be16(n)
    ensures ReadU16(data, at) == Some((n, at + 2))
  {
    assert data[at] == data[at..at + 2][0] && data[at + 1] == data[at..at + 2][1];
  }

  // ---------- PUBLISH ----------

  function PublishBody(topic: seq<byte>, payload: seq<byte>, qos: byte, packetId: nat): seq<byte> {
    WriteString(topic) + (if qos > 0 then Be16(packetId) else []) + payload
  }

  function EncodePublishSpec(topic: seq<byte>, payload: seq<byte>, qos: byte, packetId: nat): seq<byte> {
    var body := PublishBody(topic, payload, qos, packetId);
    [0x30 + 2 * (qos % 4)] + EncodeLength(|body|) + body
  }

  method EncodePublish(topic: seq<byte>, payload: seq<byte>, qos: byte, packetId: nat)
    returns (packet: seq<byte>)
    requires packetId < 65536
    ensures packet == EncodePublishSpec(topic, payload, qos, packetId)
  {
    var body := WriteString(topic);
    if qos > 0 {
      body := body + [packetId / 256 % 256];
      body := body + [packetId % 256];
    }
    body := body + payload;
    packet := [0x30 + 2 * (qos % 4)];
    packet := EncodeRemainingLength(|body|, packet);
    packet := packet + body;
    assert body == PublishBody(topic, payload, qos, packetId);
  }

  /** The fields behind the fixed header, which ends at `at`; the packet ends at `end`. */
  function PublishFields(data: seq<byte>, qos: nat, retain: bool, at: nat, end: nat): Option<Publish>
    requires end <= |data|
  {
    var topic :- ReadString(data, at);
    var id :- if qos > 0 then ReadU16(data, topic.1) else Some((0, topic.1));
    if id.1 > end then None
    else Some(Publish(topic.0, data[id.1..end], id.0, qos, retain))
  }

  function DecodePublishSpec(data: seq<byte>): Option<Publish> {
    if |data| < 2 then None
    else
      var len :- DecodeLength(data, 1, 0);
      var at := 1 + len.1;
      if |data| < at + len.0 then None
      else PublishFields(data, data[0] / 2 % 4, data[0] % 2 != 0, at, at + len.0)
  }

  method DecodePublish(data: seq<byte>) returns (r: Option<Publish>)
    ensures r == DecodePublishSpec(data)
  {
    hide ReadString, ReadU16, DecodeLength;
    if |data| < 2 { return None; }
    var header := data[0];
    var qos, retain := header / 2 % 4, header % 2 != 0;
    var len := DecodeRemainingLength(data, 1);
    if len.None? { return None; }
    var offset := 1 + len.value.1;
    if |data| < offset + len.value.0 { return None; }
    var topic := ReadString(data, offset);
    if topic.None? { return None; }
    offset := topic.value.1;
    var packetId := 0;
    if qos > 0 {
      var id := ReadU16(data, offset);
      if id.None? { return None; }
      packetId, offset := id.value.0, id.value.1;
    }
    var end := 1 + len.value.1 + len.value.0;
    if offset > end { return None; }
    return Some(Publish(topic.value.0, data[offset..end], packetId, qos, retain));
  }

  /** A PUBLISH with any trailing bytes decodes to what was encoded, exactly within the two length bounds. */
  lemma PublishRoundTrip(topic: seq<byte>, payload: seq<byte>, qos: byte, packetId: nat, rest: seq<byte>)
    requires qos <= 2 && packetId < 65536
    ensures var sent := Publish(topic, payload, if qos > 0 then packetId else 0, qos, false);
            (DecodePublishSpec(EncodePublishSpec(topic, payload, qos, packetId) + rest) == Some(sent))
            <==> (|topic| < 65536 && |PublishBody(topic, payload, qos, packetId)| < TWO_21)
  {
    PublishHeader(topic, payload, qos, packetId, rest);
    if |PublishBody(topic, payload, qos, packetId)| < TWO_21 {
      if |topic| < 65536 {
        PublishWithin(topic, payload, qos, packetId, rest);
      } else {
        PublishTruncated(topic, payload, qos, packetId, rest);
      }
    }
  }

  lemma PublishWithin(topic: seq<byte>, payload: seq<byte>, qos: byte, packetId: nat, rest: seq<byte>)
    requires qos <= 2 && packetId < 65536
    requires |topic| < 65536 && |PublishBody(topic, payload, qos, packetId)| < TWO_21
    ensures DecodePublishSpec(EncodePublishSpec(topic, payload, qos, packetId) + rest)
            == Some(Publish(topic, payload, if qos > 0 then packetId else 0, qos, false))
  {
    var data := EncodePublishSpec(topic, payload, qos, packetId) + rest;
    var at := 1 + |EncodeLength(|PublishBody(topic, payload, qos, packetId)|)|;
    PublishHeader(topic, payload, qos, packetId, rest);
    FieldsAt(data, at, topic, payload, qos, packetId);
  }

  lemma FieldsAt(data: seq<byte>, at: nat, topic: seq<byte>, payload: seq<byte>, qos: byte, packetId: nat)
    requires packetId < 65536 && |topic| < 65536 && BodyAt(data, at, topic, payload, qos, packetId)
    ensures PublishFields(data, qos, false, at, at + |PublishBody(topic, payload, qos, packetId)|)
            == Some(Publish(topic, payload, if qos > 0 then packetId else 0, qos, false))
  {
    TopicAt(data, at, topic, payload, qos, packetId);
    assert topic[..|topic|] == topic;
    AfterTopic(data, at, topic, payload, qos, packetId);
    FieldsGivePublish(data, at, topic, payload, qos, packetId, at + |PublishBody(topic, payload, qos, packetId)|);
  }

  lemma FieldsGivePublish(data: seq<byte>, at: nat, topic: seq<byte>, payload: seq<byte>, qos: nat, packetId: nat,
                          end: nat)
    requires end <= |data| && ReadString(data, at) == Some((topic, at + 2 + |topic|))
    requires qos > 0 ==> ReadU16(data, at + 2 + |topic|) == Some((packetId, at + 4 + |topic|))
    requires var from := at + 2 + |topic| + (if qos > 0 then 2 else 0);
             from <= end && data[from..end] == payload
    ensures PublishFields(data, qos, false, at, end)
            == Some(Publish(topic, payload, if qos > 0 then packetId else 0, qos, false))
  {}

  /** A topic of 2^16 bytes or more comes back cut to the length that its 16-bit prefix names. */
  lemma PublishTruncated(topic: seq<byte>, payload: seq<byte>, qos: byte, packetId: nat, rest: seq<byte>)
    requires qos <= 2
    requires |topic| >= 65536 && |PublishBody(topic, payload, qos, packetId)| < TWO_21
    ensures var got := DecodePublishSpec(EncodePublishSpec(topic, payload, qos, packetId) + rest);
            got.Some? ==> |got.value.topic| < |topic|
  {
    var data := EncodePublishSpec(topic, payload, qos, packetId) + rest;
    var at := 1 + |EncodeLength(|PublishBody(topic, payload, qos, packetId)|)|;
    PublishHeader(topic, payload, qos, packetId, rest);
    TopicAt(data, at, topic, payload, qos, packetId);
  }

  lemma PublishHeader(topic: seq<byte>, payload: seq<byte>, qos: byte, packetId: nat, rest: seq<byte>)
    requires qos <= 2
    ensures var body := PublishBody(topic, payload, qos, packetId);
            var data := EncodePublishSpec(topic, payload, qos, packetId) + rest;
            && |data| >= 2
            && data[0] / 2 % 4 == qos && data[0] % 2 == 0
            && DecodeLength(data, 1, 0) ==
                 (if |body| < TWO_21 then Some((|body|, |EncodeLength(|body|)|)) else None)
            && BodyAt(data, 1 + |EncodeLength(|body|)|, topic, payload, qos, packetId)
  {
    var body := PublishBody(topic, payload, qos, packetId);
    var field := EncodeLength(|body|);
    var data := EncodePublishSpec(topic, payload, qos, packetId) + rest;
    assert data[1..1 + |field|] == field;
    LengthAt(data, 1, |body|, 0);
    PowersOf128();
    var at := 1 + |field|;
    assert data[at..at + |body|] == body;
  }

  predicate BodyAt(data: seq<byte>, at: nat, topic: seq<byte>, payload: seq<byte>, qos: byte, packetId: nat) {
    var body := PublishBody(topic, payload, qos, packetId);
    at + |body| <= |data| && data[at..at + |body|] == body
  }

  lemma TopicAt(data: seq<byte>, at: nat, topic: seq<byte>, payload: seq<byte>, qos: byte, packetId: nat)
    requires BodyAt(data, at, topic, payload, qos, packetId)
    ensures ReadString(data, at) == Some((topic[..|topic| % 65536], at + 2 + |topic| % 65536))
  {
    var body, w := PublishBody(topic, payload, qos, packetId), WriteString(topic);
    assert body[0..|w|] == w;
    SliceOfSlice(data, at, body, 0, |w|);
    StringAt(data, at, topic);
  }

  /** The packet id and the payload, read from behind the topic. */
  lemma AfterTopic(data: seq<byte>, at: nat, topic: seq<byte>, payload: seq<byte>, qos: byte, packetId: nat)
    requires packetId < 65536 && |topic| < 65536 && BodyAt(data, at, topic, payload, qos, packetId)
    ensures qos > 0 ==> ReadU16(data, at + 2 + |topic|) == Some((packetId, at + 4 + |topic|))
    ensures var head := 2 + |topic| + (if qos > 0 then 2 else 0);
            && |PublishBody(topic, payload, qos, packetId)| == head + |payload|
            && data[at + head..at + head + |payload|] == payload
  {
    var body, w := PublishBody(topic, payload, qos, packetId), WriteString(topic);
    if qos > 0 {
      assert body[|w|..|w| + 2] == Be16(packetId);
      SliceOfSlice(data, at, body, |w|, |w| + 2);
      U16At(data, at + |w|, packetId);
    }
    var head := |w| + (if qos > 0 then 2 else 0);
    assert body[head..|body|] == payload;
    SliceOfSlice(data, at, body, head, |body|);
  }

  // ---------- CONNECT ----------

  /** "MQTT" and "MQIsdp". */
  const PROTO_MQTT: seq<byte> := [77, 81, 84, 84]
  const PROTO_MQISDP: seq<byte> := [77, 81, 73, 115, 100, 112]

  function SkipWill(data: seq<byte>, at: nat): Option<nat> {
    var topic :- ReadString(data, at);
    var message :- ReadString(data, topic.1);
    Some(message.1)
  }

  function DecodeConnectSpec(data: seq<byte>): Option<Connect> {
    if |data| < 2 then None
    else
      var len :- DecodeLength(data, 1, 0);
      if |data| < 1 + len.1 + len.0 then None
      else
        var proto :- ReadString(data, 1 + len.1);
        if proto.0 != PROTO_MQTT && proto.0 != PROTO_MQISDP then None
        else
          var level :- ReadU8(data, proto.1);
          var flags :- ReadU8(data, level.1);
          var keepAlive :- ReadU16(data, flags.1);
          var clientId :- ReadString(data, keepAlive.1);
          var at :- if flags.0 / 4 % 2 == 1 then SkipWill(data, clientId.1) else Some(clientId.1);
          var user :- if flags.0 >= 128 then ReadString(data, at) else Some(([], at));
          var pass :- if flags.0 / 64 % 2 == 1 then ReadString(data, user.1) else Some(([], user.1));
          Some(Connect(clientId.0, user.0, pass.0, keepAlive.0))
  }

  method DecodeConnect(data: seq<byte>) returns (r: Option<Connect>)
    ensures r == DecodeConnectSpec(data)
  {
    if |data| < 2 { return None; }
    var len := DecodeRemainingLength(data, 1);
    if len.None? { return None; }
    var offset := 1 + len.value.1;
    if |data| < offset + len.value.0 { return None; }

    var proto :- ReadString(data, offset);
    if proto.0 != PROTO_MQTT && proto.0 != PROTO_MQISDP { return None; }
    var level :- ReadU8(data, proto.1);
    var flags :- ReadU8(data, level.1);
    var keepAlive :- ReadU16(data, flags.1);
    var clientId :- ReadString(data, keepAlive.1);
    offset := clientId.1;
    if flags.0 / 4 % 2 == 1 {
      var willTopic :- ReadString(data, offset);
      var willMessage :- ReadString(data, willTopic.1);
      offset := willMessage.1;
    }
    var username, password := [], [];
    if flags.0 >= 128 {
      var s :- ReadString(data, offset);
      username, offset := s.0, s.1;
    }
    if flags.0 / 64 % 2 == 1 {
      var s :- ReadString(data, offset);
      password, offset := s.0, s.1;
    }
    return Some(Connect(clientId.0, username, password, keepAlive.0));
  }

  // ---------- SUBSCRIBE ----------

  /** The topic filters from index `at` up to `end`: each is a string and a byte, three bytes at least. */
  function TopicsFrom(data: seq<byte>, at: nat, end: nat): Option<seq<seq<byte>>>
    decreases end as int - at
  {
    if at >= end then Some([])
    else
      var topic :- ReadString(data, at);
      var qos :- ReadU8(data, topic.1);
      var rest :- TopicsFrom(data, qos.1, end);
      Some([topic.0] + rest)
  }

  function DecodeSubscribeSpec(data: seq<byte>): Option<Subscribe> {
    if |data| < 2 then None
    else
      var len :- DecodeLength(data, 1, 0);
      var end := 1 + len.1 + len.0;
      if |data| < end then None
      else
        var id :- ReadU16(data, 1 + len.1);
        var topics :- TopicsFrom(data, id.1, end);
        Some(Subscribe(id.0, topics))
  }

  method DecodeSubscribe(data: seq<byte>) returns (r: Option<Subscribe>)
    ensures r == DecodeSubscribeSpec(data)
  {
    if |data| < 2 { return None; }
    var len := DecodeRemainingLength(data, 1);
    if len.None? { return None; }
    var offset := 1 + len.value.1;
    if |data| < offset + len.value.0 { return None; }
    var id :- ReadU16(data, offset);
    offset := id.1;
    var end := 1 + len.value.1 + len.value.0;
    var topics := ReadTopics(data, offset, end);
    if topics.None? { return None; }
    return Some(Subscribe(id.0, topics.value));
  }

  method ReadTopics(data: seq<byte>, start: nat, end: nat) returns (r: Option<seq<seq<byte>>>)
    ensures r == TopicsFrom(data, start, end)
  {
    var topics: seq<seq<byte>> := [];
    var offset := start;
    ghost var all := TopicsFrom(data, start, end);
    assert all.Some? ==> topics + all.value == all.value;
    while offset < end
      invariant all == var rest := TopicsFrom(data, offset, end);
                       if rest.None? then None else Some(topics + rest.value)
      decreases end as int - offset
    {
      ghost var turn := offset;
      var topic :- ReadString(data, offset);
      var qos :- ReadU8(data, topic.1);
      offset := qos.1;
      assert offset >= turn + 3;
      ghost var rest := TopicsFrom(data, offset, end);
      assert rest.Some? ==> topics + ([topic.0] + rest.value) == topics + [topic.0] + rest.value;
      topics := topics + [topic.0];
    }
    assert topics + [] == topics;
    return Some(topics);
  }
}
