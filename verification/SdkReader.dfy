/**
  How the C++ client cuts packets out of what it receives (sdk/cpp/src/apr_client.cpp).

  It reads a remaining length of one byte, whatever that byte's continuation bit says.
 */
module SdkReader {
  import opened Bytes
  import P = MqttPacket

  datatype Message = Message(topic: seq<byte>, payload: seq<byte>)

  /** The packet at the front: not all there, one whose topic does not fit, or taken with its n bytes. */
  datatype Packet = Partial | Broken | Taken(messages: seq<Message>, n: nat)

  /** `broken`: the std::string of a payload would need a negative length, and its constructor throws. */
  datatype Read = Read(messages: seq<Message>, offset: nat, broken: bool)

  function TopicLength(data: seq<byte>): nat
    requires |data| >= 4
  {
    256 * data[2] as int + data[3]
  }

  function Front(data: seq<byte>): (r: Packet)
    ensures r.Taken? ==> 2 <= r.n <= |data|
  {
    if |data| < 2 || |data| < 2 + data[1] as int then Partial
    else
      var n := 2 + data[1] as int;
      if data[0] / 16 != 3 then Taken([], n)
      else if n < 4 || 4 + TopicLength(data) > n then Broken
      else Taken([Message(data[4..4 + TopicLength(data)], data[4 + TopicLength(data)..n])], n)
  }

  /** The messages of all complete packets, and how many bytes those take. */
  function Packets(data: seq<byte>): Read {
    match Front(data)
    case Partial => Read([], 0, false)
    case Broken => Read([], 0, true)
    case Taken(messages, n) =>
      var rest := Packets(data[n..]);
      Read(messages + rest.messages, n + rest.offset, rest.broken)
  }

  /** The packet that starts at `offset`, in indices of the whole buffer. */
  lemma FrontAt(data: seq<byte>, offset: nat)
    requires offset <= |data|
    ensures var left := |data| - offset;
            Front(data[offset..]) ==
              if left < 2 || left < 2 + data[offset + 1] as int then Partial
              else
                var n := 2 + data[offset + 1] as int;
                if data[offset] / 16 != 3 then Taken([], n)
                else if n < 4 then Broken
                else
                  var topic := 256 * data[offset + 2] as int + data[offset + 3];
                  if 4 + topic > n then Broken
                  else Taken([Message(data[offset + 4..offset + 4 + topic], data[offset + 4 + topic..offset + n])], n)
  {
    var rest := data[offset..];
    if |rest| >= 4 {
      var topic, n := TopicLength(rest), 2 + rest[1] as int;
      if 4 + topic <= n <= |rest| {
        assert rest[4..4 + topic] == data[offset + 4..offset + 4 + topic];
        assert rest[4 + topic..n] == data[offset + 4 + topic..offset + n];
      }
    }
  }

  /** The packets from `offset` on, behind what has been read. */
  ghost function From(data: seq<byte>, offset: nat, messages: seq<Message>): Read
    requires offset <= |data|
  {
    var rest := Packets(data[offset..]);
    Read(messages + rest.messages, offset + rest.offset, rest.broken)
  }

  lemma Turn(data: seq<byte>, offset: nat, messages: seq<Message>)
    requires offset <= |data|
    ensures var front := Front(data[offset..]);
            From(data, offset, messages) ==
              match front
              case Partial => Read(messages, offset, false)
              case Broken => Read(messages, offset, true)
              case Taken(more, n) => From(data, offset + n, messages + more)
  {
    hide Front;
    var front := Front(data[offset..]);
    assert messages + [] == messages;
    if front.Taken? {
      assert data[offset..][front.n..] == data[offset + front.n..];
      var rest := Packets(data[offset + front.n..]).messages;
      assert messages + (front.messages + rest) == messages + front.messages + rest;
    }
  }

  method ProcessMqttBuffer(data: seq<byte>) returns (r: Read)
    ensures r == Packets(data)
  {
    hide Packets, Front, From;
    var offset := 0;
    var messages: seq<Message> := [];
    FromStart(data);
    while offset < |data|
      invariant offset <= |data| && From(data, offset, messages) == Packets(data)
    {
      FrontAt(data, offset);
      Turn(data, offset, messages);
      if |data| - offset < 2 { break; }
      var kind := data[offset] / 16;
      var packetLength := 2 + data[offset + 1] as int;
      if |data| - offset < packetLength { break; }
      if kind == 3 {
        if packetLength < 4 { return Read(messages, offset, true); }
        var topicLength := 256 * data[offset + 2] as int + data[offset + 3];
        if 4 + topicLength > packetLength { return Read(messages, offset, true); }
        messages := messages + [Message(data[offset + 4..offset + 4 + topicLength],
                                        data[offset + 4 + topicLength..offset + packetLength])];
      } else {
        assert messages + [] == messages;
      }
      offset := offset + packetLength;
    }
    FrontAt(data, offset);
    Turn(data, offset, messages);
    return Read(messages, offset, false);
  }

  lemma FromStart(data: seq<byte>)
    ensures From(data, 0, []) == Packets(data)
  {
    hide Front;
    assert data[0..] == data;
    assert [] + Packets(data).messages == Packets(data).messages;
  }

  // ---------- what the client reads of what the server sends ----------

  function Sent(m: Message): seq<byte> {
    P.EncodePublishSpec(m.topic, m.payload, 0, 0)
  }

  /** The bytes behind the fixed header of a PUBLISH at QoS 0. */
  function Length(m: Message): nat {
    2 + |m.topic| + |m.payload|
  }

  /**
    A message, raw or as the payload of a frame, is read by the client exactly if its remaining length is
    below 128; of a longer one it reads nothing.
   */
  lemma SdkReadsIff(m: Message)
    requires |m.topic| < 65536
    ensures Packets(Sent(m)).messages == (if Length(m) < 128 then [m] else [])
    ensures Packets(Sent(m)) == Read([m], |Sent(m)|, false) <==> Length(m) < 128
  {
    hide Packets, Front, Sent;
    if Length(m) < 128 {
      ShortFront(m, []);
      assert Sent(m) + [] == Sent(m) && Sent(m)[|Sent(m)|..] == [];
      Taking(Sent(m), [m], []);
    } else {
      LongFront(m);
      NothingTaken(Sent(m));
    }
  }

  lemma Taking(data: seq<byte>, messages: seq<Message>, more: seq<byte>)
    requires |more| <= |data| && Front(data) == Taken(messages, |data| - |more|) && data[|data| - |more|..] == more
    ensures Packets(data).messages == messages + Packets(more).messages
    ensures Packets(data).offset == |data| - |more| + Packets(more).offset
    ensures Packets(data).broken == Packets(more).broken
    ensures Packets([]) == Read([], 0, false)
  {
    NothingLeft();
    hide Front;
  }

  lemma NothingTaken(data: seq<byte>)
    requires !Front(data).Taken?
    ensures Packets(data).messages == []
  {
    hide Front;
  }

  lemma ShortFront(m: Message, more: seq<byte>)
    requires Length(m) < 128
    ensures |Sent(m)| == 2 + Length(m)
    ensures Front(Sent(m) + more) == Taken([m], |Sent(m)|)
  {
    var n := Length(m);
    var data := Sent(m) + more;
    assert Sent(m) == [0x30, n, 0, |m.topic|] + m.topic + m.payload;
    ShortParts(data, n, m, more);
  }

  lemma ShortParts(data: seq<byte>, n: byte, m: Message, more: seq<byte>)
    requires data == [0x30, n, 0, |m.topic|] + m.topic + m.payload + more && n as int == Length(m)
    ensures Front(data) == Taken([m], 2 + n as int)
  {
    var topic := |m.topic|;
    assert data[0] == 0x30 && data[1] == n && data[2] == 0 && data[3] == topic;
    assert data[4..4 + topic] == m.topic;
    assert data[4 + topic..2 + n as int] == m.payload;
  }

  /** The second byte of a longer length field is taken for the high byte of the topic's length. */
  lemma LongFront(m: Message)
    requires |m.topic| < 65536 && Length(m) >= 128
    ensures !Front(Sent(m)).Taken?
  {
    var data, n := Sent(m), Length(m);
    var field := P.EncodeLength(n);
    assert field == [128 + n % 128] + P.EncodeLength(n / 128);
    assert P.EncodeLength(n / 128)[0] >= 1;
    assert data[0] == 0x30 && data[1] == field[0] && data[2] == field[1];
  }

  function AllSent(messages: seq<Message>): seq<byte> {
    if messages == [] then [] else Sent(messages[0]) + AllSent(messages[1..])
  }

  /** A run of short messages is read whole and in order. */
  lemma {:induction false} SdkReadsAll(messages: seq<Message>)
    requires forall i :: 0 <= i < |messages| ==> Length(messages[i]) < 128
    ensures Packets(AllSent(messages)) == Read(messages, |AllSent(messages)|, false)
  {
    hide Packets, Front, Sent;
    if messages != [] {
      var more := AllSent(messages[1..]);
      ShortFront(messages[0], more);
      Taking(AllSent(messages), [messages[0]], more);
      SdkReadsAll(messages[1..]);
    } else {
      NothingLeft();
    }
  }

  lemma NothingLeft()
    ensures Packets([]) == Read([], 0, false)
  {}
}
