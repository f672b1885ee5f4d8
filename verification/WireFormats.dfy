/**
  MQTT packets as section 3 of MQTT 3.1.1 lays them out, against the codec of src/mqtt/mqtt_packet.cpp.

  What the server sends has the layout of the standard; what a client lays out by the standard,
  the server reads.
 */
module WireFormats {
  import opened Bytes
  import opened Wrappers
  import opened MqttPacket

  // ---------- what the server sends ----------

  /** A fixed header of this type and flags, whose length field counts exactly the bytes `body`. */
  predicate IsPacket(packet: seq<byte>, kind: nat, flags: nat, body: seq<byte>) {
    && |packet| >= 1 + |body| && packet[0] as int == 16 * kind + flags
    && packet[|packet| - |body|..] == body
    && StandardLength(packet[1..], 0) == Some(|body|)
    && 1 <= |packet| - 1 - |body| <= 4
  }

  lemma {:induction false} LengthFieldSize(n: nat, k: nat)
    requires k < 4 && n < Pow128(4 - k)
    ensures 1 <= |EncodeLength(n)| <= 4 - k
    decreases n
  {
    if n >= 128 {
      assert Pow128(4 - k) == 128 * Pow128(3 - k);
      LengthFieldSize(n / 128, k + 1);
    }
  }

  lemma PacketLayout(packet: seq<byte>, kind: nat, flags: nat, body: seq<byte>)
    requires |body| < 128 * TWO_21 && kind < 16 && flags < 16
    requires packet == [16 * kind + flags] + EncodeLength(|body|) + body
    ensures IsPacket(packet, kind, flags, body)
  {
    hide EncodeLength, StandardLength;
    LengthField(|body|, body);
    ThreeParts(packet, 16 * kind + flags, EncodeLength(|body|), body);
  }

  lemma LengthField(n: nat, rest: seq<byte>)
    requires n < 128 * TWO_21
    ensures StandardLength(EncodeLength(n) + rest, 0) == Some(n) && 1 <= |EncodeLength(n)| <= 4
  {
    PowersOf128();
    StandardInverts(n, 0, rest);
    LengthFieldSize(n, 0);
  }

  lemma ThreeParts(packet: seq<byte>, first: byte, field: seq<byte>, body: seq<byte>)
    requires packet == [first] + field + body
    ensures packet[0] == first && packet[1..] == field + body && packet[|packet| - |body|..] == body
  {}

  /** A string of section 1.5.3: its length in two bytes, the high one first. */
  predicate IsString(data: seq<byte>, at: nat, s: seq<byte>) {
    at + 2 + |s| <= |data| && 256 * data[at] as int + data[at + 1] == |s| && data[at + 2..at + 2 + |s|] == s
  }

  /** Section 3.3: type 3, DUP and RETAIN 0, QoS in bits 1 and 2; the topic, the packet id if QoS > 0, the payload. */
  lemma PublishLayout(topic: seq<byte>, payload: seq<byte>, qos: byte, packetId: nat)
    requires qos <= 2 && packetId < 65536 && |topic| < 65536
    requires |PublishBody(topic, payload, qos, packetId)| < 128 * TWO_21
    ensures var packet := EncodePublishSpec(topic, payload, qos, packetId);
            var body := PublishBody(topic, payload, qos, packetId);
            && IsPacket(packet, 3, 2 * qos as int, body)
            && packet[0] / 16 == 3 && packet[0] / 8 % 2 == 0 && packet[0] / 2 % 4 == qos && packet[0] % 2 == 0
            && IsString(body, 0, topic)
            && (qos == 0 ==> body[2 + |topic|..] == payload)
            && (qos > 0 ==> |body| >= 4 + |topic| && body[4 + |topic|..] == payload
                            && 256 * body[2 + |topic|] as int + body[3 + |topic|] == packetId)
  {
    hide EncodeLength, StandardLength;
    var packet, body := EncodePublishSpec(topic, payload, qos, packetId), PublishBody(topic, payload, qos, packetId);
    PacketLayout(packet, 3, 2 * qos as int, body);
    BodyLayout(topic, payload, qos, packetId);
  }

  lemma BodyLayout(topic: seq<byte>, payload: seq<byte>, qos: byte, packetId: nat)
    requires qos <= 2 && packetId < 65536 && |topic| < 65536
    ensures var body := PublishBody(topic, payload, qos, packetId);
            && IsString(body, 0, topic)
            && (qos == 0 ==> body[2 + |topic|..] == payload)
            && (qos > 0 ==> |body| >= 4 + |topic| && body[4 + |topic|..] == payload
                            && 256 * body[2 + |topic|] as int + body[3 + |topic|] == packetId)
  {
    Be16Holds(packetId);
    var body, t := PublishBody(topic, payload, qos, packetId), WriteString(topic);
    StringLayout(topic);
    assert body[..|t|] == t;
    assert body[2..2 + |topic|] == t[2..];
  }

  lemma StringLayout(s: seq<byte>)
    requires |s| < 65536
    ensures |WriteString(s)| == 2 + |s| && IsString(WriteString(s), 0, s)
  {
    Be16Holds(|s|);
  }

  // ---------- PUBLISH, as a client may send it ----------

  /** With the DUP flag in bit 3 and RETAIN in bit 0 (section 3.3.1). */
  function PublishPacket(m: Publish, dup: bool): seq<byte>
    requires m.qos <= 2
  {
    var body := PublishBody(m.topic, m.payload, m.qos, m.packetId);
    [0x30 + (if dup then 8 else 0) + 2 * m.qos + (if m.retain then 1 else 0)] + EncodeLength(|body|) + body
  }

  /** Topic, payload, packet id, QoS and RETAIN are read back, with anything behind the packet. */
  lemma PublishIsRead(m: Publish, dup: bool, rest: seq<byte>)
    requires m.qos <= 2 && m.packetId < 65536 && (m.qos == 0 ==> m.packetId == 0) && |m.topic| < 65536
    requires |PublishBody(m.topic, m.payload, m.qos, m.packetId)| < TWO_21
    ensures DecodePublishSpec(PublishPacket(m, dup) + rest) == Some(m)
  {
    hide DecodeLength, EncodeLength, ReadString, PublishBody, PublishFields;
    var data, body := PublishPacket(m, dup) + rest, PublishBody(m.topic, m.payload, m.qos, m.packetId);
    HeaderRead(data[0], body, rest);
    var at := 1 + |EncodeLength(|body|)|;
    FieldsAt(data, at, m.topic, m.payload, m.qos, m.packetId);
    RetainPasses(data, m.qos, m.retain, at, at + |body|);
    PublishFlags(m.qos, dup, m.retain);
  }

  lemma RetainPasses(data: seq<byte>, qos: nat, retain: bool, at: nat, end: nat)
    requires end <= |data| && PublishFields(data, qos, false, at, end).Some?
    ensures PublishFields(data, qos, retain, at, end)
         == Some(PublishFields(data, qos, false, at, end).value.(retain := retain))
  {
    hide ReadString, ReadU16;
  }

  lemma PublishFlags(qos: nat, dup: bool, retain: bool)
    requires qos <= 2
    ensures var b := 0x30 + (if dup then 8 else 0) + 2 * qos + (if retain then 1 else 0);
            b / 2 % 4 == qos && (b % 2 != 0 <==> retain)
  {}

  // ---------- packets that are cut off ----------

  /** A length field that is cut off is refused. */
  lemma {:induction false} LengthCut(data: seq<byte>, at: nat, n: nat, k: nat)
    requires at <= |data| && data[at..] <= EncodeLength(n) && |data| - at < |EncodeLength(n)|
    ensures DecodeLength(data, at, k) == None
    decreases n
  {
    if at < |data| && k < 3 {
      assert data[at] == data[at..][0] == EncodeLength(n)[0];
      if n >= 128 {
        assert data[at + 1..] == data[at..][1..];
        assert EncodeLength(n / 128) == EncodeLength(n)[1..];
        LengthCut(data, at + 1, n / 128, k + 1);
      }
    }
  }

  lemma FieldCut(first: byte, field: seq<byte>, body: seq<byte>, k: nat)
    requires 1 <= k < 1 + |field|
    ensures ([first] + field + body)[..k][1..] == field[..k - 1]
  {}

  lemma FieldInCut(first: byte, field: seq<byte>, body: seq<byte>, k: nat)
    requires 1 + |field| <= k <= 1 + |field| + |body|
    ensures ([first] + field + body)[..k][1..1 + |field|] == field
  {}

  /** No proper prefix of a packet is taken for one, whatever its body: not by any of the three decoders. */
  lemma CutPacketRefused(first: byte, body: seq<byte>, k: nat)
    requires |body| < TWO_21 && k < 1 + |EncodeLength(|body|)| + |body|
    ensures var cut := ([first] + EncodeLength(|body|) + body)[..k];
            DecodeConnectSpec(cut) == None && DecodePublishSpec(cut) == None && DecodeSubscribeSpec(cut) == None
  {
    hide DecodeLength, EncodeLength, ReadString, ReadU16, TopicsFrom, PublishFields;
    var field := EncodeLength(|body|);
    var cut := ([first] + field + body)[..k];
    if 2 <= k {
      if k < 1 + |field| {
        FieldCut(first, field, body, k);
        LengthCut(cut, 1, |body|, 0);
      } else {
        FieldInCut(first, field, body, k);
        LengthAt(cut, 1, |body|, 0);
        PowersOf128();
      }
    }
  }

  // ---------- CONNECT, as a client may send it ----------

  datatype Will = Will(topic: seq<byte>, message: seq<byte>, qos: nat, retain: bool)

  /** The fields of section 3.1, under either protocol name. */
  datatype ConnectFields = ConnectFields(
    legacy: bool, level: byte, clean: bool, clientId: seq<byte>, will: Option<Will>,
    username: Option<seq<byte>>, password: Option<seq<byte>>, keepAlive: nat)
  {
    predicate Valid() {
      && |clientId| < 65536 && keepAlive < 65536
      && (will.Some? ==> |will.value.topic| < 65536 && |will.value.message| < 65536 && will.value.qos <= 2)
      && (username.Some? ==> |username.value| < 65536)
      && (password.Some? ==> |password.value| < 65536)
    }

    /** Section 3.1.2.3: user name, password, will retain, will QoS, will, clean session, reserved. */
    function Flags(): (b: byte)
      requires Valid()
    {
      (if username.Some? then 128 else 0) + (if password.Some? then 64 else 0)
      + (if will.Some? then (if will.value.retain then 32 else 0) + 8 * will.value.qos + 4 else 0)
      + (if clean then 2 else 0)
    }
  }

  function Written(s: Option<seq<byte>>): seq<byte> {
    if s.None? then [] else WriteString(s.value)
  }

  function WrittenWill(w: Option<Will>): seq<byte> {
    if w.None? then [] else WriteString(w.value.topic) + WriteString(w.value.message)
  }

  function ProtocolName(legacy: bool): seq<byte> {
    if legacy then [77, 81, 73, 115, 100, 112] else [77, 81, 84, 84]
  }

  function ConnectBody(c: ConnectFields): seq<byte>
    requires c.Valid()
  {
    WriteString(ProtocolName(c.legacy)) + [c.level, c.Flags()] + Be16(c.keepAlive) + WriteString(c.clientId)
    + WrittenWill(c.will) + Written(c.username) + Written(c.password)
  }

  function ConnectPacket(c: ConnectFields): seq<byte>
    requires c.Valid()
  {
    [0x10] + EncodeLength(|ConnectBody(c)|) + ConnectBody(c)
  }

  /** The bytes s stand at index `at`. */
  predicate At(data: seq<byte>, at: nat, s: seq<byte>) {
    at + |s| <= |data| && data[at..at + |s|] == s
  }

  lemma AtParts(data: seq<byte>, at: nat, x: seq<byte>, y: seq<byte>)
    requires At(data, at, x + y)
    ensures At(data, at, x) && At(data, at + |x|, y)
  {
    var s := x + y;
    SliceOfSlice(data, at, s, 0, |x|);
    SliceOfSlice(data, at, s, |x|, |s|);
    assert s[0..|x|] == x && s[|x|..|s|] == y;
  }

  lemma ReadsString(data: seq<byte>, at: nat, s: seq<byte>)
    requires |s| < 65536 && At(data, at, WriteString(s))
    ensures ReadString(data, at) == Some((s, at + |WriteString(s)|))
  {
    StringLayout(s);
    StringAt(data, at, s);
    assert s[..|s|] == s;
  }

  lemma ReadsNumber(data: seq<byte>, at: nat, n: nat)
    requires n < 65536 && At(data, at, Be16(n))
    ensures ReadU16(data, at) == Some((n, at + 2))
  {
    U16At(data, at, n);
  }

  /** The fixed header in front of a body, with anything behind it. */
  lemma HeaderRead(first: byte, body: seq<byte>, rest: seq<byte>)
    requires |body| < TWO_21
    ensures var data, k := [first] + EncodeLength(|body|) + body + rest, |EncodeLength(|body|)|;
            && |data| >= 2 && data[0] == first
            && DecodeLength(data, 1, 0) == Some((|body|, k))
            && |data| >= 1 + k + |body|
            && At(data, 1 + k, body)
  {
    var field := EncodeLength(|body|);
    var data := [first] + field + body + rest;
    assert data[1..1 + |field|] == field;
    LengthAt(data, 1, |body|, 0);
    PowersOf128();
    assert data[1 + |field|..1 + |field| + |body|] == body;
  }

  lemma FlagBits(c: ConnectFields)
    requires c.Valid()
    ensures c.Flags() / 4 % 2 == (if c.will.Some? then 1 else 0)
    ensures c.Flags() >= 128 <==> c.username.Some?
    ensures c.Flags() / 64 % 2 == (if c.password.Some? then 1 else 0)
  {}

  /** The will's two strings are skipped. */
  lemma WillSkipped(data: seq<byte>, at: nat, w: Will)
    requires |w.topic| < 65536 && |w.message| < 65536 && At(data, at, WrittenWill(Some(w)))
    ensures SkipWill(data, at) == Some(at + |WrittenWill(Some(w))|)
  {
    hide ReadString, WriteString;
    AtParts(data, at, WriteString(w.topic), WriteString(w.message));
    ReadsString(data, at, w.topic);
    ReadsString(data, at + |WriteString(w.topic)|, w.message);
  }

  /** What the decoder makes of the bytes behind the protocol name. */
  function ConnectRest(data: seq<byte>, at: nat): Option<Connect> {
    var level :- ReadU8(data, at);
    var flags :- ReadU8(data, level.1);
    var keepAlive :- ReadU16(data, flags.1);
    var clientId :- ReadString(data, keepAlive.1);
    ConnectStrings(data, clientId.1, flags.0, clientId.0, keepAlive.0)
  }

  function ConnectStrings(data: seq<byte>, start: nat, flags: byte, clientId: seq<byte>, keepAlive: nat)
    : Option<Connect>
  {
    var at :- if flags / 4 % 2 == 1 then SkipWill(data, start) else Some(start);
    var user :- if flags >= 128 then ReadString(data, at) else Some(([], at));
    var pass :- if flags / 64 % 2 == 1 then ReadString(data, user.1) else Some(([], user.1));
    Some(Connect(clientId, user.0, pass.0, keepAlive))
  }

  lemma StringsRead(data: seq<byte>, at: nat, c: ConnectFields)
    requires c.Valid() && At(data, at, WrittenWill(c.will) + Written(c.username) + Written(c.password))
    ensures ConnectStrings(data, at, c.Flags(), c.clientId, c.keepAlive)
         == Some(Connect(c.clientId, if c.username.Some? then c.username.value else [],
                         if c.password.Some? then c.password.value else [], c.keepAlive))
  {
    hide ReadString, WriteString, SkipWill, WrittenWill, At;
    FlagBits(c);
    var w, u, p := WrittenWill(c.will), Written(c.username), Written(c.password);
    AtParts(data, at, w + u, p);
    AtParts(data, at, w, u);
    NoWill();
    if c.will.Some? { WillSkipped(data, at, c.will.value); }
    if c.username.Some? { ReadsString(data, at + |w|, c.username.value); }
    if c.password.Some? { ReadsString(data, at + |w + u|, c.password.value); }
    hide ConnectFields.Flags;
  }

  lemma NoWill()
    ensures WrittenWill(None) == []
  {}

  lemma ConnectSplits(data: seq<byte>, at: nat, c: ConnectFields)
    requires c.Valid() && At(data, at, ConnectBody(c))
    ensures var name, id := WriteString(ProtocolName(c.legacy)), WriteString(c.clientId);
            var next := at + |name|;
            && At(data, at, name) && At(data, next, [c.level, c.Flags()]) && At(data, next + 2, Be16(c.keepAlive))
            && At(data, next + 4, id)
            && At(data, next + 4 + |id|, WrittenWill(c.will) + Written(c.username) + Written(c.password))
  {
    hide At, WriteString, Be16, Written, WrittenWill;
    var name, two := WriteString(ProtocolName(c.legacy)), [c.level, c.Flags()];
    var alive, id := Be16(c.keepAlive), WriteString(c.clientId);
    var w, u, p := WrittenWill(c.will), Written(c.username), Written(c.password);
    assert ConnectBody(c) == name + (two + (alive + (id + (w + u + p))));
    AtParts(data, at, name, two + (alive + (id + (w + u + p))));
    AtParts(data, at + |name|, two, alive + (id + (w + u + p)));
    AtParts(data, at + |name| + 2, alive, id + (w + u + p));
    AtParts(data, at + |name| + 4, id, w + u + p);
  }

  lemma ConnectBodyRead(data: seq<byte>, at: nat, c: ConnectFields)
    requires c.Valid() && At(data, at, ConnectBody(c))
    ensures ReadString(data, at) == Some((ProtocolName(c.legacy), at + |WriteString(ProtocolName(c.legacy))|))
    ensures ConnectRest(data, at + |WriteString(ProtocolName(c.legacy))|)
         == Some(Connect(c.clientId, if c.username.Some? then c.username.value else [],
                         if c.password.Some? then c.password.value else [], c.keepAlive))
  {
    hide ConnectBody, ReadString, ReadU16, WriteString, Be16, Written, WrittenWill, ConnectStrings;
    ConnectSplits(data, at, c);
    var next := at + |WriteString(ProtocolName(c.legacy))|;
    ReadsString(data, at, ProtocolName(c.legacy));
    assert data[next] == data[next..next + 2][0] && data[next + 1] == data[next..next + 2][1];
    ReadsNumber(data, next + 2, c.keepAlive);
    ReadsString(data, next + 4, c.clientId);
    StringsRead(data, next + 4 + |WriteString(c.clientId)|, c);
    hide At, ConnectFields.Flags;
  }

  /**
    A CONNECT laid out by section 3.1, with any combination of will, user name and password and anything
    behind it, is read: the will is skipped, and an absent string is empty.
   */
  lemma ConnectIsRead(c: ConnectFields, rest: seq<byte>)
    requires c.Valid() && |ConnectBody(c)| < TWO_21
    ensures DecodeConnectSpec(ConnectPacket(c) + rest)
         == Some(Connect(c.clientId, if c.username.Some? then c.username.value else [],
                         if c.password.Some? then c.password.value else [], c.keepAlive))
  {
    hide ConnectBody, EncodeLength, DecodeLength, ReadString, WriteString, ConnectRest, At, DecodeConnectSpec;
    var data, at := ConnectPacket(c) + rest, 1 + |EncodeLength(|ConnectBody(c)|)|;
    HeaderRead(0x10, ConnectBody(c), rest);
    ConnectBodyRead(data, at, c);
    BehindProtocolName(data, |ConnectBody(c)|, |EncodeLength(|ConnectBody(c)|)|);
  }

  lemma BehindProtocolName(data: seq<byte>, n: nat, k: nat)
    requires |data| >= 2 && DecodeLength(data, 1, 0) == Some((n, k)) && |data| >= 1 + k + n
    requires var name := ReadString(data, 1 + k);
             name.Some? && (name.value.0 == ProtocolName(false) || name.value.0 == ProtocolName(true))
    ensures DecodeConnectSpec(data) == ConnectRest(data, ReadString(data, 1 + k).value.1)
  {
    hide DecodeLength, ReadString, ReadU8, ReadU16, SkipWill;
  }

  // ---------- SUBSCRIBE, as a client may send it ----------

  /** The topic filters of section 3.8.3, each with the QoS that is asked for. */
  function FilterList(filters: seq<(seq<byte>, byte)>): seq<byte> {
    if filters == [] then [] else WriteString(filters[0].0) + [filters[0].1] + FilterList(filters[1..])
  }

  function Names(filters: seq<(seq<byte>, byte)>): seq<seq<byte>> {
    seq(|filters|, i requires 0 <= i < |filters| => filters[i].0)
  }

  predicate AllShort(filters: seq<(seq<byte>, byte)>) {
    forall i :: 0 <= i < |filters| ==> |filters[i].0| < 65536
  }

  function SubscribePacket(packetId: nat, filters: seq<(seq<byte>, byte)>): seq<byte> {
    var body := Be16(packetId) + FilterList(filters);
    [0x82] + EncodeLength(|body|) + body
  }

  lemma {:induction false} FiltersRead(data: seq<byte>, at: nat, filters: seq<(seq<byte>, byte)>)
    requires At(data, at, FilterList(filters)) && AllShort(filters)
    ensures TopicsFrom(data, at, at + |FilterList(filters)|) == Some(Names(filters))
    decreases |filters|
  {
    hide WriteString, ReadString, TopicsFrom, At, Names, FilterList;
    if filters != [] {
      var first, more := filters[0], filters[1..];
      FilterListStep(filters);
      var w := WriteString(first.0);
      AtParts(data, at, w + [first.1], FilterList(more));
      AtParts(data, at, w, [first.1]);
      ReadsString(data, at, first.0);
      FiltersRead(data, at + |w| + 1, more);
      TopicFirst(data, at, first.0, first.1, at + |FilterList(filters)|);
      NamesSplit(filters);
    } else {
      NoFilters(data, at);
    }
  }

  lemma NoFilters(data: seq<byte>, at: nat)
    ensures FilterList([]) == [] && TopicsFrom(data, at, at) == Some(Names([]))
  {
    assert Names([]) == [];
  }

  lemma FilterListStep(filters: seq<(seq<byte>, byte)>)
    requires filters != []
    ensures FilterList(filters) == WriteString(filters[0].0) + [filters[0].1] + FilterList(filters[1..])
  {}

  lemma NamesSplit(filters: seq<(seq<byte>, byte)>)
    requires filters != []
    ensures Names(filters) == [filters[0].0] + Names(filters[1..])
  {
    assert filters == [filters[0]] + filters[1..];
  }

  lemma TopicFirst(data: seq<byte>, at: nat, name: seq<byte>, qos: byte, end: nat)
    requires ReadString(data, at) == Some((name, at + |WriteString(name)|))
    requires At(data, at + |WriteString(name)|, [qos]) && at < end
    ensures TopicsFrom(data, at, end) ==
              var rest := TopicsFrom(data, at + |WriteString(name)| + 1, end);
              if rest.None? then None else Some([name] + rest.value)
  {
    hide ReadString, WriteString;
  }

  /** All the filters of a SUBSCRIBE are read, in order. */
  lemma SubscribeIsRead(packetId: nat, filters: seq<(seq<byte>, byte)>, rest: seq<byte>)
    requires packetId < 65536 && 2 + |FilterList(filters)| < TWO_21 && AllShort(filters)
    ensures DecodeSubscribeSpec(SubscribePacket(packetId, filters) + rest) == Some(Subscribe(packetId, Names(filters)))
  {
    hide DecodeLength, ReadU16, TopicsFrom, FilterList, Names, EncodeLength, At;
    var body := Be16(packetId) + FilterList(filters);
    var data, at := SubscribePacket(packetId, filters) + rest, 1 + |EncodeLength(|body|)|;
    HeaderRead(0x82, body, rest);
    AtParts(data, at, Be16(packetId), FilterList(filters));
    ReadsNumber(data, at, packetId);
    FiltersRead(data, at + 2, filters);
  }
}
