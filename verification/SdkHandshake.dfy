/**
  The C++ SDK's packet builders (sdk/cpp/src/apr_client.cpp) against the server's decoders.

  Both builders cast the remaining length to one byte.  The lemmas say for exactly which
  lengths the server still reads back what the SDK meant.
 */
module SdkHandshake {
  import opened Bytes
  import opened Wrappers
  import P = MqttPacket
  import S = MqttSession

  function WriteStr(s: seq<byte>): seq<byte> {
    Be16(|s|) + s
  }

  function ConnectLength(clientId: seq<byte>, username: seq<byte>, password: seq<byte>): nat {
    10 + (2 + |clientId|) + (2 + |username|) + (2 + |password|)
  }

  /** Protocol name "MQTT", level 4, flags username + password + clean session, keep-alive 60. */
  const CONNECT_HEAD: seq<byte> := [0x00, 0x04, 77, 81, 84, 84, 0x04, 0xC2, 0x00, 0x3C]

  function ConnectPacket(clientId: seq<byte>, username: seq<byte>, password: seq<byte>): seq<byte> {
    [0x10, ConnectLength(clientId, username, password) % 256] + CONNECT_HEAD
    + WriteStr(clientId) + WriteStr(username) + WriteStr(password)
  }

  method SendConnect(clientId: seq<byte>, username: seq<byte>, password: seq<byte>) returns (packet: seq<byte>)
    ensures packet == ConnectPacket(clientId, username, password)
  {
    var remLen := 10 + (2 + |clientId|) + (2 + |username|) + (2 + |password|);
    packet := [0x10];
    packet := packet + [remLen % 256];
    packet := packet + CONNECT_HEAD;
    packet := packet + WriteStr(clientId);
    packet := packet + WriteStr(username);
    packet := packet + WriteStr(password);
  }

  lemma WriteStrAt(data: seq<byte>, at: nat, s: seq<byte>)
    requires at + 2 + |s| <= |data| && data[at..at + 2 + |s|] == WriteStr(s)
    ensures P.ReadString(data, at) == Some((s[..|s| % 65536], at + 2 + |s| % 65536))
  {
    hide P.ReadString, Be16;
    Be16Wraps(|s|);
    P.StringAt(data, at, s);
  }

  predicate ShortEnough(clientId: seq<byte>, username: seq<byte>, password: seq<byte>) {
    |clientId| < 65536 && |username| < 65536 && |password| < 65536
  }

  /**
    The server recovers the three strings exactly when the cast length has no continuation
    bit and no string outgrows its 16-bit prefix; a length of at most 127 is the plain case.
   */
  lemma ConnectRecovered(clientId: seq<byte>, username: seq<byte>, password: seq<byte>)
    ensures P.DecodeConnectSpec(ConnectPacket(clientId, username, password))
              == Some(P.Connect(clientId, username, password, 60))
            <==> ConnectLength(clientId, username, password) % 256 < 128 && ShortEnough(clientId, username, password)
  {
    var rem := ConnectLength(clientId, username, password);
    if rem % 256 >= 128 {
      ConnectRefused(clientId, username, password);
    } else {
      ConnectRead(clientId, username, password);
    }
  }

  /** With the continuation bit set, the protocol name is read from the wrong place. */
  lemma ConnectRefused(clientId: seq<byte>, username: seq<byte>, password: seq<byte>)
    requires ConnectLength(clientId, username, password) % 256 >= 128
    ensures P.DecodeConnectSpec(ConnectPacket(clientId, username, password)) == None
  {
    var data := ConnectPacket(clientId, username, password);
    assert data[1] >= 128 && data[2] == 0 && data[3] == 4 && data[4] == 77;
    assert P.DecodeLength(data, 1, 0) == Some((data[1] % 128, 2)) by {
      assert P.DecodeLength(data, 2, 1) == Some((0, 1));
    }
    var proto := P.ReadString(data, 3);
    assert proto.Some? ==> |proto.value.0| == 4 * 256 + 77;
  }

  lemma ConnectRead(clientId: seq<byte>, username: seq<byte>, password: seq<byte>)
    requires ConnectLength(clientId, username, password) % 256 < 128
    ensures P.DecodeConnectSpec(ConnectPacket(clientId, username, password))
              == Some(P.Connect(clientId, username, password, 60))
            <==> ShortEnough(clientId, username, password)
  {
    hide P.DecodeConnectSpec, P.ReadString, WriteStr, ConnectLength;
    var data := ConnectPacket(clientId, username, password);
    var c, u, p := WriteStr(clientId), WriteStr(username), WriteStr(password);
    assert |c| == 2 + |clientId| && |u| == 2 + |username| && |p| == 2 + |password| by { WriteStrLength(); }
    ConnectSize(clientId, username, password);
    ConnectHead(data, ConnectLength(clientId, username, password) % 256, c + u + p);
    ThreeParts(data[..12], c, u, p, data);
    hide ConnectPacket, ShortEnough;
    ThreeRead(data, clientId, username, password);
  }

  /** Three strings written one after the other come back exactly if none outgrows its prefix. */
  lemma ThreeRead(data: seq<byte>, clientId: seq<byte>, username: seq<byte>, password: seq<byte>)
    requires |WriteStr(clientId)| == 2 + |clientId|
    requires |WriteStr(username)| == 2 + |username| && |WriteStr(password)| == 2 + |password|
    requires var i, j := 14 + |clientId|, 16 + |clientId| + |username|;
             && j + 2 + |password| <= |data|
             && data[12..i] == WriteStr(clientId) && data[i..j] == WriteStr(username)
             && data[j..j + 2 + |password|] == WriteStr(password)
    ensures (var c :- P.ReadString(data, 12);
             var u :- P.ReadString(data, c.1);
             var p :- P.ReadString(data, u.1);
             Some(P.Connect(c.0, u.0, p.0, 60))) == Some(P.Connect(clientId, username, password, 60))
            <==> ShortEnough(clientId, username, password)
  {
    hide P.ReadString, WriteStr;
    WriteStrAt(data, 12, clientId);
    PrefixIsAll(clientId);
    if |clientId| < 65536 {
      WriteStrAt(data, 14 + |clientId|, username);
      PrefixIsAll(username);
      if |username| < 65536 {
        WriteStrAt(data, 16 + |clientId| + |username|, password);
        PrefixIsAll(password);
      }
    }
  }

  lemma PrefixIsAll(s: seq<byte>)
    ensures s[..|s| % 65536] == s <==> |s| < 65536
    ensures |s| < 65536 ==> |s| % 65536 == |s|
  {
    if |s| < 65536 { assert s[..|s|] == s; }
  }

  lemma ThreeParts(head: seq<byte>, a: seq<byte>, b: seq<byte>, c: seq<byte>, data: seq<byte>)
    requires data == head + (a + b + c)
    ensures var i, j := |head| + |a|, |head| + |a| + |b|;
            data[|head|..i] == a && data[i..j] == b && data[j..j + |c|] == c
  {}

  /** The length field, before its cast, counts the bytes behind it. */
  lemma ConnectSize(clientId: seq<byte>, username: seq<byte>, password: seq<byte>)
    ensures |ConnectPacket(clientId, username, password)| == 2 + ConnectLength(clientId, username, password)
  {}

  lemma WriteStrLength()
    ensures forall s :: |WriteStr(s)| == 2 + |s|
  {}

  /** Behind the fixed header come the three strings, whatever they are. */
  lemma ConnectHead(data: seq<byte>, b: byte, rest: seq<byte>)
    requires data == [0x10, b] + CONNECT_HEAD + rest && b < 128 && |data| >= 2 + b
    ensures P.DecodeConnectSpec(data) ==
              var c :- P.ReadString(data, 12);
              var u :- P.ReadString(data, c.1);
              var p :- P.ReadString(data, u.1);
              Some(P.Connect(c.0, u.0, p.0, 60))
  {
    assert P.DecodeLength(data, 1, 0) == Some((b, 1));
    assert data[4..8] == P.PROTO_MQTT;
    assert P.ReadString(data, 2) == Some((P.PROTO_MQTT, 8));
    assert P.ReadU8(data, 8) == Some((0x04, 9)) && P.ReadU8(data, 9) == Some((0xC2, 10));
    assert P.ReadU16(data, 10) == Some((60, 12));
    hide P.ReadString, P.ReadU8, P.ReadU16, P.DecodeLength;
  }

  /** The role the server derives is the SDK's role exactly when that role has no '_'. */
  lemma {:induction false} RoleOfUsername(role: seq<byte>, suffix: seq<byte>)
    ensures S.RoleOf(role + [S.UNDERSCORE] + suffix) == role <==> S.UNDERSCORE !in role
  {
    var name := role + [S.UNDERSCORE] + suffix;
    if role != [] {
      assert name[1..] == role[1..] + [S.UNDERSCORE] + suffix;
      assert name[0] == role[0];
      RoleOfUsername(role[1..], suffix);
      assert role == [role[0]] + role[1..];
      if role[0] == S.UNDERSCORE {
        assert S.RoleOf(name) == [];
      } else {
        assert S.RoleOf(name) == [role[0]] + S.RoleOf(name[1..]);
        assert S.RoleOf(name) == role ==> S.RoleOf(name[1..]) == role[1..];
      }
    }
  }

  /** A session under the same access key accepts the SDK's CONNECT whenever the three strings come back. */
  lemma Handshake(role: seq<byte>, suffix: seq<byte>, clientId: seq<byte>, env: S.Env, st: S.SessionState)
    requires var username := role + [S.UNDERSCORE] + suffix;
             && ConnectLength(clientId, username, env.accessKey + username) % 256 < 128
             && ShortEnough(clientId, username, env.accessKey + username)
    ensures var username := role + [S.UNDERSCORE] + suffix;
            var st' := S.ProcessPacket(st, env, ConnectPacket(clientId, username, env.accessKey + username));
            && st'.authenticated && st'.closing == st.closing
            && st'.log == st.log + [S.Sent(S.Connack(0x00))]
            && st'.clientId == clientId && st'.username == username
            && (st'.role == role <==> S.UNDERSCORE !in role)
  {
    hide P.DecodeConnectSpec, S.RoleOf, WriteStr;
    var username := role + [S.UNDERSCORE] + suffix;
    var data := ConnectPacket(clientId, username, env.accessKey + username);
    ConnectRecovered(clientId, username, env.accessKey + username);
    RoleOfUsername(role, suffix);
    assert data[0] == 0x10;
  }

  /** A remaining length of at most 127 is the plain case. */
  lemma PlainLength(clientId: seq<byte>, username: seq<byte>, password: seq<byte>)
    requires ConnectLength(clientId, username, password) <= 127
    ensures ConnectLength(clientId, username, password) % 256 < 128 && ShortEnough(clientId, username, password)
  {}

  /** With the continuation bit in its length, the CONNECT is refused, under whatever access key. */
  lemma HandshakeRefused(clientId: seq<byte>, username: seq<byte>, password: seq<byte>, env: S.Env, st: S.SessionState)
    requires ConnectLength(clientId, username, password) % 256 >= 128
    ensures S.ProcessPacket(st, env, ConnectPacket(clientId, username, password))
         == st.(closing := true, log := st.log + [S.SentAndClose(S.Connack(0x01))])
  {
    hide P.DecodeConnectSpec, S.RoleOf, WriteStr;
    ConnectRefused(clientId, username, password);
    assert ConnectPacket(clientId, username, password)[0] == 0x10;
  }

  // ---------- SUBSCRIBE ----------

  function SubscribePacket(topic: seq<byte>): seq<byte> {
    var body := [0x00, 0x01] + WriteStr(topic) + [0x00];
    [0x82, |body| % 256] + body
  }

  method SendSubscribe(topic: seq<byte>) returns (packet: seq<byte>)
    ensures packet == SubscribePacket(topic)
  {
    var body := [0x00, 0x01];
    body := body + WriteStr(topic);
    body := body + [0x00];
    packet := [0x82];
    packet := packet + [|body| % 256];
    packet := packet + body;
    assert body == [0x00, 0x01] + WriteStr(topic) + [0x00];
  }

  /** One topic comes back exactly for these lengths; all of them up to 122 bytes are among them. */
  predicate SubscribeLengthOk(n: nat) {
    3 <= (n + 5) % 256 <= 127 && n < 65536
  }

  lemma SubscribeRecovered(topic: seq<byte>)
    ensures P.DecodeSubscribeSpec(SubscribePacket(topic)) == Some(P.Subscribe(1, [topic]))
            <==> SubscribeLengthOk(|topic|)
  {
    var b := (|topic| + 5) % 256;
    if b >= 128 {
      SubscribeContinued(topic);
    } else {
      SubscribeRead(topic);
    }
  }

  lemma SubscribeRead(topic: seq<byte>)
    requires (|topic| + 5) % 256 < 128
    ensures P.DecodeSubscribeSpec(SubscribePacket(topic)) == Some(P.Subscribe(1, [topic]))
            <==> SubscribeLengthOk(|topic|)
  {
    hide P.DecodeSubscribeSpec, SubscribePacket, P.ReadString, P.TopicsFrom, WriteStr;
    var data := SubscribePacket(topic);
    var b := (|topic| + 5) % 256;
    SubscribeBytes(topic);
    SubscribeHead(data, b);
    WriteStrAt(data, 4, topic);
    if b > 2 {
      FirstTopic(data, 4, 2 + b);
      if |topic| < 65536 { assert topic[..|topic|] == topic; }
    } else {
      NoTopics(data, 4, 2 + b);
    }
  }

  lemma SubscribeBytes(topic: seq<byte>)
    ensures var data := SubscribePacket(topic);
            && |data| == 7 + |topic|
            && data[1] == (|topic| + 5) % 256 && data[2] == 0 && data[3] == 1
            && data[4] == |topic| / 256 % 256
            && data[4..4 + 2 + |topic|] == WriteStr(topic)
  {}

  lemma NoTopics(data: seq<byte>, at: nat, end: nat)
    requires at >= end
    ensures P.TopicsFrom(data, at, end) == Some([])
  {}

  lemma SubscribeHead(data: seq<byte>, b: byte)
    requires b < 128 && |data| >= 7 && |data| >= 2 + b && data[1] == b && data[2] == 0 && data[3] == 1
    ensures P.DecodeSubscribeSpec(data) ==
            var topics :- P.TopicsFrom(data, 4, 2 + b);
            Some(P.Subscribe(1, topics))
  {
    assert P.DecodeLength(data, 1, 0) == Some((b, 1));
    assert P.ReadU16(data, 2) == Some((1, 4));
  }

  lemma FirstTopic(data: seq<byte>, at: nat, end: nat)
    requires at < end && P.ReadString(data, at).Some?
    ensures var topic, next := P.ReadString(data, at).value.0, P.ReadString(data, at).value.1;
            var topics := P.TopicsFrom(data, at, end);
            && (topics.Some? ==> topics.value != [] && topics.value[0] == topic)
            && (next < |data| && next + 1 >= end ==> topics == Some([topic]))
  {
    hide P.ReadString;
    var topic, next := P.ReadString(data, at).value.0, P.ReadString(data, at).value.1;
    if next < |data| {
      assert P.ReadU8(data, next) == Some((data[next], next + 1));
      var rest := P.TopicsFrom(data, next + 1, end);
      assert P.TopicsFrom(data, at, end) == if rest.None? then None else Some([topic] + rest.value);
      assert next + 1 >= end ==> rest == Some([]) && [topic] + rest.value == [topic];
    } else {
      assert P.ReadU8(data, next) == None;
    }
  }

  /** With the continuation bit set, everything is read one byte late. */
  lemma SubscribeContinued(topic: seq<byte>)
    requires (|topic| + 5) % 256 >= 128
    ensures P.DecodeSubscribeSpec(SubscribePacket(topic)) != Some(P.Subscribe(1, [topic]))
  {
    var data := SubscribePacket(topic);
    SubscribeBytes(topic);
    assert P.DecodeLength(data, 1, 0) == Some((data[1] % 128, 2)) by {
      assert P.DecodeLength(data, 2, 1) == Some((0, 1));
    }
    var id := P.ReadU16(data, 3);
    assert id.value.0 >= 256;
  }

  /** For those lengths a session that has accepted the CONNECT stores the topic and grants it. */
  lemma SubscribeStored(topic: seq<byte>, env: S.Env, st: S.SessionState)
    requires st.authenticated && SubscribeLengthOk(|topic|)
    ensures S.ProcessPacket(st, env, SubscribePacket(topic))
         == st.(subscriptions := st.subscriptions + [topic], log := st.log + [S.Sent([0x90, 0x03, 0x00, 0x01, 0x00])])
  {
    hide P.DecodeSubscribeSpec, WriteStr;
    SubscribeRecovered(topic);
    assert SubscribePacket(topic)[0] == 0x82;
    OneGranted();
  }

  lemma OneGranted()
    ensures S.Suback(1, seq(1, i => 0)) == [0x90, 0x03, 0x00, 0x01, 0x00]
  {
    assert P.EncodeLength(3) == [3];
    assert Be16(1) == [0, 1];
  }
}
