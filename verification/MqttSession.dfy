/**
  What packets and frames do to one MQTT session (src/mqtt/mqtt_server.cpp).

  `SessionState` is the session as a value; `log` lists what it sends and hands on, in
  order.  What the session asks of others is its `Env`: how a payload parses as JSON, and
  the id that the registry generates for it.  `HandlerFor` is the handler that the receive
  loop of WebSocketLoop runs; what whole streams can do is in MqttStreams.
 */
module MqttSession {
  import opened Bytes
  import opened Wrappers
  import R = RegistryState
  import P = MqttPacket
  import WS = WebSocketCodec
  import WL = WebSocketLoop

  /** An apr/node/meta payload; without a role of its own it registers under the session's. */
  datatype Meta = Meta(role: Option<string>, workers: seq<string>, ep: Option<R.Endpoint>, extras: map<string, R.Json>)

  /** An apr/node/extra payload that names a worker and holds an object. */
  datatype Announcement = Announcement(worker: string, value: R.Json)

  /** None from a parser is a payload that the handler logs and drops. */
  datatype Env = Env(
    accessKey: seq<byte>,
    newId: string,
    meta: seq<byte> -> Option<Meta>,
    extra: seq<byte> -> Option<Announcement>)

  datatype Effect =
    | Sent(packet: seq<byte>)                              // send_raw
    | SentAndClose(packet: seq<byte>)                      // send_raw_and_close
    | Pong(frame: seq<byte>)
    | Registered(existingId: string, role: string, meta: Meta)   // register_or_update_node
    | Announced(id: string, what: Announcement)                  // update_node_extra
    | Relayed(topic: seq<byte>, payload: seq<byte>)        // on_publish_

  datatype SessionState = SessionState(
    authenticated: bool,
    closing: bool,     // a response is queued after which the session closes
    closed: bool,      // close_session has run
    clientId: seq<byte>,
    username: seq<byte>,
    role: seq<byte>,
    nodeId: string,    // "" until the session has registered
    subscriptions: seq<seq<byte>>,
    log: seq<Effect>)

  const INITIAL: SessionState := SessionState(false, false, false, [], [], [], "", [], [])

  /** "apr/node/meta", "apr/node/extra", "apr/" and '_'. */
  const NODE_META: seq<byte> := [97, 112, 114, 47, 110, 111, 100, 101, 47, 109, 101, 116, 97]
  const NODE_EXTRA: seq<byte> := [97, 112, 114, 47, 110, 111, 100, 101, 47, 101, 120, 116, 114, 97]
  const APR_PREFIX: seq<byte> := [97, 112, 114, 47]
  const UNDERSCORE: byte := 95

  function Connack(code: byte): seq<byte> { [0x20, 0x02, 0x00, code] }
  function Puback(id: nat): seq<byte> { [0x40, 0x02] + Be16(id) }
  function Suback(id: nat, codes: seq<byte>): seq<byte> {
    [0x90] + P.EncodeLength(2 + |codes|) + Be16(id) + codes
  }
  function Pingresp(): seq<byte> { [0xD0, 0x00] }

  /** The part of a user name before its first '_', or all of it. */
  function RoleOf(username: seq<byte>): seq<byte> {
    if username == [] || username[0] == UNDERSCORE then [] else [username[0]] + RoleOf(username[1..])
  }

  function HandleConnect(st: SessionState, env: Env, data: seq<byte>): SessionState {
    match P.DecodeConnectSpec(data)
    case None => st.(closing := true, log := st.log + [SentAndClose(Connack(0x01))])
    case Some(conn) =>
      var known := st.(clientId := conn.clientId, username := conn.username);
      if conn.password != env.accessKey + conn.username && env.accessKey != [] then
        known.(closing := true, log := st.log + [SentAndClose(Connack(0x04))])
      else
        known.(role := RoleOf(conn.username), authenticated := true, log := st.log + [Sent(Connack(0x00))])
  }

  /** The id under which the registry answers. */
  function Answered(existingId: string, env: Env): string {
    if existingId == "" then env.newId else existingId
  }

  function HandleMeta(st: SessionState, env: Env, payload: seq<byte>): SessionState {
    match env.meta(payload)
    case None => st
    case Some(m) =>
      var role := if m.role.Some? then m.role.value else Text(st.role);
      st.(nodeId := Answered(st.nodeId, env), log := st.log + [Registered(st.nodeId, role, m)])
  }

  function HandleExtra(st: SessionState, env: Env, payload: seq<byte>): SessionState {
    if st.nodeId == "" || env.extra(payload).None? then st
    else st.(log := st.log + [Announced(st.nodeId, env.extra(payload).value)])
  }

  function HandlePublish(st: SessionState, env: Env, data: seq<byte>): SessionState {
    if !st.authenticated then st
    else
      match P.DecodePublishSpec(data)
      case None => st
      case Some(pub) =>
        var acked := if pub.qos == 1 then st.(log := st.log + [Sent(Puback(pub.packetId))]) else st;
        if pub.topic == NODE_META then HandleMeta(acked, env, pub.payload)
        else if pub.topic == NODE_EXTRA then HandleExtra(acked, env, pub.payload)
        else if APR_PREFIX <= pub.topic then acked
        else acked.(log := acked.log + [Relayed(pub.topic, pub.payload)])
  }

  function HandleSubscribe(st: SessionState, data: seq<byte>): SessionState {
    if !st.authenticated then st
    else
      match P.DecodeSubscribeSpec(data)
      case None => st
      case Some(sub) =>
        var codes: seq<byte> := seq(|sub.topics|, i => 0);
        st.(subscriptions := st.subscriptions + sub.topics, log := st.log + [Sent(Suback(sub.packetId, codes))])
  }

  function ProcessPacket(st: SessionState, env: Env, data: seq<byte>): SessionState {
    if data == [] then st
    else
      var kind: int := data[0] as int - data[0] as int % 16;
      if kind == 0x10 then HandleConnect(st, env, data)
      else if kind == 0x30 then HandlePublish(st, env, data)
      else if kind == 0x80 then HandleSubscribe(st, data)
      else if kind == 0xC0 then st.(log := st.log + [Sent(Pingresp())])
      else if kind == 0xE0 then st.(closed := true)
      else st
  }

  /** One decoded frame: text and binary carry a packet, close closes, ping is answered. */
  function Dispatch(st: SessionState, env: Env, f: WS.Frame): SessionState {
    if f.opcode == 1 || f.opcode == 2 then ProcessPacket(st, env, f.payload)
    else if f.opcode == 8 then st.(closed := true)
    else if f.opcode == 9 then st.(log := st.log + [Pong(WS.Encode(f.payload, 0x0A))])
    else st
  }

  /** username_.find('_') and the substr before it. */
  method FindRole(username: seq<byte>) returns (role: seq<byte>)
    ensures role == RoleOf(username)
  {
    var pos := 0;
    while pos < |username| && username[pos] != UNDERSCORE
      invariant 0 <= pos <= |username|
      invariant RoleOf(username) == username[..pos] + RoleOf(username[pos..])
    {
      assert username[pos..][1..] == username[pos + 1..];
      assert username[..pos + 1] == username[..pos] + [username[pos]];
      pos := pos + 1;
    }
    assert RoleOf(username[pos..]) == [];
    role := username[..pos];
  }

  /** The session's handlers, in place. */
  class Session {
    var authenticated: bool
    var closing: bool
    var closed: bool
    var clientId: seq<byte>
    var username: seq<byte>
    var role: seq<byte>
    var nodeId: string
    var subscriptions: seq<seq<byte>>
    var log: seq<Effect>

    function S(): SessionState
      reads this
    {
      SessionState(authenticated, closing, closed, clientId, username, role, nodeId, subscriptions, log)
    }

    constructor ()
      ensures S() == INITIAL
    {
      authenticated, closing, closed := false, false, false;
      clientId, username, role, nodeId, subscriptions, log := [], [], [], "", [], [];
    }

    method OnConnect(env: Env, data: seq<byte>)
      modifies this
      ensures S() == HandleConnect(old(S()), env, data)
    {
      hide P.DecodeConnectSpec, RoleOf;
      var conn := P.DecodeConnect(data);
      if conn.None? {
        closing := true;
        log := log + [SentAndClose(Connack(0x01))];
        return;
      }
      clientId := conn.value.clientId;
      username := conn.value.username;
      var expectedPassword := env.accessKey + username;
      if conn.value.password != expectedPassword && env.accessKey != [] {
        closing := true;
        log := log + [SentAndClose(Connack(0x04))];
        return;
      }
      role := FindRole(username);
      authenticated := true;
      log := log + [Sent(Connack(0x00))];
    }

    method OnPublish(env: Env, data: seq<byte>)
      modifies this
      ensures S() == HandlePublish(old(S()), env, data)
    {
      hide P.DecodePublishSpec;
      if !authenticated { return; }
      var pub := P.DecodePublish(data);
      if pub.None? { return; }
      if pub.value.qos == 1 {
        log := log + [Sent(Puback(pub.value.packetId))];
      }
      if pub.value.topic == NODE_META {
        var m := env.meta(pub.value.payload);
        if m.Some? {
          var registerAs := if m.value.role.Some? then m.value.role.value else Text(role);
          log := log + [Registered(nodeId, registerAs, m.value)];
          nodeId := Answered(nodeId, env);
        }
      } else if pub.value.topic == NODE_EXTRA {
        if nodeId != "" {
          var a := env.extra(pub.value.payload);
          if a.Some? { log := log + [Announced(nodeId, a.value)]; }
        }
      } else if !(APR_PREFIX <= pub.value.topic) {
        log := log + [Relayed(pub.value.topic, pub.value.payload)];
      }
    }

    method OnSubscribe(data: seq<byte>)
      modifies this
      ensures S() == HandleSubscribe(old(S()), data)
    {
      hide P.DecodeSubscribeSpec;
      if !authenticated { return; }
      var sub := P.DecodeSubscribe(data);
      if sub.None? { return; }
      var topics := sub.value.topics;
      var returnCodes: seq<byte> := [];
      for i := 0 to |topics|
        invariant returnCodes == seq(i, _ => 0)
        invariant S() == old(S()).(subscriptions := old(subscriptions) + topics[..i])
      {
        assert topics[..i + 1] == topics[..i] + [topics[i]];
        subscriptions := subscriptions + [topics[i]];
        returnCodes := returnCodes + [0x00];
      }
      assert topics[..|topics|] == topics;
      log := log + [Sent(Suback(sub.value.packetId, returnCodes))];
    }

    method OnPacket(env: Env, data: seq<byte>)
      modifies this
      ensures S() == ProcessPacket(old(S()), env, data)
    {
      hide HandleConnect, HandlePublish, HandleSubscribe;
      if |data| == 0 { return; }
      var kind: int := data[0] as int - data[0] as int % 16;
      if kind == 0x10 {
        OnConnect(env, data);
      } else if kind == 0x30 {
        OnPublish(env, data);
      } else if kind == 0x80 {
        OnSubscribe(data);
      } else if kind == 0xC0 {
        log := log + [Sent(Pingresp())];
      } else if kind == 0xE0 {
        closed := true;
      }
    }

    method OnFrame(env: Env, f: WS.Frame)
      modifies this
      ensures S() == Dispatch(old(S()), env, f)
    {
      hide ProcessPacket, WS.Encode;
      if f.opcode == 0x01 || f.opcode == 0x02 {
        OnPacket(env, f.payload);
      } else if f.opcode == 0x08 {
        closed := true;
      } else if f.opcode == 0x09 {
        var pong := WS.EncodeFrame(f.payload, 0x0A);
        log := log + [Pong(pong)];
      }
    }
  }

  function HandlerFor(env: Env): WL.Handler<SessionState> {
    WL.Handler((st, f) => Dispatch(st, env, f),
               (st: SessionState) => st.closing,
               (st: SessionState) => st.closed)
  }

  lemma HandlerCloses(env: Env)
    ensures WL.ClosedForGood(HandlerFor(env))
  {
    hide P.DecodeConnectSpec, P.DecodePublishSpec, P.DecodeSubscribeSpec, WS.Encode, RoleOf;
  }

  // ---------- what a frame can do ----------

  /** The registry is not asked: at most one other entry is logged, and the node id stays. */
  predicate Minor(st: SessionState, st': SessionState) {
    && st'.nodeId == st.nodeId
    && (st'.log == st.log
        || (|st'.log| == |st.log| + 1 && st'.log[..|st.log|] == st.log
            && !st'.log[|st.log|].Registered? && !st'.log[|st.log|].Announced?))
  }

  lemma ConnectIsMinor(st: SessionState, env: Env, data: seq<byte>)
    ensures Minor(st, HandleConnect(st, env, data))
  {
    hide P.DecodeConnectSpec, RoleOf;
  }

  lemma SubscribeIsMinor(st: SessionState, data: seq<byte>)
    ensures Minor(st, HandleSubscribe(st, data))
  {
    hide P.DecodeSubscribeSpec;
  }

  /** Only a PUBLISH can do more. */
  lemma FrameCases(st: SessionState, env: Env, f: WS.Frame)
    ensures Minor(st, Dispatch(st, env, f)) || Dispatch(st, env, f) == HandlePublish(st, env, f.payload)
  {
    hide HandleConnect, HandlePublish, HandleSubscribe, WS.Encode;
    ConnectIsMinor(st, env, f.payload);
    SubscribeIsMinor(st, f.payload);
  }

  /** A PUBLISH may be acknowledged; then it goes to the registry, or is relayed, or is dropped. */
  lemma PublishCases(st: SessionState, env: Env, data: seq<byte>) returns (acked: SessionState, payload: seq<byte>)
    ensures Minor(st, acked)
    ensures var st' := HandlePublish(st, env, data);
            || st' == HandleMeta(acked, env, payload)
            || st' == HandleExtra(acked, env, payload)
            || Minor(acked, st')
  {
    hide P.DecodePublishSpec, HandleMeta, HandleExtra;
    acked, payload := st, [];
    var pub := P.DecodePublishSpec(data);
    if st.authenticated && pub.Some? {
      payload := pub.value.payload;
      if pub.value.qos == 1 { acked := st.(log := st.log + [Sent(Puback(pub.value.packetId))]); }
    }
  }
}
