/**
  What an MQTT session does, as a function of the frames that it has dispatched
  (src/mqtt/mqtt_server.cpp:190-356).

  The definitions here know nothing of the session's fields or handlers: they look at the frames
  only, by the packet types and layouts of MQTT 3.1.1.  `SessionIsItsFrames` says that the session
  is nothing but that; the lemmas after it say where a registration, an announcement and a
  relayed message come from.
 */
module MqttEffects {
  import opened Bytes
  import opened Wrappers
  import opened MqttSession
  import opened MqttStreams
  import P = MqttPacket
  import W = WireFormats
  import WS = WebSocketCodec
  import WL = WebSocketLoop
  import B = Broadcast

  // ---------- the frames ----------

  /** A text or binary frame with a packet of this type; the type is the high half of the first byte. */
  predicate Carries(f: WS.Frame, kind: nat) {
    (f.opcode == 1 || f.opcode == 2) && f.payload != [] && f.payload[0] / 16 == kind
  }

  /** The user name of a CONNECT that is accepted: without an access key, or with key and user name as its password. */
  function AcceptedUser(accessKey: seq<byte>, f: WS.Frame): Option<seq<byte>> {
    if !Carries(f, 1) then None
    else
      var conn :- P.DecodeConnectSpec(f.payload);
      if accessKey == [] || conn.password == accessKey + conn.username then Some(conn.username) else None
  }

  /** The user of the last CONNECT that was accepted. */
  function User(accessKey: seq<byte>, frames: seq<WS.Frame>): Option<seq<byte>> {
    if frames == [] then None
    else
      var last := AcceptedUser(accessKey, frames[|frames| - 1]);
      if last.Some? then last else User(accessKey, frames[..|frames| - 1])
  }

  /** The PUBLISH in a frame. */
  function PublishOf(f: WS.Frame): Option<P.Publish> {
    if Carries(f, 3) then P.DecodePublishSpec(f.payload) else None
  }

  /** The SUBSCRIBE in a frame. */
  function SubscribeOf(f: WS.Frame): Option<P.Subscribe> {
    if Carries(f, 8) then P.DecodeSubscribeSpec(f.payload) else None
  }

  /** The registration that a PUBLISH asks for. */
  function MetaOf(env: Env, f: WS.Frame): Option<Meta> {
    var pub :- PublishOf(f);
    if Text(pub.topic) == "apr/node/meta" then env.meta(pub.payload) else None
  }

  /** The announcement that a PUBLISH makes. */
  function ExtraOf(env: Env, f: WS.Frame): Option<Announcement> {
    var pub :- PublishOf(f);
    if Text(pub.topic) == "apr/node/extra" then env.extra(pub.payload) else None
  }

  /** The node id: the one that the first registration was given. */
  function NodeId(env: Env, frames: seq<WS.Frame>): string {
    if frames == [] then ""
    else
      var earlier, f := frames[..|frames| - 1], frames[|frames| - 1];
      var id := NodeId(env, earlier);
      if id == "" && User(env.accessKey, earlier).Some? && MetaOf(env, f).Some? then env.newId else id
  }

  /** The filters of all the SUBSCRIBEs of a known user. */
  function Filters(accessKey: seq<byte>, frames: seq<WS.Frame>): seq<seq<byte>> {
    if frames == [] then []
    else
      var earlier, sub := frames[..|frames| - 1], SubscribeOf(frames[|frames| - 1]);
      Filters(accessKey, earlier)
      + (if User(accessKey, earlier).Some? && sub.Some? then sub.value.topics else [])
  }

  predicate ClosesSession(f: WS.Frame) {
    f.opcode == 8 || Carries(f, 14)
  }

  /** The role is the user name up to its first '_', or all of it. */
  predicate IsRole(role: string, user: string) {
    && role <= user && '_' !in role
    && (role == user || user[|role|] == '_')
  }

  function Zeros(n: nat): (s: seq<byte>)
    ensures |s| == n
  {
    seq(n, i => 0)
  }

  // ---------- what one frame adds to the log ----------

  /** The answer to the client, to a CONNECT, a PUBLISH at QoS 1, a SUBSCRIBE, a PINGREQ or a ping frame. */
  function Answer(accessKey: seq<byte>, user: Option<seq<byte>>, f: WS.Frame): seq<Effect> {
    if Carries(f, 1) then
      if P.DecodeConnectSpec(f.payload).None? then [SentAndClose([0x20, 0x02, 0x00, 0x01])]
      else if AcceptedUser(accessKey, f).None? then [SentAndClose([0x20, 0x02, 0x00, 0x04])]
      else [Sent([0x20, 0x02, 0x00, 0x00])]
    else if user.Some? && PublishOf(f).Some? && PublishOf(f).value.qos == 1 then
      [Sent([0x40, 0x02] + Be16(PublishOf(f).value.packetId))]
    else if user.Some? && SubscribeOf(f).Some? then
      var sub := SubscribeOf(f).value;
      [Sent([0x90] + P.EncodeLength(2 + |sub.topics|) + Be16(sub.packetId) + Zeros(|sub.topics|))]
    else if Carries(f, 12) then [Sent([0xD0, 0x00])]
    else if f.opcode == 9 then [Pong(WS.Encode(f.payload, 10))]
    else []
  }

  /** What is handed on to others, by a session of this user and with this node id. */
  function Handed(env: Env, user: Option<seq<byte>>, id: string, f: WS.Frame): seq<Effect> {
    if user.None? || PublishOf(f).None? then []
    else
      var pub := PublishOf(f).value;
      var topic := Text(pub.topic);
      if topic == "apr/node/meta" then
        if MetaOf(env, f).None? then []
        else
          var m := MetaOf(env, f).value;
          [Registered(id, if m.role.Some? then m.role.value else Text(RoleOf(user.value)), m)]
      else if topic == "apr/node/extra" then
        if id == "" || ExtraOf(env, f).None? then [] else [Announced(id, ExtraOf(env, f).value)]
      else if "apr/" <= topic then []
      else [Relayed(pub.topic, pub.payload)]
  }

  /** Everything that the frames make the session send and hand on, in order. */
  function LogOf(env: Env, frames: seq<WS.Frame>): seq<Effect> {
    if frames == [] then []
    else
      var earlier, f := frames[..|frames| - 1], frames[|frames| - 1];
      var user := User(env.accessKey, earlier);
      LogOf(env, earlier) + (Answer(env.accessKey, user, f) + Handed(env, user, NodeId(env, earlier), f))
  }

  // ---------- the vocabulary ----------

  lemma KindOf(b: byte, kind: nat)
    ensures b as int - b as int % 16 == 16 * kind <==> b / 16 == kind
  {}

  lemma SameText(a: seq<byte>, b: seq<byte>)
    ensures Text(a) == Text(b) <==> a == b
    ensures Text(a) <= Text(b) <==> a <= b
  {
    assert forall i :: 0 <= i < |a| ==> Text(a)[i] as int == a[i] as int;
    assert forall i :: 0 <= i < |b| ==> Text(b)[i] as int == b[i] as int;
  }

  lemma TopicNames(topic: seq<byte>)
    ensures Text(topic) == "apr/node/meta" <==> topic == NODE_META
    ensures Text(topic) == "apr/node/extra" <==> topic == NODE_EXTRA
    ensures "apr/" <= Text(topic) <==> APR_PREFIX <= topic
  {
    assert Text(NODE_META) == "apr/node/meta" && Text(NODE_EXTRA) == "apr/node/extra" && Text(APR_PREFIX) == "apr/";
    SameText(topic, NODE_META);
    SameText(topic, NODE_EXTRA);
    SameText(APR_PREFIX, topic);
  }

  lemma {:induction false} RoleOfIsRole(user: seq<byte>)
    ensures IsRole(Text(RoleOf(user)), Text(user))
  {
    if user != [] {
      var more := user[1..];
      assert Text(user) == [user[0] as char] + Text(more);
      if user[0] != UNDERSCORE {
        RoleOfIsRole(more);
        assert Text(RoleOf(user)) == [user[0] as char] + Text(RoleOf(more));
      }
    }
  }

  /** There is one role for each user name. */
  lemma OneRole(r: string, r': string, user: string)
    requires IsRole(r, user) && IsRole(r', user)
    ensures r == r'
  {
    LongerRole(r, r', user);
    LongerRole(r', r, user);
  }

  lemma LongerRole(r: string, r': string, user: string)
    requires IsRole(r', user)
    ensures |r| < |r'| ==> !IsRole(r, user)
  {
    if |r| < |r'| { assert r'[|r|] == user[|r|]; }
  }

  // ---------- one frame ----------

  /** The session is what these things say, apart from its log. */
  predicate Holds(st: SessionState, user: Option<seq<byte>>, id: string) {
    && (st.authenticated <==> user.Some?)
    && (user.Some? ==> st.role == RoleOf(user.value))
    && st.nodeId == id
  }

  function NextUser(accessKey: seq<byte>, user: Option<seq<byte>>, f: WS.Frame): Option<seq<byte>> {
    if AcceptedUser(accessKey, f).Some? then AcceptedUser(accessKey, f) else user
  }

  function NextId(env: Env, user: Option<seq<byte>>, id: string, f: WS.Frame): string {
    if id == "" && user.Some? && MetaOf(env, f).Some? then env.newId else id
  }

  /** What the frame makes of the session. */
  predicate Effected(st: SessionState, st': SessionState, env: Env, user: Option<seq<byte>>, f: WS.Frame) {
    && Holds(st', NextUser(env.accessKey, user, f), NextId(env, user, st.nodeId, f))
    && st'.log == st.log + (Answer(env.accessKey, user, f) + Handed(env, user, st.nodeId, f))
    && st'.subscriptions == st.subscriptions
                            + (if user.Some? && SubscribeOf(f).Some? then SubscribeOf(f).value.topics else [])
    && (st'.closed <==> st.closed || ClosesSession(f))
  }

  lemma ConnectEffects(st: SessionState, env: Env, user: Option<seq<byte>>, f: WS.Frame)
    requires Carries(f, 1) && Holds(st, user, st.nodeId)
    ensures Effected(st, Dispatch(st, env, f), env, user, f)
  {
    hide P.DecodeConnectSpec, RoleOf;
    KindOf(f.payload[0], 1);
    assert Dispatch(st, env, f) == HandleConnect(st, env, f.payload);
  }

  lemma SubscribeEffects(st: SessionState, env: Env, user: Option<seq<byte>>, f: WS.Frame)
    requires Carries(f, 8) && Holds(st, user, st.nodeId)
    ensures Effected(st, Dispatch(st, env, f), env, user, f)
  {
    hide P.DecodeSubscribeSpec, RoleOf, P.EncodeLength;
    KindOf(f.payload[0], 8);
    assert Dispatch(st, env, f) == HandleSubscribe(st, f.payload);
  }

  lemma PublishEffects(st: SessionState, env: Env, user: Option<seq<byte>>, f: WS.Frame)
    requires Carries(f, 3) && Holds(st, user, st.nodeId)
    ensures Effected(st, Dispatch(st, env, f), env, user, f)
  {
    hide P.DecodePublishSpec, RoleOf, HandlePublish, Answer, Handed, HandOn, Acked, MetaOf;
    KindOf(f.payload[0], 3);
    assert Dispatch(st, env, f) == HandlePublish(st, env, f.payload);
    PublishSteps(st, env, f.payload);
    AckIsAnswer(st, env, user, f);
    assert st.log + ([] + []) == st.log && st.subscriptions + [] == st.subscriptions;
    if user.Some? && PublishOf(f).Some? {
      var acked := Acked(st, PublishOf(f).value);
      HandedOn(acked, env, user, f);
      var answer, handed := Answer(env.accessKey, user, f), Handed(env, user, st.nodeId, f);
      assert st.log + answer + handed == st.log + (answer + handed);
    }
  }

  lemma AckIsAnswer(st: SessionState, env: Env, user: Option<seq<byte>>, f: WS.Frame)
    requires Carries(f, 3)
    ensures var answer := Answer(env.accessKey, user, f);
            if user.Some? && PublishOf(f).Some? then
              Acked(st, PublishOf(f).value) == st.(log := st.log + answer)
            else
              answer == [] && Handed(env, user, st.nodeId, f) == [] && (PublishOf(f).None? ==> MetaOf(env, f).None?)
  {
    hide P.DecodePublishSpec;
    assert st.log + [] == st.log;
  }

  function Acked(st: SessionState, pub: P.Publish): SessionState {
    if pub.qos == 1 then st.(log := st.log + [Sent(Puback(pub.packetId))]) else st
  }

  function HandOn(st: SessionState, env: Env, pub: P.Publish): SessionState {
    if pub.topic == NODE_META then HandleMeta(st, env, pub.payload)
    else if pub.topic == NODE_EXTRA then HandleExtra(st, env, pub.payload)
    else if APR_PREFIX <= pub.topic then st
    else st.(log := st.log + [Relayed(pub.topic, pub.payload)])
  }

  lemma PublishSteps(st: SessionState, env: Env, data: seq<byte>)
    ensures HandlePublish(st, env, data) ==
              if !st.authenticated || P.DecodePublishSpec(data).None? then st
              else HandOn(Acked(st, P.DecodePublishSpec(data).value), env, P.DecodePublishSpec(data).value)
  {
    hide P.DecodePublishSpec, HandleMeta, HandleExtra;
  }

  lemma HandedOn(st: SessionState, env: Env, user: Option<seq<byte>>, f: WS.Frame)
    requires user.Some? && PublishOf(f).Some? && Holds(st, user, st.nodeId)
    ensures HandOn(st, env, PublishOf(f).value)
         == st.(nodeId := NextId(env, user, st.nodeId, f), log := st.log + Handed(env, user, st.nodeId, f))
  {
    hide P.DecodePublishSpec, RoleOf, Text;
    TopicNames(PublishOf(f).value.topic);
    assert st.log + [] == st.log;
  }

  lemma OtherEffects(st: SessionState, env: Env, user: Option<seq<byte>>, f: WS.Frame)
    requires !Carries(f, 1) && !Carries(f, 3) && !Carries(f, 8) && Holds(st, user, st.nodeId)
    ensures Effected(st, Dispatch(st, env, f), env, user, f)
  {
    hide RoleOf, Handed, Answer, AcceptedUser, PublishOf, SubscribeOf, MetaOf, Dispatch, WS.Encode;
    OtherAnswers(env, user, st.nodeId, f);
    OtherDispatch(st, env, f);
    assert st.log + [] == st.log && st.subscriptions + [] == st.subscriptions;
  }

  lemma OtherAnswers(env: Env, user: Option<seq<byte>>, id: string, f: WS.Frame)
    requires !Carries(f, 1) && !Carries(f, 3) && !Carries(f, 8)
    ensures AcceptedUser(env.accessKey, f).None? && SubscribeOf(f).None? && MetaOf(env, f).None?
    ensures Handed(env, user, id, f) == []
    ensures Answer(env.accessKey, user, f) ==
              if Carries(f, 12) then [Sent([0xD0, 0x00])]
              else if f.opcode == 9 then [Pong(WS.Encode(f.payload, 10))] else []
  {
    hide WS.Encode;
  }

  lemma OtherDispatch(st: SessionState, env: Env, f: WS.Frame)
    requires !Carries(f, 1) && !Carries(f, 3) && !Carries(f, 8)
    ensures Dispatch(st, env, f) ==
              if Carries(f, 12) then st.(log := st.log + [Sent([0xD0, 0x00])])
              else if f.opcode == 9 then st.(log := st.log + [Pong(WS.Encode(f.payload, 10))])
              else if ClosesSession(f) then st.(closed := true) else st
  {
    hide HandleConnect, HandlePublish, HandleSubscribe, WS.Encode;
    if f.payload != [] {
      var b := f.payload[0];
      KindOf(b, 1);
      KindOf(b, 3);
      KindOf(b, 8);
      KindOf(b, 12);
      KindOf(b, 14);
    }
  }

  lemma FrameEffects(st: SessionState, env: Env, user: Option<seq<byte>>, f: WS.Frame)
    requires Holds(st, user, st.nodeId)
    ensures Effected(st, Dispatch(st, env, f), env, user, f)
  {
    hide Holds, Effected, Dispatch, Carries;
    if Carries(f, 1) {
      ConnectEffects(st, env, user, f);
    } else if Carries(f, 3) {
      PublishEffects(st, env, user, f);
    } else if Carries(f, 8) {
      SubscribeEffects(st, env, user, f);
    } else {
      OtherEffects(st, env, user, f);
    }
  }

  // ---------- all frames ----------

  /** The session is a function of its frames. */
  lemma {:induction false} SessionIsItsFrames(env: Env, frames: seq<WS.Frame>)
    ensures var st := After(env, frames);
            && Holds(st, User(env.accessKey, frames), NodeId(env, frames))
            && st.log == LogOf(env, frames)
            && st.subscriptions == Filters(env.accessKey, frames)
            && (st.closed <==> exists k :: 0 <= k < |frames| && ClosesSession(frames[k]))
  {
    hide Dispatch, Holds, AcceptedUser, Answer, Handed, ClosesSession, MetaOf, SubscribeOf;
    if frames == [] {
      NothingYet(env);
    } else {
      var earlier, f := frames[..|frames| - 1], frames[|frames| - 1];
      SessionIsItsFrames(env, earlier);
      IdHolds(After(env, earlier), User(env.accessKey, earlier), NodeId(env, earlier));
      FrameEffects(After(env, earlier), env, User(env.accessKey, earlier), f);
      assert After(env, frames) == Dispatch(After(env, earlier), env, f);
    }
  }

  lemma NothingYet(env: Env)
    ensures After(env, []) == INITIAL && Holds(INITIAL, None, "")
  {}

  lemma IdHolds(st: SessionState, user: Option<seq<byte>>, id: string)
    requires Holds(st, user, id)
    ensures id == st.nodeId
  {}

  /** So after any run of reads, through the receive buffer and whatever its cap. */
  lemma ReadsAreFrames(env: Env, cap: nat, chunks: seq<seq<byte>>)
    ensures var c := WL.RunBuffered(HandlerFor(env), cap, WL.Opened(INITIAL), chunks);
            && c.st.log == LogOf(env, c.frames) && c.st.subscriptions == Filters(env.accessKey, c.frames)
            && c.st.nodeId == NodeId(env, c.frames)
            && (c.st.authenticated <==> User(env.accessKey, c.frames).Some?)
            && (c.st.closed <==> exists k :: 0 <= k < |c.frames| && ClosesSession(c.frames[k]))
  {
    hide WL.RunBuffered, Dispatch, LogOf, Filters, NodeId, User, ClosesSession;
    WL.BufferedRunFolds(HandlerFor(env), cap, INITIAL, WL.Opened(INITIAL), chunks);
    SessionIsItsFrames(env, WL.RunBuffered(HandlerFor(env), cap, WL.Opened(INITIAL), chunks).frames);
  }

  // ---------- where an entry of the log comes from ----------

  /** Entry i of the log was added when frame k was dispatched. */
  predicate FromFrame(env: Env, frames: seq<WS.Frame>, k: nat, i: nat) {
    k < |frames| && |After(env, frames[..k]).log| <= i < |After(env, frames[..k + 1]).log| <= |After(env, frames).log|
  }

  lemma {:induction false} LogOfPrefix(env: Env, frames: seq<WS.Frame>, k: nat)
    requires k <= |frames|
    ensures LogOf(env, frames[..k]) <= LogOf(env, frames)
  {
    hide Answer, Handed;
    if k < |frames| {
      var earlier := frames[..|frames| - 1];
      LogOfPrefix(env, earlier, k);
      assert earlier[..k] == frames[..k];
    } else {
      assert frames[..k] == frames;
    }
  }

  /** What frame k adds to the log, at the end of what the frames before it have added. */
  lemma {:induction false} AddedByFrame(env: Env, frames: seq<WS.Frame>, k: nat)
    requires k < |frames|
    ensures var user, id := User(env.accessKey, frames[..k]), NodeId(env, frames[..k]);
            var added := Answer(env.accessKey, user, frames[k]) + Handed(env, user, id, frames[k]);
            && LogOf(env, frames[..k + 1]) == LogOf(env, frames[..k]) + added
            && After(env, frames[..k]).log == LogOf(env, frames[..k])
            && After(env, frames[..k + 1]).log == LogOf(env, frames[..k]) + added
            && LogOf(env, frames[..k]) + added <= After(env, frames).log
  {
    hide Answer, Handed, User, NodeId, After;
    assert frames[..k + 1][..k] == frames[..k];
    LogOfPrefix(env, frames, k + 1);
    SessionIsItsFrames(env, frames[..k]);
    SessionIsItsFrames(env, frames[..k + 1]);
    SessionIsItsFrames(env, frames);
  }

  lemma NothingLogged(env: Env)
    ensures LogOf(env, []) == []
  {}

  /** Every entry was added by some frame. */
  lemma {:induction false} SourceOf(env: Env, frames: seq<WS.Frame>, i: nat) returns (k: nat)
    requires i < |LogOf(env, frames)|
    ensures k < |frames| && |LogOf(env, frames[..k])| <= i < |LogOf(env, frames[..k + 1])|
  {
    hide LogOf;
    NothingLogged(env);
    var last := |frames| - 1;
    if i < |LogOf(env, frames[..last])| {
      k := SourceOf(env, frames[..last], i);
      assert frames[..last][..k] == frames[..k] && frames[..last][..k + 1] == frames[..k + 1];
    } else {
      k := last;
      assert frames[..last + 1] == frames;
    }
  }

  /** A registration's meta is what the payload parses to; its role the payload's, or else the user's. */
  predicate RegisteredBy(env: Env, user: Option<seq<byte>>, f: WS.Frame, e: Effect)
    requires e.Registered?
  {
    && PublishOf(f).Some? && Text(PublishOf(f).value.topic) == "apr/node/meta"
    && env.meta(PublishOf(f).value.payload) == Some(e.meta)
    && user.Some?
    && (e.meta.role.Some? ==> e.role == e.meta.role.value)
    && (e.meta.role.None? ==> IsRole(e.role, Text(user.value)))
  }

  predicate AnnouncedBy(env: Env, f: WS.Frame, e: Effect)
    requires e.Announced?
  {
    && PublishOf(f).Some? && Text(PublishOf(f).value.topic) == "apr/node/extra"
    && env.extra(PublishOf(f).value.payload) == Some(e.what)
  }

  predicate RelayedBy(f: WS.Frame, e: Effect)
    requires e.Relayed?
  {
    && PublishOf(f).Some? && PublishOf(f).value.topic == e.topic && PublishOf(f).value.payload == e.payload
    && !("apr/" <= Text(e.topic))
  }

  /** What is handed on is what the frame says. */
  predicate SaidBy(env: Env, user: Option<seq<byte>>, f: WS.Frame, e: Effect) {
    && (e.Registered? ==> RegisteredBy(env, user, f, e))
    && (e.Announced? ==> AnnouncedBy(env, f, e))
    && (e.Relayed? ==> RelayedBy(f, e))
  }

  /**
    Whatever frames a new session dispatches: each registration, announcement and relayed message in
    its log is what one of them says, `user` being that of the last CONNECT accepted before it.
   */
  lemma {:induction false} OriginOf(env: Env, frames: seq<WS.Frame>, i: nat) returns (k: nat)
    requires i < |After(env, frames).log|
    ensures FromFrame(env, frames, k, i)
    ensures var e, user := After(env, frames).log[i], User(env.accessKey, frames[..k]);
            SaidBy(env, user, frames[k], e)
  {
    hide *;
    LogIsLogOf(env, frames);
    k := SourceOf(env, frames, i);
    OriginIs(env, frames, k, i);
  }

  lemma LogIsLogOf(env: Env, frames: seq<WS.Frame>)
    ensures After(env, frames).log == LogOf(env, frames)
  {
    hide Answer, Handed, User, NodeId, After, LogOf, Filters, ClosesSession;
    SessionIsItsFrames(env, frames);
  }

  lemma {:induction false} OriginIs(env: Env, frames: seq<WS.Frame>, k: nat, i: nat)
    requires k < |frames| && |LogOf(env, frames[..k])| <= i < |LogOf(env, frames[..k + 1])|
    requires i < |After(env, frames).log|
    ensures FromFrame(env, frames, k, i)
    ensures SaidBy(env, User(env.accessKey, frames[..k]), frames[k], After(env, frames).log[i])
  {
    hide Answer, Handed, User, NodeId, After, LogOf, SaidBy, FromFrame;
    EntryOfFrame(env, frames, k, i);
    AddedAsSaid(env, User(env.accessKey, frames[..k]), NodeId(env, frames[..k]), frames[k],
                i - |LogOf(env, frames[..k])|);
  }

  lemma {:induction false} EntryOfFrame(env: Env, frames: seq<WS.Frame>, k: nat, i: nat)
    requires k < |frames| && |LogOf(env, frames[..k])| <= i < |LogOf(env, frames[..k + 1])|
    requires i < |After(env, frames).log|
    ensures FromFrame(env, frames, k, i)
    ensures var user, id := User(env.accessKey, frames[..k]), NodeId(env, frames[..k]);
            var added := Answer(env.accessKey, user, frames[k]) + Handed(env, user, id, frames[k]);
            var at := i - |LogOf(env, frames[..k])|;
            at < |added| && After(env, frames).log[i] == added[at]
  {
    hide Answer, Handed, User, NodeId, After, LogOf;
    AddedByFrame(env, frames, k);
    var user, id := User(env.accessKey, frames[..k]), NodeId(env, frames[..k]);
    EntryAt(LogOf(env, frames[..k]), Answer(env.accessKey, user, frames[k]) + Handed(env, user, id, frames[k]),
            After(env, frames).log, i);
  }

  lemma EntryAt(x: seq<Effect>, y: seq<Effect>, log: seq<Effect>, i: nat)
    requires x + y <= log && |x| <= i < |x| + |y|
    ensures log[i] == y[i - |x|]
  {
    assert log[i] == (x + y)[i];
  }

  lemma AddedAsSaid(env: Env, user: Option<seq<byte>>, id: string, f: WS.Frame, i: nat)
    requires i < |Answer(env.accessKey, user, f) + Handed(env, user, id, f)|
    ensures var e := (Answer(env.accessKey, user, f) + Handed(env, user, id, f))[i];
            SaidBy(env, user, f, e)
  {
    hide Answer, Handed, RegisteredBy, AnnouncedBy, RelayedBy;
    AnswersAreForClient(env.accessKey, user, f);
    var answer := Answer(env.accessKey, user, f);
    if i >= |answer| { HandedAsSaid(env, user, id, f, i - |answer|); }
  }

  lemma AnswersAreForClient(accessKey: seq<byte>, user: Option<seq<byte>>, f: WS.Frame)
    ensures forall i :: 0 <= i < |Answer(accessKey, user, f)| ==> !ForOthers(Answer(accessKey, user, f)[i])
  {
    hide P.DecodeConnectSpec, P.DecodePublishSpec, P.DecodeSubscribeSpec, WS.Encode;
  }

  lemma HandedAsSaid(env: Env, user: Option<seq<byte>>, id: string, f: WS.Frame, i: nat)
    requires i < |Handed(env, user, id, f)|
    ensures var e := Handed(env, user, id, f)[i];
            SaidBy(env, user, f, e)
  {
    hide P.DecodePublishSpec, RoleOf;
    RoleOfIsRole(user.value);
    hide IsRole;
  }

  /**
    And each PUBLISH of a known user leaves its entry: on apr/node/meta a registration if the payload parses, on
    apr/node/extra an announcement if it parses and the session has a node, outside apr/ a relayed message.
   */
  lemma {:induction false} PublishLeaves(env: Env, frames: seq<WS.Frame>, k: nat) returns (i: nat)
    requires k < |frames| && User(env.accessKey, frames[..k]).Some? && PublishOf(frames[k]).Some?
    requires var pub, topic := PublishOf(frames[k]).value, Text(PublishOf(frames[k]).value.topic);
             || (topic == "apr/node/meta" && env.meta(pub.payload).Some?)
             || (topic == "apr/node/extra" && env.extra(pub.payload).Some? && NodeId(env, frames[..k]) != "")
             || !("apr/" <= topic)
    ensures FromFrame(env, frames, k, i)
    ensures var pub, e := PublishOf(frames[k]).value, After(env, frames).log[i];
            var topic := Text(pub.topic);
            && (topic == "apr/node/meta" ==>
                  e.Registered? && RegisteredBy(env, User(env.accessKey, frames[..k]), frames[k], e))
            && (topic == "apr/node/extra" ==> e.Announced? && AnnouncedBy(env, frames[k], e))
            && (!("apr/" <= topic) ==> e == Relayed(pub.topic, pub.payload))
  {
    hide Answer, User, NodeId, After, LogOf, RegisteredBy, AnnouncedBy, Handed;
    AddedByFrame(env, frames, k);
    var user, id := User(env.accessKey, frames[..k]), NodeId(env, frames[..k]);
    var answer, handed := Answer(env.accessKey, user, frames[k]), Handed(env, user, id, frames[k]);
    HandedOne(env, user, id, frames[k]);
    HandedAsSaid(env, user, id, frames[k], 0);
    i := |LogOf(env, frames[..k])| + |answer|;
    assert (LogOf(env, frames[..k]) + (answer + handed))[i] == handed[0];
  }

  lemma HandedOne(env: Env, user: Option<seq<byte>>, id: string, f: WS.Frame)
    requires user.Some? && PublishOf(f).Some?
    requires var pub, topic := PublishOf(f).value, Text(PublishOf(f).value.topic);
             || (topic == "apr/node/meta" && env.meta(pub.payload).Some?)
             || (topic == "apr/node/extra" && env.extra(pub.payload).Some? && id != "")
             || !("apr/" <= topic)
    ensures var pub, handed := PublishOf(f).value, Handed(env, user, id, f);
            && |handed| == 1
            && (handed[0].Registered? <==> Text(pub.topic) == "apr/node/meta")
            && (handed[0].Announced? <==> Text(pub.topic) == "apr/node/extra")
            && (!("apr/" <= Text(pub.topic)) ==> handed[0] == Relayed(pub.topic, pub.payload))
  {
    hide P.DecodePublishSpec, RoleOf;
  }

  // ---------- packets laid out by the standard ----------

  /** The answers are packets of their types: CONNACK, PUBACK, SUBACK and PINGRESP (sections 3.2, 3.4, 3.9, 3.13). */
  lemma AnswersAreLaidOut(accessKey: seq<byte>, user: Option<seq<byte>>, f: WS.Frame)
    requires SubscribeOf(f).Some? ==> |SubscribeOf(f).value.topics| < P.TWO_21
    ensures forall e :: e in Answer(accessKey, user, f) ==>
              match e
              case SentAndClose(packet) =>
                Carries(f, 1) && AcceptedUser(accessKey, f).None?
                && W.IsPacket(packet, 2, 0, [0, if P.DecodeConnectSpec(f.payload).None? then 1 else 4])
              case Sent(packet) =>
                || (AcceptedUser(accessKey, f).Some? && W.IsPacket(packet, 2, 0, [0, 0]))
                || (PublishOf(f).Some? && W.IsPacket(packet, 4, 0, Be16(PublishOf(f).value.packetId)))
                || (SubscribeOf(f).Some?
                    && var sub := SubscribeOf(f).value;
                       W.IsPacket(packet, 9, 0, Be16(sub.packetId) + Zeros(|sub.topics|)))
                || (Carries(f, 12) && W.IsPacket(packet, 13, 0, []))
              case Pong(frame) => f.opcode == 9 && frame == WS.Encode(f.payload, 10)
              case _ => false
  {
    hide P.DecodeConnectSpec, P.DecodePublishSpec, P.DecodeSubscribeSpec, W.IsPacket, WS.Encode, P.EncodeLength;
    ShortLengths();
    W.PacketLayout([0x20, 2, 0, 1], 2, 0, [0, 1]);
    W.PacketLayout([0x20, 2, 0, 4], 2, 0, [0, 4]);
    W.PacketLayout([0x20, 2, 0, 0], 2, 0, [0, 0]);
    W.PacketLayout([0xD0, 0], 13, 0, []);
    if PublishOf(f).Some? {
      var id := Be16(PublishOf(f).value.packetId);
      W.PacketLayout([0x40, 2] + id, 4, 0, id);
    }
    if SubscribeOf(f).Some? {
      var n, id := |SubscribeOf(f).value.topics|, Be16(SubscribeOf(f).value.packetId);
      assert [0x90] + P.EncodeLength(2 + n) + id + Zeros(n) == [0x90] + P.EncodeLength(2 + n) + (id + Zeros(n));
      W.PacketLayout([0x90] + P.EncodeLength(2 + n) + (id + Zeros(n)), 9, 0, id + Zeros(n));
    }
  }

  lemma ShortLengths()
    ensures P.EncodeLength(2) == [2] && P.EncodeLength(0) == [0]
  {}

  /** A CONNECT of the standard is accepted exactly without an access key, or with key and user name as its password. */
  lemma ConnectAccepted(accessKey: seq<byte>, c: W.ConnectFields, opcode: byte, fin: bool)
    requires c.Valid() && |W.ConnectBody(c)| < P.TWO_21 && (opcode == 1 || opcode == 2)
    ensures var user := if c.username.Some? then c.username.value else [];
            var password := if c.password.Some? then c.password.value else [];
            AcceptedUser(accessKey, WS.Frame(fin, opcode, W.ConnectPacket(c)))
            == if accessKey == [] || password == accessKey + user then Some(user) else None
  {
    hide P.DecodeConnectSpec, W.ConnectBody;
    W.ConnectIsRead(c, []);
    assert W.ConnectPacket(c) + [] == W.ConnectPacket(c);
  }

  /** The filters of a SUBSCRIBE are stored, and from then on messages that one of them matches go to the session. */
  lemma SubscribeStores(env: Env, frames: seq<WS.Frame>, packetId: nat, filters: seq<(seq<byte>, byte)>,
                        opcode: byte, fin: bool)
    requires packetId < 65536 && 2 + |W.FilterList(filters)| < P.TWO_21 && (opcode == 1 || opcode == 2)
    requires W.AllShort(filters)
    requires User(env.accessKey, frames).Some?
    ensures var before, after := After(env, frames),
                                 After(env, frames + [WS.Frame(fin, opcode, W.SubscribePacket(packetId, filters))]);
            && after.subscriptions == before.subscriptions + W.Names(filters)
            && forall topic :: B.Subscribed(after.subscriptions, topic) <==>
                 B.Subscribed(before.subscriptions, topic) || B.Subscribed(W.Names(filters), topic)
  {
    hide P.DecodeSubscribeSpec, After, W.FilterList, W.Names, B.Subscribed;
    var f := WS.Frame(fin, opcode, W.SubscribePacket(packetId, filters));
    W.SubscribeIsRead(packetId, filters, []);
    assert W.SubscribePacket(packetId, filters) + [] == W.SubscribePacket(packetId, filters);
    assert SubscribeOf(f) == Some(P.Subscribe(packetId, W.Names(filters)));
    SessionIsItsFrames(env, frames);
    SessionIsItsFrames(env, frames + [f]);
    assert (frames + [f])[..|frames|] == frames;
    forall topic
      ensures B.Subscribed(After(env, frames).subscriptions + W.Names(filters), topic) <==>
              B.Subscribed(After(env, frames).subscriptions, topic) || B.Subscribed(W.Names(filters), topic)
    {
      SubscribedEither(After(env, frames).subscriptions, W.Names(filters), topic);
    }
  }

  lemma SubscribedEither(x: seq<seq<byte>>, y: seq<seq<byte>>, topic: seq<byte>)
    ensures B.Subscribed(x + y, topic) <==> B.Subscribed(x, topic) || B.Subscribed(y, topic)
  {
    hide B.T.MatchSpec;
    assert forall i :: 0 <= i < |x| ==> (x + y)[i] == x[i];
    assert forall i :: 0 <= i < |y| ==> (x + y)[|x| + i] == y[i];
  }

  /**
    A message published on a topic outside apr/ is acknowledged at QoS 1 and relayed as it is; what a broadcast
    of it sends to a subscriber, raw or framed, is read there as the same topic and payload.
   */
  lemma PublishIsRelayed(env: Env, frames: seq<WS.Frame>, topic: seq<byte>, payload: seq<byte>, qos: byte,
                         packetId: nat, opcode: byte, fin: bool, websocket: bool)
    requires qos <= 2 && packetId < 65536 && (opcode == 1 || opcode == 2)
    requires |topic| < 65536 && |P.PublishBody(topic, payload, qos, packetId)| < P.TWO_21 && !("apr/" <= Text(topic))
    requires User(env.accessKey, frames).Some?
    ensures var f := WS.Frame(fin, opcode, P.EncodePublishSpec(topic, payload, qos, packetId));
            After(env, frames + [f]).log == After(env, frames).log
              + (if qos == 1 then [Sent([0x40, 0x02] + Be16(packetId))] else [])
              + [Relayed(topic, payload)]
    ensures B.Received(websocket, B.Wire(websocket, topic, payload)) == Some(P.Publish(topic, payload, 0, 0, false))
  {
    hide P.PublishBody, P.EncodePublishSpec, After, LogOf, PublishOf, Answer, Handed, User, NodeId, B.Wire, B.Received;
    var f := WS.Frame(fin, opcode, P.EncodePublishSpec(topic, payload, qos, packetId));
    var all := frames + [f];
    PublishSays(topic, payload, qos, packetId, opcode, fin);
    assert all[..|frames|] == frames && all[..|frames| + 1] == all;
    AddedByFrame(env, all, |frames|);
    RelayedOnly(env, User(env.accessKey, frames), NodeId(env, frames), f);
    WireFits(topic, payload, qos, packetId);
    B.WireIsRead(websocket, topic, payload);
  }

  /** The frame holds the PUBLISH that was laid out in it. */
  lemma PublishSays(topic: seq<byte>, payload: seq<byte>, qos: byte, packetId: nat, opcode: byte, fin: bool)
    requires qos <= 2 && packetId < 65536 && (opcode == 1 || opcode == 2)
    requires |topic| < 65536 && |P.PublishBody(topic, payload, qos, packetId)| < P.TWO_21
    ensures var f := WS.Frame(fin, opcode, P.EncodePublishSpec(topic, payload, qos, packetId));
            && PublishOf(f) == Some(P.Publish(topic, payload, if qos > 0 then packetId else 0, qos, false))
            && Carries(f, 3)
  {
    hide P.DecodePublishSpec, P.PublishBody, P.EncodePublishSpec;
    var packet := P.EncodePublishSpec(topic, payload, qos, packetId);
    P.PublishWithin(topic, payload, qos, packetId, []);
    assert packet + [] == packet;
    PublishByte(topic, payload, qos, packetId);
  }

  lemma RelayedOnly(env: Env, user: Option<seq<byte>>, id: string, f: WS.Frame)
    requires user.Some? && Carries(f, 3) && PublishOf(f).Some? && !("apr/" <= Text(PublishOf(f).value.topic))
    ensures var pub := PublishOf(f).value;
            && Answer(env.accessKey, user, f) ==
                 (if pub.qos == 1 then [Sent([0x40, 0x02] + Be16(pub.packetId))] else [])
            && Handed(env, user, id, f) == [Relayed(pub.topic, pub.payload)]
  {
    hide P.DecodePublishSpec;
  }

  lemma PublishByte(topic: seq<byte>, payload: seq<byte>, qos: byte, packetId: nat)
    requires qos <= 2
    ensures var packet := P.EncodePublishSpec(topic, payload, qos, packetId); packet != [] && packet[0] / 16 == 3
  {}

  lemma WireFits(topic: seq<byte>, payload: seq<byte>, qos: byte, packetId: nat)
    requires |P.PublishBody(topic, payload, qos, packetId)| < P.TWO_21
    ensures 2 + |topic| + |payload| < P.TWO_21
    ensures |P.EncodePublishSpec(topic, payload, 0, 0)| + 10 < TWO_64
  {
    var n := 2 + |topic| + |payload|;
    assert |P.PublishBody(topic, payload, 0, 0)| == n;
    P.PowersOf128();
    W.LengthFieldSize(n, 0);
  }
}
