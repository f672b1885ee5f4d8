/**
  What a whole stream of reads can make an MQTT session do (src/mqtt/mqtt_server.cpp:154-356),
  through the receive loop of WebSocketLoop.
 */
module MqttStreams {
  import opened Bytes
  import opened Wrappers
  import opened MqttSession
  import P = MqttPacket
  import WS = WebSocketCodec
  import WL = WebSocketLoop

  // ---------- streams whose cuts matter, and streams whose cuts do not ----------

  /** A DISCONNECT and a PINGREQ: the smallest stream whose outcome depends on the cuts. */
  lemma PingBehindDisconnect(env: Env)
    ensures var stream := WS.Encode([0xE0, 0x00], 2) + WS.Encode([0xC0, 0x00], 2);
            !WL.CutsAgree(HandlerFor(env), INITIAL, stream, WL.READ_SIZE)
  {
    hide WS.Encode, WS.Decode;
    var ping := WS.Encode([0xC0, 0x00], 2);
    DrainDisconnect(env, ping);
    EncodedSize([0xC0, 0x00]);
    WS.RoundTrip([0xC0, 0x00], 2, []);
    assert ping + [] == ping;
    assert ping[..4] == ping;
    HandlerCloses(env);
    WL.CutsAgreeExactly(HandlerFor(env), INITIAL, WS.Encode([0xE0, 0x00], 2) + ping, WL.READ_SIZE);
  }

  /** A frame behind the DISCONNECT that is too long for the same read is never dispatched. */
  lemma LongFrameBehindDisconnect(env: Env, payload: seq<byte>)
    requires WL.READ_SIZE <= |payload| < TWO_64 - 10
    ensures var stream := WS.Encode([0xE0, 0x00], 2) + WS.Encode(payload, 2);
            WL.CutsAgree(HandlerFor(env), INITIAL, stream, WL.READ_SIZE)
  {
    hide WS.Encode, WS.Decode;
    var long := WS.Encode(payload, 2);
    DrainDisconnect(env, long);
    EncodedSize(payload);
    WS.ProperPrefixIncomplete(payload, 2, WL.READ_SIZE - 1);
    HandlerCloses(env);
    WL.CutsAgreeExactly(HandlerFor(env), INITIAL, WS.Encode([0xE0, 0x00], 2) + long, WL.READ_SIZE);
  }

  lemma EncodedSize(payload: seq<byte>)
    ensures |WS.Encode(payload, 2)| >= 2 + |payload|
    ensures |payload| < 126 ==> |WS.Encode(payload, 2)| == 2 + |payload|
  {}

  /** The reference stops behind the DISCONNECT. */
  lemma DrainDisconnect(env: Env, rest: seq<byte>)
    ensures var d := WL.Drain(HandlerFor(env), INITIAL,
                              WL.Fresh(INITIAL).pending + (WS.Encode([0xE0, 0x00], 2) + rest), true);
            d == WL.Drained(INITIAL.(closed := true), [WS.Frame(true, 2, [0xE0, 0x00])], rest, WL.Open)
  {
    hide WS.Encode, WS.Decode;
    var h := HandlerFor(env);
    var disconnect := WS.Encode([0xE0, 0x00], 2);
    var stream := disconnect + rest;
    WS.RoundTrip([0xE0, 0x00], 2, rest);
    WS.ConsumedBounds(stream);
    assert stream[|disconnect|..] == rest;
    assert WL.Fresh(INITIAL).pending + stream == stream;
    var closed := INITIAL.(closed := true);
    assert h.step(INITIAL, WS.Frame(true, 2, [0xE0, 0x00])) == closed;
    assert WL.Drain(h, closed, rest, true) == WL.Drained(closed, [], rest, WL.Open);
  }

  // ---------- what a whole stream can do ----------

  function After(env: Env, frames: seq<WS.Frame>): SessionState {
    WL.Fold(HandlerFor(env), INITIAL, frames)
  }

  predicate AcceptedConnect(env: Env, data: seq<byte>) {
    var conn := P.DecodeConnectSpec(data);
    conn.Some? && (env.accessKey == [] || conn.value.password == env.accessKey + conn.value.username)
  }

  /** The frame holds a CONNECT that is accepted under this access key. */
  predicate Accepted(env: Env, f: WS.Frame) {
    && (f.opcode == 1 || f.opcode == 2) && f.payload != [] && 0x10 <= f.payload[0] < 0x20
    && AcceptedConnect(env, f.payload)
  }

  predicate ForOthers(e: Effect) {
    e.Registered? || e.Announced? || e.Relayed?
  }

  /**
    How one packet may change a session: it only adds to the log and to the subscriptions, for
    others only if the session was authenticated; it begins to close with one last response.
   */
  predicate Extends(st: SessionState, st': SessionState, accepted: bool) {
    && (st'.authenticated <==> st.authenticated || accepted)
    && st.log <= st'.log && st.subscriptions <= st'.subscriptions
    && (st'.subscriptions != st.subscriptions ==> st.authenticated)
    && (forall i :: |st.log| <= i < |st'.log| && ForOthers(st'.log[i]) ==> st.authenticated)
    && (st'.closing != st.closing ==> |st'.log| == |st.log| + 1 && st'.closing && st'.log[|st.log|].SentAndClose?)
    && (st'.closing == st.closing ==> forall i :: |st.log| <= i < |st'.log| ==> !st'.log[i].SentAndClose?)
  }

  lemma ConnectExtends(st: SessionState, env: Env, data: seq<byte>)
    requires !st.closing
    ensures Extends(st, HandleConnect(st, env, data), AcceptedConnect(env, data))
  {
    hide P.DecodeConnectSpec, RoleOf;
  }

  /** An authenticated session that logs one more entry, not a refusal. */
  lemma OneMoreExtends(st: SessionState, st': SessionState, e: Effect)
    requires st.authenticated && st'.log == st.log + [e] && !e.SentAndClose?
    requires st'.authenticated == st.authenticated && st'.closing == st.closing && st'.subscriptions == st.subscriptions
    ensures Extends(st, st', false)
  {
    hide ForOthers;
  }

  lemma SameExtends(st: SessionState)
    ensures Extends(st, st, false)
  {
    hide ForOthers;
  }

  lemma ExtendsThen(st: SessionState, mid: SessionState, st': SessionState)
    requires Extends(st, mid, false) && Extends(mid, st', false) && mid.closing == st.closing == st'.closing
    ensures Extends(st, st', false)
  {
    hide ForOthers;
    assert forall i :: |st.log| <= i < |mid.log| ==> st'.log[i] == mid.log[i];
  }

  lemma MetaExtends(st: SessionState, env: Env, payload: seq<byte>)
    requires st.authenticated
    ensures Extends(st, HandleMeta(st, env, payload), false) && HandleMeta(st, env, payload).closing == st.closing
  {
    hide Extends;
    var st' := HandleMeta(st, env, payload);
    SameExtends(st);
    if st'.log != st.log { OneMoreExtends(st, st', st'.log[|st.log|]); }
  }

  lemma ExtraExtends(st: SessionState, env: Env, payload: seq<byte>)
    requires st.authenticated
    ensures Extends(st, HandleExtra(st, env, payload), false) && HandleExtra(st, env, payload).closing == st.closing
  {
    hide Extends;
    var st' := HandleExtra(st, env, payload);
    SameExtends(st);
    if st'.log != st.log { OneMoreExtends(st, st', st'.log[|st.log|]); }
  }

  lemma PublishExtends(st: SessionState, env: Env, data: seq<byte>)
    ensures Extends(st, HandlePublish(st, env, data), false)
  {
    hide P.DecodePublishSpec, Extends, HandleMeta, HandleExtra;
    SameExtends(st);
    var pub := P.DecodePublishSpec(data);
    if st.authenticated && pub.Some? {
      var ack := Sent(Puback(pub.value.packetId));
      var acked := if pub.value.qos == 1 then st.(log := st.log + [ack]) else st;
      if pub.value.qos == 1 { OneMoreExtends(st, acked, ack); }
      SameExtends(acked);
      MetaExtends(acked, env, pub.value.payload);
      ExtraExtends(acked, env, pub.value.payload);
      var relay := Relayed(pub.value.topic, pub.value.payload);
      OneMoreExtends(acked, acked.(log := acked.log + [relay]), relay);
      ExtendsThen(st, acked, HandlePublish(st, env, data));
    }
  }

  lemma SubscribeExtends(st: SessionState, data: seq<byte>)
    ensures Extends(st, HandleSubscribe(st, data), false)
  {
    hide P.DecodeSubscribeSpec;
  }

  lemma FrameExtends(st: SessionState, env: Env, f: WS.Frame)
    requires !st.closing
    ensures Extends(st, Dispatch(st, env, f), Accepted(env, f))
  {
    hide AcceptedConnect, HandleConnect, HandlePublish, HandleSubscribe, WS.Encode;
    ConnectExtends(st, env, f.payload);
    PublishExtends(st, env, f.payload);
    SubscribeExtends(st, f.payload);
  }

  predicate OpenUntil(env: Env, frames: seq<WS.Frame>) {
    WL.OpenThroughout(HandlerFor(env), INITIAL, frames)
  }

  lemma OpenBefore(env: Env, frames: seq<WS.Frame>)
    requires OpenUntil(env, frames) && frames != []
    ensures OpenUntil(env, frames[..|frames| - 1]) && !After(env, frames[..|frames| - 1]).closing
    ensures After(env, frames) == Dispatch(After(env, frames[..|frames| - 1]), env, frames[|frames| - 1])
  {
    hide Dispatch;
    var earlier := frames[..|frames| - 1];
    forall i | 0 <= i < |earlier| ensures !HandlerFor(env).closing(WL.Fold(HandlerFor(env), INITIAL, earlier[..i])) {
      assert earlier[..i] == frames[..i];
    }
  }

  /** Frame k holds an accepted CONNECT, and entry i of the log came after it. */
  predicate ConnectBefore(env: Env, frames: seq<WS.Frame>, k: int, i: int) {
    0 <= k < |frames| && Accepted(env, frames[k]) && |After(env, frames[..k + 1]).log| <= i
  }

  /** A session is authenticated exactly after an accepted CONNECT. */
  lemma {:induction false} AuthenticatedIff(env: Env, frames: seq<WS.Frame>)
    requires OpenUntil(env, frames)
    ensures After(env, frames).authenticated <==>
            exists k :: ConnectBefore(env, frames, k, |After(env, frames).log|)
  {
    hide Dispatch, Accepted, ForOthers;
    if frames != [] {
      var n := |frames| - 1;
      var earlier := frames[..n];
      OpenBefore(env, frames);
      AuthenticatedIff(env, earlier);
      FrameExtends(After(env, earlier), env, frames[n]);
      assert frames[..n + 1] == frames;
      if After(env, frames).authenticated {
        if Accepted(env, frames[n]) {
          assert ConnectBefore(env, frames, n, |After(env, frames).log|);
        } else {
          var k :| ConnectBefore(env, earlier, k, |After(env, earlier).log|);
          assert earlier[..k + 1] == frames[..k + 1];
          assert ConnectBefore(env, frames, k, |After(env, frames).log|);
        }
      }
      if k :| ConnectBefore(env, frames, k, |After(env, frames).log|) {
        if k < n {
          assert earlier[..k + 1] == frames[..k + 1];
          LogGrows(env, earlier, k + 1);
          assert ConnectBefore(env, earlier, k, |After(env, earlier).log|);
        }
      }
    }
  }

  lemma {:induction false} LogGrows(env: Env, frames: seq<WS.Frame>, k: nat)
    requires OpenUntil(env, frames) && k <= |frames|
    ensures After(env, frames[..k]).log <= After(env, frames).log
  {
    hide Dispatch, Accepted;
    if k < |frames| {
      var earlier := frames[..|frames| - 1];
      OpenBefore(env, frames);
      LogGrows(env, earlier, k);
      assert earlier[..k] == frames[..k];
      FrameExtends(After(env, earlier), env, frames[|frames| - 1]);
    } else {
      assert frames[..k] == frames;
    }
  }

  /** Whatever the session did for others came after an accepted CONNECT. */
  lemma {:induction false} OthersAfterConnect(env: Env, frames: seq<WS.Frame>, i: nat)
    requires OpenUntil(env, frames)
    requires i < |After(env, frames).log| && ForOthers(After(env, frames).log[i])
    ensures exists k :: ConnectBefore(env, frames, k, i)
  {
    hide Dispatch, Accepted, ForOthers;
    if frames != [] {
      var earlier := frames[..|frames| - 1];
      OpenBefore(env, frames);
      FrameExtends(After(env, earlier), env, frames[|frames| - 1]);
      var k;
      if i < |After(env, earlier).log| {
        OthersAfterConnect(env, earlier, i);
        k :| ConnectBefore(env, earlier, k, i);
      } else {
        AuthenticatedIff(env, earlier);
        k :| ConnectBefore(env, earlier, k, |After(env, earlier).log|);
      }
      assert earlier[..k + 1] == frames[..k + 1];
      assert ConnectBefore(env, frames, k, i);
    }
  }

  /** A refusal is the last thing a session sends, and it is closing exactly when it has sent one. */
  predicate RefusedLast(st: SessionState) {
    && (st.closing <==> st.log != [] && st.log[|st.log| - 1].SentAndClose?)
    && forall i :: 0 <= i < |st.log| - 1 ==> !st.log[i].SentAndClose?
  }

  lemma {:induction false} RefusalIsLast(env: Env, frames: seq<WS.Frame>)
    requires OpenUntil(env, frames)
    ensures RefusedLast(After(env, frames))
    ensures After(env, frames).subscriptions != [] ==> exists k :: 0 <= k < |frames| && Accepted(env, frames[k])
  {
    hide Dispatch, Accepted, ForOthers;
    if frames == [] {
      assert After(env, frames) == INITIAL;
    } else {
      var earlier := frames[..|frames| - 1];
      OpenBefore(env, frames);
      RefusalIsLast(env, earlier);
      FrameExtends(After(env, earlier), env, frames[|frames| - 1]);
      if After(env, earlier).authenticated {
        AuthenticatedIff(env, earlier);
        var k :| ConnectBefore(env, earlier, k, |After(env, earlier).log|);
        assert frames[k] == earlier[k];
      }
    }
  }

  // ---------- the node id ----------

  predicate HasRegistered(log: seq<Effect>) {
    exists i :: 0 <= i < |log| && log[i].Registered?
  }

  /** The session registers with "" first, then with the id it was given, and announces under that id only. */
  predicate OwnIdOnly(st: SessionState, env: Env) {
    && st.nodeId == (if HasRegistered(st.log) then env.newId else "")
    && forall i :: 0 <= i < |st.log| ==>
         && (st.log[i].Registered? ==> st.log[i].existingId == if HasRegistered(st.log[..i]) then env.newId else "")
         && (st.log[i].Announced? ==> HasRegistered(st.log[..i]) && st.log[i].id == env.newId)
  }

  lemma LogMore(st: SessionState, st': SessionState, env: Env, e: Effect)
    requires OwnIdOnly(st, env) && st'.log == st.log + [e]
    requires e.Registered? ==> e.existingId == st.nodeId && st'.nodeId == env.newId
    requires e.Announced? ==> st.nodeId != "" && e.id == st.nodeId
    requires !e.Registered? ==> st'.nodeId == st.nodeId
    ensures OwnIdOnly(st', env)
  {
    assert forall i :: 0 <= i < |st.log| ==> st'.log[i] == st.log[i] && st'.log[..i] == st.log[..i];
    assert st'.log[..|st.log|] == st.log;
    assert HasRegistered(st.log) ==> HasRegistered(st'.log);
    if e.Registered? { assert st'.log[|st.log|].Registered?; }
  }

  lemma MinorKeepsId(st: SessionState, st': SessionState, env: Env)
    requires OwnIdOnly(st, env) && Minor(st, st')
    ensures OwnIdOnly(st', env)
  {
    if st'.log == st.log {
      SameLog(st, st', env);
    } else {
      hide OwnIdOnly;
      assert st'.log == st.log + [st'.log[|st.log|]];
      LogMore(st, st', env, st'.log[|st.log|]);
    }
  }

  lemma SameLog(st: SessionState, st': SessionState, env: Env)
    requires OwnIdOnly(st, env) && st'.log == st.log && st'.nodeId == st.nodeId
    ensures OwnIdOnly(st', env)
  {}

  lemma IdIsNew(st: SessionState, env: Env)
    requires OwnIdOnly(st, env)
    ensures st.nodeId == "" || st.nodeId == env.newId
  {}

  lemma PublishKeepsId(st: SessionState, env: Env, data: seq<byte>)
    requires OwnIdOnly(st, env) && env.newId != ""
    ensures OwnIdOnly(HandlePublish(st, env, data), env)
  {
    hide OwnIdOnly, HandlePublish, Minor;
    var acked, payload := PublishCases(st, env, data);
    MinorKeepsId(st, acked, env);
    IdIsNew(acked, env);
    var st' := HandlePublish(st, env, data);
    if Minor(acked, st') {
      MinorKeepsId(acked, st', env);
    } else if st' != acked {
      LogMore(acked, st', env, st'.log[|st'.log| - 1]);
    }
  }

  lemma FrameKeepsId(st: SessionState, env: Env, f: WS.Frame)
    requires OwnIdOnly(st, env) && env.newId != ""
    ensures OwnIdOnly(Dispatch(st, env, f), env)
  {
    hide OwnIdOnly, Dispatch, HandlePublish, Minor;
    FrameCases(st, env, f);
    if Minor(st, Dispatch(st, env, f)) {
      MinorKeepsId(st, Dispatch(st, env, f), env);
    } else {
      PublishKeepsId(st, env, f.payload);
    }
  }

  lemma {:induction false} OwnIdThroughout(env: Env, frames: seq<WS.Frame>)
    requires env.newId != ""
    ensures OwnIdOnly(After(env, frames), env)
  {
    hide Dispatch, OwnIdOnly;
    if frames == [] {
      assert After(env, frames) == INITIAL;
      InitialOwnId(env);
    } else {
      OwnIdThroughout(env, frames[..|frames| - 1]);
      FrameKeepsId(After(env, frames[..|frames| - 1]), env, frames[|frames| - 1]);
    }
  }

  lemma InitialOwnId(env: Env)
    ensures OwnIdOnly(INITIAL, env)
  {}

  /**
    Whatever frames a new session dispatches: nothing is registered, announced, relayed or subscribed
    unless an accepted CONNECT came earlier; a refusal is sent at most once, and last; and the
    session only ever uses the node id that it was given.
   */
  lemma FramesGuards(env: Env, frames: seq<WS.Frame>)
    requires env.newId != "" && OpenUntil(env, frames)
    ensures var st := After(env, frames);
            && (forall i :: 0 <= i < |st.log| && ForOthers(st.log[i]) ==> exists k :: ConnectBefore(env, frames, k, i))
            && (st.subscriptions != [] ==> exists k :: 0 <= k < |frames| && Accepted(env, frames[k]))
            && RefusedLast(st)
            && OwnIdOnly(st, env)
  {
    hide After, OpenUntil, OwnIdOnly, RefusedLast, Accepted, ForOthers, ConnectBefore;
    var st := After(env, frames);
    forall i | 0 <= i < |st.log| && ForOthers(st.log[i]) ensures exists k :: ConnectBefore(env, frames, k, i) {
      OthersAfterConnect(env, frames, i);
    }
    RefusalIsLast(env, frames);
    OwnIdThroughout(env, frames);
  }

  /** So over any run of reads of a new session. */
  lemma StreamGuards(env: Env, chunks: seq<seq<byte>>)
    requires env.newId != ""
    ensures var c := WL.Run(HandlerFor(env), WL.Fresh(INITIAL), chunks);
            && c.st == After(env, c.frames)
            && (forall i :: 0 <= i < |c.st.log| && ForOthers(c.st.log[i]) ==>
                  exists k :: ConnectBefore(env, c.frames, k, i))
            && (c.st.subscriptions != [] ==> exists k :: 0 <= k < |c.frames| && Accepted(env, c.frames[k]))
            && RefusedLast(c.st)
            && OwnIdOnly(c.st, env)
  {
    hide WL.Run, Dispatch, OwnIdOnly, RefusedLast, Accepted, ForOthers, ConnectBefore;
    WL.RunFolds(HandlerFor(env), INITIAL, WL.Fresh(INITIAL), chunks);
    FramesGuards(env, WL.Run(HandlerFor(env), WL.Fresh(INITIAL), chunks).frames);
  }

  /** And through the receive buffer: on_bytes_read over any run of reads, whatever the cap. */
  lemma BufferedStreamGuards(env: Env, cap: nat, chunks: seq<seq<byte>>)
    requires env.newId != ""
    ensures var c := WL.RunBuffered(HandlerFor(env), cap, WL.Opened(INITIAL), chunks);
            && c.st == After(env, c.frames)
            && (forall i :: 0 <= i < |c.st.log| && ForOthers(c.st.log[i]) ==>
                  exists k :: ConnectBefore(env, c.frames, k, i))
            && (c.st.subscriptions != [] ==> exists k :: 0 <= k < |c.frames| && Accepted(env, c.frames[k]))
            && RefusedLast(c.st)
            && OwnIdOnly(c.st, env)
  {
    hide WL.RunBuffered, Dispatch, OwnIdOnly, RefusedLast, Accepted, ForOthers, ConnectBefore;
    WL.BufferedRunFolds(HandlerFor(env), cap, INITIAL, WL.Opened(INITIAL), chunks);
    FramesGuards(env, WL.RunBuffered(HandlerFor(env), cap, WL.Opened(INITIAL), chunks).frames);
  }
}
