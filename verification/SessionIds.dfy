/**
  The node ids of MQTT sessions over one registry (src/mqtt/mqtt_server.cpp:24-29, 263-316).

  Any number of sessions dispatch frames in any interleaving; their registrations and
  announcements are the registry's operations.  A session that closes puts its node into
  GRACE; the sweep removes nodes.
 */
module SessionIds {
  import opened Bytes
  import opened Wrappers
  import opened RegistryState
  import opened RegistryRuns
  import opened NodeIds
  import S = MqttSession
  import WS = WebSocketCodec

  /** The access key, and how payloads parse. */
  datatype Site = Site(
    cfg: Config,
    accessKey: seq<byte>,
    meta: seq<byte> -> Option<S.Meta>,
    extra: seq<byte> -> Option<S.Announcement>)

  /** The operations that the registry has had, and the sessions; one that has not been seen is new. */
  datatype World = World(ops: seq<Op>, sessions: map<nat, S.SessionState>)

  const START: World := World([], map[])

  datatype Step =
    | Receive(who: nat, frame: WS.Frame, peerIp: string, now: int)
    | Close(who: nat, now: int)
    | Removed(id: string)

  function SessionOf(w: World, who: nat): S.SessionState {
    if who in w.sessions then w.sessions[who] else S.INITIAL
  }

  ghost function EnvAt(site: Site, w: World, now: int): S.Env {
    S.Env(site.accessKey, GeneratedId(now, Run(site.cfg, w.ops).idCounter), site.meta, site.extra)
  }

  /** The registry operation that an effect stands for, if any. */
  function OpOf(e: S.Effect, peerIp: string, now: int): seq<Op> {
    if e.Registered? then [Register(e.role, e.meta.workers, e.meta.ep, peerIp, e.existingId, e.meta.extras, now)]
    else if e.Announced? then [UpdateExtra(e.id, e.what.worker, e.what.value, now)]
    else []
  }

  function OpsOf(log: seq<S.Effect>, peerIp: string, now: int): seq<Op> {
    if log == [] then [] else OpsOf(log[..|log| - 1], peerIp, now) + OpOf(log[|log| - 1], peerIp, now)
  }

  /** on_before_close, the first time. */
  function GraceOps(before: S.SessionState, after: S.SessionState, now: int): seq<Op> {
    if !before.closed && after.closed && after.nodeId != "" then [MarkGrace(after.nodeId, now)] else []
  }

  ghost function Do(site: Site, w: World, step: Step): World {
    match step
    case Receive(who, f, peerIp, now) =>
      var st := SessionOf(w, who);
      var st' := S.Dispatch(st, EnvAt(site, w, now), f);
      LogOnlyGrows(st, EnvAt(site, w, now), f);
      World(w.ops + Asked(st, st', peerIp, now) + GraceOps(st, st', now), w.sessions[who := st'])
    case Close(who, now) =>
      var st := SessionOf(w, who);
      World(w.ops + GraceOps(st, st.(closed := true), now), w.sessions[who := st.(closed := true)])
    case Removed(id) => w.(ops := w.ops + [Remove(id)])
  }

  ghost function Ran(site: Site, steps: seq<Step>): World {
    if steps == [] then START else Do(site, Ran(site, steps[..|steps| - 1]), steps[|steps| - 1])
  }

  lemma LogOnlyGrows(st: S.SessionState, env: S.Env, f: WS.Frame)
    ensures var st' := S.Dispatch(st, env, f); |st.log| <= |st'.log| && st'.log[..|st.log|] == st.log
  {
    hide S.Dispatch, S.HandlePublish;
    S.FrameCases(st, env, f);
    var acked, payload := S.PublishCases(st, env, f.payload);
  }

  // ---------- what one frame asks of the registry ----------

  /** At most one operation; a registration under the session's id, which then is the registry's answer. */
  predicate AsksOwn(st: S.SessionState, st': S.SessionState, env: S.Env, ops: seq<Op>, now: int) {
    || (ops == [] && st'.nodeId == st.nodeId)
    || (|ops| == 1 && ops[0].UpdateExtra? && st'.nodeId == st.nodeId)
    || (|ops| == 1 && ops[0].Register? && ops[0].existingId == st.nodeId && ops[0].now == now
        && st'.nodeId == S.Answered(st.nodeId, env))
  }

  lemma OpsOfOne(e: S.Effect, peerIp: string, now: int)
    ensures OpsOf([e], peerIp, now) == OpOf(e, peerIp, now)
  {
    assert [e][..0] == [];
  }

  lemma {:induction false} OpsOfSplit(x: seq<S.Effect>, y: seq<S.Effect>, peerIp: string, now: int)
    ensures OpsOf(x + y, peerIp, now) == OpsOf(x, peerIp, now) + OpsOf(y, peerIp, now)
  {
    hide OpOf;
    if y == [] {
      assert x + y == x;
    } else {
      OpsOfSplit(x, y[..|y| - 1], peerIp, now);
      assert (x + y)[..|x + y| - 1] == x + y[..|y| - 1];
    }
  }

  /** What a step of the session asks, its entries being what the log has more. */
  function Asked(st: S.SessionState, st': S.SessionState, peerIp: string, now: int): seq<Op>
    requires |st.log| <= |st'.log|
  {
    OpsOf(st'.log[|st.log|..], peerIp, now)
  }

  lemma MinorAsksNothing(st: S.SessionState, st': S.SessionState, peerIp: string, now: int)
    requires S.Minor(st, st')
    ensures |st.log| <= |st'.log| && st'.log[..|st.log|] == st.log && Asked(st, st', peerIp, now) == []
  {
    var more := st'.log[|st.log|..];
    if more != [] {
      assert more == [more[0]];
      OpsOfOne(more[0], peerIp, now);
    }
  }

  /** After a step that asks nothing, what the next step asks is what both ask. */
  lemma AskedThen(st: S.SessionState, mid: S.SessionState, st': S.SessionState, peerIp: string, now: int)
    requires |st.log| <= |mid.log| <= |st'.log| && st'.log[..|mid.log|] == mid.log
    requires Asked(st, mid, peerIp, now) == []
    ensures Asked(st, st', peerIp, now) == Asked(mid, st', peerIp, now)
  {
    hide OpsOf;
    OpsOfSplit(mid.log[|st.log|..], st'.log[|mid.log|..], peerIp, now);
    SliceThen(mid.log, st'.log, |st.log|);
    assert [] + Asked(mid, st', peerIp, now) == Asked(mid, st', peerIp, now);
  }

  lemma SliceThen<T>(s: seq<T>, t: seq<T>, i: nat)
    requires i <= |s| <= |t| && t[..|s|] == s
    ensures t[i..] == s[i..] + t[|s|..]
  {
    assert t == s + t[|s|..];
  }

  lemma MetaAsksOwn(st: S.SessionState, env: S.Env, payload: seq<byte>, peerIp: string, now: int)
    ensures var st' := S.HandleMeta(st, env, payload);
            && |st.log| <= |st'.log| && st'.log[..|st.log|] == st.log
            && AsksOwn(st, st', env, Asked(st, st', peerIp, now), now)
  {
    var st' := S.HandleMeta(st, env, payload);
    var more := st'.log[|st.log|..];
    if more != [] {
      assert more == [more[0]];
      OpsOfOne(more[0], peerIp, now);
    }
  }

  lemma ExtraAsksOwn(st: S.SessionState, env: S.Env, payload: seq<byte>, peerIp: string, now: int)
    ensures var st' := S.HandleExtra(st, env, payload);
            && |st.log| <= |st'.log| && st'.log[..|st.log|] == st.log
            && AsksOwn(st, st', env, Asked(st, st', peerIp, now), now)
  {
    var st' := S.HandleExtra(st, env, payload);
    var more := st'.log[|st.log|..];
    if more != [] {
      assert more == [more[0]];
      OpsOfOne(more[0], peerIp, now);
    }
  }

  lemma PublishAsksOwn(st: S.SessionState, env: S.Env, data: seq<byte>, peerIp: string, now: int)
    ensures var st' := S.HandlePublish(st, env, data);
            |st.log| <= |st'.log| && AsksOwn(st, st', env, Asked(st, st', peerIp, now), now)
  {
    hide S.HandlePublish, S.HandleMeta, S.HandleExtra, Asked;
    var acked, payload := S.PublishCases(st, env, data);
    var st' := S.HandlePublish(st, env, data);
    MinorAsksNothing(st, acked, peerIp, now);
    MetaAsksOwn(acked, env, payload, peerIp, now);
    ExtraAsksOwn(acked, env, payload, peerIp, now);
    if S.Minor(acked, st') { MinorAsksNothing(acked, st', peerIp, now); }
    AskedThen(st, acked, st', peerIp, now);
  }

  lemma FrameAsksOwn(st: S.SessionState, env: S.Env, f: WS.Frame, peerIp: string, now: int)
    ensures var st' := S.Dispatch(st, env, f);
            |st.log| <= |st'.log| && AsksOwn(st, st', env, Asked(st, st', peerIp, now), now)
  {
    hide S.Dispatch, S.HandlePublish, Asked;
    var st' := S.Dispatch(st, env, f);
    S.FrameCases(st, env, f);
    if S.Minor(st, st') {
      MinorAsksNothing(st, st', peerIp, now);
    } else {
      PublishAsksOwn(st, env, f.payload, peerIp, now);
    }
  }

  // ---------- over any run ----------

  /** Each session has no id or one that the registry has returned, and no two sessions have the same. */
  ghost predicate Known(site: Site, w: World) {
    && Trusting(site.cfg, w.ops)
    && (forall who :: SessionOf(w, who).nodeId == "" || SessionOf(w, who).nodeId in Returned(site.cfg, w.ops))
    && (forall a, b :: a != b && SessionOf(w, a).nodeId != "" ==> SessionOf(w, a).nodeId != SessionOf(w, b).nodeId)
  }

  lemma OneMoreOp(cfg: Config, ops: seq<Op>, op: Op)
    requires Trusting(cfg, ops)
    requires op.Register? && op.existingId != "" ==> op.existingId in Returned(cfg, ops)
    ensures Trusting(cfg, ops + [op])
    ensures Returned(cfg, ops + [op]) == Returned(cfg, ops) + (if op.Register? then {IdFor(Run(cfg, ops), op)} else {})
  {
    assert (ops + [op])[..|ops|] == ops;
  }

  lemma GeneratedIdNotEmpty(now: int, counter: nat)
    ensures GeneratedId(now, counter) != ""
  {}

  /** A session's registration: the id it keeps is returned, and new if it had none. */
  lemma RegistrationKnown(site: Site, w: World, st: S.SessionState, op: Op, now: int)
    requires Trusting(site.cfg, w.ops) && (st.nodeId == "" || st.nodeId in Returned(site.cfg, w.ops))
    requires op.Register? && op.existingId == st.nodeId && op.now == now
    ensures var id := S.Answered(st.nodeId, EnvAt(site, w, now));
            && Trusting(site.cfg, w.ops + [op])
            && Returned(site.cfg, w.ops + [op]) == Returned(site.cfg, w.ops) + {id}
            && id != "" && (st.nodeId == "" ==> id !in Returned(site.cfg, w.ops))
  {
    hide Run, Returned, Trusting, GeneratedId;
    OneMoreOp(site.cfg, w.ops, op);
    GeneratedIdNotEmpty(now, Run(site.cfg, w.ops).idCounter);
    if st.nodeId == "" { EmptyIdAddsNode(site.cfg, w.ops, op); }
  }

  lemma ReceiveKeeps(site: Site, w: World, who: nat, f: WS.Frame, peerIp: string, now: int)
    requires Known(site, w)
    ensures Known(site, Do(site, w, Receive(who, f, peerIp, now)))
  {
    hide Run, Returned, Trusting, GeneratedId, S.Dispatch, Asked;
    var st, env := SessionOf(w, who), EnvAt(site, w, now);
    var st' := S.Dispatch(st, env, f);
    FrameAsksOwn(st, env, f, peerIp, now);
    var asked := Asked(st, st', peerIp, now);
    var w' := World(w.ops + asked, w.sessions[who := st']);
    if asked == [] {
      assert w.ops + asked == w.ops;
    } else {
      assert asked == [asked[0]];
      if asked[0].Register? {
        RegistrationKnown(site, w, st, asked[0], now);
      } else {
        OneMoreOp(site.cfg, w.ops, asked[0]);
      }
    }
    OneSessionChanged(site, w, w', who);
    GraceKeeps(site, w', GraceOps(st, st', now));
  }

  lemma OneSessionChanged(site: Site, w: World, w': World, who: nat)
    requires Known(site, w) && w'.sessions == w.sessions[who := SessionOf(w', who)]
    requires Trusting(site.cfg, w'.ops) && Returned(site.cfg, w.ops) <= Returned(site.cfg, w'.ops)
    requires var id, id' := SessionOf(w, who).nodeId, SessionOf(w', who).nodeId;
             id' == id || (id' in Returned(site.cfg, w'.ops) && id' !in Returned(site.cfg, w.ops) && id' != "")
    ensures Known(site, w')
  {
    hide Run, Returned, Trusting;
    assert forall k :: k != who ==> SessionOf(w', k) == SessionOf(w, k);
  }

  lemma GraceKeeps(site: Site, w: World, more: seq<Op>)
    requires Known(site, w) && |more| <= 1 && (more != [] ==> !more[0].Register?)
    ensures Known(site, w.(ops := w.ops + more))
  {
    hide Run, Returned, Trusting;
    if more == [] {
      assert w.ops + more == w.ops;
    } else {
      assert more == [more[0]];
      OneMoreOp(site.cfg, w.ops, more[0]);
    }
    assert forall k :: SessionOf(w.(ops := w.ops + more), k) == SessionOf(w, k);
  }

  lemma StepKeeps(site: Site, w: World, step: Step)
    requires Known(site, w)
    ensures Known(site, Do(site, w, step))
  {
    hide Run, Returned, Trusting, S.Dispatch;
    match step
    case Receive(who, f, peerIp, now) => ReceiveKeeps(site, w, who, f, peerIp, now);
    case Close(who, now) =>
      var st := SessionOf(w, who);
      var w' := w.(sessions := w.sessions[who := st.(closed := true)]);
      OneSessionChanged(site, w, w', who);
      GraceKeeps(site, w', GraceOps(st, st.(closed := true), now));
    case Removed(id) => GraceKeeps(site, w, [Remove(id)]);
  }

  /**
    Over any interleaving of sessions every supplied id was returned earlier, and no two sessions
    ever have the same node id.
   */
  lemma {:induction false} SessionsAreTrusting(site: Site, steps: seq<Step>)
    ensures Known(site, Ran(site, steps))
  {
    hide Known, Do;
    if steps == [] {
      StartKnown(site);
    } else {
      SessionsAreTrusting(site, steps[..|steps| - 1]);
      StepKeeps(site, Ran(site, steps[..|steps| - 1]), steps[|steps| - 1]);
    }
  }

  lemma StartKnown(site: Site)
    ensures Known(site, START)
  {}

  /** So the first registration of every session adds a node. */
  lemma FirstRegistrationAddsNode(site: Site, steps: seq<Step>, op: Op)
    requires op.Register? && op.existingId == ""
    ensures var st := Run(site.cfg, Ran(site, steps).ops);
            IdFor(st, op) !in st.nodes && |Apply(site.cfg, st, op).st.nodes| == |st.nodes| + 1
  {
    hide Run, Ran, Apply, Returned;
    SessionsAreTrusting(site, steps);
    EmptyIdAddsNode(site.cfg, Ran(site, steps).ops, op);
  }
}
