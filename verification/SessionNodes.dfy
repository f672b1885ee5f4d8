/**
  What the frames of MQTT sessions leave in the registry (src/mqtt/mqtt_server.cpp:24-29, 263-316).

  SessionIds has the sessions and the registry's operations; MqttEffects says what a frame asks for,
  in terms of the frame.  Here the two meet: after a step of any interleaving the node that is
  stored under the session's id is the one that the frame describes.
 */
module SessionNodes {
  import opened Bytes
  import opened Wrappers
  import opened RegistryState
  import opened RegistryRuns
  import opened SessionIds
  import S = MqttSession
  import E = MqttEffects
  import M = MqttStreams
  import WS = WebSocketCodec

  /** The frames that this session has received. */
  function FramesOf(steps: seq<Step>, who: nat): seq<WS.Frame> {
    if steps == [] then []
    else
      var last := steps[|steps| - 1];
      FramesOf(steps[..|steps| - 1], who) + (if last.Receive? && last.who == who then [last.frame] else [])
  }

  /** The user of the last CONNECT that this session accepted. */
  function UserOf(site: Site, steps: seq<Step>, who: nat): Option<seq<byte>> {
    E.User(site.accessKey, FramesOf(steps, who))
  }

  /** The nodes that are stored after these steps. */
  ghost function Stored(site: Site, steps: seq<Step>): map<string, Node> {
    Run(site.cfg, Ran(site, steps).ops).nodes
  }

  ghost function SessionAfter(site: Site, steps: seq<Step>, who: nat): S.SessionState {
    SessionOf(Ran(site, steps), who)
  }

  lemma RanOneMore(site: Site, steps: seq<Step>, step: Step)
    ensures Ran(site, steps + [step]) == Do(site, Ran(site, steps), step)
  {
    assert (steps + [step])[..|steps|] == steps;
  }

  /** In any interleaving a session's user and role are those of its own frames. */
  lemma {:induction false} UserHolds(site: Site, steps: seq<Step>, who: nat)
    ensures var st := SessionAfter(site, steps, who); E.Holds(st, UserOf(site, steps, who), st.nodeId)
  {
    hide S.Dispatch, E.AcceptedUser, E.Holds;
    if steps == [] {
      E.NothingYet(S.Env([], "", _ => None, _ => None));
    } else {
      var earlier, last := steps[..|steps| - 1], steps[|steps| - 1];
      var w := Ran(site, earlier);
      UserHolds(site, earlier, who);
      match last
      case Receive(k, f, _, now) =>
        if k == who {
          ReceivedHolds(SessionOf(w, who), EnvAt(site, w, now), UserOf(site, earlier, who), f);
          OneMoreFrame(site.accessKey, FramesOf(earlier, who), f);
        } else {
          assert FramesOf(earlier, who) + [] == FramesOf(earlier, who);
        }
      case Close(k, now) =>
        assert FramesOf(earlier, who) + [] == FramesOf(earlier, who);
        ClosedHolds(SessionOf(w, who), UserOf(site, earlier, who));
      case Removed(_) =>
        assert FramesOf(earlier, who) + [] == FramesOf(earlier, who);
    }
  }

  lemma ReceivedHolds(st: S.SessionState, env: S.Env, user: Option<seq<byte>>, f: WS.Frame)
    requires E.Holds(st, user, st.nodeId)
    ensures var st' := S.Dispatch(st, env, f); E.Holds(st', E.NextUser(env.accessKey, user, f), st'.nodeId)
  {
    hide S.Dispatch, E.AcceptedUser;
    E.FrameEffects(st, env, user, f);
  }

  lemma OneMoreFrame(accessKey: seq<byte>, frames: seq<WS.Frame>, f: WS.Frame)
    ensures E.User(accessKey, frames + [f]) == E.NextUser(accessKey, E.User(accessKey, frames), f)
  {
    hide E.AcceptedUser;
    assert (frames + [f])[..|frames|] == frames;
  }

  lemma ClosedHolds(st: S.SessionState, user: Option<seq<byte>>)
    requires E.Holds(st, user, st.nodeId)
    ensures E.Holds(st.(closed := true), user, st.nodeId)
  {}

  // ---------- what a frame asks of the registry ----------

  /** What the session asks for is what it hands on; its answers ask for nothing. */
  lemma AskedIsHanded(site: Site, w: World, who: nat, user: Option<seq<byte>>, f: WS.Frame, peerIp: string, now: int)
    requires E.Holds(SessionOf(w, who), user, SessionOf(w, who).nodeId)
    ensures var st, env := SessionOf(w, who), EnvAt(site, w, now);
            var st' := S.Dispatch(st, env, f);
            && st'.nodeId == E.NextId(env, user, st.nodeId, f)
            && (st'.closed <==> st.closed || E.ClosesSession(f))
            && Do(site, w, Receive(who, f, peerIp, now)) ==
                 World(w.ops + OpsOf(E.Handed(env, user, st.nodeId, f), peerIp, now) + GraceOps(st, st', now),
                       w.sessions[who := st'])
  {
    hide S.Dispatch, E.Answer, E.Handed, OpsOf, E.NextId, E.NextUser, E.ClosesSession, GraceOps;
    var st, env := SessionOf(w, who), EnvAt(site, w, now);
    var st' := S.Dispatch(st, env, f);
    E.FrameEffects(st, env, user, f);
    var answer, handed := E.Answer(env.accessKey, user, f), E.Handed(env, user, st.nodeId, f);
    assert st'.log[|st.log|..] == answer + handed;
    OpsOfSplit(answer, handed, peerIp, now);
    E.AnswersAreForClient(env.accessKey, user, f);
    AskNothing(answer, peerIp, now);
    assert [] + OpsOf(handed, peerIp, now) == OpsOf(handed, peerIp, now);
  }

  lemma {:induction false} AskNothing(log: seq<S.Effect>, peerIp: string, now: int)
    requires forall i :: 0 <= i < |log| ==> !M.ForOthers(log[i])
    ensures OpsOf(log, peerIp, now) == []
  {
    if log != [] { AskNothing(log[..|log| - 1], peerIp, now); }
  }

  /** A session that stays open asks for one operation, and the registry has that one more. */
  lemma OneAsked(site: Site, steps: seq<Step>, who: nat, f: WS.Frame, peerIp: string, now: int, e: S.Effect, op: Op)
    requires var st := SessionAfter(site, steps, who);
             E.Handed(EnvAt(site, Ran(site, steps), now), UserOf(site, steps, who), st.nodeId, f) == [e]
    requires OpOf(e, peerIp, now) == [op] && !E.ClosesSession(f)
    ensures var next := steps + [Receive(who, f, peerIp, now)];
            && Stored(site, next) == Apply(site.cfg, Run(site.cfg, Ran(site, steps).ops), op).st.nodes
            && SessionAfter(site, next, who).nodeId ==
                 E.NextId(EnvAt(site, Ran(site, steps), now), UserOf(site, steps, who),
                          SessionAfter(site, steps, who).nodeId, f)
  {
    hide S.Dispatch, E.Handed, E.Holds, E.NextId, E.ClosesSession, OpOf, Do, Apply;
    var w := Ran(site, steps);
    UserHolds(site, steps, who);
    AskedIsHanded(site, w, who, UserOf(site, steps, who), f, peerIp, now);
    RanOneMore(site, steps, Receive(who, f, peerIp, now));
    OpsOfOne(e, peerIp, now);
    assert w.ops + [op] + [] == w.ops + [op] && (w.ops + [op])[..|w.ops|] == w.ops;
  }

  // ---------- registrations ----------

  /**
    After a registration the session's node is stored as the payload describes it: the role that it
    names, or else the user name up to its first '_'; the workers; the endpoint, with the peer's
    address where it has none.  A session keeps its id, and gets a new one if it had none.
   */
  lemma RegistrationStored(site: Site, steps: seq<Step>, who: nat, f: WS.Frame, peerIp: string, now: int, m: S.Meta)
    requires UserOf(site, steps, who).Some?
    requires E.PublishOf(f).Some? && Text(E.PublishOf(f).value.topic) == "apr/node/meta"
    requires site.meta(E.PublishOf(f).value.payload) == Some(m)
    ensures var next := steps + [Receive(who, f, peerIp, now)];
            var id, before, after := SessionAfter(site, steps, who).nodeId, Stored(site, steps), Stored(site, next);
            var id' := SessionAfter(site, next, who).nodeId;
            && (if id == "" then id' !in before else id' == id)
            && id' in after && after[id'].status == OK && after[id'].activeAt == now
            && (m.role.Some? ==> after[id'].role == m.role.value)
            && (m.role.None? ==> E.IsRole(after[id'].role, Text(UserOf(site, steps, who).value)))
            && after[id'].workers == m.workers
            && (m.ep.Some? && m.ep.value.addr == "" ==>
                  after[id'].endpoint == Some(Endpoint(peerIp, m.ep.value.port, m.ep.value.scheme)))
            && (m.ep.None? || m.ep.value.addr != "" ==> after[id'].endpoint == m.ep)
            && (forall w :: w in m.extras && w in m.workers && |m.extras[w].dump| <= site.cfg.maxExtra ==>
                  w in after[id'].extra && after[id'].extra[w] == m.extras[w])
            && (forall other :: other != id' ==>
                  (other in after <==> other in before) && (other in before ==> after[other] == before[other]))
  {
    hide Run, Ran, Apply, UserOf, E.PublishOf, S.RoleOf, E.IsRole, GeneratedId, Inv;
    var w, user, st := Ran(site, steps), UserOf(site, steps, who), SessionAfter(site, steps, who);
    var env := EnvAt(site, w, now);
    var role := if m.role.Some? then m.role.value else Text(S.RoleOf(user.value));
    var e := S.Registered(st.nodeId, role, m);
    var op := Register(role, m.workers, m.ep, peerIp, st.nodeId, m.extras, now);
    assert E.Handed(env, user, st.nodeId, f) == [e];
    assert E.Carries(f, 3) by { CarriesPublish(f); }
    OneAsked(site, steps, who, f, peerIp, now, e, op);
    RunKeeps(site.cfg, w.ops);
    RegistrationStores(site.cfg, Run(site.cfg, w.ops), op);
    forall other | other != IdFor(Run(site.cfg, w.ops), op)
      ensures var after := Apply(site.cfg, Run(site.cfg, w.ops), op).st.nodes;
              (other in after <==> other in Stored(site, steps))
              && (other in Stored(site, steps) ==> after[other] == Stored(site, steps)[other])
    {
      OthersUnchanged(site.cfg, Run(site.cfg, w.ops), op, other);
    }
    E.RoleOfIsRole(user.value);
    if st.nodeId == "" { FirstRegistrationAddsNode(site, steps, op); }
  }

  lemma CarriesPublish(f: WS.Frame)
    requires E.PublishOf(f).Some?
    ensures E.Carries(f, 3)
  {}

  // ---------- announcements ----------

  /**
    An announcement is stored under its worker in the session's node, if that lists the worker and the data is
    within the cap; otherwise nothing is changed.
   */
  lemma AnnouncementStored(site: Site, steps: seq<Step>, who: nat, f: WS.Frame, peerIp: string, now: int,
                           a: S.Announcement)
    requires UserOf(site, steps, who).Some? && SessionAfter(site, steps, who).nodeId != ""
    requires E.PublishOf(f).Some? && Text(E.PublishOf(f).value.topic) == "apr/node/extra"
    requires site.extra(E.PublishOf(f).value.payload) == Some(a)
    ensures var next := steps + [Receive(who, f, peerIp, now)];
            var id, before, after := SessionAfter(site, steps, who).nodeId, Stored(site, steps), Stored(site, next);
            && SessionAfter(site, next, who).nodeId == id
            && after == if id in before && a.worker in before[id].workers && |a.value.dump| <= site.cfg.maxExtra then
                          before[id := before[id].(extra := before[id].extra[a.worker := a.value], activeAt := now)]
                        else before
  {
    hide Run, Ran, Apply, UserOf, E.PublishOf;
    var w, user, st := Ran(site, steps), UserOf(site, steps, who), SessionAfter(site, steps, who);
    var env := EnvAt(site, w, now);
    var e := S.Announced(st.nodeId, a);
    var op := UpdateExtra(st.nodeId, a.worker, a.value, now);
    assert E.Handed(env, user, st.nodeId, f) == [e];
    assert E.Carries(f, 3) by { CarriesPublish(f); }
    OneAsked(site, steps, who, f, peerIp, now, e, op);
    ExtraStored(site.cfg, Run(site.cfg, w.ops), st.nodeId, a.worker, a.value, now);
  }

  // ---------- the end of a session ----------

  /** The session ends, or receives a close frame or a DISCONNECT. */
  predicate EndsSession(step: Step, who: nat) {
    (step.Close? || (step.Receive? && E.ClosesSession(step.frame))) && step.who == who
  }

  /** A session that ends leaves its node in GRACE, with 180 seconds to come back; the second end changes nothing. */
  lemma EndPutsInGrace(site: Site, steps: seq<Step>, who: nat, step: Step)
    requires EndsSession(step, who)
    ensures var next := steps + [step];
            var id, before, after := SessionAfter(site, steps, who).nodeId, Stored(site, steps), Stored(site, next);
            && SessionAfter(site, next, who).closed
            && after == if !SessionAfter(site, steps, who).closed && id in before && id != "" then
                          before[id := before[id].(status := GRACE, activeAt := step.now, expiresIn := Some(180))]
                        else before
  {
    hide Run, Ran, Apply, UserOf, S.Dispatch, E.Holds;
    var w, st := Ran(site, steps), SessionAfter(site, steps, who);
    RanOneMore(site, steps, step);
    match step
    case Close(_, now) =>
      MarkedInGrace(site.cfg, w.ops, st, st.(closed := true), now);
    case Receive(_, f, peerIp, now) =>
      var user, env := UserOf(site, steps, who), EnvAt(site, w, now);
      UserHolds(site, steps, who);
      AskedIsHanded(site, w, who, user, f, peerIp, now);
      NothingHanded(env, user, st.nodeId, f);
      assert w.ops + [] == w.ops;
      MarkedInGrace(site.cfg, w.ops, st, S.Dispatch(st, env, f), now);
  }

  lemma NothingHanded(env: S.Env, user: Option<seq<byte>>, id: string, f: WS.Frame)
    requires E.ClosesSession(f)
    ensures E.Handed(env, user, id, f) == [] && E.NextId(env, user, id, f) == id
  {}

  lemma MarkedInGrace(cfg: Config, ops: seq<Op>, st: S.SessionState, st': S.SessionState, now: int)
    requires st'.closed && st'.nodeId == st.nodeId
    ensures var id, before := st.nodeId, Run(cfg, ops).nodes;
            Run(cfg, ops + GraceOps(st, st', now)).nodes ==
              if !st.closed && id in before && id != "" then
                before[id := before[id].(status := GRACE, activeAt := now, expiresIn := Some(180))]
              else before
  {
    hide Run, Inv;
    assert ops + [] == ops;
    RunKeeps(cfg, ops);
    if !st.closed && st.nodeId != "" {
      MarkOne(cfg, ops, st.nodeId, now);
    }
  }

  lemma MarkOne(cfg: Config, ops: seq<Op>, id: string, now: int)
    requires Inv(cfg, Run(cfg, ops))
    ensures var before := Run(cfg, ops).nodes;
            Run(cfg, ops + [MarkGrace(id, now)]).nodes ==
              if id in before then
                before[id := before[id].(status := GRACE, activeAt := now, expiresIn := Some(180))]
              else before
  {
    assert (ops + [MarkGrace(id, now)])[..|ops|] == ops;
    var before := Run(cfg, ops).nodes;
    if id in before { assert NodeOk(cfg, id, before[id]); }
  }
}
