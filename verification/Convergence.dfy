/**
  The replica converges to the registry (sdk/nodejs/index.js:149-206, src/core/registry.cpp).

  S_i is the registry after the first i operations of a run.  The client is sent every event
  after S_j, loads the snapshot S_k, j <= k, and applies the events it was sent, in order.
  Events are taken in the order of the mutations; the registry calls its observers after it
  has released its lock, so that order is a hypothesis here.  Divergence says exactly what
  another order, a late subscription or a larger registry leads to, ExtraData what the replica
  holds of the nodes' extra data.
 */
module Convergence {
  import opened Wrappers
  import opened RegistryQueries
  import opened RegistryState
  import opened RegistryRuns
  import opened Replica
  import MqttTopic

  ghost function At(cfg: Config, ops: seq<Op>, i: nat): map<string, Node>
    requires i <= |ops|
  {
    Run(cfg, ops[..i]).nodes
  }

  ghost function EventAt(cfg: Config, ops: seq<Op>, i: nat): Option<Node>
    requires i < |ops|
  {
    Apply(cfg, Run(cfg, ops[..i]), ops[i]).event
  }

  ghost function Events(cfg: Config, ops: seq<Op>, j: nat, m: nat): seq<Node>
    requires m <= |ops|
  {
    if m <= j then []
    else Events(cfg, ops, j, m - 1) + (if EventAt(cfg, ops, m - 1).Some? then [EventAt(cfg, ops, m - 1).value] else [])
  }

  // ---------- one operation ----------

  /** What an operation does to one id: how the state changes at it, and the event, if it is about it. */
  ghost predicate StepFor(id: string, before: map<string, Node>, event: Option<Node>, after: map<string, Node>) {
    if event.None? || event.value.id != id then
      (id in before <==> id in after) && (id in before ==> after[id] == before[id])
    else if event.value.status == ERASED then
      id in before && id !in after
    else
      && id in after && after[id] == event.value
      && (event.value.status == GRACE ==> id in before && SameButStatus(before[id], event.value))
  }

  /** Equal role, workers and endpoint. */
  predicate SameButStatus(n: Node, m: Node) {
    n.id == m.id && n.role == m.role && n.workers == m.workers && n.endpoint == m.endpoint
  }

  predicate Same(n: Node, m: Node) {
    SameButStatus(n, m) && n.status == m.status
  }

  lemma StepAt(cfg: Config, ops: seq<Op>, i: nat, id: string)
    requires i < |ops|
    ensures StepFor(id, At(cfg, ops, i), EventAt(cfg, ops, i), At(cfg, ops, i + 1))
  {
    hide Apply, Inv;
    var st, op := Run(cfg, ops[..i]), ops[i];
    assert ops[..i + 1][..i] == ops[..i];
    RunKeeps(cfg, ops[..i]);
    if EventAt(cfg, ops, i).None? {
      NoEventNoChange(cfg, st, op);
    } else {
      EventIsPostState(cfg, st, op);
      GraceKeeps(cfg, st, op);
    }
  }

  lemma GraceKeeps(cfg: Config, st: State, op: Op)
    requires Inv(cfg, st) && Apply(cfg, st, op).event.Some?
    ensures var e := Apply(cfg, st, op).event.value;
            e.status == GRACE ==> e.id in st.nodes && SameButStatus(st.nodes[e.id], e)
  {
    hide ExtraSize, GeneratedId, WithExtras, TotalExtra;
    assert !op.Register? ==> (op.id in st.nodes ==> NodeOk(cfg, op.id, st.nodes[op.id]));
    if op.Register? { RegisteredIsOk(cfg, st, op); }
  }

  lemma RegisteredIsOk(cfg: Config, st: State, op: Op)
    requires op.Register?
    ensures WithExtras(cfg, BareNode(st, op), op.extras).status == OK
  {}

  // ---------- the replica after the events ----------

  ghost function Held(dates: bool, start: map<string, Node>, cfg: Config, ops: seq<Op>, j: nat, m: nat)
    : map<string, Node>
    requires m <= |ops|
  {
    ApplyAll(dates, start, Events(cfg, ops, j, m))
  }

  function ApplyIfAny(dates: bool, held: map<string, Node>, e: Option<Node>): map<string, Node> {
    if e.None? then held else ApplyEvent(dates, held, e.value)
  }

  lemma HeldStep(dates: bool, start: map<string, Node>, cfg: Config, ops: seq<Op>, j: nat, i: nat)
    requires j <= i < |ops|
    ensures Held(dates, start, cfg, ops, j, i + 1) ==
            ApplyIfAny(dates, Held(dates, start, cfg, ops, j, i), EventAt(cfg, ops, i))
  {
    hide EventAt, ApplyEvent;
    var earlier, e := Events(cfg, ops, j, i), EventAt(cfg, ops, i);
    if e.Some? {
      assert (earlier + [e.value])[..|earlier|] == earlier;
    } else {
      assert earlier + [] == earlier;
    }
  }

  predicate InStep(id: string, held: map<string, Node>, nodes: map<string, Node>) {
    (id in held <==> id in nodes) && (id in held ==> Same(held[id], nodes[id]))
  }

  /** The event is about this id, and says OK or ERASED. */
  predicate Decisive(id: string, e: Option<Node>) {
    e.Some? && e.value.id == id && e.value.status != GRACE
  }

  lemma KeepsInStep(dates: bool, id: string, held: map<string, Node>, before: map<string, Node>, e: Option<Node>,
                    after: map<string, Node>)
    requires InStep(id, held, before) && StepFor(id, before, e, after)
    ensures InStep(id, ApplyIfAny(dates, held, e), after)
  {}

  lemma GetsInStep(dates: bool, id: string, held: map<string, Node>, before: map<string, Node>, e: Option<Node>,
                   after: map<string, Node>)
    requires Decisive(id, e) && StepFor(id, before, e, after)
    ensures InStep(id, ApplyIfAny(dates, held, e), after)
  {}

  /** Once the replica agrees with the registry about an id, it always does. */
  lemma {:induction false} StaysInStep(dates: bool, start: map<string, Node>, cfg: Config, ops: seq<Op>,
                                       j: nat, i: nat, m: nat, id: string)
    requires j <= i <= m <= |ops|
    requires InStep(id, Held(dates, start, cfg, ops, j, i), At(cfg, ops, i))
    ensures InStep(id, Held(dates, start, cfg, ops, j, m), At(cfg, ops, m))
    decreases m
  {
    hide Held, At, EventAt, InStep, StepFor, ApplyIfAny;
    if i < m {
      StaysInStep(dates, start, cfg, ops, j, i, m - 1, id);
      HeldStep(dates, start, cfg, ops, j, m - 1);
      StepAt(cfg, ops, m - 1, id);
      KeepsInStep(dates, id, Held(dates, start, cfg, ops, j, m - 1), At(cfg, ops, m - 1), EventAt(cfg, ops, m - 1),
                  At(cfg, ops, m));
    }
  }

  /** Between S_j and S_i this id has had no OK and no ERASED event. */
  ghost predicate OnlyGrace(cfg: Config, ops: seq<Op>, j: nat, i: nat, id: string)
    requires i <= |ops|
  {
    i <= j || (OnlyGrace(cfg, ops, j, i - 1, id) && !Decisive(id, EventAt(cfg, ops, i - 1)))
  }

  /** An OK or ERASED event brings the replica into step with the registry. */
  lemma {:induction false} DecisiveEventSyncs(dates: bool, start: map<string, Node>, cfg: Config, ops: seq<Op>,
                                              j: nat, m: nat, id: string)
    requires j <= m <= |ops| && !OnlyGrace(cfg, ops, j, m, id)
    ensures InStep(id, Held(dates, start, cfg, ops, j, m), At(cfg, ops, m))
  {
    hide Held, At, EventAt, InStep, StepFor, ApplyIfAny, Decisive;
    if j < m {
      var held, e := Held(dates, start, cfg, ops, j, m - 1), EventAt(cfg, ops, m - 1);
      var before, after := At(cfg, ops, m - 1), At(cfg, ops, m);
      HeldStep(dates, start, cfg, ops, j, m - 1);
      StepAt(cfg, ops, m - 1, id);
      if Decisive(id, e) {
        GetsInStep(dates, id, held, before, e, after);
      } else {
        DecisiveEventSyncs(dates, start, cfg, ops, j, m - 1, id);
        KeepsInStep(dates, id, held, before, e, after);
      }
    }
  }

  /** Some event between S_j and S_i is about this id. */
  ghost predicate EventSeen(cfg: Config, ops: seq<Op>, j: nat, i: nat, id: string)
    requires i <= |ops|
  {
    i > j && (EventSeen(cfg, ops, j, i - 1, id) || About(id, EventAt(cfg, ops, i - 1)))
  }

  predicate About(id: string, e: Option<Node>) {
    e.Some? && e.value.id == id
  }

  /** As it started, but in GRACE if there has been an event, and then the registry has the node in GRACE too. */
  predicate Graced(id: string, start: map<string, Node>, held: map<string, Node>, nodes: map<string, Node>,
                   seen: bool)
  {
    && (id in held <==> id in start)
    && (id in held ==> SameButStatus(held[id], start[id]))
    && (id in held ==> held[id].status == if seen then GRACE else start[id].status)
    && (seen ==> id in nodes && nodes[id].status == GRACE)
  }

  lemma KeepsGraced(dates: bool, id: string, start: map<string, Node>, held: map<string, Node>,
                    before: map<string, Node>, e: Option<Node>, after: map<string, Node>, seen: bool)
    requires Graced(id, start, held, before, seen) && StepFor(id, before, e, after) && !Decisive(id, e)
    ensures Graced(id, start, ApplyIfAny(dates, held, e), after, seen || About(id, e))
  {}

  lemma GracedAtStart(id: string, start: map<string, Node>, nodes: map<string, Node>)
    ensures Graced(id, start, start, nodes, false)
  {}

  /** While there has been no decisive event, the replica has only followed GRACE events. */
  lemma {:induction false} OnlyGraceHolds(dates: bool, start: map<string, Node>, cfg: Config, ops: seq<Op>,
                                          j: nat, i: nat, id: string)
    requires j <= i <= |ops| && OnlyGrace(cfg, ops, j, i, id)
    ensures Graced(id, start, Held(dates, start, cfg, ops, j, i), At(cfg, ops, i), EventSeen(cfg, ops, j, i, id))
    decreases i
  {
    hide At, EventAt, StepFor, ApplyIfAny, Decisive, Graced, About;
    if j == i {
      assert Held(dates, start, cfg, ops, j, i) == start;
      GracedAtStart(id, start, At(cfg, ops, i));
    } else {
      hide Held;
      OnlyGraceHolds(dates, start, cfg, ops, j, i - 1, id);
      HeldStep(dates, start, cfg, ops, j, i - 1);
      StepAt(cfg, ops, i - 1, id);
      KeepsGraced(dates, id, start, Held(dates, start, cfg, ops, j, i - 1), At(cfg, ops, i - 1),
                  EventAt(cfg, ops, i - 1), At(cfg, ops, i), EventSeen(cfg, ops, j, i - 1, id));
    }
  }

  /** What a map has for this id may serve as the start: it agrees, up to a status that an event has since set. */
  predicate GoodStart(id: string, start: map<string, Node>, nodes: map<string, Node>, seen: bool) {
    && (id in start <==> id in nodes)
    && (id in start ==> SameButStatus(start[id], nodes[id]) && (seen || start[id].status == nodes[id].status))
  }

  /**
    From whatever map it started: after the events from S_j to S_m the replica is in step about an
    id exactly if there was an OK or ERASED event of it, or the start was good for it.
   */
  lemma InStepIff(dates: bool, start: map<string, Node>, cfg: Config, ops: seq<Op>, j: nat, m: nat, id: string)
    requires j <= m <= |ops|
    ensures InStep(id, Held(dates, start, cfg, ops, j, m), At(cfg, ops, m)) <==>
            !OnlyGrace(cfg, ops, j, m, id) || GoodStart(id, start, At(cfg, ops, m), EventSeen(cfg, ops, j, m, id))
  {
    hide Held, At, OnlyGrace, EventSeen;
    if OnlyGrace(cfg, ops, j, m, id) {
      OnlyGraceHolds(dates, start, cfg, ops, j, m, id);
    } else {
      DecisiveEventSyncs(dates, start, cfg, ops, j, m, id);
    }
  }

  // ---------- the snapshot ----------

  /** What the client loads when S_k has these nodes: page 1 of 1000 entries, no filters. */
  ghost function Snapshot(nodes: map<string, Node>, order: seq<string>, now: int): seq<Node>
    requires Enumerates(order, nodes)
  {
    var page := Page(Matched(nodes, order, "", "", now), 1, 1000);
    if page.None? then [] else page.value
  }

  /** These are the nodes, each with its remaining time filled in. */
  ghost predicate Copies(held: map<string, Node>, nodes: map<string, Node>, now: int) {
    held.Keys == nodes.Keys && forall id :: id in nodes ==> held[id] == Dated(nodes[id], now)
  }

  lemma {:induction false} DistinctLength(order: seq<string>, keys: set<string>)
    requires forall i, j :: 0 <= i < j < |order| ==> order[i] != order[j]
    requires forall id :: id in keys <==> id in order
    ensures |order| == |keys|
  {
    if order == [] {
      assert keys == {};
    } else {
      var earlier, last := order[..|order| - 1], order[|order| - 1];
      assert order == earlier + [last];
      DistinctLength(earlier, keys - {last});
    }
  }

  /** Without filters every node that is not ERASED matches. */
  lemma MatchedNext(nodes: map<string, Node>, order: seq<string>, last: string, now: int)
    requires last in nodes && nodes[last].status != ERASED && forall i :: 0 <= i < |order| ==> order[i] in nodes
    ensures forall i :: 0 <= i < |order + [last]| ==> (order + [last])[i] in nodes
    ensures Matched(nodes, order + [last], "", "", now) ==
            Matched(nodes, order, "", "", now) + [Dated(nodes[last], now)]
  {
    hide Dated;
    assert (order + [last])[..|order|] == order;
  }

  lemma LoadNext(local: map<string, Node>, snapshot: seq<Node>, n: Node)
    ensures Load(local, snapshot + [n]) == Load(local, snapshot)[n.id := n]
  {
    assert (snapshot + [n])[..|snapshot|] == snapshot;
  }

  /** The copies of the nodes with these keys. */
  function CopiesOf(nodes: map<string, Node>, ids: seq<string>, now: int): map<string, Node> {
    map id | id in nodes && id in ids :: Dated(nodes[id], now)
  }

  lemma CopiesNext(nodes: map<string, Node>, ids: seq<string>, last: string, now: int)
    requires last in nodes
    ensures CopiesOf(nodes, ids + [last], now) == CopiesOf(nodes, ids, now)[last := Dated(nodes[last], now)]
  {
    hide Dated;
    assert forall id :: id in ids + [last] <==> id in ids || id == last;
  }

  lemma {:induction false} MatchedLoads(cfg: Config, nodes: map<string, Node>, order: seq<string>, now: int)
    requires forall i :: 0 <= i < |order| ==> order[i] in nodes && NodeOk(cfg, order[i], nodes[order[i]])
    ensures |Matched(nodes, order, "", "", now)| == |order|
    ensures Load(map[], Matched(nodes, order, "", "", now)) == CopiesOf(nodes, order, now)
  {
    if order == [] {
      assert Matched(nodes, order, "", "", now) == [] && CopiesOf(nodes, order, now) == map[];
    } else {
      var earlier, last := order[..|order| - 1], order[|order| - 1];
      assert NodeOk(cfg, last, nodes[last]);
      var n := Dated(nodes[last], now);
      assert n.id == last && nodes[last].status != ERASED;
      hide Matched, Load, CopiesOf, NodeOk, Dated;
      MatchedLoads(cfg, nodes, earlier, now);
      MatchedNext(nodes, earlier, last, now);
      LoadNext(map[], Matched(nodes, earlier, "", "", now), n);
      CopiesNext(nodes, earlier, last, now);
      assert order == earlier + [last];
    }
  }

  lemma {:induction false} MatchedPrefix(cfg: Config, nodes: map<string, Node>, order: seq<string>, now: int, n: nat)
    requires forall i :: 0 <= i < |order| ==> order[i] in nodes && NodeOk(cfg, order[i], nodes[order[i]])
    requires n <= |order|
    ensures |Matched(nodes, order, "", "", now)| == |order|
    ensures Matched(nodes, order, "", "", now)[..n] == Matched(nodes, order[..n], "", "", now)
    decreases |order|
  {
    hide Matched, Load, CopiesOf;
    MatchedLoads(cfg, nodes, order, now);
    if n == |order| {
      assert order[..n] == order;
      assert Matched(nodes, order, "", "", now)[..n] == Matched(nodes, order, "", "", now);
    } else {
      var earlier, last := order[..|order| - 1], order[|order| - 1];
      assert NodeOk(cfg, last, nodes[last]);
      hide NodeOk;
      MatchedPrefix(cfg, nodes, earlier, now, n);
      MatchedNext(nodes, earlier, last, now);
      assert order == earlier + [last] && earlier[..n] == order[..n];
    }
  }

  /** The ids that fit on the page. */
  function Loaded(order: seq<string>): seq<string> {
    order[..Min(1000, |order|)]
  }

  /** The snapshot holds the copies of exactly the first 1000 nodes. */
  lemma SnapshotLoads(cfg: Config, nodes: map<string, Node>, order: seq<string>, now: int)
    requires Enumerates(order, nodes) && forall id :: id in nodes ==> NodeOk(cfg, id, nodes[id])
    ensures Load(map[], Snapshot(nodes, order, now)) == CopiesOf(nodes, Loaded(order), now)
    ensures |Snapshot(nodes, order, now)| == Min(1000, |nodes|) && |order| == |nodes|
  {
    hide NodeOk, Matched, Page, Load, CopiesOf;
    DistinctLength(order, nodes.Keys);
    assert |nodes| == |nodes.Keys|;
    var n := Min(1000, |order|);
    MatchedPrefix(cfg, nodes, order, now, n);
    MatchedLoads(cfg, nodes, order[..n], now);
    FirstThousand(Matched(nodes, order, "", "", now));
  }

  lemma CopiesOfAll(nodes: map<string, Node>, order: seq<string>, now: int)
    requires Enumerates(order, nodes) && |order| <= 1000
    ensures Copies(CopiesOf(nodes, Loaded(order), now), nodes, now)
  {
    hide Dated;
    assert Loaded(order) == order;
  }

  lemma FirstThousand<T>(all: seq<T>)
    ensures Page(all, 1, 1000) == Some(all[..Min(1000, |all|)])
    ensures |all| <= 1000 ==> Page(all, 1, 1000) == Some(all)
  {
    assert StartIndex(1, 1000) == 0;
    if |all| <= 1000 { assert all[..|all|] == all; }
  }

  // ---------- convergence ----------

  /** With the snapshot of S_k as the start: by k at the latest, the replica is in step. */
  lemma InStepAtSnapshot(dates: bool, start: map<string, Node>, cfg: Config, ops: seq<Op>,
                         j: nat, k: nat, id: string, now: int)
    requires j <= k <= |ops|
    requires (id in start <==> id in At(cfg, ops, k)) && (id in start ==> start[id] == Dated(At(cfg, ops, k)[id], now))
    ensures InStep(id, Held(dates, start, cfg, ops, j, k), At(cfg, ops, k))
  {
    hide Held, At, OnlyGrace, EventSeen;
    InStepIff(dates, start, cfg, ops, j, k, id);
  }

  /** The events that are published on a topic which the filter "apr/+" matches. */
  ghost function Delivered(events: seq<Node>): seq<Node> {
    if events == [] then []
    else
      var e := events[|events| - 1];
      Delivered(events[..|events| - 1]) + (if MqttTopic.MatchSpec("apr/+", "apr/" + e.role) then [e] else [])
  }

  predicate Visible(role: string) {
    role != "" && '/' !in role[..|role| - 1]
  }

  /** A role is seen through "apr/+" exactly when it is not empty and has no '/' before its last character. */
  lemma VisibleIff(role: string)
    ensures MqttTopic.MatchSpec("apr/+", "apr/" + role) <==> Visible(role)
  {
    var p, t := "apr/+", "apr/" + role;
    assert p[1..] == "pr/+" && p[1..][1..] == "r/+" && p[1..][1..][1..] == "/+" && p[1..][1..][1..][1..] == "+";
    assert t[1..] == "pr/" + role && t[1..][1..] == "r/" + role && t[1..][1..][1..] == "/" + role;
    assert t[1..][1..][1..][1..] == role;
    assert MqttTopic.Scan(p, t) == MqttTopic.Scan("+", role);
    PlusMatches(role);
    if p == t { assert role == t[4..] == "+"; }
  }

  lemma PlusMatches(role: string)
    ensures MqttTopic.Scan("+", role) <==> Visible(role)
  {
    if role != "" {
      assert MqttTopic.SkipLevel("+") == "" && MqttTopic.DropSlash("") == "";
      var rest := MqttTopic.SkipLevel(role);
      assert MqttTopic.Scan("+", role) == MqttTopic.Scan("", MqttTopic.DropSlash(rest));
      SkipLevelShort(role);
    }
  }

  /** Nothing, or only a '/', follows the first level exactly when no '/' comes before the last character. */
  lemma {:induction false} SkipLevelShort(s: string)
    requires s != ""
    ensures MqttTopic.DropSlash(MqttTopic.SkipLevel(s)) == "" <==> Visible(s)
  {
    if s[0] != '/' && |s| > 1 {
      SkipLevelShort(s[1..]);
      assert s[..|s| - 1] == [s[0]] + s[1..][..|s| - 2];
    } else if s[0] == '/' && |s| > 1 {
      assert s[..|s| - 1][0] == '/';
    }
  }

  /** Every role that the run registers can be seen. */
  predicate RolesVisible(ops: seq<Op>) {
    forall i :: 0 <= i < |ops| && ops[i].Register? ==> Visible(ops[i].role)
  }

  predicate NodesSeen(nodes: map<string, Node>) {
    forall id :: id in nodes ==> Visible(nodes[id].role)
  }

  lemma ApplyVisible(cfg: Config, st: State, op: Op)
    requires NodesSeen(st.nodes) && (op.Register? ==> Visible(op.role))
    ensures NodesSeen(Apply(cfg, st, op).st.nodes)
    ensures Apply(cfg, st, op).event.Some? ==> Visible(Apply(cfg, st, op).event.value.role)
  {
    hide Visible, ExtraSize, GeneratedId;
    if !op.Register? && op.id in st.nodes { assert Visible(st.nodes[op.id].role); }
  }

  lemma {:induction false} EventsVisible(cfg: Config, ops: seq<Op>, i: nat)
    requires i <= |ops| && RolesVisible(ops)
    ensures NodesSeen(At(cfg, ops, i))
    ensures i < |ops| && EventAt(cfg, ops, i).Some? ==> Visible(EventAt(cfg, ops, i).value.role)
  {
    hide Visible, Apply, NodesSeen;
    if i > 0 {
      EventsVisible(cfg, ops, i - 1);
      assert ops[..i][..i - 1] == ops[..i - 1];
      ApplyVisible(cfg, Run(cfg, ops[..i - 1]), ops[i - 1]);
    } else {
      NoneSeen();
    }
    if i < |ops| { ApplyVisible(cfg, Run(cfg, ops[..i]), ops[i]); }
  }

  lemma NoneSeen()
    ensures NodesSeen(EMPTY.nodes)
  {}

  lemma DeliveredAppend(events: seq<Node>, e: Node)
    requires Visible(e.role)
    ensures Delivered(events + [e]) == Delivered(events) + [e]
  {
    VisibleIff(e.role);
    assert (events + [e])[..|events|] == events;
  }

  lemma {:induction false} AllDelivered(cfg: Config, ops: seq<Op>, j: nat, m: nat)
    requires m <= |ops| && RolesVisible(ops)
    ensures Delivered(Events(cfg, ops, j, m)) == Events(cfg, ops, j, m)
  {
    if j < m {
      hide Visible, At, EventAt, RolesVisible, Delivered;
      AllDelivered(cfg, ops, j, m - 1);
      EventsVisible(cfg, ops, m - 1);
      var earlier, e := Events(cfg, ops, j, m - 1), EventAt(cfg, ops, m - 1);
      if e.Some? { DeliveredAppend(earlier, e.value); } else { assert earlier + [] == earlier; }
    }
  }

  /** The replica after the snapshot of S_k and the delivered events from S_j to S_m. */
  ghost function Final(dates: bool, cfg: Config, ops: seq<Op>, j: nat, k: nat, m: nat, order: seq<string>, now: int)
    : map<string, Node>
    requires m <= |ops| && k <= |ops| && Enumerates(order, At(cfg, ops, k))
  {
    ApplyAll(dates, Load(map[], Snapshot(At(cfg, ops, k), order, now)), Delivered(Events(cfg, ops, j, m)))
  }

  lemma StartCopies(cfg: Config, ops: seq<Op>, k: nat, order: seq<string>, now: int)
    requires k <= |ops| && Enumerates(order, At(cfg, ops, k)) && |At(cfg, ops, k)| <= 1000
    ensures Copies(Load(map[], Snapshot(At(cfg, ops, k), order, now)), At(cfg, ops, k), now)
  {
    hide NodeOk, Snapshot, Load, Copies, Enumerates, CopiesOf, Loaded;
    RunKeeps(cfg, ops[..k]);
    SnapshotLoads(cfg, At(cfg, ops, k), order, now);
    CopiesOfAll(At(cfg, ops, k), order, now);
  }

  lemma CopiesAt(held: map<string, Node>, nodes: map<string, Node>, now: int, id: string)
    requires Copies(held, nodes, now)
    ensures (id in held <==> id in nodes) && (id in held ==> held[id] == Dated(nodes[id], now))
  {}

  /** The client's map has exactly the registry's nodes, equal in id, role, workers, endpoint and status. */
  lemma Converges(dates: bool, cfg: Config, ops: seq<Op>, j: nat, k: nat, m: nat, order: seq<string>, now: int)
    requires j <= k <= m <= |ops| && RolesVisible(ops)
    requires Enumerates(order, At(cfg, ops, k)) && |At(cfg, ops, k)| <= 1000
    ensures var local := Final(dates, cfg, ops, j, k, m, order, now);
            && local.Keys == At(cfg, ops, m).Keys
            && forall id :: id in local ==> Same(local[id], At(cfg, ops, m)[id])
  {
    hide At, Events, Snapshot, Enumerates, RolesVisible, Copies, Load, ApplyAll;
    var start := Load(map[], Snapshot(At(cfg, ops, k), order, now));
    StartCopies(cfg, ops, k, order, now);
    AllDelivered(cfg, ops, j, m);
    var local := Final(dates, cfg, ops, j, k, m, order, now);
    assert local == Held(dates, start, cfg, ops, j, m);
    hide Final, Held, InStep, Same;
    forall id ensures InStep(id, local, At(cfg, ops, m)) {
      CopiesAt(start, At(cfg, ops, k), now, id);
      InStepAtSnapshot(dates, start, cfg, ops, j, k, id, now);
      StaysInStep(dates, start, cfg, ops, j, k, m, id);
    }
    AllInStep(local, At(cfg, ops, m));
  }

  lemma AllInStep(held: map<string, Node>, nodes: map<string, Node>)
    requires forall id :: InStep(id, held, nodes)
    ensures held.Keys == nodes.Keys && forall id :: id in held ==> Same(held[id], nodes[id])
  {
    hide Same;
    assert forall id :: InStep(id, held, nodes) ==> (id in held <==> id in nodes);
    forall id | id in held ensures Same(held[id], nodes[id]) { assert InStep(id, held, nodes); }
  }

  /**
    The client itself, with the events cut anywhere by the snapshot and by the reconciliation:
    it ends with an empty queue and the registry's nodes.
   */
  lemma BootConverges(dates: bool, cfg: Config, ops: seq<Op>, j: nat, k: nat, m: nat, order: seq<string>, now: int,
                      before: seq<Node>, between: seq<Node>, after: seq<Node>, text: Node -> string)
    requires j <= k <= m <= |ops| && RolesVisible(ops)
    requires Enumerates(order, At(cfg, ops, k)) && |At(cfg, ops, k)| <= 1000
    requires before + between + after == Delivered(Events(cfg, ops, j, m))
    ensures var fetched := Fetch(Received(dates, FRESH, before, text), Some(Snapshot(At(cfg, ops, k), order, now)));
            var c := Received(dates, Reconcile(dates, Received(dates, fetched, between, text)), after, text);
            && c.reconciled && c.queue == []
            && c.local.Keys == At(cfg, ops, m).Keys
            && forall id :: id in c.local ==> Same(c.local[id], At(cfg, ops, m)[id])
  {
    hide At, Events, Delivered, Snapshot, Enumerates, RolesVisible, Load, ApplyAll, Received, Same, Fetch, Reconcile;
    BootIsReplay(dates, before, Snapshot(At(cfg, ops, k), order, now), between, after, text);
    Converges(dates, cfg, ops, j, k, m, order, now);
  }
}
