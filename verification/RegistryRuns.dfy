/**
  What every run of registry operations keeps (src/core/registry.cpp).

  A run is a list of operations applied to the empty registry, one locked region after the
  other; a sweep appears in it as the removals it makes.
 */
module RegistryRuns {
  import opened Wrappers
  import opened MapSum
  import opened RegistryQueries
  import opened RegistryState

  ghost function Run(cfg: Config, ops: seq<Op>): State {
    if ops == [] then EMPTY else Apply(cfg, Run(cfg, ops[..|ops| - 1]), ops[|ops| - 1]).st
  }

  // ---------- nodes ----------

  /** Never stored as ERASED, stored under its id, a deadline exactly in GRACE, extra data only for listed workers. */
  predicate NodeOk(cfg: Config, id: string, n: Node) {
    && n.id == id
    && n.status != ERASED
    && (n.expiresIn.Some? <==> n.status == GRACE)
    && (forall w :: w in n.extra ==> Accepts(cfg, n.workers, w, n.extra[w]))
  }

  ghost function TotalExtra(st: State): int {
    Sum(st.nodes, ExtraSize)
  }

  ghost predicate Inv(cfg: Config, st: State) {
    && (forall id :: id in st.nodes ==> NodeOk(cfg, id, st.nodes[id]))
    && st.extraBytes == TotalExtra(st)
  }

  lemma RegisteredNodeOk(cfg: Config, st: State, op: Op)
    requires op.Register? && forall id :: id in st.nodes ==> NodeOk(cfg, id, st.nodes[id])
    ensures NodeOk(cfg, IdFor(st, op), WithExtras(cfg, BareNode(st, op), op.extras))
  {
    hide GeneratedId, FinalEndpoint;
    var id := IdFor(st, op);
    if id in st.nodes { assert NodeOk(cfg, id, st.nodes[id]); }
  }

  lemma ApplyKeeps(cfg: Config, st: State, op: Op)
    requires Inv(cfg, st)
    ensures Inv(cfg, Apply(cfg, st, op).st)
  {
    hide Sum, ExtraSize, WithExtras, BareNode, GeneratedId;
    match op
    case Register(_, _, _, _, _, extras, _) =>
      RegisteredNodeOk(cfg, st, op);
      SumUpdate(st.nodes, ExtraSize, IdFor(st, op), WithExtras(cfg, BareNode(st, op), extras));
    case MarkGrace(id, now) =>
      if id in st.nodes {
        var n := st.nodes[id];
        SameExtra(n, n.(status := GRACE, activeAt := now, expiresIn := Some(GRACE_SECONDS)));
        SumUpdate(st.nodes, ExtraSize, id, n.(status := GRACE, activeAt := now, expiresIn := Some(GRACE_SECONDS)));
      }
    case Restore(id, now) =>
      if id in st.nodes {
        var n := st.nodes[id];
        SameExtra(n, n.(status := OK, activeAt := now, expiresIn := None));
        SumUpdate(st.nodes, ExtraSize, id, n.(status := OK, activeAt := now, expiresIn := None));
      }
    case UpdateExtra(id, worker, value, now) =>
      if id in st.nodes {
        var n := st.nodes[id];
        SumUpdate(st.nodes, ExtraSize, id, n.(extra := n.extra[worker := value], activeAt := now));
      }
    case Remove(id) =>
      if id in st.nodes { SumWithout(st.nodes, ExtraSize, id); }
  }

  /** In every reachable state the nodes are in order and the extra gauge is the sum over all nodes and workers. */
  lemma {:induction false} RunKeeps(cfg: Config, ops: seq<Op>)
    ensures Inv(cfg, Run(cfg, ops))
  {
    hide Inv, Apply;
    if ops == [] {
      EmptyInv(cfg);
    } else {
      RunKeeps(cfg, ops[..|ops| - 1]);
      ApplyKeeps(cfg, Run(cfg, ops[..|ops| - 1]), ops[|ops| - 1]);
    }
  }

  lemma EmptyInv(cfg: Config)
    ensures Inv(cfg, EMPTY)
  {}

  /** What a registration stores, worker by worker: announced data if it is accepted, else what was there. */
  lemma RegistrationStores(cfg: Config, st: State, op: Op)
    requires Inv(cfg, st) && op.Register?
    ensures var id, after := IdFor(st, op), Apply(cfg, st, op).st.nodes;
            && id in after && after[id].id == id && after[id].status == OK && after[id].activeAt == op.now
            && after[id].role == op.role && after[id].workers == op.workers
            && after[id].addedAt == (if id in st.nodes then st.nodes[id].addedAt else op.now)
            && (op.ep.Some? && op.ep.value.addr == "" ==>
                  after[id].endpoint == Some(Endpoint(op.peerIp, op.ep.value.port, op.ep.value.scheme)))
            && (op.ep.None? || op.ep.value.addr != "" ==> after[id].endpoint == op.ep)
            && forall w ::
                 var announced := w in op.extras && w in op.workers && |op.extras[w].dump| <= cfg.maxExtra;
                 var kept := id in st.nodes && w in st.nodes[id].extra && w in op.workers;
                 && (w in after[id].extra <==> announced || kept)
                 && (w in after[id].extra ==>
                       after[id].extra[w] == if announced then op.extras[w] else st.nodes[id].extra[w])
  {
    hide GeneratedId, ExtraSize, Sum;
    RegisteredNodeOk(cfg, st, op);
  }

  /** GRACE lasts 180 seconds from when it began; restored, an OK node differs from before in `activeAt` only. */
  lemma GraceAndBack(cfg: Config, st: State, id: string, began: int, ended: int)
    requires Inv(cfg, st) && id in st.nodes
    ensures var grace := Apply(cfg, st, MarkGrace(id, began)).st;
            var back := Apply(cfg, grace, Restore(id, ended)).st;
            && id in grace.nodes && grace.nodes[id].status == GRACE
            && grace.nodes[id].expiresIn == Some(180) && grace.nodes[id].activeAt == began
            && id in back.nodes && back.nodes[id].status == OK && back.nodes[id].activeAt == ended
            && (st.nodes[id].status == OK ==> back == st.(nodes := st.nodes[id := st.nodes[id].(activeAt := ended)]))
  {
    assert NodeOk(cfg, id, st.nodes[id]);
  }

  /** Extra data is stored exactly if the worker is listed and the dump within the cap. */
  lemma ExtraStored(cfg: Config, st: State, id: string, worker: string, value: Json, now: int)
    ensures var after := Apply(cfg, st, UpdateExtra(id, worker, value, now)).st;
            if id in st.nodes && worker in st.nodes[id].workers && |value.dump| <= cfg.maxExtra then
              var n := st.nodes[id];
              after.nodes == st.nodes[id := n.(extra := n.extra[worker := value], activeAt := now)]
            else after == st
  {}

  /** An operation changes at most one stored node. */
  lemma OthersUnchanged(cfg: Config, st: State, op: Op, id: string)
    requires Inv(cfg, st) && id != (if op.Register? then IdFor(st, op) else op.id)
    ensures id in Apply(cfg, st, op).st.nodes <==> id in st.nodes
    ensures id in st.nodes ==> Apply(cfg, st, op).st.nodes[id] == st.nodes[id]
  {
    hide GeneratedId, ExtraSize, Sum, WithExtras, BareNode, Accepts;
    if !op.Register? && op.id in st.nodes { assert NodeOk(cfg, op.id, st.nodes[op.id]); }
  }

  function Removals(ids: seq<string>): seq<Op> {
    seq(|ids|, i requires 0 <= i < |ids| => Remove(ids[i]))
  }

  /** A sweep is the removals that it makes, as part of the run. */
  lemma {:induction false} SweepIsRemovals(cfg: Config, ops: seq<Op>, ids: seq<string>)
    ensures RemoveAll(cfg, Run(cfg, ops), ids).0 == Run(cfg, ops + Removals(ids))
  {
    hide Apply;
    var all := ops + Removals(ids);
    if ids == [] {
      assert all == ops;
    } else {
      SweepIsRemovals(cfg, ops, ids[..|ids| - 1]);
      assert all[..|all| - 1] == ops + Removals(ids[..|ids| - 1]);
    }
  }

  /** Every event holds the node as it is stored afterwards; ERASED means that it no longer is. */
  lemma EventIsPostState(cfg: Config, st: State, op: Op)
    requires Inv(cfg, st) && Apply(cfg, st, op).event.Some?
    ensures var e, st' := Apply(cfg, st, op).event.value, Apply(cfg, st, op).st;
            if e.status == ERASED then e.id in st.nodes && st'.nodes == st.nodes - {e.id}
            else st'.nodes == st.nodes[e.id := e]
  {
    hide Sum, ExtraSize, GeneratedId;
    match op
    case Register(_, _, _, _, _, _, _) => RegisteredNodeOk(cfg, st, op);
    case MarkGrace(id, _) => assert id in st.nodes ==> NodeOk(cfg, id, st.nodes[id]);
    case Restore(id, _) => assert id in st.nodes ==> NodeOk(cfg, id, st.nodes[id]);
    case UpdateExtra(id, _, _, _) => assert id in st.nodes ==> NodeOk(cfg, id, st.nodes[id]);
    case Remove(id) => assert id in st.nodes ==> NodeOk(cfg, id, st.nodes[id]);
  }

  /** Without an event nothing has changed. */
  lemma NoEventNoChange(cfg: Config, st: State, op: Op)
    requires Apply(cfg, st, op).event.None?
    ensures Apply(cfg, st, op).st == st
  {}

  lemma OneRegistered(cfg: Config, role: string, workers: seq<string>)
    ensures var op := Register(role, workers, None, "", "x", map[], 0);
            var n := Node("x", role, workers, None, OK, 0, 0, None, map[]);
            && Apply(cfg, EMPTY, op).event == Some(n) && Apply(cfg, EMPTY, op).st.nodes == map["x" := n]
            && Run(cfg, [op]) == Apply(cfg, EMPTY, op).st
  {
    var op := Register(role, workers, None, "", "x", map[], 0);
    assert [op][..0] == [];
    assert WithExtras(cfg, BareNode(EMPTY, op), map[]) == Node("x", role, workers, None, OK, 0, 0, None, map[]);
  }

  // ---------- what the gauges count ----------

  /** A new node weighs its struct, its role and its id; a removed node takes as much away, by its role of then. */
  lemma NodesWeigh(cfg: Config, st: State, op: Op)
    requires Inv(cfg, st)
    ensures var st' := Apply(cfg, st, op).st;
            && (op.Register? && IdFor(st, op) !in st.nodes ==>
                  st'.registryBytes == st.registryBytes + cfg.nodeSize + |op.role| + |IdFor(st, op)|)
            && (op.Remove? && op.id in st.nodes ==>
                  st'.registryBytes == st.registryBytes - cfg.nodeSize - |st.nodes[op.id].role| - |op.id|)
            && (!op.Remove? && !(op.Register? && IdFor(st, op) !in st.nodes) ==> st'.registryBytes == st.registryBytes)
  {
    hide ExtraSize, GeneratedId, Accepts;
    if op.Remove? && op.id in st.nodes { assert NodeOk(cfg, op.id, st.nodes[op.id]); }
    if op.Register? { RegisteredNodeOk(cfg, st, op); }
  }

  /** Extra data weighs the length of its dump: a write adds that of the new value and takes away that of the old. */
  lemma WritesWeigh(cfg: Config, st: State, id: string, worker: string, value: Json, now: int)
    requires id in st.nodes
    ensures var was := st.nodes[id].extra;
            var weight := if worker in st.nodes[id].workers && |value.dump| <= cfg.maxExtra then
                            |value.dump| - (if worker in was then |was[worker].dump| else 0)
                          else 0;
            Apply(cfg, st, UpdateExtra(id, worker, value, now)).st.extraBytes == st.extraBytes + weight
  {
    SumUpdate(st.nodes[id].extra, DumpSize, worker, value);
    hide Sum;
  }

  // ---------- the registry gauge ----------

  ghost function TotalMeta(cfg: Config, nodes: map<string, Node>): int {
    Sum(nodes, (n: Node) => MetaSize(cfg, n))
  }

  /** The operation re-registers a stored node. */
  predicate Reregisters(st: State, op: Op) {
    op.Register? && IdFor(st, op) in st.nodes
  }

  /** By how much this operation shortens the role of a stored node. */
  function Shrinks(st: State, op: Op): int {
    if Reregisters(st, op) then |st.nodes[IdFor(st, op)].role| - |op.role| else 0
  }

  /** By how much the roles of re-registered nodes have shrunk in length. */
  ghost function Drift(cfg: Config, ops: seq<Op>): int {
    if ops == [] then 0
    else
      Drift(cfg, ops[..|ops| - 1]) + Shrinks(Run(cfg, ops[..|ops| - 1]), ops[|ops| - 1])
  }

  /** The gauge is off by exactly that much. */
  lemma {:induction false} GaugeDrifts(cfg: Config, ops: seq<Op>)
    ensures Run(cfg, ops).registryBytes == TotalMeta(cfg, Run(cfg, ops).nodes) + Drift(cfg, ops)
  {
    if ops != [] {
      GaugeDrifts(cfg, ops[..|ops| - 1]);
      RunKeeps(cfg, ops[..|ops| - 1]);
      GaugeStep(cfg, Run(cfg, ops[..|ops| - 1]), ops[|ops| - 1]);
    }
  }

  lemma GaugeStep(cfg: Config, st: State, op: Op)
    requires Inv(cfg, st)
    ensures var st' := Apply(cfg, st, op).st;
            st'.registryBytes - TotalMeta(cfg, st'.nodes) ==
              st.registryBytes - TotalMeta(cfg, st.nodes) + Shrinks(st, op)
  {
    hide Sum, ExtraSize, GeneratedId, Accepts;
    var f := (n: Node) => MetaSize(cfg, n);
    match op
    case Register(_, _, _, _, _, extras, _) =>
      RegisteredNodeOk(cfg, st, op);
      SumUpdate(st.nodes, f, IdFor(st, op), WithExtras(cfg, BareNode(st, op), extras));
    case MarkGrace(id, now) =>
      if id in st.nodes { SumUpdate(st.nodes, f, id, Apply(cfg, st, op).event.value); }
    case Restore(id, now) =>
      if id in st.nodes { SumUpdate(st.nodes, f, id, Apply(cfg, st, op).event.value); }
    case UpdateExtra(id, worker, value, now) =>
      if Apply(cfg, st, op).event.Some? { SumUpdate(st.nodes, f, id, Apply(cfg, st, op).event.value); }
    case Remove(id) =>
      if id in st.nodes { SumWithout(st.nodes, f, id); }
  }

  ghost function Gap(cfg: Config, st: State): int {
    st.registryBytes - TotalMeta(cfg, st.nodes)
  }

  /** The re-registrations of this run keep the length of the role. */
  ghost predicate KeepsRoleLengths(cfg: Config, ops: seq<Op>) {
    forall i {:trigger ops[i]} :: 0 <= i < |ops| ==> Shrinks(Run(cfg, ops[..i]), ops[i]) == 0
  }

  lemma GapStep(cfg: Config, ops: seq<Op>, i: nat)
    requires i < |ops|
    ensures Gap(cfg, Run(cfg, ops[..i + 1])) == Gap(cfg, Run(cfg, ops[..i])) + Shrinks(Run(cfg, ops[..i]), ops[i])
  {
    hide Inv, Apply, TotalMeta, Shrinks;
    assert ops[..i + 1][..i] == ops[..i];
    RunKeeps(cfg, ops[..i]);
    GaugeStep(cfg, Run(cfg, ops[..i]), ops[i]);
  }

  lemma {:induction false} NoGap(cfg: Config, ops: seq<Op>, i: nat)
    requires i <= |ops| && KeepsRoleLengths(cfg, ops)
    ensures Gap(cfg, Run(cfg, ops[..i])) == 0
  {
    if i > 0 {
      hide Shrinks, Apply;
      NoGap(cfg, ops, i - 1);
      GapStep(cfg, ops, i - 1);
    }
  }

  /**
    The gauge is the sum over the live nodes at every point of a run exactly when the run's
    re-registrations keep the length of the role.
   */
  lemma GaugeExactIff(cfg: Config, ops: seq<Op>)
    ensures (forall i :: 0 <= i <= |ops| ==> Gap(cfg, Run(cfg, ops[..i])) == 0) <==> KeepsRoleLengths(cfg, ops)
  {
    hide Shrinks, Apply, Gap, Run;
    if KeepsRoleLengths(cfg, ops) {
      forall i | 0 <= i <= |ops| ensures Gap(cfg, Run(cfg, ops[..i])) == 0 {
        NoGap(cfg, ops, i);
      }
    }
    if forall i :: 0 <= i <= |ops| ==> Gap(cfg, Run(cfg, ops[..i])) == 0 {
      forall i | 0 <= i < |ops| ensures Shrinks(Run(cfg, ops[..i]), ops[i]) == 0 {
        GapStep(cfg, ops, i);
        assert Gap(cfg, Run(cfg, ops[..i])) == 0 && Gap(cfg, Run(cfg, ops[..i + 1])) == 0;
      }
    }
  }

  /** Register under one role, again under a longer one, remove: an empty registry of -1 bytes. */
  lemma EmptyRegistryWeighsMinusOne(cfg: Config)
    ensures var ops := [Register("a", [], None, "", "x", map[], 0), Register("ab", [], None, "", "x", map[], 0),
                        Remove("x")];
            Run(cfg, ops) == State(map[], -1, 0, 1)
  {
    var first, second := Register("a", [], None, "", "x", map[], 0), Register("ab", [], None, "", "x", map[], 0);
    var ops := [first, second, Remove("x")];
    assert ops[..2] == [first, second] && [first, second][..1] == [first] && [first][..0] == [];
    var a := Node("x", "a", [], None, OK, 0, 0, None, map[]);
    var b := a.(role := "ab");
    assert Run(cfg, [first]) == Apply(cfg, EMPTY, first).st;
    assert WithExtras(cfg, BareNode(EMPTY, first), map[]) == a;
    var one := State(map["x" := a], MetaSize(cfg, a), 0, 1);
    NothingWeighsNothing(a);
    NothingWeighsNothing(b);
    assert Apply(cfg, EMPTY, first).st == one;
    assert Run(cfg, [first, second]) == Apply(cfg, one, second).st;
    assert WithExtras(cfg, BareNode(one, second), map[]) == b;
    var two := State(map["x" := b], MetaSize(cfg, a), 0, 1);
    assert Apply(cfg, one, second).st == two;
    assert Run(cfg, ops) == Apply(cfg, two, Remove("x")).st;
  }

  // ---------- statistics ----------

  /** In every reachable state each node is alive or in grace, and in one role: both counts add up. */
  lemma StatsAddUp(cfg: Config, ops: seq<Op>, s: Stats)
    requires StatsOf(s, Run(cfg, ops).nodes) && s.total == |Run(cfg, ops).nodes|
    ensures s.alive + s.grace == s.total
    ensures Sum(s.roles, (c: nat) => c) == s.total
  {
    hide Run;
    RunKeeps(cfg, ops);
    var nodes := Run(cfg, ops).nodes;
    forall id | id in nodes ensures nodes[id].status != ERASED { assert NodeOk(cfg, id, nodes[id]); }
    assert WithStatus(nodes, OK) + WithStatus(nodes, GRACE) == nodes.Keys;
    RoleCountsSum(s.roles, nodes);
  }

  lemma {:induction false} RoleCountsSum(roles: map<string, nat>, nodes: map<string, Node>)
    requires RolesOf(roles, nodes)
    ensures Sum(roles, (c: nat) => c) == |nodes|
    decreases |roles|
  {
    forall id | id in nodes ensures nodes[id].role in roles {
      assert id in WithRole(nodes, nodes[id].role);
    }
    if roles == map[] {
      assert nodes == map[];
    } else {
      var r := Pick(roles);
      var nodes', roles' := nodes - WithRole(nodes, r), roles - {r};
      SmallerWithout(roles, r);
      WithoutRole(roles, nodes, r);
      RoleCountsSum(roles', nodes');
    }
  }

  lemma WithoutRole(roles: map<string, nat>, nodes: map<string, Node>, r: string)
    requires RolesOf(roles, nodes) && r in roles
    ensures RolesOf(roles - {r}, nodes - WithRole(nodes, r))
    ensures |nodes - WithRole(nodes, r)| + roles[r] == |nodes|
  {
    var those := WithRole(nodes, r);
    var nodes' := nodes - those;
    forall q ensures WithRole(nodes', q) == if q == r then {} else WithRole(nodes, q) {}
    assert nodes.Keys == nodes'.Keys + those && nodes'.Keys !! those;
    assert |nodes| == |nodes.Keys| && |nodes'| == |nodes'.Keys|;
  }
}
