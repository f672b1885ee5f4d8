/**
  How long a node stays in GRACE (src/core/registry.cpp:154-162, 246-260, 364-382;
  src/main.cpp:57-71).

  In a run a sweep is one step: collect, then remove.  `SplitSweepExact` says when it still does
  the same with other operations between its two locks.
 */
module GraceTiming {
  import opened Wrappers
  import opened RegistryQueries
  import opened RegistryState
  import opened RegistryRuns

  // ---------- one sweep ----------

  predicate OkNodes(cfg: Config, nodes: map<string, Node>) {
    forall id :: id in nodes ==> NodeOk(cfg, id, nodes[id])
  }

  lemma {:induction false} CollectsExpired(nodes: map<string, Node>, order: seq<string>, now: int)
    requires forall i :: 0 <= i < |order| ==> order[i] in nodes
    ensures forall id :: id in Collected(nodes, order, now) <==> id in order && Expired(nodes[id], now)
  {
    if order != [] {
      var earlier, last := order[..|order| - 1], order[|order| - 1];
      CollectsExpired(nodes, earlier, now);
      assert order == earlier + [last];
      assert forall id :: id in order <==> id in earlier || id == last;
    }
  }

  /** Whatever has happened since they were collected, exactly the collected ids go. */
  lemma {:induction false} RemovesCollected(cfg: Config, st: State, ids: seq<string>)
    requires OkNodes(cfg, st.nodes)
    ensures RemoveAll(cfg, st, ids).0.nodes == map id | id in st.nodes && id !in ids :: st.nodes[id]
    ensures OkNodes(cfg, RemoveAll(cfg, st, ids).0.nodes)
  {
    if ids != [] {
      hide Apply, OkNodes;
      var earlier, last := ids[..|ids| - 1], ids[|ids| - 1];
      RemovesCollected(cfg, st, earlier);
      RemoveOne(cfg, RemoveAll(cfg, st, earlier).0, last);
      assert ids == earlier + [last];
      assert forall id :: id in ids <==> id in earlier || id == last;
    }
  }

  lemma RemoveOne(cfg: Config, st: State, id: string)
    requires OkNodes(cfg, st.nodes)
    ensures Apply(cfg, st, Remove(id)).st.nodes == st.nodes - {id}
    ensures OkNodes(cfg, Apply(cfg, st, Remove(id)).st.nodes)
  {
    hide ExtraSize, MetaSize, NodeOk;
  }

  ghost function Swept(cfg: Config, st: State, order: seq<string>, now: int): State
    requires Enumerates(order, st.nodes)
  {
    RemoveAll(cfg, st, Collected(st.nodes, order, now)).0
  }

  /** A sweep keeps exactly the nodes that have not expired, and keeps them as they are. */
  lemma SweepExact(cfg: Config, st: State, order: seq<string>, now: int)
    requires OkNodes(cfg, st.nodes) && Enumerates(order, st.nodes)
    ensures Swept(cfg, st, order, now).nodes == map id | id in st.nodes && !Expired(st.nodes[id], now) :: st.nodes[id]
    ensures OkNodes(cfg, Swept(cfg, st, order, now).nodes)
  {
    hide OkNodes, NodeOk;
    CollectsExpired(st.nodes, order, now);
    RemovesCollected(cfg, st, Collected(st.nodes, order, now));
  }

  /** The remaining time that both queries report is 0 exactly when a sweep at that instant removes the node. */
  lemma ZeroMeansSwept(cfg: Config, st: State, order: seq<string>, now: int, id: string)
    requires OkNodes(cfg, st.nodes) && Enumerates(order, st.nodes) && id in st.nodes
    ensures Dated(st.nodes[id], now).expiresIn == Some(0) <==> id !in Swept(cfg, st, order, now).nodes
    ensures DatedIfSet(st.nodes[id], now) == Dated(st.nodes[id], now)
  {
    hide Swept, Enumerates;
    SweepExact(cfg, st, order, now);
    assert NodeOk(cfg, id, st.nodes[id]);
  }

  /**
    The copy that a query hands out differs from the stored node in `expiresIn` only, and only in GRACE.
    There it is the time left: any sweep at that distance or later finds the node expired, and none before.
   */
  lemma ExpiresInIsTimeLeft(cfg: Config, st: State, order: seq<string>, now: int, d: nat, id: string)
    requires OkNodes(cfg, st.nodes) && Enumerates(order, st.nodes) && id in st.nodes
    ensures var n, copy := st.nodes[id], Dated(st.nodes[id], now);
            && copy == n.(expiresIn := copy.expiresIn)
            && (n.status != GRACE ==> copy == n)
            && (n.status == GRACE ==>
                  copy.expiresIn.Some? && (copy.expiresIn.value <= d <==> id !in Swept(cfg, st, order, now + d).nodes))
  {
    hide Swept, Enumerates;
    SweepExact(cfg, st, order, now + d);
  }

  // ---------- operations between the halves ----------

  ghost function After(cfg: Config, st: State, ops: seq<Op>): State {
    if ops == [] then st else Apply(cfg, After(cfg, st, ops[..|ops| - 1]), ops[|ops| - 1]).st
  }

  /** The clock has not run backwards. */
  predicate NotBefore(op: Op, now: int) {
    op.Remove? || op.now >= now
  }

  /** The event is about this node and leaves it stored: registered, restored, marked or given extra data. */
  predicate Keeping(e: Option<Node>, id: string) {
    e.Some? && e.value.id == id && e.value.status != ERASED
  }

  ghost predicate Touched(cfg: Config, st: State, ops: seq<Op>, id: string) {
    ops != []
    && (Touched(cfg, st, ops[..|ops| - 1], id)
        || Keeping(Apply(cfg, After(cfg, st, ops[..|ops| - 1]), ops[|ops| - 1]).event, id))
  }

  /** A node touched at `now` or later has not expired at `now`; one that is not touched stays as it is or goes. */
  lemma TouchOnce(cfg: Config, st: State, op: Op, id: string, now: int)
    requires OkNodes(cfg, st.nodes) && NotBefore(op, now)
    ensures OkNodes(cfg, Apply(cfg, st, op).st.nodes)
    ensures var after := Apply(cfg, st, op).st.nodes;
            if Keeping(Apply(cfg, st, op).event, id) then id in after && !Expired(after[id], now)
            else id in after ==> id in st.nodes && after[id] == st.nodes[id]
  {
    if Target(st, op) != id {
      OthersUntouched(cfg, st, op, id);
      EventOfTarget(cfg, st, op);
    } else {
      hide ExtraSize, GeneratedId, Accepts;
      TargetStaysOk(cfg, st, op);
      assert id in st.nodes ==> NodeOk(cfg, id, st.nodes[id]);
      if op.Register? { RegisteredNodeOk(cfg, st, op); }
    }
  }

  lemma EventOfTarget(cfg: Config, st: State, op: Op)
    requires OkNodes(cfg, st.nodes)
    ensures var e := Apply(cfg, st, op).event; e.Some? ==> e.value.id == Target(st, op)
  {
    hide ExtraSize, GeneratedId, Accepts;
    if op.Register? { RegisteredNodeOk(cfg, st, op); }
    if !op.Register? && op.id in st.nodes { assert NodeOk(cfg, op.id, st.nodes[op.id]); }
  }

  lemma TargetStaysOk(cfg: Config, st: State, op: Op)
    requires OkNodes(cfg, st.nodes)
    ensures OkNodes(cfg, Apply(cfg, st, op).st.nodes)
  {
    hide OkNodes, Apply, Target, NodeOk;
    forall k | k in Apply(cfg, st, op).st.nodes ensures NodeOk(cfg, k, Apply(cfg, st, op).st.nodes[k]) {
      NodeStaysOk(cfg, st, op, k);
    }
    AllOk(cfg, Apply(cfg, st, op).st.nodes);
  }

  lemma AllOk(cfg: Config, nodes: map<string, Node>)
    requires forall id :: id in nodes ==> NodeOk(cfg, id, nodes[id])
    ensures OkNodes(cfg, nodes)
  {}

  lemma NodeStaysOk(cfg: Config, st: State, op: Op, k: string)
    requires OkNodes(cfg, st.nodes) && k in Apply(cfg, st, op).st.nodes
    ensures NodeOk(cfg, k, Apply(cfg, st, op).st.nodes[k])
  {
    hide ExtraSize, GeneratedId, WithExtras, BareNode;
    assert k in st.nodes ==> NodeOk(cfg, k, st.nodes[k]);
    if op.Register? { RegisteredNodeOk(cfg, st, op); }
    if !op.Register? && op.id in st.nodes { assert NodeOk(cfg, op.id, st.nodes[op.id]); }
    if op.UpdateExtra? && Apply(cfg, st, op).event.Some? { UpdatedNodeOk(cfg, st, op); }
  }

  lemma {:induction false} TouchedIsFresh(cfg: Config, st: State, ops: seq<Op>, id: string, now: int)
    requires OkNodes(cfg, st.nodes) && forall i :: 0 <= i < |ops| ==> NotBefore(ops[i], now)
    ensures OkNodes(cfg, After(cfg, st, ops).nodes)
    ensures var after := After(cfg, st, ops).nodes;
            id in after ==>
              if Touched(cfg, st, ops, id) then !Expired(after[id], now)
              else id in st.nodes && after[id] == st.nodes[id]
  {
    if ops != [] {
      hide Apply, OkNodes, NotBefore, Keeping, Expired;
      TouchedIsFresh(cfg, st, ops[..|ops| - 1], id, now);
      TouchOnce(cfg, After(cfg, st, ops[..|ops| - 1]), ops[|ops| - 1], id, now);
    }
  }

  /**
    With other operations between its two halves, a sweep leaves exactly the nodes that have not
    expired if and only if none of the collected nodes that are still stored was touched in between.
   */
  lemma SplitSweepExact(cfg: Config, st: State, ops: seq<Op>, order: seq<string>, now: int)
    requires OkNodes(cfg, st.nodes) && Enumerates(order, st.nodes)
    requires forall i :: 0 <= i < |ops| ==> NotBefore(ops[i], now)
    ensures var collected, between := Collected(st.nodes, order, now), After(cfg, st, ops);
            (RemoveAll(cfg, between, collected).0.nodes
               == map id | id in between.nodes && !Expired(between.nodes[id], now) :: between.nodes[id])
            <==> forall id :: id in collected && id in between.nodes ==> !Touched(cfg, st, ops, id)
  {
    hide RemoveAll, Collected, After, Touched, OkNodes, NotBefore, Expired;
    var collected, between := Collected(st.nodes, order, now), After(cfg, st, ops);
    CollectsExpired(st.nodes, order, now);
    TouchedIsFresh(cfg, st, ops, "", now);
    RemovesCollected(cfg, between, collected);
    forall id | id in between.nodes
      ensures id in collected ==> (Touched(cfg, st, ops, id) <==> !Expired(between.nodes[id], now))
      ensures id !in collected ==> !Expired(between.nodes[id], now)
    {
      TouchedIsFresh(cfg, st, ops, id, now);
    }
    var left := RemoveAll(cfg, between, collected).0.nodes;
    var unexpired := map id | id in between.nodes && !Expired(between.nodes[id], now) :: between.nodes[id];
    if id :| id in collected && id in between.nodes && Touched(cfg, st, ops, id) {
      assert id in unexpired && id !in left;
    }
  }

  /** A collected node that is re-registered, restored, marked again or given extra data is removed all the same. */
  lemma TouchedYetRemoved(cfg: Config, st: State, order: seq<string>, now: int, id: string, op: Op)
    requires OkNodes(cfg, st.nodes) && Enumerates(order, st.nodes) && id in st.nodes && Expired(st.nodes[id], now)
    requires !op.Remove? && op.now >= now
    requires if op.Register? then op.existingId == id && id != ""
             else op.id == id && (op.UpdateExtra? ==> Accepts(cfg, st.nodes[id].workers, op.worker, op.value))
    ensures var between := After(cfg, st, [op]);
            && id in between.nodes && !Expired(between.nodes[id], now)
            && id !in RemoveAll(cfg, between, Collected(st.nodes, order, now)).0.nodes
  {
    hide RemoveAll, Collected, OkNodes, ExtraSize, WithExtras, BareNode;
    assert [op][..0] == [] && After(cfg, st, [op]) == Apply(cfg, st, op).st;
    CollectsExpired(st.nodes, order, now);
    OkAt(cfg, st.nodes, id);
    if op.Register? { RegisteredIsItself(cfg, st, op); }
    assert Keeping(Apply(cfg, st, op).event, id);
    TouchOnce(cfg, st, op, id, now);
    RemovesCollected(cfg, After(cfg, st, [op]), Collected(st.nodes, order, now));
  }

  lemma OkAt(cfg: Config, nodes: map<string, Node>, id: string)
    requires OkNodes(cfg, nodes) && id in nodes
    ensures NodeOk(cfg, id, nodes[id])
  {}

  lemma RegisteredIsItself(cfg: Config, st: State, op: Op)
    requires op.Register? && OkNodes(cfg, st.nodes)
    ensures var n := WithExtras(cfg, BareNode(st, op), op.extras); n.id == IdFor(st, op) && n.status == OK
  {
    RegisteredNodeOk(cfg, st, op);
    hide GeneratedId;
  }

  // ---------- runs with sweeps ----------

  datatype Step = Call(op: Op) | Sweep(order: seq<string>, now: int)

  ghost function Take(cfg: Config, st: State, s: Step): State
    requires s.Sweep? ==> Enumerates(s.order, st.nodes)
  {
    if s.Call? then Apply(cfg, st, s.op).st else Swept(cfg, st, s.order, s.now)
  }

  /** Every sweep goes through the nodes that there are. */
  ghost predicate Plays(cfg: Config, st: State, steps: seq<Step>)
    decreases |steps|
  {
    steps == []
    || ((steps[0].Sweep? ==> Enumerates(steps[0].order, st.nodes)) && Plays(cfg, Take(cfg, st, steps[0]), steps[1..]))
  }

  ghost function Played(cfg: Config, st: State, steps: seq<Step>): State
    requires Plays(cfg, st, steps)
    decreases |steps|
  {
    if steps == [] then st else Played(cfg, Take(cfg, st, steps[0]), steps[1..])
  }

  /** The id that an operation is about. */
  function Target(st: State, op: Op): string {
    if op.Register? then IdFor(st, op) else op.id
  }

  /** No call is about this id. */
  ghost predicate Untouched(cfg: Config, st: State, steps: seq<Step>, id: string)
    requires Plays(cfg, st, steps)
    decreases |steps|
  {
    steps == []
    || ((steps[0].Call? ==> Target(st, steps[0].op) != id) && Untouched(cfg, Take(cfg, st, steps[0]), steps[1..], id))
  }

  lemma OthersUntouched(cfg: Config, st: State, op: Op, id: string)
    requires OkNodes(cfg, st.nodes) && Target(st, op) != id
    ensures OkNodes(cfg, Apply(cfg, st, op).st.nodes)
    ensures id in st.nodes <==> id in Apply(cfg, st, op).st.nodes
    ensures id in st.nodes ==> Apply(cfg, st, op).st.nodes[id] == st.nodes[id]
  {
    hide ExtraSize, WithExtras, BareNode, GeneratedId, Accepts;
    var t := Target(st, op);
    assert t in st.nodes ==> NodeOk(cfg, t, st.nodes[t]);
    if op.Register? { RegisteredNodeOk(cfg, st, op); }
    if op.UpdateExtra? && Apply(cfg, st, op).event.Some? { UpdatedNodeOk(cfg, st, op); }
  }

  lemma UpdatedNodeOk(cfg: Config, st: State, op: Op)
    requires op.UpdateExtra? && OkNodes(cfg, st.nodes) && Apply(cfg, st, op).event.Some?
    ensures NodeOk(cfg, op.id, Apply(cfg, st, op).event.value)
  {
    assert NodeOk(cfg, op.id, st.nodes[op.id]);
  }

  predicate Due(s: Step, since: int) {
    s.Sweep? && s.now - since >= GRACE_SECONDS
  }

  lemma StepOverGrace(cfg: Config, st: State, s: Step, id: string)
    requires OkNodes(cfg, st.nodes) && id in st.nodes && st.nodes[id].status == GRACE
    requires s.Sweep? ==> Enumerates(s.order, st.nodes)
    requires s.Call? ==> Target(st, s.op) != id
    ensures OkNodes(cfg, Take(cfg, st, s).nodes)
    ensures id in Take(cfg, st, s).nodes <==> !Due(s, st.nodes[id].activeAt)
    ensures id in Take(cfg, st, s).nodes ==> Take(cfg, st, s).nodes[id] == st.nodes[id]
  {
    hide Apply, OkNodes, Swept, Enumerates, Target;
    if s.Call? { OthersUntouched(cfg, st, s.op, id); } else { SweepExact(cfg, st, s.order, s.now); }
  }

  lemma StepOverAbsent(cfg: Config, st: State, s: Step, id: string)
    requires OkNodes(cfg, st.nodes) && id !in st.nodes
    requires s.Sweep? ==> Enumerates(s.order, st.nodes)
    requires s.Call? ==> Target(st, s.op) != id
    ensures OkNodes(cfg, Take(cfg, st, s).nodes) && id !in Take(cfg, st, s).nodes
  {
    hide Apply, OkNodes, Swept, Enumerates, Target;
    if s.Call? { OthersUntouched(cfg, st, s.op, id); } else { SweepExact(cfg, st, s.order, s.now); }
  }

  lemma {:induction false} StaysAway(cfg: Config, st: State, steps: seq<Step>, id: string)
    requires OkNodes(cfg, st.nodes) && id !in st.nodes
    requires Plays(cfg, st, steps) && Untouched(cfg, st, steps, id)
    ensures id !in Played(cfg, st, steps).nodes
    decreases |steps|
  {
    if steps != [] {
      hide Take, OkNodes, Target, Enumerates;
      StepOverAbsent(cfg, st, steps[0], id);
      StaysAway(cfg, Take(cfg, st, steps[0]), steps[1..], id);
    }
  }

  /**
    A node that went into GRACE at `activeAt` and that nothing touches is still there, unchanged,
    exactly until the first sweep 180 or more seconds later.
   */
  lemma {:induction false} GraceEndsBySweep(cfg: Config, st: State, steps: seq<Step>, id: string)
    requires OkNodes(cfg, st.nodes) && id in st.nodes && st.nodes[id].status == GRACE
    requires Plays(cfg, st, steps) && Untouched(cfg, st, steps, id)
    ensures var nodes := Played(cfg, st, steps).nodes;
            && (id in nodes <==> forall i :: 0 <= i < |steps| ==> !Due(steps[i], st.nodes[id].activeAt))
            && (id in nodes ==> nodes[id] == st.nodes[id])
    decreases |steps|
  {
    if steps != [] {
      hide Take, OkNodes, Target, Due, Enumerates;
      var st', rest := Take(cfg, st, steps[0]), steps[1..];
      StepOverGrace(cfg, st, steps[0], id);
      assert forall i :: 0 < i < |steps| ==> steps[i] == rest[i - 1];
      assert forall i :: 0 <= i < |rest| ==> rest[i] == steps[i + 1];
      if id in st'.nodes {
        GraceEndsBySweep(cfg, st', rest, id);
      } else {
        StaysAway(cfg, st', rest, id);
      }
    }
  }

  /** Each sweep comes at most 5 seconds after the one before, the first at most 5 seconds after `last`. */
  predicate Regular(steps: seq<Step>, last: int) {
    steps == []
    || (if steps[0].Sweep? then steps[0].now <= last + 5 && Regular(steps[1..], steps[0].now)
        else Regular(steps[1..], last))
  }

  /** With regular sweeps, the first sweep that is due comes less than 185 seconds after the node went into GRACE. */
  lemma {:induction false} DueInTime(steps: seq<Step>, last: int, since: int) returns (k: nat)
    requires Regular(steps, last) && last < since + GRACE_SECONDS
    requires exists i :: 0 <= i < |steps| && Due(steps[i], since)
    ensures k < |steps| && Due(steps[k], since) && steps[k].now < since + GRACE_SECONDS + 5
    ensures forall i :: 0 <= i < k ==> !Due(steps[i], since)
    decreases |steps|
  {
    var i :| 0 <= i < |steps| && Due(steps[i], since);
    if Due(steps[0], since) { return 0; }
    assert steps[1..][i - 1] == steps[i];
    k := DueInTime(steps[1..], if steps[0].Sweep? then steps[0].now else last, since);
    k := k + 1;
  }

  /** So an untouched GRACE node is gone less than 185 seconds after it went into GRACE, and not before 180. */
  lemma GoneInTime(cfg: Config, st: State, steps: seq<Step>, id: string) returns (k: nat)
    requires OkNodes(cfg, st.nodes) && id in st.nodes && st.nodes[id].status == GRACE
    requires Plays(cfg, st, steps) && Untouched(cfg, st, steps, id) && Regular(steps, st.nodes[id].activeAt)
    requires exists i :: 0 <= i < |steps| && Due(steps[i], st.nodes[id].activeAt)
    ensures k < |steps| && steps[k].Sweep? && 180 <= steps[k].now - st.nodes[id].activeAt < 185
    ensures Plays(cfg, st, steps[..k]) && Plays(cfg, st, steps[..k + 1])
    ensures id in Played(cfg, st, steps[..k]).nodes && id !in Played(cfg, st, steps[..k + 1]).nodes
  {
    hide Regular, Take, OkNodes, Enumerates;
    var since := st.nodes[id].activeAt;
    k := DueInTime(steps, since, since);
    PrefixPlays(cfg, st, steps, id, k);
    PrefixPlays(cfg, st, steps, id, k + 1);
    GraceEndsBySweep(cfg, st, steps[..k], id);
    GraceEndsBySweep(cfg, st, steps[..k + 1], id);
    assert steps[..k + 1][k] == steps[k];
  }

  lemma {:induction false} PrefixPlays(cfg: Config, st: State, steps: seq<Step>, id: string, k: nat)
    requires Plays(cfg, st, steps) && Untouched(cfg, st, steps, id) && k <= |steps|
    ensures Plays(cfg, st, steps[..k]) && Untouched(cfg, st, steps[..k], id)
    decreases k
  {
    if k > 0 {
      hide Take, Target, Enumerates;
      PrefixPlays(cfg, Take(cfg, st, steps[0]), steps[1..], id, k - 1);
      assert steps[..k][1..] == steps[1..][..k - 1];
    }
  }
}
