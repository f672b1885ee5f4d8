/**
  The state of the service registry and what each of its mutating operations does to it
  (src/core/registry.cpp).

  `State` is what the mutex protects, as a value, with one case of `Apply` for each locked
  region; the class in Registry does the same in place, with the source's loops.  Time is an
  argument of each operation.  The memory gauges of memory_tracker that the registry feeds are part of the
  state.  A JSON value is its dump.  The order in which an unordered_map is iterated is an
  argument, `order`, which lists every key once.
 */
module RegistryState {
  import opened Wrappers
  import opened MapSum
  import opened Decimals

  datatype Status = OK | GRACE | ERASED

  datatype Endpoint = Endpoint(addr: string, port: nat, scheme: string)

  datatype Json = Json(dump: string)

  datatype Node = Node(
    id: string, role: string, workers: seq<string>, endpoint: Option<Endpoint>, status: Status,
    addedAt: int, activeAt: int, expiresIn: Option<int>, extra: map<string, Json>)

  /** The cap on one worker's extra data, and sizeof(node_info). */
  datatype Config = Config(maxExtra: nat, nodeSize: nat)

  datatype State = State(nodes: map<string, Node>, registryBytes: int, extraBytes: int, idCounter: nat)

  const EMPTY: State := State(map[], 0, 0, 1)

  const GRACE_SECONDS: int := 180

  // ---------- sizes ----------

  function DumpSize(j: Json): int {
    |j.dump|
  }

  ghost function ExtraSize(n: Node): int {
    Sum(n.extra, DumpSize)
  }

  lemma NothingWeighsNothing(n: Node)
    requires n.extra == map[]
    ensures ExtraSize(n) == 0
  {}

  lemma SameExtra(n: Node, m: Node)
    requires n.extra == m.extra
    ensures ExtraSize(n) == ExtraSize(m)
  {}

  function MetaSize(cfg: Config, n: Node): int {
    cfg.nodeSize + |n.role| + |n.id|
  }

  // ---------- node ids ----------

  function GeneratedId(now: int, counter: nat): string {
    "node-" + DecimalInt(now) + "-" + Decimal(counter)
  }

  // ---------- operations ----------

  datatype Op =
    | Register(role: string, workers: seq<string>, ep: Option<Endpoint>, peerIp: string, existingId: string,
               extras: map<string, Json>, now: int)
    | MarkGrace(id: string, now: int)
    | Restore(id: string, now: int)
    | UpdateExtra(id: string, worker: string, value: Json, now: int)
    | Remove(id: string)

  /** The new state, and the event that observers are told, if the operation did anything. */
  datatype Outcome = Outcome(st: State, event: Option<Node>)

  predicate Accepts(cfg: Config, workers: seq<string>, worker: string, value: Json) {
    worker in workers && |value.dump| <= cfg.maxExtra
  }

  function FinalEndpoint(ep: Option<Endpoint>, peerIp: string): Option<Endpoint> {
    if ep.Some? && ep.value.addr == "" then Some(ep.value.(addr := peerIp)) else ep
  }

  /** Drops the extra data of workers that are no longer listed. */
  function Pruned(n: Node): (r: Node)
    ensures r == n.(extra := r.extra)
  {
    n.(extra := map w | w in n.extra && w in n.workers :: n.extra[w])
  }

  /** The extra data after the announced entries of these workers, refused ones left out. */
  function Merged(cfg: Config, n: Node, extras: map<string, Json>, seen: set<string>): map<string, Json> {
    n.extra + (map w | w in extras && w in seen && Accepts(cfg, n.workers, w, extras[w]) :: extras[w])
  }

  lemma MergeOne(cfg: Config, n: Node, extras: map<string, Json>, seen: set<string>, w: string)
    requires w in extras && w !in seen
    ensures Merged(cfg, n, extras, seen + {w}) ==
              if Accepts(cfg, n.workers, w, extras[w]) then Merged(cfg, n, extras, seen)[w := extras[w]]
              else Merged(cfg, n, extras, seen)
  {}

  lemma MergeNone(cfg: Config, n: Node, extras: map<string, Json>)
    ensures Merged(cfg, n, extras, {}) == n.extra
  {}

  function WithExtras(cfg: Config, n: Node, extras: map<string, Json>): (r: Node)
    ensures r == n.(extra := r.extra)
  {
    n.(extra := Merged(cfg, n, extras, extras.Keys))
  }

  function IdFor(st: State, op: Op): string
    requires op.Register?
  {
    if op.existingId == "" then GeneratedId(op.now, st.idCounter) else op.existingId
  }

  /** The registered node before the extras that came with the registration. */
  function BareNode(st: State, op: Op): Node
    requires op.Register?
  {
    var id, ep := IdFor(st, op), FinalEndpoint(op.ep, op.peerIp);
    if id in st.nodes then
      Pruned(st.nodes[id].(role := op.role, workers := op.workers, endpoint := ep, status := OK,
                           activeAt := op.now, expiresIn := None))
    else Node(id, op.role, op.workers, ep, OK, op.now, op.now, None, map[])
  }

  ghost function Apply(cfg: Config, st: State, op: Op): Outcome {
    match op
    case Register(_, _, _, _, existingId, extras, _) =>
      var id := IdFor(st, op);
      var n := WithExtras(cfg, BareNode(st, op), extras);
      var before := if id in st.nodes then ExtraSize(st.nodes[id]) else 0;
      Outcome(State(st.nodes[id := n],
                    if id in st.nodes then st.registryBytes else st.registryBytes + MetaSize(cfg, n),
                    st.extraBytes + ExtraSize(n) - before,
                    if existingId == "" then st.idCounter + 1 else st.idCounter),
              Some(n))
    case MarkGrace(id, now) =>
      if id !in st.nodes then Outcome(st, None)
      else Set(st, st.nodes[id].(status := GRACE, activeAt := now, expiresIn := Some(GRACE_SECONDS)))
    case Restore(id, now) =>
      if id !in st.nodes then Outcome(st, None)
      else Set(st, st.nodes[id].(status := OK, activeAt := now, expiresIn := None))
    case UpdateExtra(id, worker, value, now) =>
      if id !in st.nodes || !Accepts(cfg, st.nodes[id].workers, worker, value) then Outcome(st, None)
      else
        var n := st.nodes[id];
        var n' := n.(extra := n.extra[worker := value], activeAt := now);
        Outcome(st.(nodes := st.nodes[id := n'], extraBytes := st.extraBytes + ExtraSize(n') - ExtraSize(n)), Some(n'))
    case Remove(id) =>
      if id !in st.nodes then Outcome(st, None)
      else
        var n := st.nodes[id];
        Outcome(State(st.nodes - {id}, st.registryBytes - MetaSize(cfg, n), st.extraBytes - ExtraSize(n), st.idCounter),
                Some(n.(status := ERASED, expiresIn := Some(0))))
  }

  /** A registration that ends with this node. */
  lemma ApplyRegister(cfg: Config, st: State, op: Op, n: Node)
    requires op.Register? && n == WithExtras(cfg, BareNode(st, op), op.extras)
    ensures var id := IdFor(st, op);
            Apply(cfg, st, op) ==
              Outcome(State(st.nodes[id := n],
                            if id in st.nodes then st.registryBytes else st.registryBytes + MetaSize(cfg, n),
                            st.extraBytes + ExtraSize(n) - (if id in st.nodes then ExtraSize(st.nodes[id]) else 0),
                            if op.existingId == "" then st.idCounter + 1 else st.idCounter),
                      Some(n))
  {
    hide WithExtras, BareNode, IdFor, ExtraSize;
  }

  /** Replaces a node under the key it is stored by: its id, in every reachable state. */
  function Set(st: State, n: Node): Outcome {
    Outcome(st.(nodes := st.nodes[n.id := n]), Some(n))
  }

  // ---------- the sweep ----------

  predicate Expired(n: Node, now: int) {
    n.status == GRACE && now - n.activeAt >= GRACE_SECONDS
  }

  predicate Enumerates(order: seq<string>, nodes: map<string, Node>) {
    && (forall i, j :: 0 <= i < j < |order| ==> order[i] != order[j])
    && (forall i :: 0 <= i < |order| ==> order[i] in nodes)
    && (forall id :: id in nodes ==> id in order)
  }

  /** The ids that the first half of the sweep collects. */
  function Collected(nodes: map<string, Node>, order: seq<string>, now: int): seq<string>
    requires forall i :: 0 <= i < |order| ==> order[i] in nodes
  {
    if order == [] then []
    else
      var id := order[|order| - 1];
      Collected(nodes, order[..|order| - 1], now) + (if Expired(nodes[id], now) then [id] else [])
  }

  /** The second half: each id is removed under a lock of its own. */
  ghost function RemoveAll(cfg: Config, st: State, ids: seq<string>): (State, seq<Node>) {
    if ids == [] then (st, [])
    else
      var r := RemoveAll(cfg, st, ids[..|ids| - 1]);
      var o := Apply(cfg, r.0, Remove(ids[|ids| - 1]));
      (o.st, r.1 + (if o.event.Some? then [o.event.value] else []))
  }
}
