/**
  Exactly when the replica is not the registry (sdk/nodejs/index.js:47-62, 149-186;
  src/core/registry.cpp:143-149).

  Convergence takes the events in the order of the mutations, a subscription that is in effect
  before the snapshot is made, and at most 1000 nodes.  Here each of these is dropped, and what
  becomes of one node is said exactly.
 */
module Divergence {
  import opened Wrappers
  import opened RegistryQueries
  import opened RegistryState
  import opened RegistryRuns
  import opened Replica
  import opened Convergence

  // ---------- what a delivery says about a node ----------

  /** The last OK or ERASED event of a node, and whether a GRACE event of it came after that. */
  datatype Said = Said(last: Option<Node>, graced: bool)

  function SaidOf(d: seq<Node>, id: string): (s: Said)
    ensures s.last.Some? ==> s.last.value.id == id && s.last.value.status != GRACE
  {
    if d == [] then Said(None, false)
    else
      var s, e := SaidOf(d[..|d| - 1], id), d[|d| - 1];
      if e.id != id then s
      else if e.status == GRACE then s.(graced := true)
      else Said(Some(e), false)
  }

  /** The node that this leaves in a replica that started from this map. */
  function Effect(id: string, start: map<string, Node>, s: Said): Option<Node> {
    match s.last
    case None =>
      if id !in start then None else Some(if s.graced then start[id].(status := GRACE) else start[id])
    case Some(e) =>
      if e.status == ERASED then None else Some(if s.graced then e.(status := GRACE) else e)
  }

  predicate Agree(a: Option<Node>, b: Option<Node>) {
    a.Some? == b.Some? && (a.Some? ==> Same(a.value, b.value))
  }

  function Lookup(held: map<string, Node>, id: string): Option<Node> {
    if id in held then Some(held[id]) else None
  }

  lemma EffectStep(dates: bool, id: string, start: map<string, Node>, held: map<string, Node>, s: Said, e: Node)
    requires Agree(Lookup(held, id), Effect(id, start, s))
    ensures Agree(Lookup(ApplyEvent(dates, held, e), id),
                  Effect(id, start,
                         if e.id != id then s
                         else if e.status == GRACE then s.(graced := true)
                         else Said(Some(e), false)))
  {}

  /** Whatever is delivered, in whatever order: this is what is left of a node. */
  lemma {:induction false} SaidIsLeft(dates: bool, id: string, start: map<string, Node>, d: seq<Node>)
    ensures Agree(Lookup(ApplyAll(dates, start, d), id), Effect(id, start, SaidOf(d, id)))
  {
    hide ApplyEvent, Effect, Agree;
    if d == [] {
      NothingSaid(id, start);
    } else {
      var earlier := d[..|d| - 1];
      SaidIsLeft(dates, id, start, earlier);
      EffectStep(dates, id, start, ApplyAll(dates, start, earlier), SaidOf(earlier, id), d[|d| - 1]);
    }
  }

  lemma NothingSaid(id: string, start: map<string, Node>)
    ensures Agree(Lookup(start, id), Effect(id, start, Said(None, false)))
  {}

  lemma AgreeCompares(id: string, held: map<string, Node>, other: map<string, Node>, nodes: map<string, Node>,
                      a: Option<Node>, b: Option<Node>)
    requires Agree(Lookup(held, id), a) && Agree(Lookup(other, id), b) && InStep(id, other, nodes)
    ensures InStep(id, held, nodes) <==> Agree(a, b)
  {}

  /** The map that the client loads. */
  ghost function Started(cfg: Config, ops: seq<Op>, k: nat, order: seq<string>, now: int): map<string, Node>
    requires k <= |ops| && Enumerates(order, At(cfg, ops, k))
  {
    Load(map[], Snapshot(At(cfg, ops, k), order, now))
  }

  /** Events lost, repeated or out of order: a node is in step exactly if what was said of it comes to the same. */
  lemma DeliveryIff(dates: bool, cfg: Config, ops: seq<Op>, j: nat, k: nat, m: nat, order: seq<string>, now: int,
                    d: seq<Node>, id: string)
    requires j <= k <= m <= |ops|
    requires Enumerates(order, At(cfg, ops, k)) && |At(cfg, ops, k)| <= 1000
    ensures var start := Started(cfg, ops, k, order, now);
            InStep(id, ApplyAll(dates, start, d), At(cfg, ops, m)) <==>
            Agree(Effect(id, start, SaidOf(d, id)), Effect(id, start, SaidOf(Events(cfg, ops, j, m), id)))
  {
    hide At, Events, Snapshot, Enumerates, Copies, Load, Effect, SaidOf, Agree, InStep;
    var start := Started(cfg, ops, k, order, now);
    StartCopies(cfg, ops, k, order, now);
    CopiesAt(start, At(cfg, ops, k), now, id);
    InStepAtSnapshot(dates, start, cfg, ops, j, k, id, now);
    StaysInStep(dates, start, cfg, ops, j, k, m, id);
    SaidIsLeft(dates, id, start, d);
    SaidIsLeft(dates, id, start, Events(cfg, ops, j, m));
    AgreeCompares(id, ApplyAll(dates, start, d), Held(dates, start, cfg, ops, j, m), At(cfg, ops, m),
                  Effect(id, start, SaidOf(d, id)), Effect(id, start, SaidOf(Events(cfg, ops, j, m), id)));
  }

  // ---------- another order ----------

  /** Both say nothing decisive, or both that the node is gone, or both the same node in the same status. */
  predicate SameWord(a: Said, b: Said) {
    || (a.last.None? && b.last.None?)
    || (a.last.Some? && b.last.Some? && a.last.value.status == b.last.value.status
        && (a.last.value.status == OK ==> SameButStatus(a.last.value, b.last.value) && a.graced == b.graced))
  }

  /** Nothing decisive is said exactly if the node only has GRACE events; and then it is graced if it has any. */
  lemma {:induction false} NothingDecisive(d: seq<Node>, id: string)
    ensures SaidOf(d, id).last.None? <==> forall e :: e in d && e.id == id ==> e.status == GRACE
    ensures SaidOf(d, id).last.None? ==> (SaidOf(d, id).graced <==> exists e :: e in d && e.id == id)
  {
    if d != [] {
      var earlier, last := d[..|d| - 1], d[|d| - 1];
      NothingDecisive(earlier, id);
      assert d == earlier + [last];
      assert forall e :: e in d <==> e in earlier || e == last;
    }
  }

  /** Of two orders of the same events, both say nothing decisive or neither does. */
  lemma SameEventsSaid(d: seq<Node>, e: seq<Node>, id: string)
    requires multiset(d) == multiset(e)
    ensures SaidOf(d, id).last.None? <==> SaidOf(e, id).last.None?
    ensures SaidOf(d, id).last.None? ==> SaidOf(d, id).graced == SaidOf(e, id).graced
  {
    hide SaidOf;
    NothingDecisive(d, id);
    NothingDecisive(e, id);
    assert forall x :: x in d <==> x in multiset(d);
    assert forall x :: x in e <==> x in multiset(e);
  }

  lemma WordIsEffect(id: string, start: map<string, Node>, a: Said, b: Said)
    requires a.last.None? <==> b.last.None?
    requires a.last.None? ==> a.graced == b.graced
    requires a.last.Some? ==> a.last.value.status != GRACE && b.last.value.status != GRACE
    ensures Agree(Effect(id, start, a), Effect(id, start, b)) <==> SameWord(a, b)
  {}

  /** In whatever order the same events are applied, a node is in step exactly if the last word on it is the same. */
  lemma OrderIff(dates: bool, cfg: Config, ops: seq<Op>, j: nat, k: nat, m: nat, order: seq<string>, now: int,
                 d: seq<Node>, id: string)
    requires j <= k <= m <= |ops| && RolesVisible(ops)
    requires Enumerates(order, At(cfg, ops, k)) && |At(cfg, ops, k)| <= 1000
    requires multiset(d) == multiset(Delivered(Events(cfg, ops, j, m)))
    ensures InStep(id, ApplyAll(dates, Started(cfg, ops, k, order, now), d), At(cfg, ops, m)) <==>
            SameWord(SaidOf(d, id), SaidOf(Events(cfg, ops, j, m), id))
  {
    hide At, Events, Enumerates, RolesVisible, Delivered, Started, Effect, SaidOf, Agree, InStep, SameWord, ApplyAll;
    AllDelivered(cfg, ops, j, m);
    DeliveryIff(dates, cfg, ops, j, k, m, order, now, d, id);
    SameEventsSaid(d, Events(cfg, ops, j, m), id);
    WordIsEffect(id, Started(cfg, ops, k, order, now), SaidOf(d, id), SaidOf(Events(cfg, ops, j, m), id));
  }

  /** All of the registry's nodes, and no others, equal in id, role, workers, endpoint and status. */
  predicate Converged(held: map<string, Node>, nodes: map<string, Node>) {
    held.Keys == nodes.Keys && forall id :: id in held ==> Same(held[id], nodes[id])
  }

  predicate SameWordOn(id: string, d: seq<Node>, e: seq<Node>) {
    SameWord(SaidOf(d, id), SaidOf(e, id))
  }

  /** About every node the last word is the same. */
  ghost predicate SameLastWords(d: seq<Node>, e: seq<Node>) {
    forall id :: SameWordOn(id, d, e)
  }

  lemma AllOrdersIff(dates: bool, cfg: Config, ops: seq<Op>, j: nat, k: nat, m: nat, order: seq<string>, now: int,
                     d: seq<Node>)
    requires j <= k <= m <= |ops| && RolesVisible(ops)
    requires Enumerates(order, At(cfg, ops, k)) && |At(cfg, ops, k)| <= 1000
    requires multiset(d) == multiset(Delivered(Events(cfg, ops, j, m)))
    ensures Converged(ApplyAll(dates, Started(cfg, ops, k, order, now), d), At(cfg, ops, m)) <==>
            SameLastWords(d, Events(cfg, ops, j, m))
  {
    hide At, Events, Delivered, Started, Enumerates, RolesVisible, ApplyAll, SaidOf, SameWord, InStep, Converged;
    var local, nodes := ApplyAll(dates, Started(cfg, ops, k, order, now), d), At(cfg, ops, m);
    InStepEverywhere(local, nodes);
    forall id ensures InStep(id, local, nodes) <==> SameWordOn(id, d, Events(cfg, ops, j, m)) {
      OrderIff(dates, cfg, ops, j, k, m, order, now, d, id);
    }
    if Converged(local, nodes) {
      forall id ensures SameWordOn(id, d, Events(cfg, ops, j, m)) { assert InStep(id, local, nodes); }
    }
  }

  /** The client as a whole, its events in any order: it converges exactly if the last words are the same. */
  lemma BootOrderIff(dates: bool, cfg: Config, ops: seq<Op>, j: nat, k: nat, m: nat, order: seq<string>, now: int,
                     before: seq<Node>, between: seq<Node>, after: seq<Node>, text: Node -> string)
    requires j <= k <= m <= |ops| && RolesVisible(ops)
    requires Enumerates(order, At(cfg, ops, k)) && |At(cfg, ops, k)| <= 1000
    requires multiset(before + between + after) == multiset(Delivered(Events(cfg, ops, j, m)))
    ensures var fetched := Fetch(Received(dates, FRESH, before, text), Some(Snapshot(At(cfg, ops, k), order, now)));
            var c := Received(dates, Reconcile(dates, Received(dates, fetched, between, text)), after, text);
            Converged(c.local, At(cfg, ops, m)) <==>
            SameLastWords(before + between + after, Events(cfg, ops, j, m))
  {
    hide At, Events, Delivered, Snapshot, Enumerates, RolesVisible, Load, ApplyAll, Received, Fetch, Reconcile,
         SameLastWords, Converged;
    BootIsReplay(dates, before, Snapshot(At(cfg, ops, k), order, now), between, after, text);
    AllOrdersIff(dates, cfg, ops, j, k, m, order, now, before + between + after);
  }

  lemma InStepEverywhere(held: map<string, Node>, nodes: map<string, Node>)
    ensures (forall id :: InStep(id, held, nodes)) <==> Converged(held, nodes)
  {
    hide Same;
    if forall id :: InStep(id, held, nodes) { AllInStep(held, nodes); }
  }

  /** The events of one node, in order. */
  function OfNode(d: seq<Node>, id: string): seq<Node> {
    if d == [] then []
    else OfNode(d[..|d| - 1], id) + (if d[|d| - 1].id == id then [d[|d| - 1]] else [])
  }

  lemma {:induction false} SaidOfNode(d: seq<Node>, id: string)
    ensures SaidOf(OfNode(d, id), id) == SaidOf(d, id)
  {
    if d != [] {
      SaidOfNode(d[..|d| - 1], id);
      var earlier, last := OfNode(d[..|d| - 1], id), d[|d| - 1];
      if last.id == id {
        assert (earlier + [last])[..|earlier|] == earlier;
      } else {
        assert earlier + [] == earlier;
      }
    }
  }

  /** So events of different nodes may overtake each other: the order of each node's own events is enough. */
  lemma PerNodeOrderSuffices(dates: bool, cfg: Config, ops: seq<Op>, j: nat, k: nat, m: nat, order: seq<string>,
                             now: int, d: seq<Node>)
    requires j <= k <= m <= |ops|
    requires Enumerates(order, At(cfg, ops, k)) && |At(cfg, ops, k)| <= 1000
    requires forall id :: OfNode(d, id) == OfNode(Events(cfg, ops, j, m), id)
    ensures var local := ApplyAll(dates, Started(cfg, ops, k, order, now), d);
            && local.Keys == At(cfg, ops, m).Keys
            && forall id :: id in local ==> Same(local[id], At(cfg, ops, m)[id])
  {
    hide At, Events, Enumerates, Started, Effect, SaidOf, InStep, OfNode, Same, ApplyAll;
    var local := ApplyAll(dates, Started(cfg, ops, k, order, now), d);
    forall id ensures InStep(id, local, At(cfg, ops, m)) {
      DeliveryIff(dates, cfg, ops, j, k, m, order, now, d, id);
      SaidOfNode(d, id);
      assert OfNode(d, id) == OfNode(Events(cfg, ops, j, m), id);
      SaidOfNode(Events(cfg, ops, j, m), id);
      AgreesWithItself(Effect(id, Started(cfg, ops, k, order, now), SaidOf(d, id)));
    }
    AllInStep(local, At(cfg, ops, m));
  }

  lemma AgreesWithItself(a: Option<Node>)
    ensures Agree(a, a)
  {}

  /** The order matters: a removal that overtakes its registration leaves a node that no longer exists. */
  lemma OvertakenRemoval(dates: bool, cfg: Config)
    ensures var ops := [Register("r", [], None, "", "x", map[], 0), Remove("x")];
            var events := Events(cfg, ops, 0, 2);
            && |events| == 2 && At(cfg, ops, 2) == map[]
            && ApplyAll(dates, map[], events) == map[]
            && "x" in ApplyAll(dates, map[], [events[1], events[0]])
  {
    hide At, EventAt;
    RegisteredThenRemoved(cfg);
    var ops := [Register("r", [], None, "", "x", map[], 0), Remove("x")];
    var first := Node("x", "r", [], None, OK, 0, 0, None, map[]);
    var second := first.(status := ERASED, expiresIn := Some(0));
    assert Events(cfg, ops, 0, 1) == [first];
    assert Events(cfg, ops, 0, 2) == [first, second];
    assert [first, second][..1] == [first] && [second, first][..1] == [second];
    assert ApplyAll(dates, map[], [first]) == map["x" := first];
  }

  lemma RegisteredThenRemoved(cfg: Config)
    ensures var ops := [Register("r", [], None, "", "x", map[], 0), Remove("x")];
            var n := Node("x", "r", [], None, OK, 0, 0, None, map[]);
            && EventAt(cfg, ops, 0) == Some(n)
            && EventAt(cfg, ops, 1) == Some(n.(status := ERASED, expiresIn := Some(0)))
            && At(cfg, ops, 1) == map["x" := n] && At(cfg, ops, 2) == map[]
  {
    hide WithExtras, BareNode, ExtraSize;
    var ops := [Register("r", [], None, "", "x", map[], 0), Remove("x")];
    OneRegistered(cfg, "r", []);
    assert ops[..0] == [] && ops[..1] == [ops[0]] && ops[..2] == ops && ops[..2][..1] == ops[..1];
    assert Run(cfg, ops[..2]) == Apply(cfg, Run(cfg, ops[..1]), ops[1]).st;
  }

  // ---------- a late subscription ----------

  /**
    If the subscription only took effect after the snapshot, k <= j, the events between them are
    lost.  A node is in step exactly if it has had an OK or ERASED event since S_j, or S_k and S_m
    agree about it, up to a status that a GRACE event since S_j has set.
   */
  lemma MissedEvents(dates: bool, cfg: Config, ops: seq<Op>, j: nat, k: nat, m: nat, order: seq<string>, now: int,
                     id: string)
    requires k <= j <= m <= |ops| && RolesVisible(ops)
    requires Enumerates(order, At(cfg, ops, k)) && |At(cfg, ops, k)| <= 1000
    ensures InStep(id, Final(dates, cfg, ops, j, k, m, order, now), At(cfg, ops, m)) <==>
            !OnlyGrace(cfg, ops, j, m, id)
            || GoodStart(id, At(cfg, ops, k), At(cfg, ops, m), EventSeen(cfg, ops, j, m, id))
  {
    hide At, Events, Delivered, Snapshot, Enumerates, RolesVisible, Copies, Load, OnlyGrace, EventSeen,
         GoodStart, InStep;
    var start := Started(cfg, ops, k, order, now);
    StartCopies(cfg, ops, k, order, now);
    CopiesAt(start, At(cfg, ops, k), now, id);
    AllDelivered(cfg, ops, j, m);
    assert Final(dates, cfg, ops, j, k, m, order, now) == Held(dates, start, cfg, ops, j, m);
    InStepIff(dates, start, cfg, ops, j, m, id);
    DatedStart(id, start, At(cfg, ops, k), At(cfg, ops, m), EventSeen(cfg, ops, j, m, id), now);
  }

  lemma DatedStart(id: string, start: map<string, Node>, loaded: map<string, Node>, nodes: map<string, Node>,
                   seen: bool, now: int)
    requires (id in start <==> id in loaded) && (id in start ==> start[id] == Dated(loaded[id], now))
    ensures GoodStart(id, start, nodes, seen) <==> GoodStart(id, loaded, nodes, seen)
  {}

  /** A node that was removed between the snapshot and the subscription stays in the replica. */
  lemma MissedRemoval(dates: bool, cfg: Config, now: int)
    ensures var ops := [Register("r", [], None, "", "x", map[], 0), Remove("x")];
            && Enumerates(["x"], At(cfg, ops, 1)) && At(cfg, ops, 2) == map[]
            && "x" in Final(dates, cfg, ops, 2, 1, 2, ["x"], now)
  {
    hide At, Events, EventAt, Snapshot, Load, Copies, RolesVisible;
    RegisteredThenRemoved(cfg);
    var ops := [Register("r", [], None, "", "x", map[], 0), Remove("x")];
    var nodes := At(cfg, ops, 1);
    assert nodes.Keys == {"x"} && |nodes.Keys| == |nodes|;
    StartCopies(cfg, ops, 1, ["x"], now);
    CopiesAt(Started(cfg, ops, 1, ["x"], now), nodes, now, "x");
    NothingLeft(cfg, ops);
  }

  lemma NothingLeft(cfg: Config, ops: seq<Op>)
    ensures Delivered(Events(cfg, ops, |ops|, |ops|)) == []
  {}

  // ---------- a larger registry ----------

  /**
    Whatever the size of the registry, a node is in step exactly if it was among the first 1000 of
    the snapshot, or has had an OK or ERASED event since S_j, or is not in S_m.
   */
  lemma LargeRegistryIff(dates: bool, cfg: Config, ops: seq<Op>, j: nat, k: nat, m: nat, order: seq<string>, now: int,
                         id: string)
    requires j <= k <= m <= |ops| && RolesVisible(ops) && Enumerates(order, At(cfg, ops, k))
    ensures InStep(id, Final(dates, cfg, ops, j, k, m, order, now), At(cfg, ops, m)) <==>
            id in Loaded(order) || !OnlyGrace(cfg, ops, j, m, id) || id !in At(cfg, ops, m)
  {
    hide At, Events, Delivered, Snapshot, RolesVisible, Load, OnlyGrace, EventSeen, NodeOk, Loaded, InStep;
    var start := Started(cfg, ops, k, order, now);
    NodesOkAt(cfg, ops, k);
    SnapshotLoads(cfg, At(cfg, ops, k), order, now);
    AllDelivered(cfg, ops, j, m);
    assert Final(dates, cfg, ops, j, k, m, order, now) == Held(dates, start, cfg, ops, j, m);
    if id in Loaded(order) {
      LoadedAreNodes(order, At(cfg, ops, k), id);
      InStepAtSnapshot(dates, start, cfg, ops, j, k, id, now);
      StaysInStep(dates, start, cfg, ops, j, k, m, id);
    } else {
      InStepIff(dates, start, cfg, ops, j, m, id);
    }
  }

  lemma LoadedAreNodes(order: seq<string>, nodes: map<string, Node>, id: string)
    requires Enumerates(order, nodes) && id in Loaded(order)
    ensures id in nodes
  {}

  /** Without any event, the snapshot alone gives all the nodes exactly when there are at most 1000. */
  lemma QuietIff(dates: bool, cfg: Config, ops: seq<Op>, k: nat, order: seq<string>, now: int)
    requires k <= |ops| && Enumerates(order, At(cfg, ops, k))
    ensures Final(dates, cfg, ops, k, k, k, order, now).Keys == At(cfg, ops, k).Keys <==> |At(cfg, ops, k)| <= 1000
  {
    hide At, NodeOk, Enumerates, Copies, Snapshot;
    var nodes := At(cfg, ops, k);
    NodesOkAt(cfg, ops, k);
    SnapshotLoads(cfg, nodes, order, now);
    hide CopiesOf, Loaded;
    if |nodes| <= 1000 {
      StartCopies(cfg, ops, k, order, now);
      CopiesHaveKeys(Load(map[], Snapshot(nodes, order, now)), nodes, now);
    }
    LoadIsSmall(Snapshot(nodes, order, now));
    var local := Final(dates, cfg, ops, k, k, k, order, now);
    assert |local.Keys| == |local| && |nodes.Keys| == |nodes|;
  }

  lemma NodesOkAt(cfg: Config, ops: seq<Op>, k: nat)
    requires k <= |ops|
    ensures forall id :: id in At(cfg, ops, k) ==> NodeOk(cfg, id, At(cfg, ops, k)[id])
  {
    hide NodeOk;
    RunKeeps(cfg, ops[..k]);
  }

  lemma CopiesHaveKeys(held: map<string, Node>, nodes: map<string, Node>, now: int)
    requires Copies(held, nodes, now)
    ensures held.Keys == nodes.Keys
  {}

  lemma {:induction false} LoadIsSmall(snapshot: seq<Node>)
    ensures |Load(map[], snapshot)| <= |snapshot|
  {
    if snapshot != [] {
      var n := snapshot[|snapshot| - 1];
      var m := Load(map[], snapshot[..|snapshot| - 1]);
      LoadIsSmall(snapshot[..|snapshot| - 1]);
      assert m[n.id := n].Keys == m.Keys + {n.id};
      assert |m| == |m.Keys| && |m[n.id := n]| == |m[n.id := n].Keys|;
    }
  }
}
