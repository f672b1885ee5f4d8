/**
  What the replica holds of the nodes' extra data (sdk/nodejs/index.js:173-182; src/core/registry.cpp:198-218).

  A GRACE event changes only the status, so what is written while a node is in GRACE reaches the
  replica with the node's next OK event, or with the snapshot.
 */
module ExtraData {
  import opened Wrappers
  import opened RegistryQueries
  import opened RegistryState
  import opened RegistryRuns
  import opened Replica
  import opened Convergence

  /** The state whose extra data the replica holds for an id: after its last OK event, or the snapshot's. */
  ghost function SyncPoint(cfg: Config, ops: seq<Op>, j: nat, k: nat, m: nat, id: string): (p: nat)
    requires m <= |ops|
    ensures p == k || j < p <= m
  {
    if m <= j then k
    else if EventAt(cfg, ops, m - 1).Some? && EventAt(cfg, ops, m - 1).value.id == id
            && EventAt(cfg, ops, m - 1).value.status == OK then m
    else SyncPoint(cfg, ops, j, k, m - 1, id)
  }

  /** How one event changes the extra data that the replica holds. */
  lemma ExtraAfter(dates: bool, id: string, held: map<string, Node>, before: map<string, Node>, e: Option<Node>,
                   after: map<string, Node>)
    requires StepFor(id, before, e, after) && id in ApplyIfAny(dates, held, e)
    ensures var held' := ApplyIfAny(dates, held, e);
            if Decisive(id, e) then e.value.status == OK && id in after && held'[id].extra == after[id].extra
            else id in held && held'[id].extra == held[id].extra
  {}

  lemma {:induction false} ExtraIsOf(dates: bool, start: map<string, Node>, cfg: Config, ops: seq<Op>,
                                     j: nat, k: nat, m: nat, id: string, now: int)
    requires j <= m <= |ops| && k <= |ops| && Copies(start, At(cfg, ops, k), now)
    requires id in Held(dates, start, cfg, ops, j, m)
    ensures var nodes := At(cfg, ops, SyncPoint(cfg, ops, j, k, m, id));
            id in nodes && Held(dates, start, cfg, ops, j, m)[id].extra == nodes[id].extra
    decreases m
  {
    hide At, EventAt, StepFor, ApplyIfAny;
    if m == j {
      assert Held(dates, start, cfg, ops, j, m) == start;
    } else {
      hide Held, Copies;
      HeldStep(dates, start, cfg, ops, j, m - 1);
      StepAt(cfg, ops, m - 1, id);
      ExtraAfter(dates, id, Held(dates, start, cfg, ops, j, m - 1), At(cfg, ops, m - 1), EventAt(cfg, ops, m - 1),
                 At(cfg, ops, m));
      if !Decisive(id, EventAt(cfg, ops, m - 1)) {
        ExtraIsOf(dates, start, cfg, ops, j, k, m - 1, id, now);
      }
    }
  }

  /** The extra data in the replica is, exactly, that of the registry at the sync point. */
  lemma ExtraAsOfSyncPoint(dates: bool, cfg: Config, ops: seq<Op>, j: nat, k: nat, m: nat, order: seq<string>,
                           now: int, id: string)
    requires j <= k <= m <= |ops| && RolesVisible(ops)
    requires Enumerates(order, At(cfg, ops, k)) && |At(cfg, ops, k)| <= 1000
    requires id in At(cfg, ops, m)
    ensures var p := SyncPoint(cfg, ops, j, k, m, id);
            var local := Final(dates, cfg, ops, j, k, m, order, now);
            && id in local && id in At(cfg, ops, p)
            && local[id].extra == At(cfg, ops, p)[id].extra
  {
    hide At, Events, Snapshot, Enumerates, RolesVisible, Copies, Load, ApplyAll, SyncPoint;
    var start := Load(map[], Snapshot(At(cfg, ops, k), order, now));
    StartCopies(cfg, ops, k, order, now);
    AllDelivered(cfg, ops, j, m);
    Converges(dates, cfg, ops, j, k, m, order, now);
    ExtraIsOf(dates, start, cfg, ops, j, k, m, id, now);
  }

  /** Operation i writes extra data of a node in GRACE. */
  ghost predicate ExtraInGrace(cfg: Config, ops: seq<Op>, i: nat)
    requires i < |ops|
  {
    ops[i].UpdateExtra? && ops[i].id in At(cfg, ops, i) && At(cfg, ops, i)[ops[i].id].status == GRACE
    && EventAt(cfg, ops, i).Some?
  }

  /** Outside of that, a node's extra data changes only by an OK event. */
  lemma ExtraStays(cfg: Config, ops: seq<Op>, i: nat, id: string)
    requires i < |ops| && !(ExtraInGrace(cfg, ops, i) && ops[i].id == id) && id in At(cfg, ops, i + 1)
    requires !OkEvent(cfg, ops, i, id)
    ensures id in At(cfg, ops, i) && At(cfg, ops, i)[id].extra == At(cfg, ops, i + 1)[id].extra
  {
    hide Inv, WithExtras, ExtraSize, GeneratedId;
    var st, op := Run(cfg, ops[..i]), ops[i];
    assert ops[..i + 1][..i] == ops[..i];
    RunKeeps(cfg, ops[..i]);
    StepAt(cfg, ops, i, id);
    NodesAreOk(cfg, st);
    if op.Register? { RegisteredIsOk(cfg, st, op); }
    if id in st.nodes { assert NodeOk(cfg, id, st.nodes[id]); }
    if !op.Register? && op.id in st.nodes { assert NodeOk(cfg, op.id, st.nodes[op.id]); }
  }

  lemma NodesAreOk(cfg: Config, st: State)
    requires Inv(cfg, st)
    ensures forall id :: id in st.nodes ==> NodeOk(cfg, id, st.nodes[id])
  {}

  /** Operation i is announced as an OK event of this node. */
  ghost predicate OkEvent(cfg: Config, ops: seq<Op>, i: nat, id: string)
    requires i < |ops|
  {
    EventAt(cfg, ops, i).Some? && EventAt(cfg, ops, i).value.id == id && EventAt(cfg, ops, i).value.status == OK
  }

  lemma {:induction false} NoOkSince(cfg: Config, ops: seq<Op>, j: nat, k: nat, m: nat, id: string)
    requires j <= k && j <= m <= |ops|
    ensures forall i :: SyncPoint(cfg, ops, j, k, m, id) <= i < m ==> !OkEvent(cfg, ops, i, id)
    ensures SyncPoint(cfg, ops, j, k, m, id) == k ==> forall i :: k <= i < m ==> !OkEvent(cfg, ops, i, id)
    decreases m
  {
    hide EventAt;
    if j < m && !OkEvent(cfg, ops, m - 1, id) { NoOkSince(cfg, ops, j, k, m - 1, id); }
  }

  /** The last value that each worker of this node was given while the node was in GRACE, from S_p to S_m. */
  ghost function GraceWrites(cfg: Config, ops: seq<Op>, p: nat, m: nat, id: string): map<string, Json>
    requires m <= |ops|
  {
    if m <= p then map[]
    else
      var earlier := GraceWrites(cfg, ops, p, m - 1, id);
      if ExtraInGrace(cfg, ops, m - 1) && ops[m - 1].id == id then earlier[ops[m - 1].worker := ops[m - 1].value]
      else earlier
  }

  lemma WriteInGrace(cfg: Config, ops: seq<Op>, i: nat)
    requires i < |ops| && ExtraInGrace(cfg, ops, i)
    ensures var id := ops[i].id;
            && id in At(cfg, ops, i) && id in At(cfg, ops, i + 1)
            && At(cfg, ops, i + 1)[id].extra == At(cfg, ops, i)[id].extra[ops[i].worker := ops[i].value]
  {
    hide Inv, ExtraSize, Accepts;
    assert ops[..i + 1][..i] == ops[..i];
  }

  /** Since the last OK event of a node its extra data has changed by just these writes. */
  lemma {:induction false} ExtraSince(cfg: Config, ops: seq<Op>, p: nat, m: nat, id: string)
    requires p <= m <= |ops| && id in At(cfg, ops, m)
    requires forall i :: p <= i < m ==> !OkEvent(cfg, ops, i, id)
    ensures id in At(cfg, ops, p)
    ensures At(cfg, ops, m)[id].extra == At(cfg, ops, p)[id].extra + GraceWrites(cfg, ops, p, m, id)
    decreases m
  {
    hide At, EventAt, OkEvent;
    if p < m {
      if ExtraInGrace(cfg, ops, m - 1) && ops[m - 1].id == id {
        WriteInGrace(cfg, ops, m - 1);
      } else {
        ExtraStays(cfg, ops, m - 1, id);
      }
      ExtraSince(cfg, ops, p, m - 1, id);
    }
  }

  lemma OverwritesNothing(a: map<string, Json>, b: map<string, Json>)
    ensures a == a + b <==> forall w :: w in b ==> w in a && a[w] == b[w]
  {
    if a == a + b {
      forall w | w in b ensures w in a && a[w] == b[w] { assert w in a + b && (a + b)[w] == b[w]; }
    }
  }

  /**
    The replica has the registry's extra data of a node exactly if the writes that hit it in GRACE
    since its sync point come to what it held then.
   */
  lemma ExtraIff(dates: bool, cfg: Config, ops: seq<Op>, j: nat, k: nat, m: nat, order: seq<string>,
                 now: int, id: string)
    requires j <= k <= m <= |ops| && RolesVisible(ops)
    requires Enumerates(order, At(cfg, ops, k)) && |At(cfg, ops, k)| <= 1000
    requires id in At(cfg, ops, m)
    ensures var p := SyncPoint(cfg, ops, j, k, m, id);
            var local, writes := Final(dates, cfg, ops, j, k, m, order, now), GraceWrites(cfg, ops, p, m, id);
            && id in local && id in At(cfg, ops, p)
            && (local[id].extra == At(cfg, ops, m)[id].extra <==>
                forall w :: w in writes ==> w in At(cfg, ops, p)[id].extra && At(cfg, ops, p)[id].extra[w] == writes[w])
  {
    hide At, Enumerates, RolesVisible, SyncPoint, GraceWrites, Final, OkEvent;
    var p := SyncPoint(cfg, ops, j, k, m, id);
    ExtraAsOfSyncPoint(dates, cfg, ops, j, k, m, order, now, id);
    NoOkSince(cfg, ops, j, k, m, id);
    ExtraSince(cfg, ops, p, m, id);
    OverwritesNothing(At(cfg, ops, p)[id].extra, GraceWrites(cfg, ops, p, m, id));
  }

  /** In particular if there was no such write. */
  lemma ExtraConverges(dates: bool, cfg: Config, ops: seq<Op>, j: nat, k: nat, m: nat, order: seq<string>,
                       now: int, id: string)
    requires j <= k <= m <= |ops| && RolesVisible(ops)
    requires Enumerates(order, At(cfg, ops, k)) && |At(cfg, ops, k)| <= 1000
    requires id in At(cfg, ops, m)
    requires forall i :: SyncPoint(cfg, ops, j, k, m, id) <= i < m ==> !(ExtraInGrace(cfg, ops, i) && ops[i].id == id)
    ensures var local := Final(dates, cfg, ops, j, k, m, order, now);
            id in local && local[id].extra == At(cfg, ops, m)[id].extra
  {
    hide At, Enumerates, RolesVisible, SyncPoint, ExtraInGrace, Final, GraceWrites;
    ExtraIff(dates, cfg, ops, j, k, m, order, now, id);
    NoWrites(cfg, ops, SyncPoint(cfg, ops, j, k, m, id), m, id);
  }

  lemma {:induction false} NoWrites(cfg: Config, ops: seq<Op>, p: nat, m: nat, id: string)
    requires m <= |ops| && forall i :: p <= i < m ==> !(ExtraInGrace(cfg, ops, i) && ops[i].id == id)
    ensures GraceWrites(cfg, ops, p, m, id) == map[]
    decreases m
  {
    hide ExtraInGrace;
    if p < m { NoWrites(cfg, ops, p, m - 1, id); }
  }

  /** Extra data written while the node is in GRACE does not reach a replica that already has the node. */
  lemma StaleExtra(dates: bool, cfg: Config, now: int)
    requires cfg.maxExtra >= 1
    ensures var ops := [Register("r", ["w"], None, "", "x", map[], 0), MarkGrace("x", 1),
                        UpdateExtra("x", "w", Json("1"), 2)];
            && Enumerates(["x"], At(cfg, ops, 2))
            && "x" in At(cfg, ops, 3) && At(cfg, ops, 3)["x"].extra == map["w" := Json("1")]
            && var local := Final(dates, cfg, ops, 2, 2, 3, ["x"], now);
               "x" in local && local["x"].extra == map[]
  {
    var ops := [Register("r", ["w"], None, "", "x", map[], 0), MarkGrace("x", 1), UpdateExtra("x", "w", Json("1"), 2)];
    GraceThenWrite(cfg);
    assert Visible("r");
    var nodes := At(cfg, ops, 2);
    assert nodes.Keys == {"x"} && |nodes.Keys| == |nodes|;
    ExtraAsOfSyncPoint(dates, cfg, ops, 2, 2, 3, ["x"], now, "x");
    assert SyncPoint(cfg, ops, 2, 2, 2, "x") == 2;
  }

  lemma GraceThenWrite(cfg: Config)
    requires cfg.maxExtra >= 1
    ensures var ops := [Register("r", ["w"], None, "", "x", map[], 0), MarkGrace("x", 1),
                        UpdateExtra("x", "w", Json("1"), 2)];
            var n := Node("x", "r", ["w"], None, GRACE, 0, 1, Some(180), map[]);
            var m := n.(extra := map["w" := Json("1")], activeAt := 2);
            && At(cfg, ops, 2) == map["x" := n] && At(cfg, ops, 3) == map["x" := m] && EventAt(cfg, ops, 2) == Some(m)
  {
    hide WithExtras, BareNode, ExtraSize;
    var ops := [Register("r", ["w"], None, "", "x", map[], 0), MarkGrace("x", 1), UpdateExtra("x", "w", Json("1"), 2)];
    OneRegistered(cfg, "r", ["w"]);
    assert ops[..1] == [ops[0]] && ops[..2][..1] == ops[..1] && ops[..3] == ops && ops[..3][..2] == ops[..2];
    assert Run(cfg, ops[..2]) == Apply(cfg, Run(cfg, ops[..1]), ops[1]).st;
    assert Run(cfg, ops[..3]) == Apply(cfg, Run(cfg, ops[..2]), ops[2]).st;
  }
}
