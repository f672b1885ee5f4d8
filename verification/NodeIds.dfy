/**
  Generated node ids are never reused (src/core/registry.cpp:79-98).

  An id is "node-", the time, "-" and a counter; the last '-' separates the counter from the
  rest, and decimal printing is injective.  `AddsNodeIff` says when a registration with an
  empty id adds a node; SessionIds derives from the sessions that over MQTT it always does.
 */
module NodeIds {
  import opened Wrappers
  import opened Decimals
  import opened RegistryState
  import opened RegistryRuns

  /** Splitting at the last '-' is unambiguous. */
  lemma SplitAtLastDash(a: string, d: string, b: string, e: string)
    requires a + "-" + d == b + "-" + e && '-' !in d && '-' !in e
    ensures a == b && d == e
  {
    var s := a + "-" + d;
    assert s[|a|] == '-' && s[|b|] == '-';
    assert forall k :: |a| < k < |s| ==> s[k] == d[k - |a| - 1];
    assert forall k :: |b| < k < |s| ==> s[k] == e[k - |b| - 1];
    assert |a| == |b|;
    assert s[..|a|] == a && s[..|a|] == b;
    assert s[|a| + 1..] == d && s[|a| + 1..] == e;
  }

  /** Two generated ids are equal only if they come from the same second and the same counter. */
  lemma GeneratedIdInjective(now: int, counter: nat, now': int, counter': nat)
    requires GeneratedId(now, counter) == GeneratedId(now', counter')
    ensures now == now' && counter == counter'
  {
    hide Decimal, DecimalInt;
    DecimalDigits(counter);
    DecimalDigits(counter');
    var a, b := "node-" + DecimalInt(now), "node-" + DecimalInt(now');
    SplitAtLastDash(a, Decimal(counter), b, Decimal(counter'));
    DecimalInjective(counter, counter');
    assert DecimalInt(now) == a[5..] && DecimalInt(now') == b[5..];
    DecimalIntInjective(now, now');
  }

  // ---------- whole runs ----------

  /** The ids that the registrations of this run have returned. */
  ghost function Returned(cfg: Config, ops: seq<Op>): set<string> {
    if ops == [] then {}
    else
      var op, earlier := ops[|ops| - 1], ops[..|ops| - 1];
      Returned(cfg, earlier) + (if op.Register? then {IdFor(Run(cfg, earlier), op)} else {})
  }

  /** Every id that a registration supplies was returned earlier in the run. */
  ghost predicate Trusting(cfg: Config, ops: seq<Op>) {
    ops == []
    || var op, earlier := ops[|ops| - 1], ops[..|ops| - 1];
       Trusting(cfg, earlier)
       && (op.Register? && op.existingId != "" ==> op.existingId in Returned(cfg, earlier))
  }

  predicate FromCounterBelow(id: string, bound: nat, now: int, counter: nat) {
    counter < bound && id == GeneratedId(now, counter)
  }

  ghost predicate Generated(id: string, bound: nat) {
    exists now, counter :: FromCounterBelow(id, bound, now, counter)
  }

  lemma GeneratedLater(id: string, bound: nat, bound': nat)
    requires Generated(id, bound) && bound <= bound'
    ensures Generated(id, bound')
  {
    var now, counter :| FromCounterBelow(id, bound, now, counter);
    assert FromCounterBelow(id, bound', now, counter);
  }

  lemma {:induction false} ReturnedAreGenerated(cfg: Config, ops: seq<Op>)
    requires Trusting(cfg, ops)
    ensures forall id :: id in Returned(cfg, ops) ==> Generated(id, Run(cfg, ops).idCounter)
    ensures Run(cfg, ops).nodes.Keys <= Returned(cfg, ops)
  {
    hide Generated, GeneratedId, Apply, Inv, IdFor;
    if ops != [] {
      var op, earlier := ops[|ops| - 1], ops[..|ops| - 1];
      var st := Run(cfg, earlier);
      ReturnedAreGenerated(cfg, earlier);
      RunKeeps(cfg, earlier);
      KeysAndCounter(cfg, st, op);
      var bound := Run(cfg, ops).idCounter;
      forall id | id in Returned(cfg, ops) ensures Generated(id, bound) {
        if id in Returned(cfg, earlier) {
          GeneratedLater(id, st.idCounter, bound);
        } else {
          NewIdGenerated(op.now, st.idCounter);
        }
      }
    }
  }

  /** What an operation does to the set of ids and to the counter. */
  lemma KeysAndCounter(cfg: Config, st: State, op: Op)
    requires Inv(cfg, st)
    ensures var st' := Apply(cfg, st, op).st;
            && st'.nodes.Keys <= st.nodes.Keys + (if op.Register? then {IdFor(st, op)} else {})
            && st'.idCounter >= st.idCounter
            && (op.Register? && op.existingId == "" ==>
                  st'.idCounter == st.idCounter + 1 && IdFor(st, op) == GeneratedId(op.now, st.idCounter))
            && (op.Register? && op.existingId != "" ==> IdFor(st, op) == op.existingId)
  {
    hide GeneratedId, WithExtras, BareNode, ExtraSize;
    if !op.Register? && op.id in st.nodes { assert NodeOk(cfg, op.id, st.nodes[op.id]); }
  }

  lemma NewIdGenerated(now: int, counter: nat)
    ensures Generated(GeneratedId(now, counter), counter + 1)
  {
    assert FromCounterBelow(GeneratedId(now, counter), counter + 1, now, counter);
  }

  /** A registration with an empty id gets an id that was never returned, and adds a node. */
  lemma EmptyIdAddsNode(cfg: Config, ops: seq<Op>, op: Op)
    requires Trusting(cfg, ops) && op.Register? && op.existingId == ""
    ensures var st := Run(cfg, ops);
            && IdFor(st, op) !in Returned(cfg, ops)
            && IdFor(st, op) !in st.nodes
            && |Apply(cfg, st, op).st.nodes| == |st.nodes| + 1
  {
    hide GeneratedId, WithExtras, BareNode, ExtraSize;
    ReturnedAreGenerated(cfg, ops);
    var st := Run(cfg, ops);
    var id := IdFor(st, op);
    if id in Returned(cfg, ops) {
      var now, counter :| FromCounterBelow(id, st.idCounter, now, counter);
      GeneratedIdInjective(op.now, st.idCounter, now, counter);
      assert false;
    }
    var nodes' := Apply(cfg, st, op).st.nodes;
    assert nodes'.Keys == st.nodes.Keys + {id};
    assert |nodes'| == |nodes'.Keys| && |st.nodes| == |st.nodes.Keys|;
  }

  // ---------- exactly when ----------

  /** The ids that registrations of this run have supplied. */
  function Supplied(ops: seq<Op>): set<string> {
    set i | 0 <= i < |ops| && ops[i].Register? && ops[i].existingId != "" :: ops[i].existingId
  }

  lemma SuppliedStep(ops: seq<Op>)
    requires ops != []
    ensures var op := ops[|ops| - 1];
            Supplied(ops) == Supplied(ops[..|ops| - 1])
                             + (if op.Register? && op.existingId != "" then {op.existingId} else {})
  {
    var n := |ops| - 1;
    forall id | id in Supplied(ops)
      ensures id in Supplied(ops[..n]) || (ops[n].Register? && ops[n].existingId != "" && id == ops[n].existingId)
    {
      var i :| 0 <= i < |ops| && ops[i].Register? && ops[i].existingId != "" && ops[i].existingId == id;
      if i < n { assert ops[..n][i] == ops[i]; }
    }
    forall id | id in Supplied(ops[..n]) ensures id in Supplied(ops) {
      var i :| 0 <= i < n && ops[..n][i].Register? && ops[..n][i].existingId != "" && ops[..n][i].existingId == id;
      assert ops[i] == ops[..n][i];
    }
  }

  /** What one operation does to the keys. */
  lemma KeysAfter(cfg: Config, st: State, op: Op)
    requires Inv(cfg, st)
    ensures Apply(cfg, st, op).st.nodes.Keys <= st.nodes.Keys + (if op.Register? then {IdFor(st, op)} else {})
    ensures Apply(cfg, st, op).st.idCounter ==
            st.idCounter + (if op.Register? && op.existingId == "" then 1 else 0)
  {
    hide ExtraSize, WithExtras, BareNode, GeneratedId, Accepts, TotalExtra;
    if !op.Register? && op.id in st.nodes { assert NodeOk(cfg, op.id, st.nodes[op.id]); }
  }

  /** In every run, a stored id that nobody supplied was generated, from an earlier counter. */
  lemma {:induction false} UnsuppliedAreGenerated(cfg: Config, ops: seq<Op>, id: string)
    requires id in Run(cfg, ops).nodes && id !in Supplied(ops)
    ensures Generated(id, Run(cfg, ops).idCounter)
  {
    hide Generated, GeneratedId, Supplied, Apply, Inv;
    if ops != [] {
      var op, earlier := ops[|ops| - 1], ops[..|ops| - 1];
      var st := Run(cfg, earlier);
      RunKeeps(cfg, earlier);
      KeysAfter(cfg, st, op);
      SuppliedStep(ops);
      if id in st.nodes {
        UnsuppliedAreGenerated(cfg, earlier, id);
        GeneratedLater(id, st.idCounter, Run(cfg, ops).idCounter);
      } else {
        NewIdGenerated(op.now, st.idCounter);
      }
    }
  }

  lemma NotGeneratedBelow(now: int, counter: nat)
    ensures !Generated(GeneratedId(now, counter), counter)
  {
    hide GeneratedId;
    if Generated(GeneratedId(now, counter), counter) {
      var n, c :| FromCounterBelow(GeneratedId(now, counter), counter, n, c);
      GeneratedIdInjective(now, counter, n, c);
      assert false;
    }
  }

  /**
    A registration with an empty id adds a node, unless an earlier registration supplied exactly
    the id that is generated now and that node is still stored.
   */
  lemma AddsNodeIff(cfg: Config, ops: seq<Op>, op: Op)
    requires op.Register? && op.existingId == ""
    ensures var st := Run(cfg, ops);
            var id := GeneratedId(op.now, st.idCounter);
            && (|Apply(cfg, st, op).st.nodes| == |st.nodes| + 1 <==> !(id in Supplied(ops) && id in st.nodes))
            && (id in Supplied(ops) && id in st.nodes ==> Apply(cfg, st, op).st.nodes.Keys == st.nodes.Keys)
  {
    hide GeneratedId, Supplied, Generated, WithExtras, BareNode, ExtraSize, Run;
    var st := Run(cfg, ops);
    var id := GeneratedId(op.now, st.idCounter);
    NotGeneratedBelow(op.now, st.idCounter);
    if id in st.nodes && id !in Supplied(ops) { UnsuppliedAreGenerated(cfg, ops, id); }
    var nodes' := Apply(cfg, st, op).st.nodes;
    assert nodes'.Keys == st.nodes.Keys + {id};
    assert |nodes'| == |nodes'.Keys| && |st.nodes| == |st.nodes.Keys|;
  }

  /** It does happen: an id that was made up in a call of the registry is generated later. */
  lemma MadeUpIdCollides(cfg: Config)
    ensures var forged := Register("r", [], None, "", "node-7-1", map[], 0);
            var st := Apply(cfg, EMPTY, forged).st;
            var op := Register("q", [], None, "", "", map[], 7);
            Apply(cfg, st, op).st.nodes.Keys == st.nodes.Keys
  {
    assert Decimal(7) == "7" && Decimal(1) == "1";
    assert GeneratedId(7, 1) == "node-7-1";
  }
}
