/** The registry itself (src/core/registry.cpp), proved against RegistryState and RegistryQueries. */
module Registry {
  import opened Bytes
  import opened Wrappers
  import opened MapSum
  import opened RegistryState
  import opened RegistryQueries

  /** The nodes with these keys. */
  function Restricted(nodes: map<string, Node>, ids: seq<string>): map<string, Node> {
    map id | id in nodes && id in ids :: nodes[id]
  }

  lemma RestrictedNone(nodes: map<string, Node>)
    ensures Restricted(nodes, []) == map[]
  {}

  lemma RestrictedMore(nodes: map<string, Node>, order: seq<string>, i: nat)
    requires Enumerates(order, nodes) && i < |order|
    ensures Restricted(nodes, order[..i + 1]) == Restricted(nodes, order[..i])[order[i] := nodes[order[i]]]
    ensures order[i] !in Restricted(nodes, order[..i])
  {
    assert order[..i + 1] == order[..i] + [order[i]];
  }

  lemma RestrictedAll(nodes: map<string, Node>, order: seq<string>)
    requires Enumerates(order, nodes)
    ensures Restricted(nodes, order[..|order|]) == nodes
  {
    assert order[..|order|] == order;
  }

  class Registry {
    const cfg: Config
    var nodes: map<string, Node>
    var registryBytes: int
    var extraBytes: int
    var idCounter: nat
    var rrIndices: map<string, nat>
    var emitted: seq<Node>    // what the observers have been told

    function S(): State
      reads this
    {
      State(nodes, registryBytes, extraBytes, idCounter)
    }

    /** Nodes are stored under their ids. */
    predicate Valid()
      reads this
    {
      forall id :: id in nodes ==> nodes[id].id == id
    }

    constructor (cfg: Config)
      ensures Valid() && S() == EMPTY && rrIndices == map[] && emitted == [] && this.cfg == cfg
    {
      this.cfg := cfg;
      nodes, registryBytes, extraBytes, idCounter, rrIndices, emitted := map[], 0, 0, 1, map[], [];
    }

    method TrySetExtra(node: Node, worker: string, value: Json) returns (ok: bool, n: Node)
      modifies this`extraBytes
      ensures ok == Accepts(cfg, node.workers, worker, value)
      ensures n == if ok then node.(extra := node.extra[worker := value]) else node
      ensures extraBytes == old(extraBytes) + ExtraSize(n) - ExtraSize(node)
    {
      if worker !in node.workers { return false, node; }
      var size := |value.dump|;
      if size > cfg.maxExtra { return false, node; }
      var oldSize := if worker in node.extra then |node.extra[worker].dump| else 0;
      SumUpdate(node.extra, DumpSize, worker, value);
      extraBytes := extraBytes + size - oldSize;
      return true, node.(extra := node.extra[worker := value]);
    }

    method PruneStaleExtra(node: Node) returns (n: Node)
      modifies this`extraBytes
      ensures n == Pruned(node)
      ensures extraBytes == old(extraBytes) + ExtraSize(n) - ExtraSize(node)
    {
      n := node;
      var left := node.extra.Keys;
      while left != {}
        invariant left <= node.extra.Keys
        invariant n == node.(extra := map w | w in node.extra && (w in node.workers || w in left) :: node.extra[w])
        invariant extraBytes == old(extraBytes) + ExtraSize(n) - ExtraSize(node)
        decreases left
      {
        var key :| key in left;
        left := left - {key};
        if key !in node.workers {
          SumWithout(n.extra, DumpSize, key);
          extraBytes := extraBytes - |n.extra[key].dump|;
          n := n.(extra := n.extra - {key});
        }
      }
    }

    method AnnounceExtras(node: Node, extras: map<string, Json>) returns (n: Node)
      modifies this`extraBytes
      ensures n == WithExtras(cfg, node, extras)
      ensures extraBytes == old(extraBytes) + ExtraSize(n) - ExtraSize(node)
    {
      hide Merged, Accepts, ExtraSize;
      n := node;
      ghost var seen := {};
      var left := extras.Keys;
      MergeNone(cfg, node, extras);
      while left != {}
        invariant left <= extras.Keys && seen == extras.Keys - left
        invariant n == node.(extra := Merged(cfg, node, extras, seen))
        invariant extraBytes == old(extraBytes) + ExtraSize(n) - ExtraSize(node)
        decreases left
      {
        var key :| key in left;
        MergeOne(cfg, node, extras, seen, key);
        var _, updated := TrySetExtra(n, key, extras[key]);
        n := updated;
        left := left - {key};
        seen := seen + {key};
      }
      assert seen == extras.Keys;
    }

    method GenerateNodeId(now: int) returns (id: string)
      modifies this`idCounter
      ensures id == GeneratedId(now, old(idCounter)) && idCounter == old(idCounter) + 1
    {
      id := GeneratedId(now, idCounter);
      idCounter := idCounter + 1;
    }

    method RegisterOrUpdateNode(role: string, workers: seq<string>, ep: Option<Endpoint>, peerIp: string,
                                existingId: string, extras: map<string, Json>, now: int) returns (node: Node)
      requires Valid()
      modifies this
      ensures Valid()
      ensures var o := Apply(cfg, old(S()), Register(role, workers, ep, peerIp, existingId, extras, now));
              S() == o.st && o.event == Some(node) && emitted == old(emitted) + [node]
    {
      hide Sum, Pruned, WithExtras, ExtraSize, GeneratedId;
      ghost var op := Register(role, workers, ep, peerIp, existingId, extras, now);
      var id := existingId;
      if id == "" {
        id := GenerateNodeId(now);
      }
      var finalEp := ep;
      if finalEp.Some? && finalEp.value.addr == "" {
        finalEp := Some(finalEp.value.(addr := peerIp));
      }

      if id in nodes {
        node := nodes[id].(role := role, workers := workers, endpoint := finalEp, status := OK,
                           activeAt := now, expiresIn := None);
        SameExtra(nodes[id], node);
        node := PruneStaleExtra(node);
      } else {
        node := Node(id, role, workers, finalEp, OK, now, now, None, map[]);
        registryBytes := registryBytes + cfg.nodeSize + |role| + |id|;
        NothingWeighsNothing(node);
      }
      assert node == BareNode(old(S()), op) && node.id == id && id == IdFor(old(S()), op);
      hide BareNode, IdFor, FinalEndpoint;
      node := AnnounceExtras(node, extras);
      ApplyRegister(cfg, old(S()), op, node);
      hide Apply;
      nodes := nodes[id := node];
      emitted := emitted + [node];
    }

    method MarkNodeGrace(id: string, now: int) returns (ok: bool)
      requires Valid()
      modifies this
      ensures Valid()
      ensures Told(Apply(cfg, old(S()), MarkGrace(id, now)), old(emitted), ok)
    {
      if id !in nodes { return false; }
      var node := nodes[id].(status := GRACE, activeAt := now, expiresIn := Some(GRACE_SECONDS));
      nodes := nodes[id := node];
      emitted := emitted + [node];
      return true;
    }

    method RestoreNodeActive(id: string, now: int) returns (ok: bool)
      requires Valid()
      modifies this
      ensures Valid()
      ensures Told(Apply(cfg, old(S()), Restore(id, now)), old(emitted), ok)
    {
      if id !in nodes { return false; }
      var node := nodes[id].(status := OK, activeAt := now, expiresIn := None);
      nodes := nodes[id := node];
      emitted := emitted + [node];
      return true;
    }

    method UpdateNodeExtra(id: string, worker: string, value: Json, now: int) returns (ok: bool)
      requires Valid()
      modifies this
      ensures Valid()
      ensures Told(Apply(cfg, old(S()), UpdateExtra(id, worker, value, now)), old(emitted), ok)
    {
      if id !in nodes { return false; }
      var node;
      ok, node := TrySetExtra(nodes[id], worker, value);
      if !ok { return false; }
      node := node.(activeAt := now);
      nodes := nodes[id := node];
      emitted := emitted + [node];
    }

    method RemoveNodePermanently(id: string) returns (ok: bool)
      requires Valid()
      modifies this
      ensures Valid()
      ensures Told(Apply(cfg, old(S()), Remove(id)), old(emitted), ok)
    {
      if id !in nodes { return false; }
      var erased := nodes[id].(status := ERASED, expiresIn := Some(0));
      ghost var before := nodes[id];
      nodes := nodes - {id};
      registryBytes := registryBytes - (cfg.nodeSize + |erased.role| + |erased.id|);
      var left := erased.extra;
      while left != map[]
        invariant extraBytes == old(extraBytes) - ExtraSize(before) + Sum(left, DumpSize)
        invariant left.Keys <= before.extra.Keys
        decreases left.Keys
        modifies this`extraBytes
      {
        var key :| key in left.Keys;
        SumWithout(left, DumpSize, key);
        extraBytes := extraBytes - |left[key].dump|;
        left := left - {key};
      }
      emitted := emitted + [erased];
      return true;
    }

    /** The state and the observers are as this outcome says. */
    ghost predicate Told(o: Outcome, told: seq<Node>, ok: bool)
      reads this
    {
      && S() == o.st
      && ok == o.event.Some?
      && emitted == if ok then told + [o.event.value] else told
    }

    method GetNode(id: string, now: int) returns (r: Option<Node>)
      ensures r == if id in nodes then Some(DatedIfSet(nodes[id], now)) else None
    {
      if id in nodes {
        var node := nodes[id];
        if node.status == GRACE && node.expiresIn.Some? {
          var elapsed := now - node.activeAt;
          var remaining := 180 - elapsed;
          node := node.(expiresIn := Some(if remaining > 0 then remaining else 0));
        }
        return Some(node);
      }
      return None;
    }

    method GetStats(order: seq<string>) returns (stats: Stats)
      requires Enumerates(order, nodes)
      ensures stats.total == |nodes| && StatsOf(stats, nodes)
    {
      hide StatsOf, Raised, Bumped, Restricted;
      RestrictedNone(nodes);
      stats := Stats(|nodes|, 0, 0, map[], map[]);
      NoStats(|nodes|);
      ghost var seen: map<string, Node> := map[];
      for i := 0 to |order|
        invariant seen == Restricted(nodes, order[..i])
        invariant stats.total == |nodes| && StatsOf(stats, seen)
      {
        ghost var before := stats;
        var id, node := order[i], nodes[order[i]];
        RestrictedMore(nodes, order, i);
        if node.status == OK {
          stats := stats.(alive := stats.alive + 1);
        } else if node.status == GRACE {
          stats := stats.(grace := stats.grace + 1);
        }
        stats := stats.(roles := Bumped(stats.roles, node.role));
        var workers := CountWorkers(stats.workers, node);
        stats := stats.(workers := workers);
        CountOne(before, seen, id, node, workers);
        seen := seen[id := node];
      }
      RestrictedAll(nodes, order);
    }

    /** The inner loop of the statistics. */
    static method CountWorkers(counts: map<string, nat>, node: Node) returns (r: map<string, nat>)
      ensures Raised(r, counts, node.workers)
    {
      r := counts;
      for i := 0 to |node.workers|
        invariant Raised(r, counts, node.workers[..i])
      {
        var w := node.workers[i];
        assert node.workers[..i + 1] == node.workers[..i] + [w];
        r := Bumped(r, w);
      }
      assert node.workers[..|node.workers|] == node.workers;
    }

    /** The search through a node's workers. */
    static method HasWorker(node: Node, worker: string) returns (found: bool)
      ensures found == (worker in node.workers)
    {
      for i := 0 to |node.workers|
        invariant worker !in node.workers[..i]
      {
        if node.workers[i] == worker { return true; }
      }
      return false;
    }

    method QueryRegistry(page: nat, count: nat, role: string, worker: string, order: seq<string>, now: int)
      returns (total: nat, paged: Option<seq<Node>>)
      requires Enumerates(order, nodes)
      requires page < TWO_64 && count < TWO_64
      ensures var all := Matched(nodes, order, role, worker, now); total == |all| && paged == Page(all, page, count)
    {
      var matched := FindMatching(role, worker, order, now);
      total := |matched|;
      var page := if page < 1 then 1 else page;
      var start := ((page - 1) * count) % TWO_64;
      if start >= total { return total, Some([]); }
      var end := Min((start + count) % TWO_64, total);
      if end < start { return total, None; }
      return total, Some(matched[start..end]);
    }

    /** The loop of query_registry. */
    method FindMatching(role: string, worker: string, order: seq<string>, now: int) returns (matched: seq<Node>)
      requires Enumerates(order, nodes)
      ensures matched == Matched(nodes, order, role, worker, now)
    {
      matched := [];
      for i := 0 to |order|
        invariant matched == Matched(nodes, order[..i], role, worker, now)
      {
        assert order[..i + 1][..i] == order[..i];
        var node := nodes[order[i]];
        if node.status == ERASED { continue; }
        if role != "" && node.role != role { continue; }
        if worker != "" {
          var found := HasWorker(node, worker);
          if !found { continue; }
        }
        if node.status == GRACE {
          var elapsed := now - node.activeAt;
          var remaining := 180 - elapsed;
          node := node.(expiresIn := Some(if remaining > 0 then remaining else 0));
        }
        matched := matched + [node];
      }
      assert order[..|order|] == order;
    }

    method ResolveNode(role: string, worker: string, order: seq<string>) returns (r: Option<Node>)
      requires Enumerates(order, nodes)
      modifies this`rrIndices
      ensures var all, key := Candidates(nodes, order, role, worker), Key(role, worker);
              if all == [] then r == None && rrIndices == old(rrIndices)
              else var turn := Turn(old(rrIndices), key, |all|); r == Some(all[turn.0]) && rrIndices == turn.1
    {
      hide Candidates;
      var candidates := FindCandidates(nodes, role, worker, order);
      if candidates == [] { return None; }
      var key := role + ":" + worker;
      var idx := (if key in rrIndices then rrIndices[key] else 0) % |candidates|;
      rrIndices := rrIndices[key := (idx + 1) % |candidates|];
      return Some(candidates[idx]);
    }

    /** The loop of resolve_node. */
    static method FindCandidates(nodes: map<string, Node>, role: string, worker: string, order: seq<string>)
      returns (candidates: seq<Node>)
      requires Enumerates(order, nodes)
      ensures candidates == Candidates(nodes, order, role, worker)
    {
      candidates := [];
      for i := 0 to |order|
        invariant candidates == Candidates(nodes, order[..i], role, worker)
      {
        assert order[..i + 1][..i] == order[..i];
        var node := nodes[order[i]];
        if node.status != OK { continue; }
        if node.role != role { continue; }
        if worker != "" {
          var found := HasWorker(node, worker);
          if !found { continue; }
        }
        candidates := candidates + [node];
      }
      assert order[..|order|] == order;
    }

    /** Collect, then remove one by one. No other operation comes between in this method. */
    method SweepExpiredNodes(order: seq<string>, now: int)
      requires Valid() && Enumerates(order, nodes)
      modifies this
      ensures Valid()
      ensures var r := RemoveAll(cfg, old(S()), Collected(old(nodes), order, now));
              S() == r.0 && emitted == old(emitted) + r.1
    {
      hide Apply, ExtraSize, Collected;
      var toRemove := CollectExpired(order, now);
      for i := 0 to |toRemove|
        invariant Valid()
        invariant var r := RemoveAll(cfg, old(S()), toRemove[..i]);
                  S() == r.0 && emitted == old(emitted) + r.1
      {
        assert toRemove[..i + 1][..i] == toRemove[..i];
        var _ := RemoveNodePermanently(toRemove[i]);
      }
      assert toRemove[..|toRemove|] == toRemove;
    }

    /** The half of the sweep that runs under the shared lock. */
    method CollectExpired(order: seq<string>, now: int) returns (toRemove: seq<string>)
      requires Enumerates(order, nodes)
      ensures toRemove == Collected(nodes, order, now)
    {
      toRemove := [];
      for i := 0 to |order|
        invariant toRemove == Collected(nodes, order[..i], now)
      {
        assert order[..i + 1][..i] == order[..i];
        if nodes[order[i]].status == GRACE {
          if now - nodes[order[i]].activeAt >= 180 {
            toRemove := toRemove + [order[i]];
          }
        }
      }
      assert order[..|order|] == order;
    }
  }
}
