/**
  What the read-only operations of the registry answer, and how resolve_node picks a node
  (src/core/registry.cpp:246-362).  A size_t wraps at 2^64, and the arithmetic on page
  numbers says so.
 */
module RegistryQueries {
  import opened Bytes
  import opened Wrappers
  import opened MapSum
  import opened RegistryState

  // ---------- remaining time ----------

  function Remaining(n: Node, now: int): int {
    if GRACE_SECONDS - (now - n.activeAt) > 0 then GRACE_SECONDS - (now - n.activeAt) else 0
  }

  /** The copy of a node that query_registry hands out. */
  function Dated(n: Node, now: int): Node {
    if n.status == GRACE then n.(expiresIn := Some(Remaining(n, now))) else n
  }

  /** The copy that get_node hands out. */
  function DatedIfSet(n: Node, now: int): Node {
    if n.expiresIn.Some? then Dated(n, now) else n
  }

  // ---------- pages ----------

  predicate Matching(n: Node, role: string, worker: string) {
    n.status != ERASED && (role == "" || n.role == role) && (worker == "" || worker in n.workers)
  }

  function Matched(nodes: map<string, Node>, order: seq<string>, role: string, worker: string, now: int): seq<Node>
    requires forall i :: 0 <= i < |order| ==> order[i] in nodes
  {
    if order == [] then []
    else
      var n := nodes[order[|order| - 1]];
      Matched(nodes, order[..|order| - 1], role, worker, now)
      + (if Matching(n, role, worker) then [Dated(n, now)] else [])
  }

  /** The ids of the listed nodes that the query asks for; an empty filter asks for every role or worker. */
  function MatchingIds(nodes: map<string, Node>, order: seq<string>, role: string, worker: string): set<string>
    requires forall i :: 0 <= i < |order| ==> order[i] in nodes
  {
    set id | id in order && Matching(nodes[id], role, worker)
  }

  /** As many entries as there are nodes, not erased, with the role and the worker that are asked for... */
  lemma MatchedCount(nodes: map<string, Node>, order: seq<string>, role: string, worker: string, now: int)
    requires Enumerates(order, nodes)
    ensures |Matched(nodes, order, role, worker, now)| ==
            |set id | id in nodes
                      && nodes[id].status != ERASED
                      && (role == "" || nodes[id].role == role)
                      && (worker == "" || worker in nodes[id].workers)|
  {
    MatchedIds(nodes, order, role, worker, now);
    assert MatchingIds(nodes, order, role, worker) == set id | id in nodes && Matching(nodes[id], role, worker);
    assert (set id | id in nodes && Matching(nodes[id], role, worker)) ==
           (set id | id in nodes
                     && nodes[id].status != ERASED
                     && (role == "" || nodes[id].role == role)
                     && (worker == "" || worker in nodes[id].workers));
  }

  lemma {:induction false} MatchedIds(nodes: map<string, Node>, order: seq<string>, role: string, worker: string,
                                      now: int)
    requires forall i :: 0 <= i < |order| ==> order[i] in nodes
    requires forall i, j :: 0 <= i < j < |order| ==> order[i] != order[j]
    ensures |Matched(nodes, order, role, worker, now)| == |MatchingIds(nodes, order, role, worker)|
  {
    if order != [] {
      hide Matching, Dated, MatchingIds;
      var earlier, last := order[..|order| - 1], order[|order| - 1];
      assert last !in earlier;
      MatchedIds(nodes, earlier, role, worker, now);
      OneMoreMatching(nodes, earlier, last, role, worker);
      assert order == earlier + [last];
    }
  }

  lemma OneMoreMatching(nodes: map<string, Node>, order: seq<string>, id: string, role: string, worker: string)
    requires id in nodes && id !in order && forall i :: 0 <= i < |order| ==> order[i] in nodes
    ensures |MatchingIds(nodes, order + [id], role, worker)|
         == |MatchingIds(nodes, order, role, worker)| + (if Matching(nodes[id], role, worker) then 1 else 0)
  {
    hide Matching;
    assert MatchingIds(nodes, order + [id], role, worker)
        == MatchingIds(nodes, order, role, worker) + (if Matching(nodes[id], role, worker) then {id} else {});
  }

  /** ... and they are the dated copies of just those nodes. */
  lemma MatchedExactly(nodes: map<string, Node>, order: seq<string>, role: string, worker: string, now: int)
    requires Enumerates(order, nodes)
    ensures forall n :: n in Matched(nodes, order, role, worker, now) <==>
              exists id :: id in nodes
                           && nodes[id].status != ERASED
                           && (role == "" || nodes[id].role == role)
                           && (worker == "" || worker in nodes[id].workers)
                           && n == Dated(nodes[id], now)
  {
    hide Dated, Matched;
    MatchedAre(nodes, order, role, worker, now);
  }

  lemma {:induction false} MatchedAre(nodes: map<string, Node>, order: seq<string>, role: string, worker: string,
                                      now: int)
    requires forall i :: 0 <= i < |order| ==> order[i] in nodes
    ensures forall n :: n in Matched(nodes, order, role, worker, now) <==>
              exists id :: id in order && Matching(nodes[id], role, worker) && n == Dated(nodes[id], now)
  {
    if order != [] {
      hide Matching, Dated;
      var earlier, last := order[..|order| - 1], order[|order| - 1];
      MatchedAre(nodes, earlier, role, worker, now);
      assert order == earlier + [last];
    }
  }

  function Min(a: int, b: int): int {
    if a < b then a else b
  }

  function StartIndex(page: nat, count: nat): nat {
    ((if page < 1 then 0 else page - 1) * count) % TWO_64
  }

  /** One page of a list; None where the end of the slice would lie before its start. */
  function Page<T>(all: seq<T>, page: nat, count: nat): Option<seq<T>> {
    var start := StartIndex(page, count);
    if start >= |all| then Some([])
    else
      var end := Min((start + count) % TWO_64, |all|);
      if end < start then None else Some(all[start..end])
  }

  /** The elements that page `page` should hold, without any wrap-around. */
  function TruePage<T>(all: seq<T>, page: nat, count: nat): seq<T> {
    var before := (if page < 1 then 0 else page - 1) * count;
    all[Min(before, |all|)..Min(before + count, |all|)]
  }

  /** A page is right exactly when its start wraps past the end, or its end does not wrap. */
  lemma PageIsRight<T>(all: seq<T>, page: nat, count: nat)
    requires |all| < TWO_64 && page < TWO_64 && count < TWO_64
    ensures Page(all, page, count) == Some(TruePage(all, page, count)) <==>
            StartIndex(page, count) >= |all| || (if page < 1 then 0 else page - 1) * count + count < TWO_64
  {
    var before := (if page < 1 then 0 else page - 1) * count;
    var start := StartIndex(page, count);
    BelowWrap(before);
    if before + count < TWO_64 {
      assert start == before;
      BelowWrap(before + count);
    } else if start < |all| {
      assert count > 0;
      if before >= TWO_64 {
        assert TruePage(all, page, count) == [];
      } else {
        WrapOnce(before + count);
      }
    }
  }

  lemma BelowWrap(x: nat)
    ensures x % TWO_64 <= x
    ensures x < TWO_64 ==> x % TWO_64 == x
  {}

  lemma WrapOnce(x: nat)
    requires TWO_64 <= x < 2 * TWO_64
    ensures x % TWO_64 == x - TWO_64
  {}

  /** The pages 1..p, one after the other. */
  function Pages<T>(all: seq<T>, p: nat, count: nat): Option<seq<T>> {
    if p == 0 then Some([])
    else
      var before :- Pages(all, p - 1, count);
      var page :- Page(all, p, count);
      Some(before + page)
  }

  /** Nothing is lost and nothing is repeated: the first p pages are the first p * count elements. */
  lemma {:induction false} PagesPartition<T>(all: seq<T>, p: nat, count: nat)
    requires |all| < TWO_64 && p * count < TWO_64 && p < TWO_64 && count < TWO_64
    ensures Pages(all, p, count) == Some(all[..Min(p * count, |all|)])
  {
    hide Page, TruePage, StartIndex, Min;
    if p == 0 {
      MinOfZero(all);
    } else {
      OneMorePage(p, count);
      PagesPartition(all, p - 1, count);
      PageIsRight(all, p, count);
      TruePageFollows(all, p, count);
    }
  }

  lemma MinOfZero<T>(all: seq<T>)
    ensures all[..Min(0, |all|)] == []
  {}

  lemma OneMorePage(p: nat, count: nat)
    requires p > 0
    ensures (p - 1) * count + count == p * count
  {}

  lemma TruePageFollows<T>(all: seq<T>, p: nat, count: nat)
    requires p > 0
    ensures all[..Min((p - 1) * count, |all|)] + TruePage(all, p, count) == all[..Min(p * count, |all|)]
  {
    OneMorePage(p, count);
  }

  function Ids(nodes: seq<Node>): seq<string> {
    seq(|nodes|, i requires 0 <= i < |nodes| => nodes[i].id)
  }

  /** The ids on the pages 1, 2, ... when they are queried at these times. */
  function QueriedIds(nodes: map<string, Node>, order: seq<string>, role: string, worker: string,
                      times: seq<int>, count: nat): Option<seq<string>>
    requires forall i :: 0 <= i < |order| ==> order[i] in nodes
  {
    if times == [] then Some([])
    else
      var before :- QueriedIds(nodes, order, role, worker, times[..|times| - 1], count);
      var page :- Page(Matched(nodes, order, role, worker, times[|times| - 1]), |times|, count);
      Some(before + Ids(page))
  }

  /** The ids of the matches do not depend on the time. */
  lemma {:induction false} IdsTimeless(nodes: map<string, Node>, order: seq<string>, role: string, worker: string,
                                       now: int, later: int)
    requires forall i :: 0 <= i < |order| ==> order[i] in nodes
    ensures Ids(Matched(nodes, order, role, worker, now)) == Ids(Matched(nodes, order, role, worker, later))
  {
    if order != [] {
      hide Matching;
      IdsTimeless(nodes, order[..|order| - 1], role, worker, now, later);
      var n := nodes[order[|order| - 1]];
      IdsAppend(Matched(nodes, order[..|order| - 1], role, worker, now), Dated(n, now));
      IdsAppend(Matched(nodes, order[..|order| - 1], role, worker, later), Dated(n, later));
    }
  }

  lemma IdsAppend(nodes: seq<Node>, n: Node)
    ensures Ids(nodes + [n]) == Ids(nodes) + [n.id] && nodes + [] == nodes
  {}

  lemma PageOfIds(all: seq<Node>, page: nat, count: nat)
    ensures Page(Ids(all), page, count) ==
            if Page(all, page, count).None? then None else Some(Ids(Page(all, page, count).value))
  {
    hide StartIndex;
    var start := StartIndex(page, count);
    var end := Min((start + count) % TWO_64, |all|);
    assert |Ids(all)| == |all| && Ids([]) == [];
    if start <= end <= |all| { assert Ids(all)[start..end] == Ids(all[start..end]); }
  }

  /** Queried page by page, at whatever times, the first p pages name the first p * count matches. */
  lemma {:induction false} QueriesPartition(nodes: map<string, Node>, order: seq<string>, role: string, worker: string,
                                            times: seq<int>, count: nat, now: int)
    requires forall i :: 0 <= i < |order| ==> order[i] in nodes
    requires |Matched(nodes, order, role, worker, now)| < TWO_64
    requires |times| * count < TWO_64 && |times| < TWO_64 && count < TWO_64
    ensures var all := Ids(Matched(nodes, order, role, worker, now));
            QueriedIds(nodes, order, role, worker, times, count) == Some(all[..Min(|times| * count, |all|)])
  {
    var all := Ids(Matched(nodes, order, role, worker, now));
    PagesPartition(all, |times|, count);
    QueriedPages(nodes, order, role, worker, times, count, now);
  }

  lemma {:induction false} QueriedPages(nodes: map<string, Node>, order: seq<string>, role: string, worker: string,
                                        times: seq<int>, count: nat, now: int)
    requires forall i :: 0 <= i < |order| ==> order[i] in nodes
    ensures QueriedIds(nodes, order, role, worker, times, count) ==
            Pages(Ids(Matched(nodes, order, role, worker, now)), |times|, count)
  {
    if times != [] {
      hide Matched, Page, Ids;
      var last := times[|times| - 1];
      QueriedPages(nodes, order, role, worker, times[..|times| - 1], count, now);
      IdsTimeless(nodes, order, role, worker, now, last);
      PageOfIds(Matched(nodes, order, role, worker, last), |times|, count);
    }
  }

  /** Page 0 is page 1. */
  lemma PageZeroIsPageOne<T>(all: seq<T>, count: nat)
    ensures Page(all, 0, count) == Page(all, 1, count)
  {}

  /** A page number far beyond the end can wrap around to the first page. */
  lemma FarPageRepeats<T>(all: seq<T>)
    requires 2 <= |all| < TWO_64
    ensures Page(all, 0x8000_0000_0000_0001, 2) == Page(all, 1, 2) == Some(all[..2])
    ensures TruePage(all, 0x8000_0000_0000_0001, 2) == []
  {
    assert StartIndex(0x8000_0000_0000_0001, 2) == 0 && StartIndex(1, 2) == 0;
    BelowWrap(2);
    hide StartIndex;
  }

  // ---------- statistics ----------

  datatype Stats = Stats(total: nat, alive: nat, grace: nat, roles: map<string, nat>, workers: map<string, nat>)

  ghost function WithStatus(nodes: map<string, Node>, s: Status): set<string> {
    set id | id in nodes && nodes[id].status == s
  }

  ghost function WithRole(nodes: map<string, Node>, role: string): set<string> {
    set id | id in nodes && nodes[id].role == role
  }

  function Mentions(n: Node, worker: string): nat {
    multiset(n.workers)[worker]
  }

  /** How often a worker is listed over all the nodes. */
  ghost function Listed(nodes: map<string, Node>, worker: string): int {
    Sum(nodes, (n: Node) => Mentions(n, worker))
  }

  ghost predicate RolesOf(roles: map<string, nat>, nodes: map<string, Node>) {
    && (forall r :: r in roles <==> WithRole(nodes, r) != {})
    && (forall r :: r in roles ==> roles[r] == |WithRole(nodes, r)|)
  }

  ghost predicate WorkersOf(workers: map<string, nat>, nodes: map<string, Node>) {
    && (forall w :: w in workers <==> exists id :: id in nodes && w in nodes[id].workers)
    && (forall w :: w in workers ==> workers[w] == Listed(nodes, w))
  }

  /** What the statistics of a set of nodes are. */
  ghost predicate StatsOf(s: Stats, nodes: map<string, Node>) {
    && s.alive == |WithStatus(nodes, OK)|
    && s.grace == |WithStatus(nodes, GRACE)|
    && RolesOf(s.roles, nodes)
    && WorkersOf(s.workers, nodes)
  }

  lemma NoStats(total: nat)
    ensures StatsOf(Stats(total, 0, 0, map[], map[]), map[])
  {
    assert WithStatus(map[], OK) == {} && WithStatus(map[], GRACE) == {};
    forall r: string ensures WithRole(map[], r) == {} {}
  }

  /** A count raised by one. */
  function Bumped(counts: map<string, nat>, key: string): map<string, nat> {
    counts[key := (if key in counts then counts[key] else 0) + 1]
  }

  /** These counts, with every worker of the node counted once more. */
  ghost predicate Raised(r: map<string, nat>, counts: map<string, nat>, workers: seq<string>) {
    && (forall w :: w in r <==> w in counts || w in workers)
    && (forall w :: w in r ==> r[w] == (if w in counts then counts[w] else 0) + multiset(workers)[w])
  }

  /** Counting one more node. */
  lemma CountOne(s: Stats, nodes: map<string, Node>, id: string, n: Node, workers: map<string, nat>)
    requires StatsOf(s, nodes) && id !in nodes && Raised(workers, s.workers, n.workers)
    ensures StatsOf(Stats(s.total,
                          s.alive + (if n.status == OK then 1 else 0),
                          s.grace + (if n.status == GRACE then 1 else 0),
                          Bumped(s.roles, n.role), workers), nodes[id := n])
  {
    hide Raised, Bumped, WorkersOf, RolesOf;
    CountStatus(nodes, id, n, OK);
    CountStatus(nodes, id, n, GRACE);
    CountRole(s.roles, nodes, id, n);
    CountWorkers(s.workers, nodes, id, n, workers);
  }

  lemma CountRole(roles: map<string, nat>, nodes: map<string, Node>, id: string, n: Node)
    requires RolesOf(roles, nodes) && id !in nodes
    ensures RolesOf(Bumped(roles, n.role), nodes[id := n])
  {
    hide WithRole;
    var roles', nodes' := Bumped(roles, n.role), nodes[id := n];
    forall r ensures r in roles' <==> WithRole(nodes', r) != {} {
      OneMoreInRole(nodes, id, n, r);
    }
    forall r | r in roles' ensures roles'[r] == |WithRole(nodes', r)| {
      OneMoreInRole(nodes, id, n, r);
    }
  }

  lemma OneMoreInRole(nodes: map<string, Node>, id: string, n: Node, r: string)
    requires id !in nodes
    ensures r != n.role ==> WithRole(nodes[id := n], r) == WithRole(nodes, r)
    ensures r == n.role ==> WithRole(nodes[id := n], r) == WithRole(nodes, r) + {id} && id !in WithRole(nodes, r)
  {}

  lemma CountWorkers(counts: map<string, nat>, nodes: map<string, Node>, id: string, n: Node, r: map<string, nat>)
    requires WorkersOf(counts, nodes) && id !in nodes && Raised(r, counts, n.workers)
    ensures WorkersOf(r, nodes[id := n])
  {
    hide Sum;
    var nodes' := nodes[id := n];
    forall w | w in r ensures r[w] == Listed(nodes', w) {
      SumUpdate(nodes, (n: Node) => Mentions(n, w), id, n);
      if w !in counts { UnlistedIsZero(nodes, w); }
    }
    forall w ensures w in r <==> exists i :: i in nodes' && w in nodes'[i].workers {
      if w in counts {
        var i :| i in nodes && w in nodes[i].workers;
        assert i in nodes' && w in nodes'[i].workers;
      } else if w in n.workers {
        assert id in nodes' && w in nodes'[id].workers;
      }
    }
  }

  lemma CountStatus(nodes: map<string, Node>, id: string, n: Node, s: Status)
    requires id !in nodes
    ensures |WithStatus(nodes[id := n], s)| == |WithStatus(nodes, s)| + (if n.status == s then 1 else 0)
  {
    assert WithStatus(nodes[id := n], s) == WithStatus(nodes, s) + (if n.status == s then {id} else {});
  }

  lemma {:induction false} UnlistedIsZero(nodes: map<string, Node>, w: string)
    requires forall id :: id in nodes ==> w !in nodes[id].workers
    ensures Listed(nodes, w) == 0
    decreases |nodes|
  {
    if nodes != map[] {
      var k := Pick(nodes);
      SmallerWithout(nodes, k);
      UnlistedIsZero(nodes - {k}, w);
    }
  }

  // ---------- round robin ----------

  predicate Candidate(n: Node, role: string, worker: string) {
    n.status == OK && n.role == role && (worker == "" || worker in n.workers)
  }

  function Candidates(nodes: map<string, Node>, order: seq<string>, role: string, worker: string): seq<Node>
    requires forall i :: 0 <= i < |order| ==> order[i] in nodes
  {
    if order == [] then []
    else
      var n := nodes[order[|order| - 1]];
      Candidates(nodes, order[..|order| - 1], role, worker) + (if Candidate(n, role, worker) then [n] else [])
  }

  /** The candidates are exactly the OK nodes of the role that list the worker. */
  lemma {:induction false} CandidatesExactly(nodes: map<string, Node>, order: seq<string>, role: string, worker: string)
    requires forall i :: 0 <= i < |order| ==> order[i] in nodes
    ensures forall n :: n in Candidates(nodes, order, role, worker) <==>
              exists id :: id in order && n == nodes[id]
                           && n.status == OK && n.role == role && (worker == "" || worker in n.workers)
  {
    if order != [] {
      var earlier, last := order[..|order| - 1], order[|order| - 1];
      CandidatesExactly(nodes, earlier, role, worker);
      assert order == earlier + [last];
    }
  }

  function Key(role: string, worker: string): string {
    role + ":" + worker
  }

  function IndexOf(rr: map<string, nat>, key: string): nat {
    if key in rr then rr[key] else 0
  }

  /** One call: the index picked among n candidates, and the indices afterwards. */
  function Turn(rr: map<string, nat>, key: string, n: nat): (r: (nat, map<string, nat>))
    requires n > 0
    ensures r.0 < n
  {
    var idx := IndexOf(rr, key) % n;
    (idx, rr[key := (idx + 1) % n])
  }
}
