/**
  Fairness of resolve_node (src/core/registry.cpp:331-362): runs of calls over nodes that do
  not change, any filters interleaved.  Each filter has one stored index, under the key
  role + ":" + worker.
 */
module RoundRobin {
  import opened Wrappers
  import opened RegistryQueries
  import opened RegistryState

  datatype Filter = Filter(role: string, worker: string)

  function KeyOf(f: Filter): string {
    Key(f.role, f.worker)
  }

  function For(nodes: map<string, Node>, order: seq<string>, f: Filter): seq<Node>
    requires Enumerates(order, nodes)
  {
    Candidates(nodes, order, f.role, f.worker)
  }

  /** The stored indices after these calls. */
  function Indices(nodes: map<string, Node>, order: seq<string>, rr: map<string, nat>, calls: seq<Filter>)
    : map<string, nat>
    requires Enumerates(order, nodes)
  {
    if calls == [] then rr
    else
      var f, before := calls[|calls| - 1], Indices(nodes, order, rr, calls[..|calls| - 1]);
      if For(nodes, order, f) == [] then before else Turn(before, KeyOf(f), |For(nodes, order, f)|).1
  }

  /** The answer to the last of these calls. */
  function LastAnswer(nodes: map<string, Node>, order: seq<string>, rr: map<string, nat>, calls: seq<Filter>)
    : Option<Node>
    requires Enumerates(order, nodes) && calls != []
  {
    var f, before := calls[|calls| - 1], Indices(nodes, order, rr, calls[..|calls| - 1]);
    var all := For(nodes, order, f);
    if all == [] then None else Some(all[Turn(before, KeyOf(f), |all|).0])
  }

  /** How many of the calls are with filter `f`. */
  function CallsOf(calls: seq<Filter>, f: Filter): nat {
    if calls == [] then 0
    else CallsOf(calls[..|calls| - 1], f) + (if calls[|calls| - 1] == f then 1 else 0)
  }

  /** How many of the calls with filter `f` are answered with `n`. */
  function AnswersOf(nodes: map<string, Node>, order: seq<string>, rr: map<string, nat>, calls: seq<Filter>,
                     f: Filter, n: Node): nat
    requires Enumerates(order, nodes)
  {
    if calls == [] then 0
    else
      AnswersOf(nodes, order, rr, calls[..|calls| - 1], f, n)
      + (if calls[|calls| - 1] == f && LastAnswer(nodes, order, rr, calls) == Some(n) then 1 else 0)
  }

  /** Without ':' in the roles, different filters have different keys. */
  lemma KeyInjective(f: Filter, g: Filter)
    requires ':' !in f.role && ':' !in g.role && KeyOf(f) == KeyOf(g)
    ensures f == g
  {
    var k := KeyOf(f);
    assert k == f.role + ":" + f.worker == g.role + ":" + g.worker;
    assert forall i :: 0 <= i < |f.role| ==> k[i] == f.role[i];
    assert forall i :: 0 <= i < |g.role| ==> k[i] == g.role[i];
    assert k[|f.role|] == ':' && k[|g.role|] == ':';
    assert |f.role| == |g.role|;
    assert k[..|f.role|] == f.role && k[..|f.role|] == g.role;
    assert k[|f.role| + 1..] == f.worker && k[|f.role| + 1..] == g.worker;
  }

  predicate StoredById(nodes: map<string, Node>) {
    forall id :: id in nodes ==> nodes[id].id == id
  }

  predicate Distinct(nodes: seq<Node>) {
    forall i, j :: 0 <= i < j < |nodes| ==> nodes[i] != nodes[j]
  }

  /** No node is a candidate twice. */
  lemma {:induction false} CandidatesDistinct(nodes: map<string, Node>, order: seq<string>, role: string,
                                              worker: string)
    requires forall i :: 0 <= i < |order| ==> order[i] in nodes
    requires forall i, j :: 0 <= i < j < |order| ==> order[i] != order[j]
    requires StoredById(nodes)
    ensures forall n :: n in Candidates(nodes, order, role, worker) ==> n.id in order
    ensures Distinct(Candidates(nodes, order, role, worker))
  {
    if order != [] {
      var earlier, last := order[..|order| - 1], order[|order| - 1];
      CandidatesDistinct(nodes, earlier, role, worker);
      var before, n := Candidates(nodes, earlier, role, worker), nodes[last];
      assert order == earlier + [last] && last !in earlier && n.id == last;
      assert Candidates(nodes, order, role, worker) == before + (if Candidate(n, role, worker) then [n] else []);
      DistinctAppend(before, n);
    }
  }

  lemma DistinctAppend(before: seq<Node>, n: Node)
    requires Distinct(before) && n !in before
    ensures Distinct(before + [n])
  {}

  // ---------- one index going round ----------

  /** The place `m` steps after `s`, of n. */
  function Ahead(s: nat, m: nat, n: nat): nat
    requires s < n && m < n
  {
    if s + m < n then s + m else s + m - n
  }

  lemma StartAhead(s: nat, n: nat)
    requires s < n
    ensures Ahead(s, 0, n) == s
  {}

  lemma StepAhead(s: nat, m: nat, n: nat)
    requires s < n && m < n
    ensures Ahead(s, if m + 1 == n then 0 else m + 1, n) == if Ahead(s, m, n) + 1 == n then 0 else Ahead(s, m, n) + 1
  {}

  lemma NextIndex(i: nat, n: nat)
    requires i < n
    ensures (i + 1) % n == (if i + 1 == n then 0 else i + 1)
    ensures (i + 1) % n % n == (i + 1) % n && i % n == i
  {
    if i + 1 == n { SelfMod(n); } else { SmallMod(i + 1, n); }
    SmallMod(i, n);
    SmallMod((i + 1) % n, n);
  }

  lemma OneMore(q: nat, m: nat, n: nat)
    ensures q * n + m + 1 == if m + 1 == n then (q + 1) * n + 0 else q * n + (m + 1)
  {}

  lemma SmallMod(i: nat, n: nat)
    requires i < n
    ensures i % n == i
  {}

  lemma SelfMod(n: nat)
    requires n > 0
    ensures n % n == 0
  {}

  lemma Division(q: nat, m: nat, n: nat)
    requires m < n
    ensures (q * n + m) / n == q && (q * n + m) % n == m
  {
    var x := q * n + m;
    var d := x / n - q;
    assert x == (x / n) * n + x % n;
    assert d * n == (x / n) * n - q * n;
    assert 0 - n < d * n < n;
    MultipleIsBig(d, n);
  }

  lemma MultipleIsBig(d: int, n: nat)
    ensures d >= 1 ==> d * n >= n
    ensures d <= -1 ==> d * n <= 0 - n
  {
    if d >= 1 { assert (d - 1) * n >= 0; } else if d <= -1 { assert (-d - 1) * n >= 0; }
  }

  /** The calls that move the index of `f` are calls with `f`: no other filter of its key has candidates. */
  ghost predicate KeyIsOwn(nodes: map<string, Node>, order: seq<string>, calls: seq<Filter>, f: Filter)
    requires Enumerates(order, nodes)
  {
    forall i :: 0 <= i < |calls| && KeyOf(calls[i]) == KeyOf(f) ==> calls[i] == f || For(nodes, order, calls[i]) == []
  }

  /** Each of the m places from s on has answered q + 1 times, the others q times. */
  ghost predicate Spread(nodes: map<string, Node>, order: seq<string>, rr: map<string, nat>, calls: seq<Filter>,
                         f: Filter, s: nat, q: nat, m: nat)
    requires Enumerates(order, nodes) && s < |For(nodes, order, f)|
  {
    forall k :: 0 <= k < |For(nodes, order, f)| ==>
      AnswersOf(nodes, order, rr, calls, f, For(nodes, order, f)[Ahead(s, k, |For(nodes, order, f)|)])
        == q + (if k < m then 1 else 0)
  }

  /** After the calls: q whole rounds and m more steps from the place s where the index of `f` stood. */
  lemma {:induction false} Rounds(nodes: map<string, Node>, order: seq<string>, rr: map<string, nat>,
                                  calls: seq<Filter>, f: Filter, n: nat, s: nat) returns (q: nat, m: nat)
    requires Enumerates(order, nodes) && StoredById(nodes)
    requires n == |For(nodes, order, f)| > 0 && KeyIsOwn(nodes, order, calls, f) && s == IndexOf(rr, KeyOf(f)) % n
    ensures m < n && CallsOf(calls, f) == q * n + m
    ensures IndexOf(Indices(nodes, order, rr, calls), KeyOf(f)) % n == Ahead(s, m, n)
    ensures Spread(nodes, order, rr, calls, f, s, q, m)
  {
    hide Candidates, Enumerates, StoredById, For, KeyOf, Ahead;
    if calls == [] {
      q, m := 0, 0;
      StartAhead(s, n);
    } else {
      hide Indices, LastAnswer, AnswersOf, Spread, IndexOf;
      assert KeyIsOwn(nodes, order, calls[..|calls| - 1], f);
      q, m := Rounds(nodes, order, rr, calls[..|calls| - 1], f, n, s);
      if calls[|calls| - 1] == f {
        OwnTurn(nodes, order, rr, calls, Ahead(s, m, n));
        StepAhead(s, m, n);
        OwnSpread(nodes, order, rr, calls, f, s, q, m);
        OneMore(q, m, n);
        if m + 1 == n { q, m := q + 1, 0; } else { m := m + 1; }
      } else {
        OtherTurn(nodes, order, rr, calls, f);
        OtherSpread(nodes, order, rr, calls, f, s, q, m);
      }
    }
  }

  /** One more answer to `f`, from the place m steps after s. */
  lemma OwnSpread(nodes: map<string, Node>, order: seq<string>, rr: map<string, nat>, calls: seq<Filter>,
                  f: Filter, s: nat, q: nat, m: nat)
    requires Enumerates(order, nodes) && StoredById(nodes) && calls != [] && calls[|calls| - 1] == f
    requires s < |For(nodes, order, f)| && m < |For(nodes, order, f)|
    requires LastAnswer(nodes, order, rr, calls) == Some(For(nodes, order, f)[Ahead(s, m, |For(nodes, order, f)|)])
    requires Spread(nodes, order, rr, calls[..|calls| - 1], f, s, q, m)
    ensures if m + 1 == |For(nodes, order, f)| then Spread(nodes, order, rr, calls, f, s, q + 1, 0)
            else Spread(nodes, order, rr, calls, f, s, q, m + 1)
  {
    hide For, LastAnswer, Enumerates, StoredById;
    var c := For(nodes, order, f);
    forall k | 0 <= k < |c|
      ensures AnswersOf(nodes, order, rr, calls, f, c[Ahead(s, k, |c|)]) == q + (if k <= m then 1 else 0)
    {
      assert AnswersOf(nodes, order, rr, calls[..|calls| - 1], f, c[Ahead(s, k, |c|)]) == q + (if k < m then 1 else 0);
      if k != m { ForDistinct(nodes, order, f, Ahead(s, k, |c|), Ahead(s, m, |c|)); }
    }
  }

  lemma OtherSpread(nodes: map<string, Node>, order: seq<string>, rr: map<string, nat>, calls: seq<Filter>,
                    f: Filter, s: nat, q: nat, m: nat)
    requires Enumerates(order, nodes) && calls != [] && calls[|calls| - 1] != f
    requires s < |For(nodes, order, f)| && Spread(nodes, order, rr, calls[..|calls| - 1], f, s, q, m)
    ensures Spread(nodes, order, rr, calls, f, s, q, m)
  {
    hide For, LastAnswer, Enumerates;
    var c := For(nodes, order, f);
    forall k | 0 <= k < |c|
      ensures AnswersOf(nodes, order, rr, calls, f, c[Ahead(s, k, |c|)]) == q + (if k < m then 1 else 0)
    {
      assert AnswersOf(nodes, order, rr, calls[..|calls| - 1], f, c[Ahead(s, k, |c|)]) == q + (if k < m then 1 else 0);
    }
  }

  lemma ForDistinct(nodes: map<string, Node>, order: seq<string>, f: Filter, i: nat, j: nat)
    requires Enumerates(order, nodes) && StoredById(nodes)
    requires i < |For(nodes, order, f)| && j < |For(nodes, order, f)| && i != j
    ensures For(nodes, order, f)[i] != For(nodes, order, f)[j]
  {
    hide Candidates;
    CandidatesDistinct(nodes, order, f.role, f.worker);
    var c := Candidates(nodes, order, f.role, f.worker);
    assert c[i] != c[j];
  }

  /** A call with filter `f` while its index stands at `a`. */
  lemma OwnTurn(nodes: map<string, Node>, order: seq<string>, rr: map<string, nat>, calls: seq<Filter>, a: nat)
    requires Enumerates(order, nodes) && calls != [] && For(nodes, order, calls[|calls| - 1]) != []
    requires var f := calls[|calls| - 1];
             IndexOf(Indices(nodes, order, rr, calls[..|calls| - 1]), KeyOf(f)) % |For(nodes, order, f)| == a
    ensures var f := calls[|calls| - 1];
            var c := For(nodes, order, f);
            && LastAnswer(nodes, order, rr, calls) == Some(c[a])
            && IndexOf(Indices(nodes, order, rr, calls), KeyOf(f)) % |c| == if a + 1 == |c| then 0 else a + 1
  {
    hide For, KeyOf, Enumerates;
    NextIndex(a, |For(nodes, order, calls[|calls| - 1])|);
  }

  lemma OtherTurn(nodes: map<string, Node>, order: seq<string>, rr: map<string, nat>, calls: seq<Filter>, f: Filter)
    requires Enumerates(order, nodes) && calls != [] && KeyIsOwn(nodes, order, calls, f) && calls[|calls| - 1] != f
    ensures IndexOf(Indices(nodes, order, rr, calls), KeyOf(f)) ==
            IndexOf(Indices(nodes, order, rr, calls[..|calls| - 1]), KeyOf(f))
  {
    hide For, Enumerates, KeyOf;
    var last := calls[|calls| - 1];
    assert KeyOf(last) != KeyOf(f) || For(nodes, order, last) == [];
  }

  /** floor(made / size) or ceil(made / size) */
  predicate FairShare(answered: nat, made: nat, size: nat)
    requires size > 0
  {
    answered == made / size || (made % size != 0 && answered == made / size + 1)
  }

  /**
    In any run of calls, each of the n candidates of a filter answers the N calls with that
    filter floor(N / n) or ceil(N / n) times, if no other filter in the run moves its index.
   */
  lemma Fair(nodes: map<string, Node>, order: seq<string>, rr: map<string, nat>, calls: seq<Filter>, f: Filter, n: Node)
    requires Enumerates(order, nodes) && StoredById(nodes)
    requires KeyIsOwn(nodes, order, calls, f) && n in For(nodes, order, f)
    ensures FairShare(AnswersOf(nodes, order, rr, calls, f, n), CallsOf(calls, f), |For(nodes, order, f)|)
  {
    hide Enumerates, StoredById, Candidates, Indices, AnswersOf, CallsOf, KeyOf, KeyIsOwn;
    var c := For(nodes, order, f);
    var s := IndexOf(rr, KeyOf(f)) % |c|;
    var q, m := Rounds(nodes, order, rr, calls, f, |c|, s);
    Division(q, m, |c|);
    var j :| 0 <= j < |c| && c[j] == n;
    var k := if j >= s then j - s else j - s + |c|;
    assert Ahead(s, k, |c|) == j;
  }

  /** With ':'-free roles, that is every filter of every run. */
  lemma FairWithoutColons(nodes: map<string, Node>, order: seq<string>, rr: map<string, nat>, calls: seq<Filter>,
                          f: Filter, n: Node)
    requires Enumerates(order, nodes) && StoredById(nodes)
    requires ':' !in f.role && forall i :: 0 <= i < |calls| ==> ':' !in calls[i].role
    requires n in For(nodes, order, f)
    ensures FairShare(AnswersOf(nodes, order, rr, calls, f, n), CallsOf(calls, f), |For(nodes, order, f)|)
  {
    hide Enumerates, StoredById, Candidates, Indices, AnswersOf, CallsOf, KeyOf, FairShare;
    forall i | 0 <= i < |calls| && KeyOf(calls[i]) == KeyOf(f) ensures calls[i] == f {
      KeyInjective(calls[i], f);
    }
    Fair(nodes, order, rr, calls, f, n);
  }

  // ---------- exactly when ----------

  /** One candidate answers every call, whoever moves the index. */
  lemma {:induction false} OneAnswersAll(nodes: map<string, Node>, order: seq<string>, rr: map<string, nat>,
                                         calls: seq<Filter>, f: Filter)
    requires Enumerates(order, nodes) && |For(nodes, order, f)| == 1
    ensures AnswersOf(nodes, order, rr, calls, f, For(nodes, order, f)[0]) == CallsOf(calls, f)
  {
    if calls != [] {
      hide For, Indices, Enumerates, KeyOf;
      OneAnswersAll(nodes, order, rr, calls[..|calls| - 1], f);
    }
  }

  /** `k` calls with the same filter. */
  function Repeat(f: Filter, k: nat): seq<Filter> {
    seq(k, _ => f)
  }

  /** `m` times a call with f and `k` calls with g. */
  function Alternating(f: Filter, g: Filter, k: nat, m: nat): seq<Filter> {
    if m == 0 then [] else Alternating(f, g, k, m - 1) + [f] + Repeat(g, k)
  }

  /** How often g must be called for the index to come back to 0 from 1. */
  function Back(n: nat): nat {
    if n <= 1 then 1 else n - 1
  }

  /** The stored index after a call is below the number of candidates. */
  lemma StoredBelow(nodes: map<string, Node>, order: seq<string>, rr: map<string, nat>, calls: seq<Filter>)
    requires Enumerates(order, nodes) && calls != [] && For(nodes, order, calls[|calls| - 1]) != []
    ensures var f := calls[|calls| - 1];
            IndexOf(Indices(nodes, order, rr, calls), KeyOf(f)) < |For(nodes, order, f)|
  {
    hide For, KeyOf, Enumerates;
  }

  /** Calls with g, from index 1 on: the index counts up, and the answers to f do not change. */
  lemma {:induction false} CountsUp(nodes: map<string, Node>, order: seq<string>, before: seq<Filter>, f: Filter,
                                    g: Filter, k: nat, n: Node)
    requires Enumerates(order, nodes) && f != g && KeyOf(f) == KeyOf(g) && For(nodes, order, g) != []
    requires k <= Back(|For(nodes, order, g)|)
    requires IndexOf(Indices(nodes, order, map[], before), KeyOf(f)) == 1
    ensures var calls := before + Repeat(g, k);
            && CallsOf(calls, f) == CallsOf(before, f)
            && AnswersOf(nodes, order, map[], calls, f, n) == AnswersOf(nodes, order, map[], before, f, n)
            && IndexOf(Indices(nodes, order, map[], calls), KeyOf(f)) ==
                 if k == Back(|For(nodes, order, g)|) then 0 else k + 1
  {
    hide For, KeyOf, Enumerates, Indices, LastAnswer, IndexOf;
    var calls := before + Repeat(g, k);
    if k == 0 {
      assert calls == before;
    } else {
      CountsUp(nodes, order, before, f, g, k - 1, n);
      var size := |For(nodes, order, g)|;
      assert calls[..|calls| - 1] == before + Repeat(g, k - 1) && calls[|calls| - 1] == g;
      var at := if size == 1 then 0 else k;
      if size > 1 { SmallMod(k, size); } else { OneMod(k); }
      OwnTurn(nodes, order, map[], calls, at);
      StoredBelow(nodes, order, map[], calls);
      SmallMod(IndexOf(Indices(nodes, order, map[], calls), KeyOf(g)), size);
    }
  }

  lemma OneMod(x: nat)
    ensures x % 1 == 0
  {}

  /**
    A filter with two or more candidates, and another of the same key that has some: calls that
    alternate between them in the right rhythm give every call of the first to the same node.
   */
  lemma {:induction false} SharedKeyStarves(nodes: map<string, Node>, order: seq<string>, f: Filter, g: Filter, m: nat)
    requires Enumerates(order, nodes) && f != g && KeyOf(f) == KeyOf(g)
    requires |For(nodes, order, f)| >= 2 && For(nodes, order, g) != []
    ensures var calls := Alternating(f, g, Back(|For(nodes, order, g)|), m);
            && IndexOf(Indices(nodes, order, map[], calls), KeyOf(f)) == 0
            && CallsOf(calls, f) == m
            && AnswersOf(nodes, order, map[], calls, f, For(nodes, order, f)[0]) == m
  {
    hide Enumerates, For, Indices, AnswersOf, CallsOf, IndexOf, KeyOf, Back, Repeat;
    if m > 0 {
      var before := Alternating(f, g, Back(|For(nodes, order, g)|), m - 1);
      SharedKeyStarves(nodes, order, f, g, m - 1);
      StarveOnce(nodes, order, before, f, g);
    } else {
      NoCalls(nodes, order, f, For(nodes, order, f)[0]);
    }
  }

  lemma NoCalls(nodes: map<string, Node>, order: seq<string>, f: Filter, n: Node)
    requires Enumerates(order, nodes)
    ensures CallsOf([], f) == 0 && AnswersOf(nodes, order, map[], [], f, n) == 0
    ensures IndexOf(Indices(nodes, order, map[], []), KeyOf(f)) == 0
  {}

  /** One round more: a call with f, then as many with g as bring the index back to 0. */
  lemma StarveOnce(nodes: map<string, Node>, order: seq<string>, before: seq<Filter>, f: Filter, g: Filter)
    requires Enumerates(order, nodes) && f != g && KeyOf(f) == KeyOf(g)
    requires |For(nodes, order, f)| >= 2 && For(nodes, order, g) != []
    requires IndexOf(Indices(nodes, order, map[], before), KeyOf(f)) == 0
    ensures var n := For(nodes, order, f)[0];
            var calls := before + [f] + Repeat(g, Back(|For(nodes, order, g)|));
            && IndexOf(Indices(nodes, order, map[], calls), KeyOf(f)) == 0
            && CallsOf(calls, f) == CallsOf(before, f) + 1
            && AnswersOf(nodes, order, map[], calls, f, n) == AnswersOf(nodes, order, map[], before, f, n) + 1
  {
    hide For, KeyOf, Indices, LastAnswer, IndexOf, Back, Repeat;
    var size := |For(nodes, order, f)|;
    var one := before + [f];
    assert one[..|one| - 1] == before && one[|one| - 1] == f;
    SmallMod(0, size);
    OwnTurn(nodes, order, map[], one, 0);
    StoredBelow(nodes, order, map[], one);
    SmallMod(IndexOf(Indices(nodes, order, map[], one), KeyOf(f)), size);
    CountsUp(nodes, order, one, f, g, Back(|For(nodes, order, g)|), For(nodes, order, f)[0]);
  }

  /** Two different filters can share a key. */
  lemma KeysCanCollide()
    ensures Filter("a:b", "c") != Filter("a", "b:c") && KeyOf(Filter("a:b", "c")) == KeyOf(Filter("a", "b:c"))
  {
    assert KeyOf(Filter("a:b", "c")) == "a:b:c" == KeyOf(Filter("a", "b:c"));
  }

  predicate DrawnFrom(calls: seq<Filter>, filters: set<Filter>) {
    forall i :: 0 <= i < |calls| ==> calls[i] in filters
  }

  /** Over every run drawn from these filters, each candidate of f gets its fair share of the calls with f. */
  ghost predicate AlwaysFair(nodes: map<string, Node>, order: seq<string>, filters: set<Filter>, f: Filter)
    requires Enumerates(order, nodes)
  {
    forall rr, calls, n :: DrawnFrom(calls, filters) && n in For(nodes, order, f) ==>
      FairShare(AnswersOf(nodes, order, rr, calls, f, n), CallsOf(calls, f), |For(nodes, order, f)|)
  }

  lemma {:induction false} AlternatingDrawn(f: Filter, g: Filter, k: nat, m: nat, filters: set<Filter>)
    requires f in filters && g in filters
    ensures DrawnFrom(Alternating(f, g, k, m), filters)
  {
    if m > 0 { AlternatingDrawn(f, g, k, m - 1, filters); }
  }

  /** Two answers of two from one of at least two candidates are more than its share. */
  lemma TwoOfTwoIsUnfair(size: nat)
    requires size >= 2
    ensures !FairShare(2, 2, size)
  {
    Division(if size == 2 then 1 else 0, if size == 2 then 0 else 2, size);
  }

  /**
    A filter is always fair exactly when it has at most one candidate or no other filter in use
    shares its key and has candidates.
   */
  lemma FairIff(nodes: map<string, Node>, order: seq<string>, filters: set<Filter>, f: Filter)
    requires Enumerates(order, nodes) && StoredById(nodes) && f in filters
    ensures AlwaysFair(nodes, order, filters, f) <==>
            || |For(nodes, order, f)| <= 1
            || forall g :: g in filters && g != f && KeyOf(g) == KeyOf(f) ==> For(nodes, order, g) == []
  {
    hide For, KeyOf, Enumerates, StoredById, Indices, AnswersOf, CallsOf, FairShare;
    if |For(nodes, order, f)| <= 1 {
      forall rr, calls, n | DrawnFrom(calls, filters) && n in For(nodes, order, f)
        ensures FairShare(AnswersOf(nodes, order, rr, calls, f, n), CallsOf(calls, f), |For(nodes, order, f)|)
      {
        assert n == For(nodes, order, f)[0];
        OneAnswersAll(nodes, order, rr, calls, f);
        AllIsFair(CallsOf(calls, f));
      }
    } else if g :| g in filters && g != f && KeyOf(g) == KeyOf(f) && For(nodes, order, g) != [] {
      var calls := Alternating(f, g, Back(|For(nodes, order, g)|), 2);
      AlternatingDrawn(f, g, Back(|For(nodes, order, g)|), 2, filters);
      SharedKeyStarves(nodes, order, f, g, 2);
      TwoOfTwoIsUnfair(|For(nodes, order, f)|);
      var rr: map<string, nat> := map[];
      assert For(nodes, order, f)[0] in For(nodes, order, f);
      assert !FairShare(AnswersOf(nodes, order, rr, calls, f, For(nodes, order, f)[0]), CallsOf(calls, f),
                        |For(nodes, order, f)|);
    } else {
      forall rr, calls, n | DrawnFrom(calls, filters) && n in For(nodes, order, f)
        ensures FairShare(AnswersOf(nodes, order, rr, calls, f, n), CallsOf(calls, f), |For(nodes, order, f)|)
      {
        assert KeyIsOwn(nodes, order, calls, f);
        Fair(nodes, order, rr, calls, f, n);
      }
    }
  }

  lemma AllIsFair(made: nat)
    ensures FairShare(made, made, 1)
  {}
}
