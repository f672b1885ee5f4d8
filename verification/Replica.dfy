/**
  The registry replica of the client SDKs (sdk/nodejs/index.js:91-206, the same in
  sdk/ts/src/index.ts; sdk/cpp/src/apr_client.cpp:150-179, 284-357, 412-430).

  Events that arrive before the snapshot is loaded are queued, then replayed on top of it.  The
  JavaScript and TypeScript clients also note the time left of a node in GRACE; the C++ client
  does not.  A message is its payload and the node that this parses to, or None where it does not
  parse.  `appEvents` lists the application events that were emitted.
 */
module Replica {
  import opened Wrappers
  import opened RegistryQueries
  import opened RegistryState
  import Registry

  datatype Client = Client(
    local: map<string, Node>, queue: seq<Node>, reconciled: bool, appEvents: seq<(string, string)>)

  const FRESH: Client := Client(map[], [], false, [])

  /** expires_in || 180 */
  function TimeLeft(e: Node): int {
    if e.expiresIn.Some? && e.expiresIn.value != 0 then e.expiresIn.value else GRACE_SECONDS
  }

  function ApplyEvent(dates: bool, local: map<string, Node>, e: Node): map<string, Node> {
    match e.status
    case OK => local[e.id := e]
    case GRACE =>
      if e.id !in local then local
      else if dates then local[e.id := local[e.id].(status := GRACE, expiresIn := Some(TimeLeft(e)))]
      else local[e.id := local[e.id].(status := GRACE)]
    case ERASED => local - {e.id}
  }

  function ApplyAll(dates: bool, local: map<string, Node>, events: seq<Node>): map<string, Node> {
    if events == [] then local
    else ApplyEvent(dates, ApplyAll(dates, local, events[..|events| - 1]), events[|events| - 1])
  }

  /** The nodes of a snapshot put in one after the other. */
  function Load(local: map<string, Node>, snapshot: seq<Node>): map<string, Node> {
    if snapshot == [] then local
    else Load(local, snapshot[..|snapshot| - 1])[snapshot[|snapshot| - 1].id := snapshot[|snapshot| - 1]]
  }

  function Handle(dates: bool, c: Client, topic: string, payload: string, node: Option<Node>): Client {
    if "apr/" <= topic then
      if node.None? then c
      else if !c.reconciled then c.(queue := c.queue + [node.value])
      else c.(local := ApplyEvent(dates, c.local, node.value))
    else if "app/" <= topic then c.(appEvents := c.appEvents + [(topic, payload)])
    else c
  }

  /** A failed request leaves the map as it is. */
  function Fetch(c: Client, snapshot: Option<seq<Node>>): Client {
    if snapshot.None? then c else c.(local := Load(c.local, snapshot.value))
  }

  function Reconcile(dates: bool, c: Client): Client {
    Client(ApplyAll(dates, c.local, c.queue), [], true, c.appEvents)
  }

  class AprClient {
    const datesGrace: bool
    var localNodes: map<string, Node>
    var syncQueue: seq<Node>
    var isReconciled: bool
    var appEvents: seq<(string, string)>
    var rrIndices: map<string, nat>

    function S(): Client
      reads this
    {
      Client(localNodes, syncQueue, isReconciled, appEvents)
    }

    constructor (datesGrace: bool)
      ensures S() == FRESH && rrIndices == map[] && this.datesGrace == datesGrace
    {
      this.datesGrace := datesGrace;
      localNodes, syncQueue, isReconciled, appEvents, rrIndices := map[], [], false, [], map[];
    }

    method FetchSnapshot(snapshot: Option<seq<Node>>)
      modifies this`localNodes
      ensures S() == Fetch(old(S()), snapshot)
    {
      if snapshot.Some? {
        var data := snapshot.value;
        for i := 0 to |data|
          invariant localNodes == Load(old(localNodes), data[..i])
        {
          assert data[..i + 1][..i] == data[..i];
          localNodes := localNodes[data[i].id := data[i]];
        }
        assert data[..|data|] == data;
      }
    }

    method ApplyNodeEvent(node: Node)
      modifies this`localNodes
      ensures localNodes == ApplyEvent(datesGrace, old(localNodes), node)
    {
      if node.status == OK {
        localNodes := localNodes[node.id := node];
      } else if node.status == GRACE {
        if node.id in localNodes {
          var existing := localNodes[node.id].(status := GRACE);
          if datesGrace { existing := existing.(expiresIn := Some(TimeLeft(node))); }
          localNodes := localNodes[node.id := existing];
        }
      } else if node.status == ERASED {
        localNodes := localNodes - {node.id};
      }
    }

    method ReconcileQueue()
      modifies this`localNodes, this`syncQueue, this`isReconciled
      ensures S() == Reconcile(datesGrace, old(S()))
    {
      for i := 0 to |syncQueue|
        invariant syncQueue == old(syncQueue)
        invariant localNodes == ApplyAll(datesGrace, old(localNodes), syncQueue[..i])
      {
        assert syncQueue[..i + 1][..i] == syncQueue[..i];
        ApplyNodeEvent(syncQueue[i]);
      }
      assert syncQueue[..|syncQueue|] == syncQueue;
      syncQueue := [];
      isReconciled := true;
    }

    method HandleMessage(topic: string, payload: string, node: Option<Node>)
      modifies this`localNodes, this`syncQueue, this`appEvents
      ensures S() == Handle(datesGrace, old(S()), topic, payload, node)
    {
      if "apr/" <= topic {
        if node.Some? {
          if !isReconciled {
            syncQueue := syncQueue + [node.value];
          } else {
            ApplyNodeEvent(node.value);
          }
        }
      } else if "app/" <= topic {
        appEvents := appEvents + [(topic, payload)];
      }
    }

    /** The client's own round robin, over its replica. */
    method ResolveNode(role: string, worker: string, order: seq<string>) returns (r: Option<Node>)
      requires Enumerates(order, localNodes)
      modifies this`rrIndices
      ensures var all, key := Candidates(localNodes, order, role, worker), Key(role, worker);
              if all == [] then r == None && rrIndices == old(rrIndices)
              else var turn := Turn(old(rrIndices), key, |all|); r == Some(all[turn.0]) && rrIndices == turn.1
    {
      hide Candidates;
      var candidates := Registry.Registry.FindCandidates(localNodes, role, worker, order);
      if candidates == [] { return None; }
      var key := role + ":" + worker;
      var idx := (if key in rrIndices then rrIndices[key] else 0) % |candidates|;
      rrIndices := rrIndices[key := (idx + 1) % |candidates|];
      return Some(candidates[idx]);
    }
  }

  // ---------- the boot sequence ----------

  /** Events on topics apr/{role}, one after the other; `text` is their JSON. */
  function Received(dates: bool, c: Client, events: seq<Node>, text: Node -> string): Client {
    if events == [] then c
    else
      var e := events[|events| - 1];
      Handle(dates, Received(dates, c, events[..|events| - 1], text), "apr/" + e.role, text(e), Some(e))
  }

  lemma {:induction false} ReceivedQueues(dates: bool, c: Client, events: seq<Node>, text: Node -> string)
    requires !c.reconciled
    ensures Received(dates, c, events, text) == c.(queue := c.queue + events)
  {
    if events == [] {
      assert c.queue + [] == c.queue;
    } else {
      var earlier, e := events[..|events| - 1], events[|events| - 1];
      ReceivedQueues(dates, c, earlier, text);
      assert "apr/" <= "apr/" + e.role;
      assert events == earlier + [e];
      assert c.queue + events == c.queue + earlier + [e];
    }
  }

  lemma {:induction false} ReceivedApplies(dates: bool, c: Client, events: seq<Node>, text: Node -> string)
    requires c.reconciled
    ensures Received(dates, c, events, text) == c.(local := ApplyAll(dates, c.local, events))
  {
    if events != [] {
      ReceivedApplies(dates, c, events[..|events| - 1], text);
      assert "apr/" <= "apr/" + events[|events| - 1].role;
    }
  }

  lemma {:induction false} ApplyAllSplit(dates: bool, local: map<string, Node>, first: seq<Node>, second: seq<Node>)
    ensures ApplyAll(dates, local, first + second) == ApplyAll(dates, ApplyAll(dates, local, first), second)
  {
    if second == [] {
      assert first + second == first;
    } else {
      ApplyAllSplit(dates, local, first, second[..|second| - 1]);
      assert (first + second)[..|first + second| - 1] == first + second[..|second| - 1];
    }
  }

  /**
    Wherever the snapshot and the reconciliation fall between the events, the replica ends as the
    snapshot with every received event applied to it in order.
   */
  lemma BootIsReplay(dates: bool, before: seq<Node>, snapshot: seq<Node>, between: seq<Node>, after: seq<Node>,
                     text: Node -> string)
    ensures var queued := Received(dates, Fetch(Received(dates, FRESH, before, text), Some(snapshot)), between, text);
            Received(dates, Reconcile(dates, queued), after, text) ==
              Client(ApplyAll(dates, Load(map[], snapshot), before + between + after), [], true, [])
  {
    var one := Fetch(Received(dates, FRESH, before, text), Some(snapshot));
    ReceivedQueues(dates, FRESH, before, text);
    assert [] + before == before;
    ReceivedQueues(dates, one, between, text);
    ReceivedApplies(dates, Reconcile(dates, Received(dates, one, between, text)), after, text);
    ApplyAllSplit(dates, Load(map[], snapshot), before + between, after);
  }

  /**
    After an event about a node that it has, or that is OK, a JavaScript replica shows the event's status and
    time left, 180 seconds where a GRACE event does not say how long; the C++ one leaves the time as it was.
   */
  lemma GraceTimeFollows(local: map<string, Node>, e: Node)
    requires e.status == OK || (e.status == GRACE && e.id in local)
    ensures var js, cpp := ApplyEvent(true, local, e), ApplyEvent(false, local, e);
            && e.id in js && e.id in cpp && js[e.id].status == cpp[e.id].status == e.status
            && (e.status == OK ==> js == cpp == local[e.id := e])
            && (e.status == GRACE && e.expiresIn.Some? && e.expiresIn.value > 0 ==> js[e.id].expiresIn == e.expiresIn)
            && (e.status == GRACE && (e.expiresIn.None? || e.expiresIn.value == 0) ==> js[e.id].expiresIn == Some(180))
            && (e.status == GRACE ==> cpp[e.id].expiresIn == local[e.id].expiresIn)
  {}

  // ---------- messages of every kind ----------

  datatype Message = Message(topic: string, payload: string, node: Option<Node>)

  function HandleAll(dates: bool, c: Client, messages: seq<Message>): Client {
    if messages == [] then c
    else
      var m := messages[|messages| - 1];
      Handle(dates, HandleAll(dates, c, messages[..|messages| - 1]), m.topic, m.payload, m.node)
  }

  /** The nodes of the registry's events among the messages. */
  function NodesOf(messages: seq<Message>): seq<Node> {
    if messages == [] then []
    else
      var m := messages[|messages| - 1];
      NodesOf(messages[..|messages| - 1]) + (if "apr/" <= m.topic && m.node.Some? then [m.node.value] else [])
  }

  /** The application events among the messages. */
  function AppEventsOf(messages: seq<Message>): seq<(string, string)> {
    if messages == [] then []
    else
      var m := messages[|messages| - 1];
      AppEventsOf(messages[..|messages| - 1]) + (if "app/" <= m.topic then [(m.topic, m.payload)] else [])
  }

  lemma {:induction false} HandledAll(dates: bool, c: Client, messages: seq<Message>)
    ensures HandleAll(dates, c, messages) ==
              if c.reconciled then
                c.(local := ApplyAll(dates, c.local, NodesOf(messages)),
                   appEvents := c.appEvents + AppEventsOf(messages))
              else
                c.(queue := c.queue + NodesOf(messages), appEvents := c.appEvents + AppEventsOf(messages))
  {
    if messages == [] {
      assert c.queue + [] == c.queue && c.appEvents + [] == c.appEvents;
    } else {
      var earlier, m := messages[..|messages| - 1], messages[|messages| - 1];
      HandledAll(dates, c, earlier);
      OtherPrefix(m.topic);
      var nodes := if "apr/" <= m.topic && m.node.Some? then [m.node.value] else [];
      var apps := if "app/" <= m.topic then [(m.topic, m.payload)] else [];
      assert NodesOf(messages) == NodesOf(earlier) + nodes && AppEventsOf(messages) == AppEventsOf(earlier) + apps;
      assert c.queue + NodesOf(earlier) + nodes == c.queue + (NodesOf(earlier) + nodes);
      assert c.appEvents + AppEventsOf(earlier) + apps == c.appEvents + (AppEventsOf(earlier) + apps);
      hide NodesOf, AppEventsOf;
      ApplyAllSplit(dates, c.local, NodesOf(earlier), nodes);
      HandledOne(dates, HandleAll(dates, c, earlier), m, nodes, apps);
    }
  }

  lemma HandledOne(dates: bool, c: Client, m: Message, nodes: seq<Node>, apps: seq<(string, string)>)
    requires nodes == if "apr/" <= m.topic && m.node.Some? then [m.node.value] else []
    requires apps == if "app/" <= m.topic then [(m.topic, m.payload)] else []
    ensures Handle(dates, c, m.topic, m.payload, m.node) ==
              if c.reconciled then c.(local := ApplyAll(dates, c.local, nodes), appEvents := c.appEvents + apps)
              else c.(queue := c.queue + nodes, appEvents := c.appEvents + apps)
  {
    hide ApplyEvent;
    OtherPrefix(m.topic);
    assert c.queue + [] == c.queue && c.appEvents + [] == c.appEvents;
    if nodes != [] {
      assert nodes[..0] == [];
      assert ApplyAll(dates, c.local, nodes) == ApplyEvent(dates, ApplyAll(dates, c.local, []), nodes[0]);
    }
  }

  lemma OtherPrefix(topic: string)
    ensures !("apr/" <= topic && "app/" <= topic)
  {
    if "apr/" <= topic { assert topic[2] == 'r'; }
  }

  /**
    Whatever messages come, in whatever mixture: the replica is the snapshot with the nodes of the apr/ messages
    applied in order, and the application is told exactly the app/ messages, those before the snapshot too.
   */
  lemma BootAmongMessages(dates: bool, before: seq<Message>, snapshot: seq<Node>, between: seq<Message>,
                          after: seq<Message>)
    ensures var queued := HandleAll(dates, Fetch(HandleAll(dates, FRESH, before), Some(snapshot)), between);
            HandleAll(dates, Reconcile(dates, queued), after) ==
              Client(ApplyAll(dates, Load(map[], snapshot), NodesOf(before) + NodesOf(between) + NodesOf(after)),
                     [], true, AppEventsOf(before) + AppEventsOf(between) + AppEventsOf(after))
  {
    hide HandleAll, ApplyAll, Load, NodesOf, AppEventsOf;
    var one := Fetch(HandleAll(dates, FRESH, before), Some(snapshot));
    HandledAll(dates, FRESH, before);
    assert [] + NodesOf(before) == NodesOf(before) && [] + AppEventsOf(before) == AppEventsOf(before);
    HandledAll(dates, one, between);
    HandledAll(dates, Reconcile(dates, HandleAll(dates, one, between)), after);
    ApplyAllSplit(dates, Load(map[], snapshot), NodesOf(before) + NodesOf(between), NodesOf(after));
  }
}
