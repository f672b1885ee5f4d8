/**
  One HTTP connection (src/http/http_server.cpp): reads, pipelined requests, writes.

  The asynchronous session is a step system: an outstanding read or write completes, or
  the idle timer fires, and the handler runs to its end.  What a request asks for (its
  keep-alive wish) is a parameter, the parsing and routing behind it being left out.
 */
module HttpSession {
  import opened Wrappers
  import H = HttpParsing
  import A = StreamAccumulator

  datatype Config = Config(cap: nat, maxRequests: nat, keepAlive: string -> bool)

  /** A request as cut from the buffer, and whether its response keeps the connection alive. */
  datatype Served = Served(raw: string, keepAlive: bool)

  datatype State = State(
    acc: A.State<char>,
    served: seq<Served>,
    closed: bool,
    capped: bool,        // closed by the buffer cap
    pendingReads: nat,          // outstanding reads
    pendingWrites: nat,         // outstanding writes
    timer: bool)         // idle timer armed

  function Close(st: State): State {
    if st.closed then st else st.(closed := true, timer := false)
  }

  function StartRead(st: State): State {
    st.(pendingReads := st.pendingReads + 1, timer := true)
  }

  /** Cap reached: this is the last request served on the connection. */
  function KeepsAlive(cfg: Config, raw: string, count: nat): bool {
    cfg.keepAlive(raw) && !(cfg.maxRequests > 0 && count >= cfg.maxRequests)
  }

  lemma BoundaryInside(s: string)
    ensures H.Boundary(s).Some? ==> H.Boundary(s).value <= |s|
  {}

  /** Serve the next buffered request, or wait for more bytes. */
  function TryNext(cfg: Config, st: State): State
    requires st.acc.Valid()
  {
    var view := st.acc.View();
    match H.Boundary(view)
    case None => StartRead(st)
    case Some(n) =>
      BoundaryInside(view);
      var raw := view[..n];
      var keep := KeepsAlive(cfg, raw, |st.served| + 1);
      st.(acc := st.acc.Consume(n).Compact(A.DEFAULT_THRESHOLD),
          served := st.served + [Served(raw, keep)],
          pendingWrites := st.pendingWrites + 1)
  }

  function OnRead(cfg: Config, st: State, chunk: string): State
    requires st.acc.Valid() && st.pendingReads > 0
  {
    var got := st.(pendingReads := st.pendingReads - 1, timer := false, acc := st.acc.Append(chunk));
    if |got.acc.buf| > cfg.cap then Close(got.(capped := true)) else TryNext(cfg, got)
  }

  function OnReadError(st: State): State
    requires st.pendingReads > 0
  {
    Close(st.(pendingReads := st.pendingReads - 1, timer := false))
  }

  /** The last response asked to close, if there was one. */
  predicate LastWord(served: seq<Served>) {
    served != [] && !served[|served| - 1].keepAlive
  }

  function OnWritten(cfg: Config, st: State, ok: bool): State
    requires st.acc.Valid() && st.pendingWrites > 0
  {
    var done := st.(pendingWrites := st.pendingWrites - 1);
    if !ok || LastWord(st.served) then Close(done) else TryNext(cfg, done)
  }

  function OnTimeout(st: State): State {
    Close(st.(timer := false))
  }

  function Started(): State {
    StartRead(State(A.State([], 0), [], false, false, 0, 0, false))
  }

  class Session {
    const cfg: Config
    const requestAcc: A.Accumulator<char>
    var served: seq<Served>
    var requestCount: nat
    var closed: bool
    var capped: bool
    var pendingReads: nat
    var pendingWrites: nat
    var timer: bool

    predicate Valid()
      reads this, requestAcc
    {
      requestAcc.S().Valid() && requestCount == |served|
    }

    function S(): State
      reads this, requestAcc
    {
      State(requestAcc.S(), served, closed, capped, pendingReads, pendingWrites, timer)
    }

    /** A new session, its first read issued. */
    constructor (cfg: Config)
      ensures Valid() && S() == Started() && this.cfg == cfg && fresh(requestAcc)
    {
      this.cfg := cfg;
      requestAcc := new A.Accumulator<char>();
      served, requestCount := [], 0;
      closed, capped := false, false;
      pendingReads, pendingWrites, timer := 1, 0, true;
    }

    method CloseSession()
      modifies this
      ensures S() == Close(old(S())) && requestCount == old(requestCount)
    {
      if closed { return; }
      closed := true;
      timer := false;
    }

    method TryProcessNextRequest()
      requires Valid()
      modifies this, requestAcc
      ensures Valid() && S() == TryNext(cfg, old(S()))
    {
      hide H.Boundary;
      ghost var view := requestAcc.S().View();
      BoundaryInside(view);
      var boundary := H.FindRequestBoundary(requestAcc.buf[requestAcc.offset..]);
      if boundary.None? {
        pendingReads := pendingReads + 1;
        timer := true;
        return;
      }
      var n := boundary.value;
      var raw := requestAcc.buf[requestAcc.offset..][..n];
      requestAcc.Consume(n);
      requestAcc.CompactIfNeeded(A.DEFAULT_THRESHOLD);

      var keepAlive := cfg.keepAlive(raw);
      requestCount := requestCount + 1;
      if cfg.maxRequests > 0 && requestCount >= cfg.maxRequests {
        keepAlive := false;
      }
      served := served + [Served(raw, keepAlive)];
      pendingWrites := pendingWrites + 1;
    }

    method OnBytesRead(chunk: string)
      requires Valid() && pendingReads > 0
      modifies this, requestAcc
      ensures Valid() && S() == OnRead(cfg, old(S()), chunk)
    {
      hide TryNext;
      pendingReads := pendingReads - 1;
      timer := false;
      requestAcc.Append(chunk);
      var held := requestAcc.TotalCapacity();
      if held > cfg.cap {
        capped := true;
        CloseSession();
        return;
      }
      TryProcessNextRequest();
    }

    method OnReadFailed()
      requires Valid() && pendingReads > 0
      modifies this
      ensures Valid() && S() == OnReadError(old(S()))
    {
      pendingReads := pendingReads - 1;
      timer := false;
      CloseSession();
    }

    method OnIdleTimer()
      requires Valid()
      modifies this
      ensures Valid() && S() == OnTimeout(old(S()))
    {
      timer := false;
      CloseSession();
    }

    method OnWriteDone(ok: bool)
      requires Valid() && pendingWrites > 0
      modifies this, requestAcc
      ensures Valid() && S() == OnWritten(cfg, old(S()), ok)
    {
      hide TryNext;
      pendingWrites := pendingWrites - 1;
      if !ok || (served != [] && !served[|served| - 1].keepAlive) {
        CloseSession();
        return;
      }
      TryProcessNextRequest();
    }
  }

  // ---------- runs ----------

  datatype Event = Read(chunk: string) | ReadError | Written(ok: bool) | Timeout

  predicate Enabled(st: State, e: Event) {
    match e
    case Read(_) => st.acc.Valid() && st.pendingReads > 0
    case ReadError => st.pendingReads > 0
    case Written(_) => st.acc.Valid() && st.pendingWrites > 0
    case Timeout => true    // the handler of a timer that has since been cancelled may already be queued
  }

  function Step(cfg: Config, st: State, e: Event): State
    requires Enabled(st, e)
  {
    match e
    case Read(chunk) => OnRead(cfg, st, chunk)
    case ReadError => OnReadError(st)
    case Written(ok) => OnWritten(cfg, st, ok)
    case Timeout => OnTimeout(st)
  }

  /** What a new session has become after these events, if they can happen in this order. */
  function Run(cfg: Config, events: seq<Event>): Option<State> {
    if events == [] then Some(Started())
    else
      var e := events[|events| - 1];
      var before :- Run(cfg, events[..|events| - 1]);
      if Enabled(before, e) then Some(Step(cfg, before, e)) else None
  }

  predicate Reached(cfg: Config, events: seq<Event>, st: State) {
    Run(cfg, events) == Some(st)
  }

  /**
    Never two operations at once, and the idle timer runs just while an open session reads.  A response keeps
    the connection alive exactly if its request asks for it and is not the last one allowed; nothing
    follows a last word.
   */
  predicate Inv(cfg: Config, st: State) {
    && st.acc.Valid()
    && st.pendingReads + st.pendingWrites <= 1
    && (!st.closed ==> st.pendingReads + st.pendingWrites == 1)
    && (st.timer ==> st.pendingReads == 1)
    && (!st.closed && st.pendingReads == 1 ==> st.timer)
    && (forall i :: 0 <= i < |st.served| ==>
          (st.served[i].keepAlive <==>
             cfg.keepAlive(st.served[i].raw) && (cfg.maxRequests == 0 || i + 1 < cfg.maxRequests)))
    && (forall i :: 0 <= i < |st.served| - 1 ==> st.served[i].keepAlive)
    && (LastWord(st.served) ==> st.pendingReads == 0 && (st.pendingWrites == 0 ==> st.closed))
    && (cfg.maxRequests > 0 ==> |st.served| <= cfg.maxRequests)
    && (cfg.maxRequests > 0 && |st.served| == cfg.maxRequests ==> LastWord(st.served))
  }

  lemma TryNextKeeps(cfg: Config, st: State)
    requires st.acc.Valid() && st.pendingReads == st.pendingWrites == 0 && !st.timer && !LastWord(st.served)
    requires forall i :: 0 <= i < |st.served| ==> st.served[i].keepAlive
    requires cfg.maxRequests > 0 ==> |st.served| < cfg.maxRequests
    requires forall i :: 0 <= i < |st.served| ==>
               (st.served[i].keepAlive <==>
                  cfg.keepAlive(st.served[i].raw) && (cfg.maxRequests == 0 || i + 1 < cfg.maxRequests))
    ensures Inv(cfg, TryNext(cfg, st))
  {
    BoundaryInside(st.acc.View());
    hide H.Boundary;
  }

  lemma StepKeeps(cfg: Config, st: State, e: Event)
    requires Inv(cfg, st) && Enabled(st, e)
    ensures Inv(cfg, Step(cfg, st, e))
  {
    hide TryNext;
    match e
    case Read(chunk) =>
      var got := st.(pendingReads := st.pendingReads - 1, timer := false, acc := st.acc.Append(chunk));
      if |got.acc.buf| <= cfg.cap { TryNextKeeps(cfg, got); }
    case Written(ok) =>
      var done := st.(pendingWrites := st.pendingWrites - 1);
      if ok && !LastWord(st.served) { TryNextKeeps(cfg, done); }
    case _ =>
  }

  /** In every reachable state: one outstanding operation at most, and the request cap holds. */
  lemma {:induction false} OneAtATime(cfg: Config, events: seq<Event>, st: State)
    requires Reached(cfg, events, st)
    ensures Inv(cfg, st)
    decreases |events|
  {
    hide Inv, TryNext, Step;
    if events == [] {
      StartedInv(cfg);
    } else {
      var before := Run(cfg, events[..|events| - 1]).value;
      OneAtATime(cfg, events[..|events| - 1], before);
      StepKeeps(cfg, before, events[|events| - 1]);
    }
  }

  lemma StartedInv(cfg: Config)
    ensures Inv(cfg, Started())
  {}

  /** A response keeps the connection open exactly if its request asks for it and the cap is not reached. */
  lemma KeepAliveExactly(cfg: Config, events: seq<Event>, st: State)
    requires Reached(cfg, events, st)
    ensures forall i :: 0 <= i < |st.served| ==>
              (st.served[i].keepAlive <==>
                 cfg.keepAlive(st.served[i].raw) && (cfg.maxRequests == 0 || i + 1 < cfg.maxRequests))
  {
    OneAtATime(cfg, events, st);
  }

  /** With cap N > 0 at most N requests are served, and the N-th is answered with close. */
  lemma RequestCap(cfg: Config, events: seq<Event>, st: State)
    requires Reached(cfg, events, st) && cfg.maxRequests > 0
    ensures |st.served| <= cfg.maxRequests
    ensures |st.served| == cfg.maxRequests ==> !st.served[cfg.maxRequests - 1].keepAlive
  {
    OneAtATime(cfg, events, st);
  }

  /** A read or a write fails, or the idle timer fires. */
  predicate Fails(e: Event) {
    e.ReadError? || e.Timeout? || e == Written(false)
  }

  /** A session closes exactly on a failure, on the buffer cap, and when its last word has been written. */
  lemma {:induction false} ClosedIff(cfg: Config, events: seq<Event>, st: State)
    requires Reached(cfg, events, st)
    ensures st.closed <==> st.capped || (exists i :: 0 <= i < |events| && Fails(events[i]))
                           || (LastWord(st.served) && st.pendingWrites == 0)
    decreases |events|
  {
    hide Inv, Step, LastWord, Fails, Enabled;
    if events == [] {
      StartedOpen();
    } else {
      var last := |events| - 1;
      var before := Run(cfg, events[..last]).value;
      ClosedIff(cfg, events[..last], before);
      OneAtATime(cfg, events[..last], before);
      ClosedByStep(cfg, before, events[last]);
      assert events == events[..last] + [events[last]];
    }
  }

  lemma StartedOpen()
    ensures !Started().closed && !Started().capped && !LastWord(Started().served)
  {}

  lemma ClosedByStep(cfg: Config, st: State, e: Event)
    requires Inv(cfg, st) && Enabled(st, e)
    requires LastWord(st.served) && st.pendingWrites == 0 ==> st.closed
    requires st.capped ==> st.closed
    ensures var st' := Step(cfg, st, e);
            && (st'.closed <==> st.closed || Fails(e) || st'.capped || (LastWord(st'.served) && st'.pendingWrites == 0))
            && (st.capped ==> st'.capped)
            && (LastWord(st.served) && st.pendingWrites == 0 ==> LastWord(st'.served) && st'.pendingWrites == 0)
  {
    hide H.Boundary;
  }

  // ---------- how the requests were cut does not matter ----------

  /** The first k requests of a stream, what is left behind them, and whether the connection stays open. */
  function Serve(cfg: Config, data: string, k: nat): Option<(seq<Served>, string)> {
    if k == 0 then Some(([], data))
    else
      var p :- Serve(cfg, data, k - 1);
      if LastWord(p.0) then None
      else
        var n :- H.Boundary(p.1);
        BoundaryInside(p.1);
        Some((p.0 + [Served(p.1[..n], KeepsAlive(cfg, p.1[..n], k))], p.1[n..]))
  }

  /** Requests already complete stay the same when more bytes follow. */
  lemma {:induction false} ServeExtends(cfg: Config, data: string, more: string, k: nat)
    requires Serve(cfg, data, k).Some?
    ensures Serve(cfg, data + more, k) == Some((Serve(cfg, data, k).value.0, Serve(cfg, data, k).value.1 + more))
    ensures |Serve(cfg, data, k).value.0| == k
  {
    hide H.Boundary;
    if k > 0 {
      ServeExtends(cfg, data, more, k - 1);
      var rest := Serve(cfg, data, k - 1).value.1;
      H.BoundaryStable(rest, more);
      BoundaryInside(rest);
      var n := H.Boundary(rest).value;
      assert (rest + more)[..n] == rest[..n] && (rest + more)[n..] == rest[n..] + more;
    }
  }

  /** The bytes that reached the session. */
  function Received(events: seq<Event>): string {
    if events == [] then ""
    else
      var e := events[|events| - 1];
      Received(events[..|events| - 1]) + (if e.Read? then e.chunk else "")
  }

  /** Only data, and writes that succeed. */
  predicate Quiet(events: seq<Event>) {
    forall i :: 0 <= i < |events| ==> events[i].Read? || events[i] == Written(true)
  }

  predicate Tracks(cfg: Config, st: State, received: string) {
    st.acc.Valid() && Serve(cfg, received, |st.served|) == Some((st.served, st.acc.View()))
  }

  /** A session that is waiting for bytes has none of them left to serve. */
  predicate WaitsOnlyWhenDrained(st: State) {
    st.acc.Valid() && (st.pendingReads > 0 ==> H.Boundary(st.acc.View()) == None)
  }

  lemma TryNextTracks(cfg: Config, st: State, received: string)
    requires Tracks(cfg, st, received) && !LastWord(st.served)
    requires st.pendingReads == 0
    ensures Tracks(cfg, TryNext(cfg, st), received)
    ensures WaitsOnlyWhenDrained(TryNext(cfg, st))
    ensures TryNext(cfg, st).closed == st.closed && TryNext(cfg, st).capped == st.capped
  {
    hide H.Boundary;
    var view := st.acc.View();
    BoundaryInside(view);
    if H.Boundary(view).Some? {
      var n := H.Boundary(view).value;
      A.ViewIsQueue(st.acc, A.Consume(n), A.DEFAULT_THRESHOLD);
      A.ViewIsQueue(st.acc.Consume(n), A.Compact, A.DEFAULT_THRESHOLD);
    }
  }

  /** In every reachable state what was served is what the received bytes say, whatever else has happened. */
  lemma {:induction false} AlwaysTracks(cfg: Config, events: seq<Event>, st: State)
    requires Reached(cfg, events, st)
    ensures Tracks(cfg, st, Received(events))
    decreases |events|
  {
    hide Serve, TryNext, H.Boundary;
    if events == [] {
      NothingServed(cfg);
    } else {
      var e := events[|events| - 1];
      var before := Run(cfg, events[..|events| - 1]).value;
      var earlier := Received(events[..|events| - 1]);
      OneAtATime(cfg, events[..|events| - 1], before);
      AlwaysTracks(cfg, events[..|events| - 1], before);
      assert earlier + "" == earlier;
      match e
      case Read(chunk) =>
        var got := before.(pendingReads := before.pendingReads - 1, timer := false, acc := before.acc.Append(chunk));
        ServeExtends(cfg, earlier, chunk, |before.served|);
        A.ViewIsQueue(before.acc, A.Append(chunk), A.DEFAULT_THRESHOLD);
        TryNextTracks(cfg, got, earlier + chunk);
      case Written(ok) =>
        var done := before.(pendingWrites := before.pendingWrites - 1);
        if !LastWord(before.served) { TryNextTracks(cfg, done, earlier); }
      case _ =>
    }
  }

  /** With data and successful writes only, and below the cap, it closes on the last word only. */
  lemma {:induction false} RunWaits(cfg: Config, events: seq<Event>, st: State)
    requires Reached(cfg, events, st) && Quiet(events) && !st.capped
    ensures WaitsOnlyWhenDrained(st)
    ensures st.closed ==> LastWord(st.served)
    decreases |events|
  {
    hide Serve, TryNext, H.Boundary;
    if events == [] {
      NothingServed(cfg);
    } else {
      var e := events[|events| - 1];
      var before := Run(cfg, events[..|events| - 1]).value;
      var earlier := Received(events[..|events| - 1]);
      OneAtATime(cfg, events[..|events| - 1], before);
      CappedStays(cfg, before, e);
      RunWaits(cfg, events[..|events| - 1], before);
      AlwaysTracks(cfg, events[..|events| - 1], before);
      match e
      case Read(chunk) =>
        var got := before.(pendingReads := before.pendingReads - 1, timer := false, acc := before.acc.Append(chunk));
        ServeExtends(cfg, earlier, chunk, |before.served|);
        A.ViewIsQueue(before.acc, A.Append(chunk), A.DEFAULT_THRESHOLD);
        TryNextTracks(cfg, got, earlier + chunk);
      case Written(ok) =>
        var done := before.(pendingWrites := before.pendingWrites - 1);
        if !LastWord(before.served) { TryNextTracks(cfg, done, earlier); }
    }
  }

  lemma NothingServed(cfg: Config)
    ensures Tracks(cfg, Started(), "") && WaitsOnlyWhenDrained(Started())
  {
    assert A.State([], 0).View() == "";
  }

  lemma CappedStays(cfg: Config, st: State, e: Event)
    requires Enabled(st, e)
    ensures st.capped ==> Step(cfg, st, e).capped
  {}

  /** All of the stream has arrived, or the session has closed on the way; nothing is being written. */
  predicate SettledOn(st: State, received: string, stream: string) {
    && received <= stream
    && st.pendingWrites == 0
    && (received == stream || st.closed)
  }

  /** A settled session has served every request that the stream holds up to the last word. */
  lemma SettledIsComplete(cfg: Config, events: seq<Event>, st: State, stream: string)
    requires Reached(cfg, events, st) && Quiet(events) && !st.capped
    requires SettledOn(st, Received(events), stream)
    ensures Serve(cfg, stream, |st.served|).Some? && Serve(cfg, stream, |st.served|).value.0 == st.served
    ensures Serve(cfg, stream, |st.served| + 1) == None
  {
    hide H.Boundary, TryNext;
    AlwaysTracks(cfg, events, st);
    RunWaits(cfg, events, st);
    OneAtATime(cfg, events, st);
    var received := Received(events);
    assert stream == received + stream[|received|..];
    ServeExtends(cfg, received, stream[|received|..], |st.served|);
    if !st.closed {
      assert st.pendingReads == 1 && st.acc.View() + "" == st.acc.View();
      assert stream[|received|..] == "";
    }
  }

  /** Serving more requests needs all the earlier ones. */
  lemma {:induction false} ServeDown(cfg: Config, data: string, j: nat, k: nat)
    requires j <= k && Serve(cfg, data, k).Some?
    ensures Serve(cfg, data, j).Some?
    decreases k
  {
    hide H.Boundary;
    if j < k { ServeDown(cfg, data, j, k - 1); }
  }

  /** However a stream was cut into reads, two sessions that settled on it served the same requests. */
  lemma PipeliningIsChunkInvariant(cfg: Config, x: seq<Event>, stX: State, y: seq<Event>, stY: State, stream: string)
    requires Reached(cfg, x, stX) && Quiet(x) && !stX.capped && SettledOn(stX, Received(x), stream)
    requires Reached(cfg, y, stY) && Quiet(y) && !stY.capped && SettledOn(stY, Received(y), stream)
    ensures stX.served == stY.served
  {
    SettledIsComplete(cfg, x, stX, stream);
    SettledIsComplete(cfg, y, stY, stream);
    hide Serve;
    if |stX.served| < |stY.served| {
      ServeDown(cfg, stream, |stX.served| + 1, |stY.served|);
    } else if |stY.served| < |stX.served| {
      ServeDown(cfg, stream, |stY.served| + 1, |stX.served|);
    }
  }

  // ---------- the cap ----------

  /** The read with index i brings the buffer beyond the cap. */
  predicate Overflows(cfg: Config, events: seq<Event>, i: nat) {
    && i < |events| && events[i].Read?
    && Run(cfg, events[..i]).Some? && |Run(cfg, events[..i]).value.acc.buf| + |events[i].chunk| > cfg.cap
  }

  /** The session is closed by the cap exactly if some read brings the buffer beyond it. */
  lemma {:induction false} CappedIff(cfg: Config, events: seq<Event>, st: State)
    requires Reached(cfg, events, st)
    ensures st.capped <==> exists i :: Overflows(cfg, events, i)
    ensures st.capped ==> st.closed
    decreases |events|
  {
    hide Step, Overflows, Enabled;
    if events == [] {
      NoneOverflows(cfg);
    } else {
      var last := |events| - 1;
      var before := Run(cfg, events[..last]).value;
      CappedIff(cfg, events[..last], before);
      CappedByStep(cfg, before, events[last]);
      OverflowsOneMore(cfg, events[..last], events[last]);
      assert events == events[..last] + [events[last]];
      LastOverflow(cfg, events, before);
    }
  }

  lemma NoneOverflows(cfg: Config)
    ensures forall i :: !Overflows(cfg, [], i)
  {}

  lemma LastOverflow(cfg: Config, events: seq<Event>, before: State)
    requires events != [] && Run(cfg, events[..|events| - 1]) == Some(before)
    ensures var e := events[|events| - 1];
            Overflows(cfg, events, |events| - 1) <==> e.Read? && |before.acc.buf| + |e.chunk| > cfg.cap
  {}

  lemma CappedByStep(cfg: Config, st: State, e: Event)
    requires Enabled(st, e) && (st.capped ==> st.closed)
    ensures var st' := Step(cfg, st, e);
            && (st'.capped <==> st.capped || (e.Read? && |st.acc.buf| + |e.chunk| > cfg.cap))
            && (st'.capped ==> st'.closed)
  {
    hide H.Boundary;
  }

  lemma OverflowsOneMore(cfg: Config, most: seq<Event>, e: Event)
    ensures (exists i :: Overflows(cfg, most + [e], i)) <==>
            (exists i :: Overflows(cfg, most, i)) || Overflows(cfg, most + [e], |most|)
  {
    hide Run;
    forall i | 0 <= i < |most|
      ensures Overflows(cfg, most, i) <==> Overflows(cfg, most + [e], i)
    {
      assert most[..i] == (most + [e])[..i];
    }
  }

  /** No read brings more than r bytes, and none finds more than `left` unserved ones. */
  predicate Modest(cfg: Config, events: seq<Event>, left: nat, r: nat) {
    events == []
    || var e, before := events[|events| - 1], Run(cfg, events[..|events| - 1]);
       && Modest(cfg, events[..|events| - 1], left, r)
       && (e.Read? && before.Some? && before.value.acc.Valid() ==> |e.chunk| <= r && |before.value.acc.View()| <= left)
  }

  /** Less than the compaction threshold is held beyond the unserved bytes. */
  predicate Compacted(st: State) {
    st.acc.Valid() && |st.acc.buf| < |st.acc.View()| + A.DEFAULT_THRESHOLD
  }

  lemma TryNextCompacted(cfg: Config, st: State)
    requires Compacted(st)
    ensures Compacted(TryNext(cfg, st)) && TryNext(cfg, st).capped == st.capped
  {
    hide H.Boundary;
    var view := st.acc.View();
    BoundaryInside(view);
    if H.Boundary(view).Some? { A.CapacityAfterCompact(st.acc.Consume(H.Boundary(view).value), A.DEFAULT_THRESHOLD); }
  }

  lemma StepBelowCap(cfg: Config, st: State, e: Event, left: nat, r: nat)
    requires Compacted(st) && !st.capped && Enabled(st, e)
    requires e.Read? ==> |e.chunk| <= r && |st.acc.View()| <= left
    requires left + r + 4096 <= cfg.cap + 1
    ensures Compacted(Step(cfg, st, e)) && !Step(cfg, st, e).capped
  {
    hide TryNext, H.Boundary;
    match e
    case Read(chunk) =>
      var got := st.(pendingReads := st.pendingReads - 1, timer := false, acc := st.acc.Append(chunk));
      assert |got.acc.View()| == |st.acc.View()| + |chunk|;
      TryNextCompacted(cfg, got);
    case Written(ok) =>
      if ok && !LastWord(st.served) { TryNextCompacted(cfg, st.(pendingWrites := st.pendingWrites - 1)); }
    case _ =>
  }

  /** A cap with room for the longest unserved tail, one read and the compaction threshold is never hit. */
  lemma {:induction false} CapNeverHit(cfg: Config, events: seq<Event>, st: State, left: nat, r: nat)
    requires Reached(cfg, events, st) && Modest(cfg, events, left, r)
    requires left + r + 4096 <= cfg.cap + 1
    ensures Compacted(st) && !st.capped
    decreases |events|
  {
    hide Compacted, Step, Enabled;
    if events == [] {
      StartedCompacted();
    } else {
      var before := Run(cfg, events[..|events| - 1]).value;
      CapNeverHit(cfg, events[..|events| - 1], before, left, r);
      CompactedValid(before);
      StepBelowCap(cfg, before, events[|events| - 1], left, r);
    }
  }

  lemma StartedCompacted()
    ensures Compacted(Started()) && !Started().capped
  {}

  lemma CompactedValid(st: State)
    requires Compacted(st)
    ensures st.acc.Valid()
  {}

  /** So with that much room, cutting the stream differently changes nothing. */
  lemma PipeliningWithRoom(cfg: Config, x: seq<Event>, stX: State, y: seq<Event>, stY: State, stream: string,
                           left: nat, r: nat)
    requires left + r + 4096 <= cfg.cap + 1
    requires Reached(cfg, x, stX) && Quiet(x) && Modest(cfg, x, left, r) && SettledOn(stX, Received(x), stream)
    requires Reached(cfg, y, stY) && Quiet(y) && Modest(cfg, y, left, r) && SettledOn(stY, Received(y), stream)
    ensures stX.served == stY.served
  {
    hide Reached, Quiet, SettledOn, Modest;
    CapNeverHit(cfg, x, stX, left, r);
    CapNeverHit(cfg, y, stY, left, r);
    PipeliningIsChunkInvariant(cfg, x, stX, y, stY, stream);
  }

  // ---------- whatever ended the session ----------

  lemma {:induction false} ServePrefix(cfg: Config, data: string, j: nat, k: nat)
    requires j <= k && Serve(cfg, data, k).Some?
    ensures Serve(cfg, data, j).Some? && |Serve(cfg, data, j).value.0| == j && |Serve(cfg, data, k).value.0| == k
    ensures Serve(cfg, data, k).value.0[..j] == Serve(cfg, data, j).value.0
    decreases k
  {
    hide H.Boundary, KeepsAlive, LastWord;
    if j < k {
      ServePrefix(cfg, data, j, k - 1);
    } else if k > 0 {
      ServePrefix(cfg, data, k - 1, k - 1);
    }
  }

  /** Whatever ended them, of two sessions on the same stream one has served a prefix of what the other has. */
  lemma ServedIsPrefix(cfg: Config, x: seq<Event>, stX: State, y: seq<Event>, stY: State, stream: string)
    requires Reached(cfg, x, stX) && Received(x) <= stream
    requires Reached(cfg, y, stY) && Received(y) <= stream && |stX.served| <= |stY.served|
    ensures stX.served == stY.served[..|stX.served|]
  {
    hide Serve, Run, Received;
    ServedOfStream(cfg, x, stX, stream);
    ServedOfStream(cfg, y, stY, stream);
    ServePrefix(cfg, stream, |stX.served|, |stY.served|);
  }

  /** What a session has served are the first requests of any stream that starts with what it received. */
  lemma ServedOfStream(cfg: Config, events: seq<Event>, st: State, stream: string)
    requires Reached(cfg, events, st) && Received(events) <= stream
    ensures Serve(cfg, stream, |st.served|).Some? && Serve(cfg, stream, |st.served|).value.0 == st.served
  {
    hide Serve, Run, TryNext;
    AlwaysTracks(cfg, events, st);
    var received := Received(events);
    assert stream == received + stream[|received|..];
    ServeExtends(cfg, received, stream[|received|..], |st.served|);
  }
}
