/**
  Accepting connections and closing sessions (the two do_accept loops, tcp_session.hpp and
  on_before_close in src/mqtt/mqtt_server.cpp and src/http/http_server.cpp).

  Any number of listeners share one guard.  A session holds one acquired slot until the
  first of many handlers closes it; closing again does nothing.
 */
module SessionLifecycle {
  import opened Wrappers
  import G = ConnectionGuard

  datatype Kind = Mqtt | Http

  /** `releases` counts the calls of release(peer_ip_) on the session's behalf. */
  datatype Session = Session(kind: Kind, ip: string, closed: bool, releases: nat)

  /** A session is known by its place in the order of acceptance. */
  datatype System = System(guard: G.State, sessions: seq<Session>)

  /** Everything that ends in close_session. */
  datatype Cause =
    | ReadError | IdleTimeout | WriteError | BufferCap
    | BadHandshake | CloseFrame | Disconnect | Refused     // MQTT only
    | Destructor                                           // ~mqtt_session; http_session has none
    | LastResponse                                         // HTTP only

  predicate Applies(kind: Kind, cause: Cause) {
    match cause
    case BadHandshake => kind.Mqtt?
    case CloseFrame => kind.Mqtt?
    case Disconnect => kind.Mqtt?
    case Refused => kind.Mqtt?
    case Destructor => kind.Mqtt?
    case LastResponse => kind.Http?
    case _ => true
  }

  datatype Step = Accept(kind: Kind, ip: string, now: int) | Close(id: nat, cause: Cause)

  predicate Enabled(s: System, step: Step) {
    step.Close? ==> step.id < |s.sessions| && Applies(s.sessions[step.id].kind, step.cause)
  }

  function CloseSession(s: System, id: nat): System
    requires id < |s.sessions|
  {
    var x := s.sessions[id];
    if x.closed then s
    else System(G.Release(s.guard, x.ip), s.sessions[id := x.(closed := true, releases := x.releases + 1)])
  }

  function Do(l: G.Limits, s: System, step: Step): System
    requires Enabled(s, step)
  {
    match step
    case Accept(kind, ip, now) =>
      var r := G.TryAcquire(l, s.guard, ip, now);
      System(r.1, if r.0 then s.sessions + [Session(kind, ip, false, 0)] else s.sessions)
    case Close(id, _) => CloseSession(s, id)
  }

  // ---------- the code, in place ----------

  class TcpSession {
    const kind: Kind
    const peerIp: string
    var closed: bool
    ghost var releases: nat

    constructor (kind: Kind, ip: string)
      ensures this.kind == kind && peerIp == ip && !closed && releases == 0
    {
      this.kind, peerIp, closed, releases := kind, ip, false, 0;
    }

    ghost function Value(): Session
      reads this
    {
      Session(kind, peerIp, closed, releases)
    }

    /** Idempotent: only the first call releases the slot (on_before_close). */
    method CloseSession(guard: G.Guard)
      modifies this, guard
      ensures closed
      ensures old(closed) ==> Value() == old(Value()) && guard.S() == old(guard.S())
      ensures !old(closed) ==> Value() == old(Value()).(closed := true, releases := old(releases) + 1)
                               && guard.S() == G.Release(old(guard.S()), peerIp)
    {
      if closed { return; }
      closed := true;
      guard.ReleaseOne(peerIp);
      releases := releases + 1;
    }
  }

  class Server {
    const guard: G.Guard
    var sessions: seq<TcpSession>

    ghost predicate Valid()
      reads this, sessions
    {
      forall i, j :: 0 <= i < j < |sessions| ==> sessions[i] != sessions[j]
    }

    ghost function Values(list: seq<TcpSession>): seq<Session>
      reads list
    {
      if list == [] then [] else Values(list[..|list| - 1]) + [list[|list| - 1].Value()]
    }

    ghost function Abs(): System
      reads this, guard, sessions
    {
      System(guard.S(), Values(sessions))
    }

    constructor (limits: G.Limits)
      ensures Valid() && Abs() == System(G.EMPTY, []) && guard.limits == limits
      ensures fresh(guard)
    {
      guard := new G.Guard(limits);
      sessions := [];
    }

    lemma ValuesAt(list: seq<TcpSession>)
      ensures |Values(list)| == |list|
      ensures forall i :: 0 <= i < |list| ==> Values(list)[i] == list[i].Value()
    {
      if list != [] { ValuesAt(list[..|list| - 1]); }
    }

    /** The accept handler of either listener, for a socket from this address. */
    method DoAccept(kind: Kind, ip: string, now: int)
      requires Valid()
      modifies this, guard
      ensures Valid() && Abs() == Do(guard.limits, old(Abs()), Accept(kind, ip, now))
    {
      ghost var before := Values(sessions);
      var ok := guard.TryAcquireAt(ip, now);
      if ok {
        var session := new TcpSession(kind, ip);
        ghost var list := sessions;
        sessions := sessions + [session];
        assert sessions[..|sessions| - 1] == list;
        assert Values(list) == before;
      }
    }

    /** Any of the handlers that end in close_session. */
    method Handle(id: nat, cause: Cause)
      requires Valid() && Enabled(Abs(), Close(id, cause)) && id < |sessions|
      modifies guard, sessions
      ensures Valid() && sessions == old(sessions) && Abs() == Do(guard.limits, old(Abs()), Close(id, cause))
    {
      ValuesAt(sessions);
      sessions[id].CloseSession(guard);
      ValuesAt(sessions);
      assert Abs().sessions == Do(guard.limits, old(Abs()), Close(id, cause)).sessions;
    }
  }

  // ---------- conservation ----------

  /** How many of these sessions are open; with an ip, how many of that ip. */
  function OpenOf(sessions: seq<Session>, ip: Option<string>): nat {
    if sessions == [] then 0
    else
      var x := sessions[|sessions| - 1];
      OpenOf(sessions[..|sessions| - 1], ip) + (if !x.closed && (ip == None || ip == Some(x.ip)) then 1 else 0)
  }

  ghost predicate Conserved(s: System) {
    && s.guard.total == OpenOf(s.sessions, None)
    && (forall ip :: G.CountOf(s.guard, ip) == OpenOf(s.sessions, Some(ip)))
    && (forall ip :: ip in s.guard.perIp ==> s.guard.perIp[ip] > 0)
    && (forall i :: 0 <= i < |s.sessions| ==> s.sessions[i].releases == if s.sessions[i].closed then 1 else 0)
  }

  ghost predicate WithinCaps(l: G.Limits, s: System) {
    && (l.maxTotal > 0 ==> s.guard.total <= l.maxTotal)
    && (l.maxPerIp > 0 ==> forall ip :: G.CountOf(s.guard, ip) <= l.maxPerIp)
  }

  lemma {:induction false} OpenAppend(sessions: seq<Session>, x: Session, ip: Option<string>)
    ensures OpenOf(sessions + [x], ip) ==
            OpenOf(sessions, ip) + (if !x.closed && (ip == None || ip == Some(x.ip)) then 1 else 0)
  {
    assert (sessions + [x])[..|sessions|] == sessions;
  }

  /** Closing one open session takes exactly one from the counts it is part of. */
  lemma {:induction false} OpenClose(sessions: seq<Session>, id: nat, closed: Session, ip: Option<string>)
    requires id < |sessions| && !sessions[id].closed && closed.closed
    ensures OpenOf(sessions, ip) ==
            OpenOf(sessions[id := closed], ip) + (if ip == None || ip == Some(sessions[id].ip) then 1 else 0)
  {
    var n := |sessions| - 1;
    if id < n {
      assert sessions[id := closed][..n] == sessions[..n][id := closed];
      OpenClose(sessions[..n], id, closed, ip);
    } else {
      assert sessions[id := closed][..n] == sessions[..n];
    }
  }

  /** No step loses or invents a slot, and the caps stay kept. */
  lemma DoKeeps(l: G.Limits, s: System, step: Step)
    requires Conserved(s) && WithinCaps(l, s) && Enabled(s, step)
    ensures Conserved(Do(l, s, step)) && WithinCaps(l, Do(l, s, step))
  {
    match step
    case Accept(kind, ip, now) => AcceptKeeps(l, s, kind, ip, now);
    case Close(id, _) => CloseKeeps(l, s, id);
  }

  lemma AcceptKeeps(l: G.Limits, s: System, kind: Kind, ip: string, now: int)
    requires Conserved(s) && WithinCaps(l, s)
    ensures var s' := Do(l, s, Accept(kind, ip, now)); Conserved(s') && WithinCaps(l, s')
  {
    hide G.Trim, OpenOf;
    var x := Session(kind, ip, false, 0);
    OpenAppend(s.sessions, x, None);
    forall i: string
      ensures OpenOf(s.sessions + [x], Some(i)) == OpenOf(s.sessions, Some(i)) + (if i == ip then 1 else 0)
    {
      OpenAppend(s.sessions, x, Some(i));
    }
  }

  lemma CloseKeeps(l: G.Limits, s: System, id: nat)
    requires Conserved(s) && WithinCaps(l, s) && id < |s.sessions|
    ensures Conserved(CloseSession(s, id)) && WithinCaps(l, CloseSession(s, id))
  {
    if !s.sessions[id].closed {
      ReleaseIsExact(s, id);
      hide OpenOf;
      var x := s.sessions[id];
      var y := x.(closed := true, releases := x.releases + 1);
      OpenClose(s.sessions, id, y, None);
      forall i: string
        ensures OpenOf(s.sessions, Some(i)) == OpenOf(s.sessions[id := y], Some(i)) + (if i == x.ip then 1 else 0)
      {
        OpenClose(s.sessions, id, y, Some(i));
      }
    }
  }

  /** The release that closing makes never meets a counter at zero. */
  lemma ReleaseIsExact(s: System, id: nat)
    requires Conserved(s) && id < |s.sessions| && !s.sessions[id].closed
    ensures s.guard.total > 0
    ensures s.sessions[id].ip in s.guard.perIp && s.guard.perIp[s.sessions[id].ip] > 0
  {
    var x := s.sessions[id];
    var y := x.(closed := true, releases := x.releases + 1);
    OpenClose(s.sessions, id, y, None);
    OpenClose(s.sessions, id, y, Some(x.ip));
    assert G.CountOf(s.guard, x.ip) == OpenOf(s.sessions, Some(x.ip));
  }

  /** The system after these steps, from an empty start. */
  function Run(l: G.Limits, steps: seq<Step>): Option<System> {
    if steps == [] then Some(System(G.EMPTY, []))
    else
      var s :- Run(l, steps[..|steps| - 1]);
      if Enabled(s, steps[|steps| - 1]) then Some(Do(l, s, steps[|steps| - 1])) else None
  }

  /**
    In every reachable state the total is the number of open sessions, each ip's counter is
    its number of open sessions and never stored as zero, no slot was released twice, and
    the caps hold.
   */
  lemma {:induction false} Conservation(l: G.Limits, steps: seq<Step>)
    requires Run(l, steps).Some?
    ensures Conserved(Run(l, steps).value) && WithinCaps(l, Run(l, steps).value)
  {
    hide Conserved, WithinCaps, Do;
    if steps == [] {
      EmptyConserved(l);
    } else {
      Conservation(l, steps[..|steps| - 1]);
      DoKeeps(l, Run(l, steps[..|steps| - 1]).value, steps[|steps| - 1]);
    }
  }

  lemma EmptyConserved(l: G.Limits)
    ensures Conserved(System(G.EMPTY, [])) && WithinCaps(l, System(G.EMPTY, []))
  {}

  /** Closing a session a second time, for whatever cause, changes nothing. */
  lemma CloseIsIdempotent(l: G.Limits, s: System, id: nat, first: Cause, second: Cause)
    requires Enabled(s, Close(id, first)) && Enabled(s, Close(id, second))
    ensures Enabled(Do(l, s, Close(id, first)), Close(id, second))
    ensures Do(l, Do(l, s, Close(id, first)), Close(id, second)) == Do(l, s, Close(id, first))
  {}

  /** When all sessions have closed, the guard is back where it started, but for the rate queues. */
  lemma AllClosedAllFree(l: G.Limits, steps: seq<Step>)
    requires Run(l, steps).Some?
    requires forall i :: 0 <= i < |Run(l, steps).value.sessions| ==> Run(l, steps).value.sessions[i].closed
    ensures Run(l, steps).value.guard.total == 0 && Run(l, steps).value.guard.perIp == map[]
  {
    Conservation(l, steps);
    var s := Run(l, steps).value;
    NoneOpen(s.sessions, None);
    forall ip ensures ip !in s.guard.perIp {
      NoneOpen(s.sessions, Some(ip));
      assert G.CountOf(s.guard, ip) == OpenOf(s.sessions, Some(ip));
    }
  }

  lemma {:induction false} NoneOpen(sessions: seq<Session>, ip: Option<string>)
    requires forall i :: 0 <= i < |sessions| ==> sessions[i].closed
    ensures OpenOf(sessions, ip) == 0
  {
    if sessions != [] { NoneOpen(sessions[..|sessions| - 1], ip); }
  }

  // ---------- admission over whole runs ----------

  /** The calls of the guard that these steps make: a close of a closed session makes none. */
  function Calls(l: G.Limits, steps: seq<Step>): seq<G.Call> {
    if steps == [] then []
    else
      var step, before := steps[|steps| - 1], Run(l, steps[..|steps| - 1]);
      Calls(l, steps[..|steps| - 1])
      + (if step.Accept? then [G.Acquire(step.ip, step.now)]
         else if before.Some? && step.id < |before.value.sessions| && !before.value.sessions[step.id].closed
         then [G.Free(before.value.sessions[step.id].ip)]
         else [])
  }

  /** The clock readings of the accepts never decrease. */
  predicate Timed(steps: seq<Step>) {
    forall i, j :: 0 <= i < j < |steps| && steps[i].Accept? && steps[j].Accept? ==> steps[i].now <= steps[j].now
  }

  /** The time of the last accept. */
  function LastTime(steps: seq<Step>): Option<int> {
    if steps == [] then None
    else if steps[|steps| - 1].Accept? then Some(steps[|steps| - 1].now)
    else LastTime(steps[..|steps| - 1])
  }

  lemma {:induction false} LastTimeIsPast(steps: seq<Step>, step: Step)
    requires Timed(steps + [step]) && step.Accept? && LastTime(steps).Some?
    ensures LastTime(steps).value <= step.now
  {
    var all := steps + [step];
    assert all[|steps|] == step;
    if steps[|steps| - 1].Accept? {
      assert all[|steps| - 1] == steps[|steps| - 1];
    } else {
      var earlier := steps[..|steps| - 1];
      TimedWithin(steps, step);
      LastTimeIsPast(earlier, step);
    }
  }

  /** Steps stay timed when the last but one is left out, or the last. */
  lemma TimedWithin(steps: seq<Step>, step: Step)
    requires Timed(steps + [step])
    ensures Timed(steps)
    ensures steps != [] ==> Timed(steps[..|steps| - 1] + [step])
  {
    var all := steps + [step];
    assert forall i :: 0 <= i < |steps| ==> steps[i] == all[i];
    if steps != [] {
      var less := steps[..|steps| - 1] + [step];
      assert forall i :: 0 <= i < |steps| - 1 ==> less[i] == all[i];
      assert less[|steps| - 1] == all[|steps|];
    }
  }

  /** The guard in the system is the guard after these calls. */
  lemma {:induction false} GuardRuns(l: G.Limits, steps: seq<Step>)
    requires Run(l, steps).Some? && Timed(steps)
    ensures var t := G.Run(l, Calls(l, steps));
            t.Some? && t.value.st == Run(l, steps).value.guard && t.value.clock == LastTime(steps)
  {
    if steps != [] {
      hide G.TryAcquire, G.Release, Timed, Calls, Run, G.Run;
      var earlier, step := steps[..|steps| - 1], steps[|steps| - 1];
      assert steps == earlier + [step];
      TimedWithin(earlier, step);
      RunBefore(l, steps);
      GuardRuns(l, earlier);
      if step.Accept? && LastTime(earlier).Some? { LastTimeIsPast(earlier, step); }
      CallsStep(l, steps);
      var calls, all := Calls(l, earlier), Calls(l, steps);
      if all != calls { GuardStep(l, calls, all[|calls|]); }
    }
  }

  lemma RunBefore(l: G.Limits, steps: seq<Step>)
    requires Run(l, steps).Some? && steps != []
    ensures var before := Run(l, steps[..|steps| - 1]);
            && before.Some? && Enabled(before.value, steps[|steps| - 1])
            && Run(l, steps).value == Do(l, before.value, steps[|steps| - 1])
  {}

  lemma CallsStep(l: G.Limits, steps: seq<Step>)
    requires steps != [] && Run(l, steps[..|steps| - 1]).Some?
    requires Enabled(Run(l, steps[..|steps| - 1]).value, steps[|steps| - 1])
    ensures var step, sessions := steps[|steps| - 1], Run(l, steps[..|steps| - 1]).value.sessions;
            Calls(l, steps) == Calls(l, steps[..|steps| - 1])
            + (if step.Accept? then [G.Acquire(step.ip, step.now)]
               else if !sessions[step.id].closed then [G.Free(sessions[step.id].ip)] else [])
  {
    hide Do;
  }

  lemma GuardStep(l: G.Limits, calls: seq<G.Call>, call: G.Call)
    requires G.Run(l, calls).Some?
    ensures G.Run(l, calls + [call]) ==
            if G.Timely(G.Run(l, calls).value, call) then Some(G.Do(l, G.Run(l, calls).value, call)) else None
  {
    assert (calls + [call])[..|calls|] == calls;
  }

  /** Every admission so far. */
  function Admissions(l: G.Limits, steps: seq<Step>): seq<G.Admission> {
    var t := G.Run(l, Calls(l, steps));
    if t.Some? then t.value.log else []
  }

  /** An admission is logged exactly when a session is opened, with its ip and the time. */
  lemma AdmissionsAreSessions(l: G.Limits, steps: seq<Step>, step: Step)
    requires Run(l, steps + [step]).Some? && Timed(steps + [step])
    ensures Run(l, steps).Some?
    ensures Admissions(l, steps + [step]) == Admissions(l, steps)
            + (if step.Accept? && |Run(l, steps + [step]).value.sessions| > |Run(l, steps).value.sessions|
               then [G.Admission(step.ip, step.now)] else [])
  {
    hide G.TryAcquire, G.Release, Timed, Calls, Run, G.Run;
    var all := steps + [step];
    assert all[..|all| - 1] == steps;
    TimedWithin(steps, step);
    RunBefore(l, all);
    GuardRuns(l, steps);
    GuardRuns(l, all);
    CallsStep(l, all);
    var calls, more := Calls(l, steps), Calls(l, all);
    if more != calls { GuardStep(l, calls, more[|calls|]); }
    assert Admissions(l, steps) + [] == Admissions(l, steps);
  }

  /**
    Over any interleaving, a connection becomes a session exactly when the open sessions are below
    both caps and the admissions of its ip within the window are below the rate limit.
   */
  lemma AcceptedIff(l: G.Limits, steps: seq<Step>, kind: Kind, ip: string, now: int)
    requires Run(l, steps).Some? && Timed(steps + [Accept(kind, ip, now)])
    ensures var s := Run(l, steps).value;
            |Do(l, s, Accept(kind, ip, now)).sessions| == |s.sessions| + 1 <==>
              && (l.maxTotal == 0 || OpenOf(s.sessions, None) < l.maxTotal)
              && (l.maxPerIp == 0 || OpenOf(s.sessions, Some(ip)) < l.maxPerIp)
              && (l.maxNewPerIp == 0 || G.Young(G.TimesOf(Admissions(l, steps), ip), now, l.window) < l.maxNewPerIp)
  {
    hide G.TryAcquire, G.Young, G.TimesOf, G.Run, Calls, OpenOf, Timed, Run;
    TimedWithin(steps, Accept(kind, ip, now));
    GuardRuns(l, steps);
    if LastTime(steps).Some? { LastTimeIsPast(steps, Accept(kind, ip, now)); }
    Conservation(l, steps);
    G.ExactLimiter(l, Calls(l, steps), ip, now);
    assert G.CountOf(Run(l, steps).value.guard, ip) == OpenOf(Run(l, steps).value.sessions, Some(ip));
  }
}
