/**
  Connection counting and the sliding-window rate limit (src/core/connection_guard.cpp).

  The admission log, every (ip, time) ever admitted, is what the limiter is about; the code
  keeps only a queue per ip from which it drops what is too old.  The run lemmas say that the
  queue decides as the full log would.
 */
module ConnectionGuard {
  import opened Wrappers

  /** 0 switches a limit off. */
  datatype Limits = Limits(maxTotal: nat, maxPerIp: nat, maxNewPerIp: nat, window: int)

  datatype Admission = Admission(ip: string, time: int)

  datatype State = State(total: nat, perIp: map<string, nat>, recent: map<string, seq<int>>)

  const EMPTY: State := State(0, map[], map[])

  function CountOf(st: State, ip: string): nat {
    if ip in st.perIp then st.perIp[ip] else 0
  }

  function QueueOf(st: State, ip: string): seq<int> {
    if ip in st.recent then st.recent[ip] else []
  }

  /** The queue without the entries at its front that are older than the window. */
  function Trim(queue: seq<int>, now: int, window: int): seq<int> {
    if queue != [] && now - queue[0] > window then Trim(queue[1..], now, window) else queue
  }

  function TryAcquire(l: Limits, st: State, ip: string, now: int): (bool, State) {
    if l.maxTotal > 0 && st.total >= l.maxTotal then (false, st)
    else if l.maxPerIp > 0 && CountOf(st, ip) >= l.maxPerIp then (false, st)
    else
      var queue := Trim(QueueOf(st, ip), now, l.window);
      if l.maxNewPerIp > 0 && |queue| >= l.maxNewPerIp then
        (false, st.(recent := st.recent[ip := queue]))
      else
        var recent := if l.maxNewPerIp > 0 then st.recent[ip := queue + [now]] else st.recent;
        (true, State(st.total + 1, st.perIp[ip := CountOf(st, ip) + 1], recent))
  }

  function Release(st: State, ip: string): State {
    var total := if st.total > 0 then st.total - 1 else st.total;
    if ip !in st.perIp then st.(total := total)
    else
      var left := if st.perIp[ip] > 0 then st.perIp[ip] - 1 else 0;
      State(total, if left == 0 then st.perIp - {ip} else st.perIp[ip := left], st.recent)
  }

  class Guard {
    const limits: Limits
    var total: nat
    var perIpCount: map<string, nat>
    var perIpRecent: map<string, seq<int>>

    function S(): State
      reads this
    {
      State(total, perIpCount, perIpRecent)
    }

    constructor (limits: Limits)
      ensures S() == EMPTY && this.limits == limits
    {
      this.limits := limits;
      total, perIpCount, perIpRecent := 0, map[], map[];
    }

    method TryAcquireAt(ip: string, now: int) returns (ok: bool)
      modifies this
      ensures (ok, S()) == TryAcquire(limits, old(S()), ip, now)
    {
      if limits.maxTotal > 0 && total >= limits.maxTotal {
        return false;
      }
      var currentCount := if ip in perIpCount then perIpCount[ip] else 0;
      if limits.maxPerIp > 0 && currentCount >= limits.maxPerIp {
        return false;
      }
      if limits.maxNewPerIp > 0 {
        var recent := if ip in perIpRecent then perIpRecent[ip] else [];
        while recent != [] && now - recent[0] > limits.window
          invariant Trim(recent, now, limits.window) == Trim(QueueOf(old(S()), ip), now, limits.window)
          decreases |recent|
        {
          recent := recent[1..];
        }
        if |recent| >= limits.maxNewPerIp {
          perIpRecent := perIpRecent[ip := recent];
          return false;
        }
        perIpRecent := perIpRecent[ip := recent + [now]];
      }
      total := total + 1;
      perIpCount := perIpCount[ip := currentCount + 1];
      return true;
    }

    method ReleaseOne(ip: string)
      modifies this
      ensures S() == Release(old(S()), ip)
    {
      if total > 0 { total := total - 1; }
      if ip in perIpCount {
        if perIpCount[ip] > 0 {
          perIpCount := perIpCount[ip := perIpCount[ip] - 1];
        }
        if perIpCount[ip] == 0 {
          perIpCount := perIpCount - {ip};
        }
      }
    }

    method TotalConnections() returns (n: nat)
      ensures n == S().total
    {
      n := total;
    }
  }

  // ---------- the limiter over whole runs ----------

  datatype Call = Acquire(ip: string, now: int) | Free(ip: string)

  /** The guard together with the log of everything it admitted and the last time it saw. */
  datatype Traced = Traced(st: State, log: seq<Admission>, clock: Option<int>)

  const START: Traced := Traced(EMPTY, [], None)

  /** Time never runs backwards. */
  predicate Timely(t: Traced, c: Call) {
    c.Acquire? && t.clock.Some? ==> t.clock.value <= c.now
  }

  function Do(l: Limits, t: Traced, c: Call): Traced {
    match c
    case Acquire(ip, now) =>
      var r := TryAcquire(l, t.st, ip, now);
      Traced(r.1, if r.0 then t.log + [Admission(ip, now)] else t.log, Some(now))
    case Free(ip) => t.(st := Release(t.st, ip))
  }

  /** The state after a run of calls whose clock readings never decrease. */
  function Run(l: Limits, calls: seq<Call>): Option<Traced> {
    if calls == [] then Some(START)
    else
      var c := calls[|calls| - 1];
      var t :- Run(l, calls[..|calls| - 1]);
      if Timely(t, c) then Some(Do(l, t, c)) else None
  }

  /** The admission times of one ip, in order. */
  function TimesOf(log: seq<Admission>, ip: string): seq<int> {
    if log == [] then []
    else
      var a := log[|log| - 1];
      TimesOf(log[..|log| - 1], ip) + (if a.ip == ip then [a.time] else [])
  }

  /** How many of these times are no older than the window. */
  function Young(times: seq<int>, now: int, window: int): nat {
    if times == [] then 0
    else Young(times[..|times| - 1], now, window) + (if now - times[|times| - 1] <= window then 1 else 0)
  }

  predicate Sorted(s: seq<int>) {
    forall i, j :: 0 <= i < j < |s| ==> s[i] <= s[j]
  }

  /** This time is not after the clock. */
  predicate Past(time: int, clock: Option<int>) {
    clock.Some? && time <= clock.value
  }

  predicate TooOld(time: int, clock: Option<int>, window: int) {
    clock.Some? && clock.value - time > window
  }

  /** `queue` is `times` without a prefix of entries that were already too old at time `clock`. */
  predicate Refines(queue: seq<int>, times: seq<int>, clock: Option<int>, window: int) {
    && |queue| <= |times|
    && queue == times[|times| - |queue|..]
    && forall i :: 0 <= i < |times| - |queue| ==> TooOld(times[i], clock, window)
  }

  /** The log is in order and in the past, and the queue refines it. */
  predicate Agrees(l: Limits, queue: seq<int>, times: seq<int>, clock: Option<int>) {
    && Sorted(times)
    && (forall k :: 0 <= k < |times| ==> Past(times[k], clock))
    && (l.maxNewPerIp > 0 ==> Refines(queue, times, clock, l.window))
  }

  /** The limiter's invariant for one ip. */
  predicate InvFor(l: Limits, t: Traced, ip: string) {
    Agrees(l, QueueOf(t.st, ip), TimesOf(t.log, ip), t.clock)
  }

  lemma {:induction false} TrimIsSuffix(queue: seq<int>, now: int, window: int)
    ensures var q := Trim(queue, now, window);
            && |q| <= |queue| && q == queue[|queue| - |q|..]
            && (forall i :: 0 <= i < |queue| - |q| ==> now - queue[i] > window)
            && (q != [] ==> now - q[0] <= window)
  {
    if queue != [] && now - queue[0] > window {
      TrimIsSuffix(queue[1..], now, window);
    }
  }

  lemma {:induction false} YoungSplits(aged: seq<int>, young: seq<int>, now: int, window: int)
    requires forall i :: 0 <= i < |aged| ==> now - aged[i] > window
    requires forall i :: 0 <= i < |young| ==> now - young[i] <= window
    ensures Young(aged + young, now, window) == |young|
  {
    var all := aged + young;
    if young != [] {
      assert all[..|all| - 1] == aged + young[..|young| - 1];
      YoungSplits(aged, young[..|young| - 1], now, window);
    } else if aged != [] {
      assert all == aged && aged[..|aged| - 1] + [] == aged[..|aged| - 1];
      YoungSplits(aged[..|aged| - 1], [], now, window);
    }
  }

  /** Trimming the queue leaves exactly the young entries of the full log. */
  lemma TrimCounts(queue: seq<int>, times: seq<int>, clock: Option<int>, now: int, window: int)
    requires Sorted(times) && Refines(queue, times, clock, window)
    requires clock.Some? ==> clock.value <= now
    ensures |Trim(queue, now, window)| == Young(times, now, window)
    ensures Refines(Trim(queue, now, window), times, Some(now), window)
  {
    var q := Trim(queue, now, window);
    hide Sorted, Trim;
    AgedIsOld(queue, times, clock, now, window);
    var cut := |times| - |q|;
    assert times == times[..cut] + q;
    YoungSplits(times[..cut], q, now, window);
  }

  /** What is not in the trimmed queue is too old, what is in it is not. */
  lemma AgedIsOld(queue: seq<int>, times: seq<int>, clock: Option<int>, now: int, window: int)
    requires Sorted(times) && Refines(queue, times, clock, window)
    requires clock.Some? ==> clock.value <= now
    ensures var q := Trim(queue, now, window);
            && |q| <= |times| && q == times[|times| - |q|..]
            && (forall i :: 0 <= i < |times| - |q| ==> now - times[i] > window)
            && (forall i :: 0 <= i < |q| ==> now - q[i] <= window)
  {
    TrimIsSuffix(queue, now, window);
    hide Trim;
    var q := Trim(queue, now, window);
    assert q == times[|times| - |q|..];
    forall i | 0 <= i < |times| - |q| ensures now - times[i] > window {
      if i >= |times| - |queue| {
        assert times[i] == queue[i - (|times| - |queue|)];
      } else {
        assert TooOld(times[i], clock, window);
      }
    }
    forall i | 0 <= i < |q| ensures now - q[i] <= window {
      assert q[i] == times[|times| - |q| + i] && q[0] == times[|times| - |q|];
    }
  }

  lemma TimesAppend(log: seq<Admission>, a: Admission, ip: string)
    ensures TimesOf(log + [a], ip) == TimesOf(log, ip) + (if a.ip == ip then [a.time] else [])
  {
    assert (log + [a])[..|log|] == log;
  }

  lemma AgreesLater(l: Limits, queue: seq<int>, times: seq<int>, clock: Option<int>, now: int)
    requires Agrees(l, queue, times, clock) && (clock.Some? ==> clock.value <= now)
    ensures Agrees(l, queue, times, Some(now))
  {
    assert forall k :: 0 <= k < |times| ==> Past(times[k], clock);
    if l.maxNewPerIp > 0 { RefinesLater(queue, times, clock, now, l.window); }
  }

  lemma RefinesLater(queue: seq<int>, times: seq<int>, clock: Option<int>, now: int, window: int)
    requires Refines(queue, times, clock, window) && (clock.Some? ==> clock.value <= now)
    ensures Refines(queue, times, Some(now), window)
  {
    assert forall i :: 0 <= i < |times| - |queue| ==> TooOld(times[i], clock, window);
  }

  lemma AgreesTrimmed(l: Limits, queue: seq<int>, times: seq<int>, clock: Option<int>, now: int)
    requires Agrees(l, queue, times, clock) && (clock.Some? ==> clock.value <= now)
    ensures Agrees(l, Trim(queue, now, l.window), times, Some(now))
  {
    if l.maxNewPerIp > 0 {
      hide Sorted, Refines, Trim;
      TrimCounts(queue, times, clock, now, l.window);
    }
  }

  lemma AgreesAdmitted(l: Limits, queue: seq<int>, times: seq<int>, now: int)
    requires Agrees(l, queue, times, Some(now))
    ensures Agrees(l, if l.maxNewPerIp > 0 then queue + [now] else queue, times + [now], Some(now))
  {
    SortedAppend(times, now);
    if l.maxNewPerIp > 0 {
      assert (times + [now])[|times| - |queue|..] == queue + [now];
    }
  }

  lemma DoKeeps(l: Limits, t: Traced, c: Call, ip: string)
    requires InvFor(l, t, ip) && Timely(t, c)
    ensures InvFor(l, Do(l, t, c), ip)
  {
    if c.Acquire? {
      AcquireKeeps(l, t, c.ip, c.now, ip);
    } else {
      ReleaseKeepsQueues(l, t, c, ip);
      SameInv(l, t, Do(l, t, c), ip);
    }
  }

  lemma ReleaseKeepsQueues(l: Limits, t: Traced, c: Call, ip: string)
    requires c.Free?
    ensures var t' := Do(l, t, c); t'.log == t.log && t'.clock == t.clock && QueueOf(t'.st, ip) == QueueOf(t.st, ip)
  {}

  lemma SameInv(l: Limits, t: Traced, t': Traced, ip: string)
    requires InvFor(l, t, ip)
    requires t'.log == t.log && t'.clock == t.clock && QueueOf(t'.st, ip) == QueueOf(t.st, ip)
    ensures InvFor(l, t', ip)
  {
    hide Agrees, TimesOf, QueueOf;
  }

  predicate CountsAllow(l: Limits, st: State, ip: string) {
    && (l.maxTotal == 0 || st.total < l.maxTotal)
    && (l.maxPerIp == 0 || CountOf(st, ip) < l.maxPerIp)
  }

  /** What an attempt does to the queue of any ip. */
  lemma QueueAfter(l: Limits, st: State, who: string, now: int, ip: string)
    ensures TryAcquire(l, st, who, now).0 ==> CountsAllow(l, st, who)
    ensures QueueOf(TryAcquire(l, st, who, now).1, ip) ==
              if ip != who || l.maxNewPerIp == 0 || !CountsAllow(l, st, who) then QueueOf(st, ip)
              else Trim(QueueOf(st, ip), now, l.window) + (if TryAcquire(l, st, who, now).0 then [now] else [])
  {
    var q := Trim(QueueOf(st, who), now, l.window);
    assert q + [] == q;
  }

  lemma AcquireKeeps(l: Limits, t: Traced, who: string, now: int, ip: string)
    requires InvFor(l, t, ip) && Timely(t, Acquire(who, now))
    ensures InvFor(l, Do(l, t, Acquire(who, now)), ip)
  {
    hide Agrees, TimesOf, Trim, TryAcquire, QueueOf, CountsAllow;
    var times, queue := TimesOf(t.log, ip), QueueOf(t.st, ip);
    QueueAfter(l, t.st, who, now, ip);
    TimesAppend(t.log, Admission(who, now), ip);
    assert times + [] == times;
    var ok := TryAcquire(l, t.st, who, now).0;
    if ip != who || l.maxNewPerIp == 0 || !CountsAllow(l, t.st, who) {
      AgreesLater(l, queue, times, t.clock, now);
      if ip == who && ok { AgreesAdmitted(l, queue, times, now); }
    } else {
      var trimmed := Trim(queue, now, l.window);
      AgreesTrimmed(l, queue, times, t.clock, now);
      assert trimmed + [] == trimmed;
      if ok { AgreesAdmitted(l, trimmed, times, now); }
    }
  }

  lemma SortedAppend(s: seq<int>, x: int)
    requires Sorted(s) && forall k :: 0 <= k < |s| ==> s[k] <= x
    ensures Sorted(s + [x])
  {}

  lemma {:induction false} RunKeeps(l: Limits, calls: seq<Call>, ip: string)
    requires Run(l, calls).Some?
    ensures InvFor(l, Run(l, calls).value, ip)
  {
    hide InvFor, Do;
    if calls == [] {
      StartInv(l, ip);
    } else {
      RunKeeps(l, calls[..|calls| - 1], ip);
      DoKeeps(l, Run(l, calls[..|calls| - 1]).value, calls[|calls| - 1], ip);
    }
  }

  lemma StartInv(l: Limits, ip: string)
    ensures InvFor(l, START, ip)
  {}

  /**
    After any run, a connection is admitted exactly when both counts and the window allow it,
    the window being counted over every past admission of the ip.
   */
  lemma ExactLimiter(l: Limits, calls: seq<Call>, ip: string, now: int)
    requires Run(l, calls).Some? && Timely(Run(l, calls).value, Acquire(ip, now))
    ensures var t := Run(l, calls).value;
            TryAcquire(l, t.st, ip, now).0 <==>
              && (l.maxTotal == 0 || t.st.total < l.maxTotal)
              && (l.maxPerIp == 0 || CountOf(t.st, ip) < l.maxPerIp)
              && (l.maxNewPerIp == 0 || Young(TimesOf(t.log, ip), now, l.window) < l.maxNewPerIp)
  {
    RunKeeps(l, calls, ip);
    var t := Run(l, calls).value;
    if l.maxNewPerIp > 0 {
      TrimCounts(QueueOf(t.st, ip), TimesOf(t.log, ip), t.clock, now, l.window);
    }
  }

  /** How many of these times lie in [from, from + window]. */
  function Within(times: seq<int>, from: int, window: int): nat {
    if times == [] then 0
    else Within(times[..|times| - 1], from, window) + (if from <= times[|times| - 1] <= from + window then 1 else 0)
  }

  lemma WithinAppend(times: seq<int>, now: int, from: int, window: int)
    ensures Within(times + [now], from, window) ==
            Within(times, from, window) + (if from <= now <= from + window then 1 else 0)
  {
    assert (times + [now])[..|times|] == times;
  }

  /** No closed interval of the window's length holds more admissions of one ip than allowed. */
  lemma {:induction false} WindowNeverExceeded(l: Limits, calls: seq<Call>, ip: string, from: int)
    requires Run(l, calls).Some? && l.maxNewPerIp > 0
    ensures Within(TimesOf(Run(l, calls).value.log, ip), from, l.window) <= l.maxNewPerIp
  {
    if calls != [] {
      hide TryAcquire, TimesOf, Within, Young;
      var c, earlier := calls[|calls| - 1], calls[..|calls| - 1];
      WindowNeverExceeded(l, earlier, ip, from);
      var t := Run(l, earlier).value;
      var times := TimesOf(t.log, ip);
      assert times + [] == times;
      if c.Acquire? && TryAcquire(l, t.st, c.ip, c.now).0 {
        TimesAppend(t.log, Admission(c.ip, c.now), ip);
        if c.ip == ip {
          WithinAppend(times, c.now, from, l.window);
          ExactLimiter(l, earlier, ip, c.now);
          if from <= c.now <= from + l.window { WithinIsYoung(times, from, c.now, l.window); }
        }
      }
    }
  }

  lemma {:induction false} WithinIsYoung(times: seq<int>, from: int, now: int, window: int)
    requires from <= now <= from + window
    ensures Within(times, from, window) <= Young(times, now, window)
  {
    if times != [] { WithinIsYoung(times[..|times| - 1], from, now, window); }
  }
}
