/**
  The offset-based receive buffer (include/apr/stream_accumulator.hpp).

  `State` is the buffer as a value, with one function for each operation; the
  class does the same in place.  The lemmas are about whole runs: what a reader
  sees is a plain queue, and the deferred shifting is paid for by consumption.
 */
module StreamAccumulator {

  /** The threshold that compact_if_needed uses when it is given none. */
  const DEFAULT_THRESHOLD: nat := 4096

  datatype State<T> = State(buf: seq<T>, offset: nat) {
    predicate Valid() { offset <= |buf| }

    /** The unconsumed bytes. */
    function View(): seq<T>
      requires Valid()
    {
      buf[offset..]
    }

    function Append(data: seq<T>): State<T> {
      State(buf + data, offset)
    }

    function Consume(n: nat): State<T> {
      State(buf, offset + n)
    }

    function Compact(threshold: nat): State<T>
      requires Valid()
    {
      if offset == 0 then this
      else if offset == |buf| then State([], 0)
      else if offset >= threshold then State(buf[offset..], 0)
      else this
    }

    /** The bytes that compaction moves to the front. */
    function Shifted(threshold: nat): nat
      requires Valid()
    {
      if 0 < offset < |buf| && offset >= threshold then |buf| - offset else 0
    }
  }

  class Accumulator<T> {
    var buf: seq<T>
    var offset: nat

    function S(): State<T>
      reads this
    {
      State(buf, offset)
    }

    constructor ()
      ensures S() == State([], 0)
    {
      buf, offset := [], 0;
    }

    /** The reader sees the data behind what it has not consumed yet. */
    method Append(data: seq<T>)
      modifies this
      ensures S() == old(S()).Append(data)
      ensures old(S().Valid()) ==> S().Valid() && S().View() == old(S().View()) + data
    {
      buf := buf + data;
    }

    method Size() returns (n: nat)
      requires S().Valid()
      ensures n == |S().View()|
    {
      n := |buf| - offset;
    }

    method Empty() returns (b: bool)
      requires S().Valid()
      ensures b == (S().View() == [])
    {
      b := |buf| - offset == 0;
    }

    /** Only moves the offset: the caller has processed n bytes that were there. */
    method Consume(n: nat)
      requires S().Valid() && n <= |S().View()|
      modifies this
      ensures S() == old(S()).Consume(n) && S().Valid()
      ensures S().View() == old(S().View())[n..]
    {
      offset := offset + n;
    }

    method CompactIfNeeded(threshold: nat)
      requires S().Valid()
      modifies this
      ensures S() == old(S()).Compact(threshold) && S().Valid()
      ensures S().View() == old(S().View())
    {
      if offset == 0 { return; }
      if offset == |buf| {
        buf := [];
        offset := 0;
        return;
      }
      if offset >= threshold {
        buf := buf[offset..];
        offset := 0;
      }
    }

    method TotalCapacity() returns (n: nat)
      ensures n == |S().buf|
    {
      n := |buf|;
    }

    method Clear()
      modifies this
      ensures S() == State([], 0)
    {
      buf := [];
      offset := 0;
    }
  }

  // ---------- runs ----------

  datatype Op<T> = Append(data: seq<T>) | Consume(n: nat) | Compact

  predicate Enabled<T>(s: State<T>, op: Op<T>) {
    s.Valid() && (op.Consume? ==> op.n <= |s.View()|)
  }

  function Do<T>(s: State<T>, op: Op<T>, threshold: nat): State<T>
    requires Enabled(s, op)
  {
    match op
    case Append(data) => s.Append(data)
    case Consume(n) => s.Consume(n)
    case Compact => s.Compact(threshold)
  }

  /** What the same operation does to a plain queue; compaction does nothing. */
  function QueueDo<T>(q: seq<T>, op: Op<T>): seq<T>
    requires op.Consume? ==> op.n <= |q|
  {
    match op
    case Append(data) => q + data
    case Consume(n) => q[n..]
    case Compact => q
  }

  /** Every operation keeps the buffer valid and acts on the view as on a plain queue. */
  lemma ViewIsQueue<T>(s: State<T>, op: Op<T>, threshold: nat)
    requires Enabled(s, op)
    ensures Do(s, op, threshold).Valid()
    ensures Do(s, op, threshold).View() == QueueDo(s.View(), op)
  {
    match op
    case Append(data) => assert (s.buf + data)[s.offset..] == s.buf[s.offset..] + data;
    case Consume(n) => assert s.buf[s.offset + n..] == s.buf[s.offset..][n..];
    case Compact =>
  }

  /** Right after compaction less than `threshold` bytes are held beyond the unconsumed ones. */
  lemma CapacityAfterCompact<T>(s: State<T>, threshold: nat)
    requires s.Valid() && threshold > 0
    ensures |s.Compact(threshold).buf| < |s.Compact(threshold).View()| + threshold
  {}

  predicate EnabledRun<T>(s: State<T>, ops: seq<Op<T>>, threshold: nat)
    decreases |ops|
  {
    ops == [] || (Enabled(s, ops[0]) && EnabledRun(Do(s, ops[0], threshold), ops[1..], threshold))
  }

  function DoAll<T>(s: State<T>, ops: seq<Op<T>>, threshold: nat): State<T>
    requires EnabledRun(s, ops, threshold)
    decreases |ops|
  {
    if ops == [] then s else DoAll(Do(s, ops[0], threshold), ops[1..], threshold)
  }

  predicate QueueEnabled<T>(q: seq<T>, ops: seq<Op<T>>)
    decreases |ops|
  {
    ops == [] || ((ops[0].Consume? ==> ops[0].n <= |q|) && QueueEnabled(QueueDo(q, ops[0]), ops[1..]))
  }

  function QueueAll<T>(q: seq<T>, ops: seq<Op<T>>): seq<T>
    requires QueueEnabled(q, ops)
    decreases |ops|
  {
    if ops == [] then q else QueueAll(QueueDo(q, ops[0]), ops[1..])
  }

  /** Over any run the reader sees a plain queue, and compaction is invisible. */
  lemma {:induction false} RunIsQueue<T>(s: State<T>, ops: seq<Op<T>>, threshold: nat)
    requires s.Valid()
    ensures EnabledRun(s, ops, threshold) == QueueEnabled(s.View(), ops)
    ensures EnabledRun(s, ops, threshold) ==>
              DoAll(s, ops, threshold).Valid() && DoAll(s, ops, threshold).View() == QueueAll(s.View(), ops)
    decreases |ops|
  {
    if ops != [] && Enabled(s, ops[0]) {
      ViewIsQueue(s, ops[0], threshold);
      RunIsQueue(Do(s, ops[0], threshold), ops[1..], threshold);
    }
  }

  /** The bytes moved by all compactions of a run. */
  function TotalShifted<T>(s: State<T>, ops: seq<Op<T>>, threshold: nat): nat
    requires EnabledRun(s, ops, threshold)
    decreases |ops|
  {
    if ops == [] then 0
    else (if ops[0].Compact? then s.Shifted(threshold) else 0)
         + TotalShifted(Do(s, ops[0], threshold), ops[1..], threshold)
  }

  function TotalConsumed<T>(ops: seq<Op<T>>): nat {
    if ops == [] then 0 else (if ops[0].Consume? then ops[0].n else 0) + TotalConsumed(ops[1..])
  }

  /** No state of the run has more than m unconsumed bytes. */
  predicate Peak<T>(s: State<T>, ops: seq<Op<T>>, threshold: nat, m: nat)
    requires s.Valid() && EnabledRun(s, ops, threshold)
    decreases |ops|
  {
    && |s.View()| <= m
    && (ops != [] ==>
          Do(s, ops[0], threshold).Valid() && Peak(Do(s, ops[0], threshold), ops[1..], threshold, m))
  }

  /** Each shift of at most m bytes is paid for by the `threshold` consumed bytes it drops. */
  lemma {:induction false} ShiftingIsPaid<T>(s: State<T>, ops: seq<Op<T>>, threshold: nat, m: nat)
    requires s.Valid() && EnabledRun(s, ops, threshold)
    requires Peak(s, ops, threshold, m)
    ensures TotalShifted(s, ops, threshold) * threshold <= (s.offset + TotalConsumed(ops)) * m
    decreases |ops|
  {
    if ops != [] {
      var s' := Do(s, ops[0], threshold);
      ViewIsQueue(s, ops[0], threshold);
      ShiftingIsPaid(s', ops[1..], threshold, m);
      var rest, later := TotalShifted(s', ops[1..], threshold), TotalConsumed(ops[1..]);
      match ops[0]
      case Append(_) =>
      case Consume(n) =>
        assert s'.offset + later == s.offset + TotalConsumed(ops);
      case Compact =>
        PayOneShift(s.Shifted(threshold), s.offset, s'.offset, rest, later, threshold, m);
    }
  }

  lemma PayOneShift(shift: nat, before: nat, after: nat, rest: nat, later: nat, threshold: nat, m: nat)
    requires rest * threshold <= (after + later) * m
    requires shift <= m && after <= before
    requires shift > 0 ==> after == 0 && before >= threshold
    ensures (shift + rest) * threshold <= (before + later) * m
  {
    if shift > 0 {
      assert shift * threshold <= m * threshold <= m * before;
      assert (before + later) * m == before * m + later * m;
      assert (shift + rest) * threshold == shift * threshold + rest * threshold;
    } else {
      assert (after + later) * m <= (before + later) * m;
    }
  }

  /** From an empty buffer: (bytes shifted) * threshold <= (bytes consumed) * (largest unconsumed size). */
  lemma AmortisedCost<T>(ops: seq<Op<T>>, threshold: nat, m: nat)
    requires EnabledRun(State([], 0), ops, threshold)
    requires Peak(State([], 0), ops, threshold, m)
    ensures TotalShifted(State([], 0), ops, threshold) * threshold <= TotalConsumed(ops) * m
  {
    ShiftingIsPaid(State([], 0), ops, threshold, m);
  }
}
