/**
  The WebSocket receive loop of a session (src/mqtt/mqtt_server.cpp, on_bytes_read).

  Bytes are appended to the receive buffer, decoded into frames and dispatched.  What a
  frame does to the session is a parameter, the `Handler`; MqttSession has the real one,
  and the results here hold for every handler.

  The loop stops for a session that is closing (a last response is queued), but not for
  one that a DISCONNECT has already closed: frames that came in the same read are still
  dispatched, those of later reads are never read.  `Drain` with `strict` set is the
  reference that ends the stream at the DISCONNECT.
 */
module WebSocketLoop {
  import opened Bytes
  import WS = WebSocketCodec
  import A = StreamAccumulator

  /** sizeof(rx_buffer_): the most that one read brings. */
  const READ_SIZE: nat := 4096

  datatype Handler<!S> = Handler(step: (S, WS.Frame) -> S, closing: S -> bool, closed: S -> bool)

  /** Why the loop ended for good: a close frame, the codec's exception, or the buffer cap. */
  datatype End = Open | CloseFrame | Thrown | Capped

  datatype Drained<S> = Drained(st: S, frames: seq<WS.Frame>, rest: seq<byte>, end: End) {
    function After(earlier: seq<WS.Frame>): Drained<S> {
      this.(frames := earlier + frames)
    }
  }

  /** The frames dispatched from the unconsumed bytes, and what is left of them. */
  function Drain<S>(h: Handler<S>, st: S, data: seq<byte>, strict: bool): (d: Drained<S>)
    ensures !d.end.Capped?
    decreases |data|
  {
    if h.closing(st) || data == [] || (strict && h.closed(st)) then Drained(st, [], data, Open)
    else
      match WS.Decode(data)
      case Incomplete => Drained(st, [], data, Open)
      case LengthError => Drained(st, [], data, Thrown)
      case Decoded(f, n) =>
        WS.ConsumedBounds(data);
        if f.opcode == 8 then Drained(h.step(st, f), [f], data[n..], CloseFrame)
        else Drain(h, h.step(st, f), data[n..], strict).After([f])
  }

  // ---------- the session ----------

  /** The loop's state: session, dispatched frames, receive buffer, and how the loop ended. */
  datatype Conn<S> = Conn(st: S, frames: seq<WS.Frame>, acc: A.State<byte>, end: End)

  /** A read is outstanding. A closed socket delivers nothing more. */
  predicate Reading<S>(h: Handler<S>, st: S, end: End) {
    end == Open && !h.closing(st) && !h.closed(st)
  }

  /** What one completed read does to a session that is reading. */
  function Feed<S>(h: Handler<S>, cap: nat, c: Conn<S>, chunk: seq<byte>): Conn<S>
    requires c.acc.Valid()
  {
    var acc := c.acc.Append(chunk);
    if |acc.buf| > cap then Conn(c.st, c.frames, acc, Capped)
    else
      var d := Drain(h, c.st, acc.View(), false);
      DrainRest(h, c.st, acc.View(), false);
      var consumed := acc.Consume(|acc.View()| - |d.rest|);
      Conn(d.st, c.frames + d.frames,
           if d.end == Open then consumed.Compact(A.DEFAULT_THRESHOLD) else consumed, d.end)
  }

  /** The first turn of the loop. */
  lemma DrainTurn<S>(h: Handler<S>, st: S, data: seq<byte>, strict: bool)
    ensures var d := Drain(h, st, data, strict);
            if h.closing(st) || data == [] || (strict && h.closed(st)) || WS.Decode(data).Incomplete? then
              d == Drained(st, [], data, Open)
            else if WS.Decode(data).LengthError? then d == Drained(st, [], data, Thrown)
            else
              var f, n := WS.Decode(data).frame, WS.Decode(data).consumed;
              && 2 <= n <= |data|
              && d == if f.opcode == 8 then Drained(h.step(st, f), [f], data[n..], CloseFrame)
                      else Drain(h, h.step(st, f), data[n..], strict).After([f])
  {
    hide WS.Decode;
    if WS.Decode(data).Decoded? { WS.ConsumedBounds(data); }
  }

  /** What is left is a suffix of what there was. */
  lemma {:induction false} DrainRest<S>(h: Handler<S>, st: S, data: seq<byte>, strict: bool)
    ensures var rest := Drain(h, st, data, strict).rest;
            |rest| <= |data| && rest == data[|data| - |rest|..]
    decreases |data|
  {
    hide WS.Decode;
    if !(h.closing(st) || data == [] || (strict && h.closed(st))) && WS.Decode(data).Decoded? {
      WS.ConsumedBounds(data);
      var f, n := WS.Decode(data).frame, WS.Decode(data).consumed;
      if f.opcode != 8 {
        DrainRest(h, h.step(st, f), data[n..], strict);
      }
    }
  }

  class Session<S> {
    const h: Handler<S>
    const cap: nat
    const rxAcc: A.Accumulator<byte>
    var st: S
    var frames: seq<WS.Frame>
    var end: End

    function C(): Conn<S>
      reads this, rxAcc
    {
      Conn(st, frames, rxAcc.S(), end)
    }

    /** A session whose WebSocket handshake is done, with what followed it still to come. */
    constructor (h: Handler<S>, st: S, cap: nat)
      ensures C() == Conn(st, [], A.State([], 0), Open)
      ensures this.h == h && this.cap == cap && fresh(rxAcc)
    {
      this.h, this.st, this.cap := h, st, cap;
      frames, end := [], Open;
      rxAcc := new A.Accumulator<byte>();
    }

    method OnBytesRead(data: seq<byte>)
      requires C().acc.Valid() && Reading(h, st, end)
      modifies this, rxAcc
      ensures C() == Feed(h, cap, old(C()), data) && C().acc.Valid()
    {
      rxAcc.Append(data);
      var held := rxAcc.TotalCapacity();
      if held > cap {
        end := Capped;
        return;
      }
      DrainRest(h, st, rxAcc.S().View(), false);
      DispatchFrames();
      if end == Open {
        rxAcc.CompactIfNeeded(A.DEFAULT_THRESHOLD);
      }
    }

    method DispatchFrames()
      requires rxAcc.S().Valid() && end == Open
      modifies this, rxAcc
      ensures rxAcc.S().Valid() && rxAcc.buf == old(rxAcc.buf)
      ensures var d := Drain(h, old(st), old(rxAcc.S().View()), false);
              && st == d.st && frames == old(frames) + d.frames && end == d.end
              && rxAcc.S().View() == d.rest
    {
      hide WS.Decode;
      ghost var d := Drain(h, st, rxAcc.S().View(), false);
      assert frames + d.frames == old(frames) + d.frames;
      var empty := rxAcc.Empty();
      while !h.closing(st) && !empty
        invariant rxAcc.S().Valid() && rxAcc.buf == old(rxAcc.buf) && end == Open
        invariant empty == (rxAcc.S().View() == [])
        invariant Drain(h, st, rxAcc.S().View(), false).After(frames) == d.After(old(frames))
        decreases |rxAcc.buf| - rxAcc.offset
      {
        ghost var view := rxAcc.S().View();
        var r := WS.DecodeFrame(rxAcc.buf[rxAcc.offset..]);
        if r.Incomplete? { break; }
        if r.LengthError? { end := Thrown; break; }
        WS.ConsumedBounds(view);
        rxAcc.Consume(r.consumed);
        assert rxAcc.S().View() == view[r.consumed..];
        DrainStep(h, st, view, frames);
        frames := frames + [r.frame];
        st := h.step(st, r.frame);
        if r.frame.opcode == 8 { end := CloseFrame; break; }
        empty := rxAcc.Empty();
      }
      assert st == d.st && end == d.end;
    }
  }

  lemma DrainStep<S>(h: Handler<S>, st: S, data: seq<byte>, earlier: seq<WS.Frame>)
    requires !h.closing(st) && WS.Decode(data).Decoded?
    ensures WS.Decode(data).consumed <= |data|
    ensures var f, rest := WS.Decode(data).frame, data[WS.Decode(data).consumed..];
            Drain(h, st, data, false).After(earlier) ==
              if f.opcode == 8 then Drained(h.step(st, f), earlier + [f], rest, CloseFrame)
              else Drain(h, h.step(st, f), rest, false).After(earlier + [f])
  {
    hide WS.Decode;
    WS.ConsumedBounds(data);
    var f, rest := WS.Decode(data).frame, data[WS.Decode(data).consumed..];
    var more := Drain(h, h.step(st, f), rest, false);
    assert earlier + [f] + more.frames == earlier + ([f] + more.frames);
  }

  // ---------- the same without the buffer ----------

  /** A connection whose pending bytes are a plain sequence. */
  datatype Plain<S> = Plain(st: S, frames: seq<WS.Frame>, pending: seq<byte>, end: End)

  function PlainOf<S>(c: Conn<S>): Plain<S>
    requires c.acc.Valid()
  {
    Plain(c.st, c.frames, c.acc.View(), c.end)
  }

  function FeedPlain<S>(h: Handler<S>, c: Plain<S>, chunk: seq<byte>, strict: bool): Plain<S> {
    if !Reading(h, c.st, c.end) then c
    else
      var d := Drain(h, c.st, c.pending + chunk, strict);
      Plain(d.st, c.frames + d.frames, d.rest, d.end)
  }

  /** The offset, the compaction and the deferred erase do not show: unless the cap is hit. */
  lemma FeedRefines<S>(h: Handler<S>, cap: nat, c: Conn<S>, chunk: seq<byte>)
    requires c.acc.Valid() && Reading(h, c.st, c.end)
    ensures Feed(h, cap, c, chunk).acc.Valid()
    ensures Feed(h, cap, c, chunk).end != Capped ==>
              PlainOf(Feed(h, cap, c, chunk)) == FeedPlain(h, PlainOf(c), chunk, false)
  {
    hide WS.Decode;
    var acc := c.acc.Append(chunk);
    A.ViewIsQueue(c.acc, A.Append(chunk), A.DEFAULT_THRESHOLD);
    DrainRest(h, c.st, acc.View(), false);
    var d := Drain(h, c.st, acc.View(), false);
    A.ViewIsQueue(acc, A.Consume(|acc.View()| - |d.rest|), A.DEFAULT_THRESHOLD);
    var consumed := acc.Consume(|acc.View()| - |d.rest|);
    A.ViewIsQueue(consumed, A.Compact, A.DEFAULT_THRESHOLD);
  }

  // ---------- how the stream was cut does not matter ----------

  function Concat(chunks: seq<seq<byte>>): seq<byte> {
    if chunks == [] then [] else chunks[0] + Concat(chunks[1..])
  }

  function Run<S>(h: Handler<S>, c: Plain<S>, chunks: seq<seq<byte>>): Plain<S>
    decreases |chunks|
  {
    if chunks == [] then c else Run(h, FeedPlain(h, c, chunks[0], false), chunks[1..])
  }

  /** What can be observed: session, frames, how it ended, and the tail that more bytes would extend. */
  function Outcome<S>(h: Handler<S>, c: Plain<S>): Plain<S> {
    if Reading(h, c.st, c.end) then c else c.(pending := [])
  }

  predicate Stuck(rest: seq<byte>) {
    rest == [] || WS.Decode(rest) == WS.Incomplete
  }

  function Min(a: int, b: int): int {
    if a < b then a else b
  }

  /** Reads of at least one and at most r bytes. */
  predicate Receivable(chunks: seq<seq<byte>>, r: nat) {
    forall i :: 0 <= i < |chunks| ==> 1 <= |chunks[i]| <= r
  }

  /**
    No complete frame lies in the r - 1 bytes behind a DISCONNECT: these are the bytes that can
    come in one read with the end of the DISCONNECT.
   */
  predicate NothingBehindDisconnect<S>(h: Handler<S>, c: Plain<S>, data: seq<byte>, r: nat)
    requires r > 0
  {
    var d := Drain(h, c.st, c.pending + data, true);
    Reading(h, c.st, c.end) && d.end == Open && h.closed(d.st) && !h.closing(d.st) ==>
      Stuck(d.rest[..Min(|d.rest|, r - 1)])
  }

  /** More bytes continue where the loop stopped, or lie behind the end unread. */
  lemma {:induction false} DrainSplit<S>(h: Handler<S>, st: S, a: seq<byte>, b: seq<byte>, strict: bool)
    ensures var d := Drain(h, st, a, strict);
            Drain(h, st, a + b, strict) ==
              if d.end == Open && !h.closing(d.st) && !(strict && h.closed(d.st))
              then Drain(h, d.st, d.rest + b, strict).After(d.frames)
              else d.(rest := d.rest + b)
    decreases |a|
  {
    hide WS.Decode, Drain;
    DrainTurn(h, st, a, strict);
    DrainTurn(h, st, a + b, strict);
    if h.closing(st) || (strict && h.closed(st)) {
    } else if a == [] {
      assert a + b == b;
      AfterNothing(Drain(h, st, b, strict));
    } else if WS.Decode(a).Incomplete? {
      AfterNothing(Drain(h, st, a + b, strict));
    } else {
      WS.DecodeStable(a, b);
      if WS.Decode(a).Decoded? {
        var f, n := WS.Decode(a).frame, WS.Decode(a).consumed;
        assert (a + b)[n..] == a[n..] + b;
        if f.opcode != 8 {
          DrainSplit(h, h.step(st, f), a[n..], b, strict);
          var d := Drain(h, h.step(st, f), a[n..], strict);
          var more := Drain(h, d.st, d.rest + b, strict).frames;
          assert [f] + (d.frames + more) == [f] + d.frames + more;
        }
      }
    }
  }

  lemma AfterNothing<S>(d: Drained<S>)
    ensures d.After([]) == d
  {
    assert [] + d.frames == d.frames;
  }

  /** The code's loop goes on exactly where the reference stopped at a DISCONNECT. */
  lemma {:induction false} LooseContinues<S>(h: Handler<S>, st: S, data: seq<byte>)
    ensures var s := Drain(h, st, data, true);
            Drain(h, st, data, false) ==
              if s.end == Open && h.closed(s.st) && !h.closing(s.st)
              then Drain(h, s.st, s.rest, false).After(s.frames) else s
    decreases |data|
  {
    hide WS.Decode, Drain;
    DrainTurn(h, st, data, true);
    DrainTurn(h, st, data, false);
    if !h.closing(st) && h.closed(st) {
      AfterNothing(Drain(h, st, data, false));
    } else if !h.closing(st) && data != [] && WS.Decode(data).Decoded? {
      var f, n := WS.Decode(data).frame, WS.Decode(data).consumed;
      if f.opcode != 8 {
        LooseContinues(h, h.step(st, f), data[n..]);
        var d := Drain(h, h.step(st, f), data[n..], true);
        var more := Drain(h, d.st, d.rest, false).frames;
        assert [f] + (d.frames + more) == [f] + d.frames + more;
      }
    } else {
      DrainTurn(h, st, data, false);
      AfterNothing(Drained(st, [], data, Open));
    }
  }

  /** If the loop stopped in an open session, what is left is not a frame yet. */
  lemma {:induction false} TailUndecodable<S>(h: Handler<S>, st: S, data: seq<byte>, strict: bool)
    ensures var d := Drain(h, st, data, strict);
            d.end == Open && !h.closing(d.st) && !(strict && h.closed(d.st)) ==> Stuck(d.rest)
    decreases |data|
  {
    hide WS.Decode;
    if !(h.closing(st) || data == [] || (strict && h.closed(st))) && WS.Decode(data).Decoded? {
      WS.ConsumedBounds(data);
      var f, n := WS.Decode(data).frame, WS.Decode(data).consumed;
      if f.opcode != 8 {
        TailUndecodable(h, h.step(st, f), data[n..], strict);
      }
    }
  }

  /** If the bytes behind a DISCONNECT are not a frame yet, the code's loop stops there too. */
  lemma FeedIsStrict<S>(h: Handler<S>, c: Plain<S>, data: seq<byte>)
    requires var d := Drain(h, c.st, c.pending + data, true);
             d.end == Open && h.closed(d.st) && !h.closing(d.st) ==> Stuck(d.rest)
    ensures FeedPlain(h, c, data, false) == FeedPlain(h, c, data, true)
  {
    LooseContinues(h, c.st, c.pending + data);
    var s := Drain(h, c.st, c.pending + data, true);
    assert s.frames + [] == s.frames;
  }

  lemma StuckPrefix(a: seq<byte>, b: seq<byte>)
    requires Stuck(a + b)
    ensures Stuck(a)
  {
    assert a == (a + b)[..|a|];
    if a != [] { WS.PrefixIncomplete(a + b, |a|); }
  }

  /** A DISCONNECT that this read completes leaves less than the read behind it. */
  lemma RestWithinRead<S>(h: Handler<S>, st: S, pending: seq<byte>, read: seq<byte>)
    requires Stuck(pending) && read != [] && !h.closed(st)
    ensures var d := Drain(h, st, pending + read, true); h.closed(d.st) ==> |d.rest| < |read|
  {
    hide WS.Decode, Drain;
    var data := pending + read;
    DrainTurn(h, st, data, true);
    if !h.closing(st) && WS.Decode(data).Decoded? {
      var f, n := WS.Decode(data).frame, WS.Decode(data).consumed;
      assert data[..|pending|] == pending;
      if n <= |pending| { WS.ConsumedSuffices(data, |pending|); }
      assert n > |pending|;
      DrainRest(h, h.step(st, f), data[n..], true);
    }
  }

  /** Two reads, one after the other, against one read of both. */
  lemma FeedSplit<S>(h: Handler<S>, c: Plain<S>, a: seq<byte>, b: seq<byte>, r: nat)
    requires 1 <= |a| <= r && Stuck(c.pending)
    requires NothingBehindDisconnect(h, c, a + b, r)
    ensures FeedPlain(h, c, a, false) == FeedPlain(h, c, a, true)
    ensures NothingBehindDisconnect(h, FeedPlain(h, c, a, true), b, r)
    ensures Outcome(h, FeedPlain(h, FeedPlain(h, c, a, true), b, true)) == Outcome(h, FeedPlain(h, c, a + b, true))
  {
    hide Drain, Stuck;
    if Reading(h, c.st, c.end) {
      DrainSplit(h, c.st, c.pending + a, b, true);
      assert c.pending + a + b == c.pending + (a + b);
      var d := Drain(h, c.st, c.pending + a, true);
      if d.end == Open && h.closed(d.st) && !h.closing(d.st) {
        RestWithinRead(h, c.st, c.pending, a);
        var seen := (d.rest + b)[..Min(|d.rest + b|, r - 1)];
        assert seen == d.rest + seen[|d.rest|..];
        StuckPrefix(d.rest, seen[|d.rest|..]);
      }
      FeedIsStrict(h, c, a);
      var e := Drain(h, d.st, d.rest + b, true);
      assert c.frames + d.frames + e.frames == c.frames + (d.frames + e.frames);
    }
  }

  /** However the stream is cut into reads of at most r bytes, the session ends up as if it had come in one piece. */
  lemma {:induction false} RunIsWhole<S>(h: Handler<S>, c: Plain<S>, chunks: seq<seq<byte>>, r: nat)
    requires r > 0 && Receivable(chunks, r) && NothingBehindDisconnect(h, c, Concat(chunks), r)
    requires Stuck(c.pending)
    ensures Outcome(h, Run(h, c, chunks)) == Outcome(h, FeedPlain(h, c, Concat(chunks), true))
    decreases |chunks|
  {
    if chunks == [] {
      NothingRead(h, c);
    } else {
      hide Drain, Stuck, NothingBehindDisconnect;
      var a, b := chunks[0], Concat(chunks[1..]);
      FeedSplit(h, c, a, b, r);
      var c' := FeedPlain(h, c, a, false);
      if Reading(h, c'.st, c'.end) {
        TailUndecodable(h, c.st, c.pending + a, false);
        assert Receivable(chunks[1..], r);
        RunIsWhole(h, c', chunks[1..], r);
      } else {
        RunStopped(h, c', chunks[1..]);
      }
    }
  }

  lemma NothingRead<S>(h: Handler<S>, c: Plain<S>)
    requires Stuck(c.pending)
    ensures FeedPlain(h, c, [], true) == c
  {
    assert c.pending + [] == c.pending;
    assert c.frames + [] == c.frames;
  }

  lemma {:induction false} RunStopped<S>(h: Handler<S>, c: Plain<S>, chunks: seq<seq<byte>>)
    requires !Reading(h, c.st, c.end)
    ensures Run(h, c, chunks) == c
    decreases |chunks|
  {
    if chunks != [] {
      RunStopped(h, c, chunks[1..]);
    }
  }

  // ---------- the same with the buffer ----------

  /** The session over a run of reads; a session that is not reading gets no more. */
  function RunBuffered<S>(h: Handler<S>, cap: nat, c: Conn<S>, chunks: seq<seq<byte>>): (r: Conn<S>)
    requires c.acc.Valid()
    ensures r.acc.Valid()
    decreases |chunks|
  {
    if chunks == [] || !Reading(h, c.st, c.end) then c
    else
      FeedRefines(h, cap, c, chunks[0]);
      RunBuffered(h, cap, Feed(h, cap, c, chunks[0]), chunks[1..])
  }

  /** Unless it is ended by the cap, the buffered run is the plain one. */
  lemma {:induction false} BufferedRunIsPlain<S>(h: Handler<S>, cap: nat, c: Conn<S>, chunks: seq<seq<byte>>)
    requires c.acc.Valid() && RunBuffered(h, cap, c, chunks).end != Capped
    ensures PlainOf(RunBuffered(h, cap, c, chunks)) == Run(h, PlainOf(c), chunks)
    decreases |chunks|
  {
    hide Feed, FeedPlain;
    if !Reading(h, c.st, c.end) {
      RunStopped(h, PlainOf(c), chunks);
    } else if chunks != [] {
      FeedRefines(h, cap, c, chunks[0]);
      BufferedRunIsPlain(h, cap, Feed(h, cap, c, chunks[0]), chunks[1..]);
    }
  }

  function Opened<S>(st: S): Conn<S> {
    Conn(st, [], A.State([], 0), Open)
  }

  /**
    on_bytes_read over any run of reads that does not hit the cap: the outcome is that of the whole
    stream, decoded up to its end, close frame or DISCONNECT.
   */
  lemma BufferedRunIsWhole<S>(h: Handler<S>, cap: nat, st: S, chunks: seq<seq<byte>>, r: nat)
    requires r > 0 && Receivable(chunks, r) && NothingBehindDisconnect(h, Fresh(st), Concat(chunks), r)
    requires RunBuffered(h, cap, Opened(st), chunks).end != Capped
    ensures Outcome(h, PlainOf(RunBuffered(h, cap, Opened(st), chunks)))
         == Outcome(h, FeedPlain(h, Fresh(st), Concat(chunks), true))
  {
    hide RunBuffered, Run, NothingBehindDisconnect, Outcome, FeedPlain;
    BufferedRunIsPlain(h, cap, Opened(st), chunks);
    RunIsWhole(h, Fresh(st), chunks, r);
  }

  /** The session still reads after the first i reads, and the next one brings the buffer beyond the cap. */
  predicate Overflows<S>(h: Handler<S>, cap: nat, c: Conn<S>, chunks: seq<seq<byte>>, i: nat)
    requires c.acc.Valid()
  {
    i < |chunks|
    && var before := RunBuffered(h, cap, c, chunks[..i]);
       Reading(h, before.st, before.end) && |before.acc.buf| + |chunks[i]| > cap
  }

  /** The run is ended by the cap exactly if some read brings the buffer beyond it. */
  lemma {:induction false} CappedIff<S>(h: Handler<S>, cap: nat, c: Conn<S>, chunks: seq<seq<byte>>)
    requires c.acc.Valid() && c.end != Capped
    ensures RunBuffered(h, cap, c, chunks).end == Capped <==> exists i :: Overflows(h, cap, c, chunks, i)
    decreases |chunks|
  {
    hide Feed, Reading, Overflows, RunBuffered;
    BufferedTurn(h, cap, c, chunks);
    if chunks == [] || !Reading(h, c.st, c.end) {
      NoOverflow(h, cap, c, chunks);
    } else {
      var c', more := Feed(h, cap, c, chunks[0]), chunks[1..];
      FeedRefines(h, cap, c, chunks[0]);
      FeedCapped(h, cap, c, chunks[0]);
      FirstOverflow(h, cap, c, chunks);
      if c'.end == Capped {
        BufferedTurn(h, cap, c', more);
        NotReading(h, c'.st, c'.end);
      } else {
        CappedIff(h, cap, c', more);
        LaterOverflows(h, cap, c, chunks);
      }
    }
  }

  lemma BufferedTurn<S>(h: Handler<S>, cap: nat, c: Conn<S>, chunks: seq<seq<byte>>)
    requires c.acc.Valid()
    ensures chunks == [] || !Reading(h, c.st, c.end) ==> RunBuffered(h, cap, c, chunks) == c
    ensures chunks != [] && Reading(h, c.st, c.end) ==>
              var c' := Feed(h, cap, c, chunks[0]);
              c'.acc.Valid() && RunBuffered(h, cap, c, chunks) == RunBuffered(h, cap, c', chunks[1..])
  {
    hide Feed;
    if Reading(h, c.st, c.end) && chunks != [] { FeedRefines(h, cap, c, chunks[0]); }
  }

  lemma NotReading<S>(h: Handler<S>, st: S, end: End)
    ensures end != Open ==> !Reading(h, st, end)
  {}

  lemma FeedCapped<S>(h: Handler<S>, cap: nat, c: Conn<S>, chunk: seq<byte>)
    requires c.acc.Valid()
    ensures Feed(h, cap, c, chunk).end == Capped <==> |c.acc.buf| + |chunk| > cap
  {
    hide Drain;
  }

  lemma NoOverflow<S>(h: Handler<S>, cap: nat, c: Conn<S>, chunks: seq<seq<byte>>)
    requires c.acc.Valid() && (chunks == [] || !Reading(h, c.st, c.end))
    ensures forall i :: !Overflows(h, cap, c, chunks, i)
  {
    hide Reading, Feed;
  }

  lemma FirstOverflow<S>(h: Handler<S>, cap: nat, c: Conn<S>, chunks: seq<seq<byte>>)
    requires c.acc.Valid() && chunks != [] && Reading(h, c.st, c.end)
    ensures Overflows(h, cap, c, chunks, 0) <==> |c.acc.buf| + |chunks[0]| > cap
  {
    hide Reading, Feed;
    assert chunks[..0] == [];
  }

  lemma LaterOverflows<S>(h: Handler<S>, cap: nat, c: Conn<S>, chunks: seq<seq<byte>>)
    requires c.acc.Valid() && chunks != [] && Reading(h, c.st, c.end)
    requires Feed(h, cap, c, chunks[0]).acc.Valid()
    ensures (exists i :: Overflows(h, cap, c, chunks, i)) <==>
            Overflows(h, cap, c, chunks, 0)
            || exists i :: Overflows(h, cap, Feed(h, cap, c, chunks[0]), chunks[1..], i)
  {
    var c', more := Feed(h, cap, c, chunks[0]), chunks[1..];
    hide Reading, Feed, Overflows;
    forall i | 0 <= i < |more|
      ensures Overflows(h, cap, c', more, i) <==> Overflows(h, cap, c, chunks, i + 1)
    {
      LaterOverflow(h, cap, c, chunks, i);
    }
    if i: nat :| Overflows(h, cap, c, chunks, i) && i > 0 {
      OverflowIndex(h, cap, c, chunks, i);
      assert Overflows(h, cap, c', more, i - 1);
    }
    if i: nat :| Overflows(h, cap, c', more, i) {
      OverflowIndex(h, cap, c', more, i);
      assert Overflows(h, cap, c, chunks, i + 1);
    }
  }

  lemma OverflowIndex<S>(h: Handler<S>, cap: nat, c: Conn<S>, chunks: seq<seq<byte>>, i: nat)
    requires c.acc.Valid() && Overflows(h, cap, c, chunks, i)
    ensures i < |chunks|
  {}

  lemma LaterOverflow<S>(h: Handler<S>, cap: nat, c: Conn<S>, chunks: seq<seq<byte>>, i: nat)
    requires c.acc.Valid() && i + 1 < |chunks| && Reading(h, c.st, c.end)
    requires Feed(h, cap, c, chunks[0]).acc.Valid()
    ensures Overflows(h, cap, Feed(h, cap, c, chunks[0]), chunks[1..], i) <==> Overflows(h, cap, c, chunks, i + 1)
  {
    hide Feed, Reading, RunBuffered;
    BufferedTurn(h, cap, c, chunks[..i + 1]);
    assert chunks[..i + 1][1..] == chunks[1..][..i];
  }

  /** With at most `left` undecoded bytes kept and reads of at most `read`, this cap is never hit. */
  lemma CapNotHit<S>(h: Handler<S>, cap: nat, c: Conn<S>, chunk: seq<byte>, left: nat, read: nat)
    requires c.acc.Valid() && |c.acc.buf| < |c.acc.View()| + A.DEFAULT_THRESHOLD
    requires |c.acc.View()| <= left && |chunk| <= read
    requires left + read + A.DEFAULT_THRESHOLD <= cap + 1
    ensures Feed(h, cap, c, chunk).end != Capped
    ensures var c' := Feed(h, cap, c, chunk);
            c'.end == Open ==> c'.acc.Valid() && |c'.acc.buf| < |c'.acc.View()| + A.DEFAULT_THRESHOLD
  {
    hide WS.Decode;
    var acc := c.acc.Append(chunk);
    DrainRest(h, c.st, acc.View(), false);
    var d := Drain(h, c.st, acc.View(), false);
    A.CapacityAfterCompact(acc.Consume(|acc.View()| - |d.rest|), A.DEFAULT_THRESHOLD);
  }

  /** No undecoded tail of the run is longer than `left`. */
  predicate TailsWithin<S>(h: Handler<S>, c: Plain<S>, chunks: seq<seq<byte>>, left: nat)
    decreases |chunks|
  {
    |c.pending| <= left && (chunks != [] ==> TailsWithin(h, FeedPlain(h, c, chunks[0], false), chunks[1..], left))
  }

  /** A cap with room for the longest undecoded tail, one read and the compaction threshold is never hit. */
  lemma {:induction false} CapNeverHit<S>(h: Handler<S>, cap: nat, c: Conn<S>, chunks: seq<seq<byte>>,
                                          left: nat, r: nat)
    requires c.acc.Valid() && |c.acc.buf| < |c.acc.View()| + A.DEFAULT_THRESHOLD && c.end != Capped
    requires Receivable(chunks, r) && TailsWithin(h, PlainOf(c), chunks, left)
    requires left + r + 4096 <= cap + 1
    ensures RunBuffered(h, cap, c, chunks).end != Capped
    decreases |chunks|
  {
    if chunks != [] && Reading(h, c.st, c.end) {
      hide Feed, FeedPlain;
      CapNotHit(h, cap, c, chunks[0], left, r);
      FeedRefines(h, cap, c, chunks[0]);
      var c' := Feed(h, cap, c, chunks[0]);
      if c'.end == Open {
        CapNeverHit(h, cap, c', chunks[1..], left, r);
      }
    }
  }

  /** on_bytes_read as the whole stream, for every cap with that much room. */
  lemma ReadsAreWhole<S>(h: Handler<S>, cap: nat, st: S, chunks: seq<seq<byte>>, left: nat, r: nat)
    requires r > 0 && Receivable(chunks, r) && NothingBehindDisconnect(h, Fresh(st), Concat(chunks), r)
    requires TailsWithin(h, Fresh(st), chunks, left) && left + r + 4096 <= cap + 1
    ensures Outcome(h, PlainOf(RunBuffered(h, cap, Opened(st), chunks)))
         == Outcome(h, FeedPlain(h, Fresh(st), Concat(chunks), true))
  {
    hide RunBuffered, Run, NothingBehindDisconnect, Outcome, FeedPlain, TailsWithin;
    CapNeverHit(h, cap, Opened(st), chunks, left, r);
    BufferedRunIsWhole(h, cap, st, chunks, r);
  }

  // ---------- exactly when ----------

  function Fresh<S>(st: S): Plain<S> {
    Plain(st, [], [], Open)
  }

  /** Every way to cut the stream into reads of at most r bytes leads to the same outcome. */
  ghost predicate CutsAgree<S>(h: Handler<S>, st: S, data: seq<byte>, r: nat) {
    forall x, y :: Receivable(x, r) && Receivable(y, r) && Concat(x) == data && Concat(y) == data ==>
      Outcome(h, Run(h, Fresh(st), x)) == Outcome(h, Run(h, Fresh(st), y))
  }

  /** Cut right behind a DISCONNECT, the rest is never read. */
  lemma {:induction false} CutAtDisconnect<S>(h: Handler<S>, st: S, data: seq<byte>)
    requires var d := Drain(h, st, data, true); d.end == Open && h.closed(d.st) && !h.closing(d.st)
    ensures var d := Drain(h, st, data, true);
            && |d.rest| <= |data|
            && Drain(h, st, data[..|data| - |d.rest|], true) == d.(rest := [])
    decreases |data|
  {
    hide WS.Decode, Drain;
    var d := Drain(h, st, data, true);
    DrainRest(h, st, data, true);
    var cut := data[..|data| - |d.rest|];
    DrainTurn(h, st, data, true);
    DrainTurn(h, st, cut, true);
    if !h.closed(st) && data != [] && !h.closing(st) && WS.Decode(data).Decoded? {
      var f, n := WS.Decode(data).frame, WS.Decode(data).consumed;
      if f.opcode != 8 {
        CutAtDisconnect(h, h.step(st, f), data[n..]);
        DrainRest(h, h.step(st, f), data[n..], true);
        assert cut[n..] == data[n..][..|data| - n - |d.rest|];
        WS.ConsumedSuffices(data, |cut|);
      }
    }
  }

  /** The outcome is independent of the cuts exactly when no complete frame can be read with the end of a DISCONNECT. */
  lemma CutsAgreeExactly<S(!new)>(h: Handler<S>, st: S, data: seq<byte>, r: nat)
    requires ClosedForGood(h) && Reading(h, st, Open) && r > 0
    ensures CutsAgree(h, st, data, r) <==> NothingBehindDisconnect(h, Fresh(st), data, r)
  {
    hide NothingBehindDisconnect, Outcome, Run, FeedPlain;
    var c := Fresh(st);
    if NothingBehindDisconnect(h, c, data, r) {
      forall x, y | Receivable(x, r) && Receivable(y, r) && Concat(x) == data && Concat(y) == data
        ensures Outcome(h, Run(h, c, x)) == Outcome(h, Run(h, c, y))
      {
        RunIsWhole(h, c, x, r);
        RunIsWhole(h, c, y, r);
      }
    } else {
      CutsDisagree(h, st, data, r);
    }
  }

  /** One byte a read. */
  function Singles(data: seq<byte>): (chunks: seq<seq<byte>>)
    ensures |chunks| == |data| && forall i :: 0 <= i < |chunks| ==> |chunks[i]| == 1
  {
    seq(|data|, i requires 0 <= i < |data| => [data[i]])
  }

  lemma {:induction false} ConcatSingles(data: seq<byte>)
    ensures Concat(Singles(data)) == data
  {
    if data != [] {
      assert Singles(data)[1..] == Singles(data[1..]);
      ConcatSingles(data[1..]);
    }
  }

  lemma {:induction false} ConcatAppend(x: seq<seq<byte>>, y: seq<seq<byte>>)
    ensures Concat(x + y) == Concat(x) + Concat(y)
  {
    if x == [] {
      assert x + y == y;
    } else {
      assert (x + y)[1..] == x[1..] + y;
      ConcatAppend(x[1..], y);
    }
  }

  lemma {:induction false} RunAppend<S>(h: Handler<S>, c: Plain<S>, x: seq<seq<byte>>, y: seq<seq<byte>>)
    ensures Run(h, c, x + y) == Run(h, Run(h, c, x), y)
    decreases |x|
  {
    hide FeedPlain;
    if x == [] {
      assert x + y == y;
    } else {
      assert (x + y)[1..] == x[1..] + y;
      RunAppend(h, FeedPlain(h, c, x[0], false), x[1..], y);
    }
  }

  /** The stream read byte by byte, except for one read that starts with byte `at` and has `n` bytes. */
  function OneLongRead(data: seq<byte>, at: nat, n: nat): seq<seq<byte>>
    requires at + n <= |data|
  {
    Singles(data[..at]) + [data[at..at + n]] + Singles(data[at + n..])
  }

  lemma OneLongReadIsACut(data: seq<byte>, at: nat, n: nat, r: nat)
    requires at + n <= |data| && 1 <= n <= r
    ensures Receivable(OneLongRead(data, at, n), r) && Concat(OneLongRead(data, at, n)) == data
  {
    var x, y, z := Singles(data[..at]), [data[at..at + n]], Singles(data[at + n..]);
    ConcatSingles(data[..at]);
    ConcatSingles(data[at + n..]);
    ConcatAppend(x + y, z);
    ConcatAppend(x, y);
    assert Concat(y) == data[at..at + n] by { assert y[1..] == []; }
    assert data == data[..at] + data[at..at + n] + data[at + n..];
  }

  /** Read byte by byte up to the last byte of the DISCONNECT, the session is still reading. */
  lemma BeforeDisconnect<S>(h: Handler<S>, st: S, data: seq<byte>) returns (at: nat, c: Plain<S>)
    requires Reading(h, st, Open)
    requires var d := Drain(h, st, data, true); d.end == Open && h.closed(d.st) && !h.closing(d.st)
    ensures var d := Drain(h, st, data, true);
            && at + 1 + |d.rest| == |data|
            && c == Run(h, Fresh(st), Singles(data[..at]))
            && Reading(h, c.st, c.end)
            && Drain(h, c.st, c.pending + [data[at]], true).After(c.frames) == d.(rest := [])
  {
    var d := Drain(h, st, data, true);
    hide Run, Drain, Singles;
    DisconnectTakesBytes(h, st, data);
    at := |data| - |d.rest| - 1;
    var most := data[..at];
    var e := Drain(h, st, most, true);
    BeforeLastByte(h, st, data, at);
    assert Fresh(st).pending + most == most;
    assert [] + e.frames == e.frames;
    ConcatSingles(most);
    NothingBehindOpen(h, st, most);
    RunIsWhole(h, Fresh(st), Singles(most), 1);
    c := Run(h, Fresh(st), Singles(most));
    assert c == Plain(e.st, e.frames, e.rest, Open);
  }

  lemma DisconnectTakesBytes<S>(h: Handler<S>, st: S, data: seq<byte>)
    requires Reading(h, st, Open) && h.closed(Drain(h, st, data, true).st)
    ensures |Drain(h, st, data, true).rest| < |data|
  {
    if data != [] {
      assert [] + data == data;
      RestWithinRead(h, st, [], data);
    }
  }

  lemma NothingBehindOpen<S>(h: Handler<S>, st: S, data: seq<byte>)
    requires Reading(h, st, Open) && !h.closed(Drain(h, st, data, true).st)
    ensures NothingBehindDisconnect(h, Fresh(st), data, 1)
  {
    assert Fresh(st).pending + data == data;
  }

  /** Without the last byte of the DISCONNECT the session is open; with it, it is what the whole stream makes of it. */
  lemma BeforeLastByte<S>(h: Handler<S>, st: S, data: seq<byte>, at: nat)
    requires Reading(h, st, Open)
    requires var d := Drain(h, st, data, true);
             d.end == Open && h.closed(d.st) && !h.closing(d.st) && at + 1 + |d.rest| == |data|
    ensures var d, e := Drain(h, st, data, true), Drain(h, st, data[..at], true);
            && e.end == Open && Reading(h, e.st, Open)
            && Drain(h, e.st, e.rest + [data[at]], true).After(e.frames) == d.(rest := [])
  {
    hide Drain;
    CutAtDisconnect(h, st, data);
    var most := data[..at];
    assert data[..at + 1] == most + [data[at]];
    DrainSplit(h, st, most, [data[at]], true);
  }

  /** In a session that is still reading, the read that completes the DISCONNECT and brings `more` behind it. */
  lemma FeedDisconnect<S>(h: Handler<S>, c: Plain<S>, last: byte, more: seq<byte>)
    requires Reading(h, c.st, c.end)
    requires var d := Drain(h, c.st, c.pending + [last], true);
             d.end == Open && d.rest == [] && h.closed(d.st) && !h.closing(d.st)
    ensures var d := Drain(h, c.st, c.pending + [last], true);
            var e := Drain(h, d.st, more, false);
            FeedPlain(h, c, [last] + more, false) == Plain(e.st, c.frames + (d.frames + e.frames), e.rest, e.end)
  {
    hide Drain;
    var data := c.pending + [last];
    DrainSplit(h, c.st, data, more, true);
    assert data + more == c.pending + ([last] + more);
    assert [] + more == more;
    LooseContinues(h, c.st, data + more);
  }

  /** A cut in which the read that completes the DISCONNECT has n bytes, and what it leads to. */
  lemma CutWithLongRead<S(!new)>(h: Handler<S>, st: S, data: seq<byte>, n: nat, r: nat) returns (cut: seq<seq<byte>>)
    requires ClosedForGood(h) && Reading(h, st, Open) && 1 <= n <= r
    requires var d := Drain(h, st, data, true);
             d.end == Open && h.closed(d.st) && !h.closing(d.st) && n - 1 <= |d.rest|
    ensures Receivable(cut, r) && Concat(cut) == data
    ensures var d := Drain(h, st, data, true);
            var e := Drain(h, d.st, d.rest[..n - 1], false);
            Outcome(h, Run(h, Fresh(st), cut)) == Plain(e.st, d.frames + e.frames, [], e.end)
  {
    var d := Drain(h, st, data, true);
    DrainRest(h, st, data, true);
    hide Run, Concat, Receivable, Drain, ClosedForGood, OneLongRead, Singles;
    var at, c := BeforeDisconnect(h, st, data);
    var more := d.rest[..n - 1];
    assert data[at..at + n] == [data[at]] + data[at + 1..][..n - 1];
    OneLongReadIsACut(data, at, n, r);
    LongReadRuns(h, st, data, at, n, c, more);
    var e, last := Drain(h, d.st, more, false), Drain(h, c.st, c.pending + [data[at]], true);
    assert c.frames + (last.frames + e.frames) == d.frames + e.frames;
    cut := OneLongRead(data, at, n);
  }

  lemma CutsDisagree<S(!new)>(h: Handler<S>, st: S, data: seq<byte>, r: nat)
    requires ClosedForGood(h) && Reading(h, st, Open) && r > 0
    requires !NothingBehindDisconnect(h, Fresh(st), data, r)
    ensures !CutsAgree(h, st, data, r)
  {
    assert Fresh(st).pending + data == data;
    var d := Drain(h, st, data, true);
    var n := 1 + Min(|d.rest|, r - 1);
    assert d.end == Open && h.closed(d.st) && !h.closing(d.st) && !Stuck(d.rest[..n - 1]);
    hide Stuck, NothingBehindDisconnect, Run, Concat, Receivable, Drain, ClosedForGood;
    var one := CutWithLongRead(h, st, data, 1, r);
    var two := CutWithLongRead(h, st, data, n, r);
    FurtherFrames(h, d.st, d.rest[..n - 1]);
    assert d.rest[..0] == [];
    DrainNothing(h, d.st);
    assert Outcome(h, Run(h, Fresh(st), one)) != Outcome(h, Run(h, Fresh(st), two));
  }

  lemma DrainNothing<S>(h: Handler<S>, st: S)
    ensures Drain(h, st, [], false) == Drained(st, [], [], Open)
  {}

  /** What such a cut leads to, `c` being the session before the long read and `more` what it brings. */
  lemma LongReadRuns<S(!new)>(h: Handler<S>, st: S, data: seq<byte>, at: nat, n: nat, c: Plain<S>, more: seq<byte>)
    requires ClosedForGood(h) && at + n <= |data| && n > 0 && data[at..at + n] == [data[at]] + more
    requires c == Run(h, Fresh(st), Singles(data[..at])) && Reading(h, c.st, c.end)
    requires var d := Drain(h, c.st, c.pending + [data[at]], true);
             d.end == Open && d.rest == [] && h.closed(d.st) && !h.closing(d.st)
    ensures var d := Drain(h, c.st, c.pending + [data[at]], true);
            var e := Drain(h, d.st, more, false);
            Outcome(h, Run(h, Fresh(st), OneLongRead(data, at, n)))
              == Plain(e.st, c.frames + (d.frames + e.frames), [], e.end)
  {
    hide Drain;
    var x, y, z := Singles(data[..at]), [data[at..at + n]], Singles(data[at + n..]);
    FeedDisconnect(h, c, data[at], more);
    var c' := FeedPlain(h, c, data[at..at + n], false);
    StaysClosed(h, Drain(h, c.st, c.pending + [data[at]], true).st, more);
    assert x + y + z == x + (y + z) && (y + z)[0] == data[at..at + n] && (y + z)[1..] == z;
    RunAppend(h, Fresh(st), x, y + z);
    RunStopped(h, c', z);
  }

  /** A frame that can be read is dispatched, or its length is refused. */
  lemma FurtherFrames<S>(h: Handler<S>, st: S, data: seq<byte>)
    requires !h.closing(st) && !Stuck(data)
    ensures var e := Drain(h, st, data, false); e.frames != [] || e.end == Thrown
  {
    hide WS.Decode;
  }

  /** A session that has been closed stays so. */
  ghost predicate ClosedForGood<S(!new)>(h: Handler<S>) {
    forall st, f :: h.closed(st) ==> h.closed(h.step(st, f))
  }

  lemma {:induction false} StaysClosed<S(!new)>(h: Handler<S>, st: S, data: seq<byte>)
    requires ClosedForGood(h) && h.closed(st)
    ensures h.closed(Drain(h, st, data, false).st)
    decreases |data|
  {
    hide WS.Decode;
    if !h.closing(st) && data != [] && WS.Decode(data).Decoded? {
      WS.ConsumedBounds(data);
      var f, n := WS.Decode(data).frame, WS.Decode(data).consumed;
      assert h.closed(h.step(st, f));
      if f.opcode != 8 { StaysClosed(h, h.step(st, f), data[n..]); }
    }
  }

  // ---------- the session after its frames ----------

  function Fold<S>(h: Handler<S>, st: S, frames: seq<WS.Frame>): S {
    if frames == [] then st else h.step(Fold(h, st, frames[..|frames| - 1]), frames[|frames| - 1])
  }

  /** The session was not closing when any of these frames was dispatched. */
  predicate OpenThroughout<S>(h: Handler<S>, st: S, frames: seq<WS.Frame>) {
    forall i :: 0 <= i < |frames| ==> !h.closing(Fold(h, st, frames[..i]))
  }

  lemma {:induction false} FoldSplit<S>(h: Handler<S>, st: S, x: seq<WS.Frame>, y: seq<WS.Frame>)
    ensures Fold(h, st, x + y) == Fold(h, Fold(h, st, x), y)
  {
    if y == [] {
      assert x + y == x;
    } else {
      FoldSplit(h, st, x, y[..|y| - 1]);
      assert (x + y)[..|x + y| - 1] == x + y[..|y| - 1];
    }
  }

  lemma OpenSplit<S>(h: Handler<S>, st: S, x: seq<WS.Frame>, y: seq<WS.Frame>)
    requires OpenThroughout(h, st, x) && OpenThroughout(h, Fold(h, st, x), y)
    ensures OpenThroughout(h, st, x + y)
  {
    forall i | 0 <= i < |x + y| ensures !h.closing(Fold(h, st, (x + y)[..i])) {
      if i < |x| {
        assert (x + y)[..i] == x[..i];
      } else {
        assert (x + y)[..i] == x + y[..i - |x|];
        FoldSplit(h, st, x, y[..i - |x|]);
      }
    }
  }

  lemma FoldOne<S>(h: Handler<S>, st: S, f: WS.Frame)
    requires !h.closing(st)
    ensures Fold(h, st, [f]) == h.step(st, f) && OpenThroughout(h, st, [f])
  {
    assert [f][..0] == [];
    assert Fold(h, st, []) == st;
  }

  /** What one call of the loop makes of the session is the effect of the frames it dispatches. */
  lemma {:induction false} DrainFolds<S>(h: Handler<S>, st: S, data: seq<byte>)
    ensures var d := Drain(h, st, data, false);
            d.st == Fold(h, st, d.frames) && OpenThroughout(h, st, d.frames)
    decreases |data|
  {
    hide WS.Decode;
    if !h.closing(st) && data != [] && WS.Decode(data).Decoded? {
      WS.ConsumedBounds(data);
      var f, n := WS.Decode(data).frame, WS.Decode(data).consumed;
      FoldOne(h, st, f);
      if f.opcode != 8 {
        DrainFolds(h, h.step(st, f), data[n..]);
        var d := Drain(h, h.step(st, f), data[n..], false);
        FoldSplit(h, st, [f], d.frames);
        OpenSplit(h, st, [f], d.frames);
      }
    }
  }

  /** Over any run of reads, too. */
  lemma {:induction false} RunFolds<S>(h: Handler<S>, st: S, c: Plain<S>, chunks: seq<seq<byte>>)
    requires c.st == Fold(h, st, c.frames) && OpenThroughout(h, st, c.frames)
    ensures var c' := Run(h, c, chunks);
            c'.st == Fold(h, st, c'.frames) && OpenThroughout(h, st, c'.frames)
    decreases |chunks|
  {
    if chunks != [] {
      hide Drain, OpenThroughout, Fold;
      if Reading(h, c.st, c.end) {
        var d := Drain(h, c.st, c.pending + chunks[0], false);
        DrainFolds(h, c.st, c.pending + chunks[0]);
        FoldSplit(h, st, c.frames, d.frames);
        OpenSplit(h, st, c.frames, d.frames);
      }
      RunFolds(h, st, FeedPlain(h, c, chunks[0], false), chunks[1..]);
    }
  }

  /** And with the buffer, whatever the cap: the read that hits it dispatches nothing. */
  lemma {:induction false} BufferedRunFolds<S>(h: Handler<S>, cap: nat, st: S, c: Conn<S>, chunks: seq<seq<byte>>)
    requires c.acc.Valid() && c.st == Fold(h, st, c.frames) && OpenThroughout(h, st, c.frames)
    ensures var c' := RunBuffered(h, cap, c, chunks);
            c'.st == Fold(h, st, c'.frames) && OpenThroughout(h, st, c'.frames)
    decreases |chunks|
  {
    hide Drain, OpenThroughout, Fold, Feed;
    if chunks != [] && Reading(h, c.st, c.end) {
      FeedRefines(h, cap, c, chunks[0]);
      FeedFolds(h, cap, st, c, chunks[0]);
      BufferedRunFolds(h, cap, st, Feed(h, cap, c, chunks[0]), chunks[1..]);
    }
  }

  lemma FeedFolds<S>(h: Handler<S>, cap: nat, st: S, c: Conn<S>, chunk: seq<byte>)
    requires c.acc.Valid() && c.st == Fold(h, st, c.frames) && OpenThroughout(h, st, c.frames)
    ensures var c' := Feed(h, cap, c, chunk);
            c'.st == Fold(h, st, c'.frames) && OpenThroughout(h, st, c'.frames)
  {
    hide Drain, OpenThroughout, Fold;
    var view := c.acc.Append(chunk).View();
    var d := Drain(h, c.st, view, false);
    DrainFolds(h, c.st, view);
    FoldSplit(h, st, c.frames, d.frames);
    OpenSplit(h, st, c.frames, d.frames);
  }

  // ---------- frames that a client lays out ----------

  /** A client's frame, with its masking key if it has one. */
  datatype Laid = Laid(payload: seq<byte>, opcode: byte, mask: seq<byte>) {
    predicate Valid() {
      (mask == [] || |mask| == 4) && opcode < 16 && |payload| + 14 < TWO_64
    }

    function Bytes(): seq<byte>
      requires Valid()
    {
      if mask == [] then WS.Encode(payload, opcode) else WS.EncodeMasked(payload, opcode, mask)
    }

    function Frame(): WS.Frame {
      WS.Frame(true, opcode, payload)
    }
  }

  predicate AllValid(laid: seq<Laid>) {
    forall i :: 0 <= i < |laid| ==> laid[i].Valid()
  }

  function LaidBytes(laid: seq<Laid>): seq<byte>
    requires AllValid(laid)
  {
    if laid == [] then [] else laid[0].Bytes() + LaidBytes(laid[1..])
  }

  function Frames(laid: seq<Laid>): seq<WS.Frame> {
    seq(|laid|, i requires 0 <= i < |laid| => laid[i].Frame())
  }

  /** The frame at the front is dispatched; a close frame ends the loop, with the session's handler run for it. */
  lemma FrameArrives<S>(h: Handler<S>, st: S, l: Laid, rest: seq<byte>)
    requires l.Valid() && !h.closing(st)
    ensures var f := l.Frame();
            Drain(h, st, l.Bytes() + rest, false) ==
              if l.opcode == 8 then Drained(h.step(st, f), [f], rest, CloseFrame)
              else Drain(h, h.step(st, f), rest, false).After([f])
  {
    hide WS.Decode, WS.Encode, WS.EncodeMasked, Drain;
    var data := l.Bytes() + rest;
    if l.mask == [] {
      WS.RoundTrip(l.payload, l.opcode, rest);
    } else {
      WS.MaskedRoundTrip(l.payload, l.opcode, l.mask, rest);
    }
    WS.ConsumedBounds(data);
    assert data[|l.Bytes()|..] == rest;
    DrainTurn(h, st, data, false);
  }

  /** The frames of a stream, masked or not, are dispatched in order, as long as the session is not closing. */
  lemma {:induction false} FramesArrive<S>(h: Handler<S>, st: S, laid: seq<Laid>, rest: seq<byte>)
    requires AllValid(laid) && OpenThroughout(h, st, Frames(laid))
    requires forall i :: 0 <= i < |laid| ==> laid[i].opcode != 8
    ensures Drain(h, st, LaidBytes(laid) + rest, false)
         == Drain(h, Fold(h, st, Frames(laid)), rest, false).After(Frames(laid))
    decreases |laid|
  {
    hide Drain, Fold, OpenThroughout, Laid.Bytes;
    if laid == [] {
      FoldNothing(h, st);
      assert [] + rest == rest;
      AfterNothing(Drain(h, st, rest, false));
    } else {
      var f, more := laid[0].Frame(), Frames(laid[1..]);
      var tail := LaidBytes(laid[1..]) + rest;
      assert Frames(laid) == [f] + more;
      OpenTail(h, st, f, more);
      assert LaidBytes(laid) + rest == laid[0].Bytes() + tail;
      FrameArrives(h, st, laid[0], tail);
      FramesArrive(h, h.step(st, f), laid[1..], rest);
      FoldSplit(h, st, [f], more);
      AfterBoth(Drain(h, Fold(h, st, Frames(laid)), rest, false), [f], more);
    }
  }

  lemma FoldNothing<S>(h: Handler<S>, st: S)
    ensures Fold(h, st, []) == st && Frames([]) == []
  {}

  lemma AfterBoth<S>(d: Drained<S>, x: seq<WS.Frame>, y: seq<WS.Frame>)
    ensures d.After(y).After(x) == d.After(x + y)
  {
    assert x + (y + d.frames) == x + y + d.frames;
  }

  lemma OpenTail<S>(h: Handler<S>, st: S, f: WS.Frame, more: seq<WS.Frame>)
    requires OpenThroughout(h, st, [f] + more)
    ensures !h.closing(st) && Fold(h, st, [f]) == h.step(st, f) && OpenThroughout(h, h.step(st, f), more)
  {
    assert ([f] + more)[..0] == [];
    assert Fold(h, st, []) == st;
    FoldOne(h, st, f);
    forall i | 0 <= i < |more|
      ensures !h.closing(Fold(h, h.step(st, f), more[..i]))
    {
      assert ([f] + more)[..i + 1] == [f] + more[..i];
      FoldSplit(h, st, [f], more[..i]);
    }
  }
}
