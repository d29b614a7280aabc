/** End to end: what the sender writes, cut up by the network in any way, is what the receiver
    reads, window by window, and acknowledging each window is a full acknowledgement. */
module Delivery {
  import opened Prelude
  import opened Wire
  import opened Frames
  import opened Decoder
  import opened Receiver
  import opened Sequence
  import opened Sender
  import opened Accounting
  import opened Reading

  // ---------------------------------------------------------------- what should arrive

  function Numbered(base: u32, events: seq<seq<byte>>): seq<Event>
    decreases |events|
  {
    if events == [] then []
    else [Event(WrappingAdd(base, 1), events[0])] + Numbered(WrappingAdd(base, 1), events[1..])
  }

  /** The events of a batch, numbered after `base` in order, the last number to be acknowledged. */
  function Sent(base: u32, events: seq<seq<byte>>): EventWindow
    requires |events| <= U32_MAX
  {
    EventWindow(Numbered(base, events), WrappingAdd(base, |events|))
  }

  lemma {:induction false} NumberedInOrder(base: u32, events: seq<seq<byte>>, i: nat)
    requires i < |events| <= U32_MAX
    ensures |Numbered(base, events)| == |events|
    ensures Numbered(base, events)[i] == Event(WrappingAdd(base, i + 1), events[i])
    decreases |events|
  {
    var next := WrappingAdd(base, 1);
    if |events| > 1 { NumberedInOrder(next, events[1..], if i == 0 then 0 else i - 1); }
    if i > 0 { AdvanceTwice(base, 1, i); }
  }

  function ByteTotal(events: seq<seq<byte>>): nat {
    if events == [] then 0 else |events[0]| + ByteTotal(events[1..])
  }

  // ---------------------------------------------------------------- what the caps admit

  /** Every payload fits the receiver's frame cap and the wire's length field. */
  ghost predicate EachFits(cap: nat, events: seq<seq<byte>>) {
    forall i | 0 <= i < |events| :: |events[i]| <= cap && |events[i]| <= U32_MAX
  }

  /** The receiver's caps admit the batch as it is sent. */
  ghost predicate Fits(cfg: SendConfig, lim: Limits, base: u32, events: seq<seq<byte>>) {
    && |events| <= lim.maxEvents && ByteTotal(events) <= lim.maxBytes
    && EachFits(lim.codec.cap, events)
    && (SendsCompressed(cfg, JsonFrames(base, events)) ==> |JsonFrames(base, events)| <= lim.codec.cap)
  }

  /** A window in progress with room for exactly these events. */
  ghost predicate Awaits(lim: Limits, p: Progress, events: seq<seq<byte>>) {
    && p.remaining == Some(|events|)
    && |p.events| + |events| <= lim.maxEvents
  }

  /** The progress after recording one event. */
  function AfterEvent(p: Progress, seqNo: u32, payload: seq<byte>): Progress
    requires p.remaining.Some? && p.remaining.value > 0
  {
    Progress(p.events + [Event(seqNo, payload)], Some(p.remaining.value - 1), seqNo, p.bytes + |payload|)
  }

  /** The progress after recording a whole batch. */
  function AfterBatch(p: Progress, base: u32, events: seq<seq<byte>>): Progress
    requires p.remaining == Some(|events|)
    decreases |events|
  {
    if events == [] then p
    else AfterBatch(AfterEvent(p, WrappingAdd(base, 1), events[0]), WrappingAdd(base, 1), events[1..])
  }

  lemma {:induction false} AfterBatchIs(p: Progress, base: u32, events: seq<seq<byte>>)
    requires p.remaining == Some(|events|) && 0 < |events| <= U32_MAX
    ensures var q := AfterBatch(p, base, events);
            && q.events == p.events + Numbered(base, events)
            && q.remaining == Some(0) && q.lastSeq == WrappingAdd(base, |events|)
    decreases |events|
  {
    var next := WrappingAdd(base, 1);
    var mid := AfterEvent(p, next, events[0]);
    if |events| == 1 {
      assert Numbered(next, events[1..]) == [] && events[1..] == [];
      assert Numbered(base, events) == [Event(next, events[0])];
    } else {
      AfterBatchIs(mid, next, events[1..]);
      assert WrappingAdd(next, |events| - 1) == WrappingAdd(base, |events|);
      assert (p.events + [Event(next, events[0])]) + Numbered(next, events[1..])
          == p.events + ([Event(next, events[0])] + Numbered(next, events[1..]));
    }
  }

  // ---------------------------------------------------------------- one batch

  lemma DecodeJsonFront(k: Codec, seqNo: u32, payload: seq<byte>, rest: seq<byte>)
    requires |payload| <= k.cap && |payload| <= U32_MAX
    ensures Decode(k, EncodeJson(seqNo, payload) + rest) == Got(Json(seqNo, payload), 10 + |payload|)
    ensures (EncodeJson(seqNo, payload) + rest)[10 + |payload|..] == rest
  {
    SpelledJsonDecodes(k, seqNo, payload);
    DecodeStable(k, EncodeJson(seqNo, payload), rest);
  }

  lemma ConsumeFirst(lim: Limits, p: Progress, base: u32, events: seq<seq<byte>>, rest: seq<byte>)
    requires events != [] && |events[0]| <= lim.codec.cap && |events[0]| <= U32_MAX
    ensures var next := WrappingAdd(base, 1);
            var step := HandOver(RecordEvent(lim, p, next, events[0]));
            var left := JsonFrames(next, events[1..]) + rest;
            Consume(lim, p, JsonFrames(base, events) + rest) == AfterFrame(step, lim, left)
  {
    var next, tail := WrappingAdd(base, 1), JsonFrames(WrappingAdd(base, 1), events[1..]);
    assert JsonFrames(base, events) + rest == EncodeJson(next, events[0]) + (tail + rest);
    DecodeJsonFront(lim.codec, next, events[0], tail + rest);
  }

  /** An uncompressed batch is read to the end and handed over, unread bytes untouched. */
  lemma {:induction false} ConsumeBatch(lim: Limits, p: Progress, base: u32, events: seq<seq<byte>>, rest: seq<byte>)
    requires events != [] && Awaits(lim, p, events) && EachFits(lim.codec.cap, events)
    requires p.bytes + ByteTotal(events) <= lim.maxBytes
    ensures var q := AfterBatch(p, base, events);
            Consume(lim, p, JsonFrames(base, events) + rest) == Complete(EventWindow(q.events, q.lastSeq), rest)
    decreases |events|
  {
    var next := WrappingAdd(base, 1);
    ConsumeFirst(lim, p, base, events, rest);
    if |events| > 1 {
      ConsumeBatch(lim, AfterEvent(p, next, events[0]), next, events[1..], rest);
    } else {
      assert events[1..] == [] && [] + rest == rest;
    }
  }

  lemma {:induction false} AbsorbBatch(lim: Limits, p: Progress, base: u32, events: seq<seq<byte>>)
    requires Awaits(lim, p, events) && EachFits(lim.codec.cap, events)
    requires p.bytes + ByteTotal(events) <= lim.maxBytes
    ensures AbsorbInner(lim, p, JsonFrames(base, events)) == Continue(AfterBatch(p, base, events))
    decreases |events|
  {
    if events != [] {
      var next, tail := WrappingAdd(base, 1), JsonFrames(WrappingAdd(base, 1), events[1..]);
      DecodeJsonFront(lim.codec, next, events[0], tail);
      AbsorbBatch(lim, AfterEvent(p, next, events[0]), next, events[1..]);
    }
  }

  // ---------------------------------------------------------------- and nothing else

  lemma {:induction false} InnerGrows(lim: Limits, p: Progress, s: seq<byte>)
    ensures var step := AbsorbInner(lim, p, s); step.Continue? ==> p.events <= step.next.events
    ensures !AbsorbInner(lim, p, s).Done?
    decreases |s|
  {
    var d := Decode(lim.codec, s);
    if d.Got? {
      DecodeProgress(lim.codec, s);
      var step := AbsorbData(lim, p, d.frame);
      if step.Continue? { InnerGrows(lim, step.next, s[d.used..]); }
    }
  }

  lemma AbsorbGrows(lim: Limits, p: Progress, f: Frame)
    ensures var step := Absorb(lim, p, f);
            && (step.Continue? ==> p.events <= step.next.events)
            && (step.Done? ==> p.events <= step.window.events)
  {
    if f.Compressed? { InnerGrows(lim, p, f.decompressed); }
  }

  /** Events once recorded stay in the window. */
  lemma {:induction false} ConsumeGrows(lim: Limits, p: Progress, s: seq<byte>)
    ensures var o := Consume(lim, p, s); o.Complete? ==> p.events <= o.window.events
    decreases |s|
  {
    var d := Decode(lim.codec, s);
    if d.Got? {
      DecodeProgress(lim.codec, s);
      AbsorbGrows(lim, p, d.frame);
      var step := Absorb(lim, p, d.frame);
      if step.Continue? { ConsumeGrows(lim, step.next, s[d.used..]); }
    }
  }

  /** The frame of an oversize payload is refused, or its payload arrives cut short. */
  lemma DecodeOversizeFront(k: Codec, seqNo: u32, payload: seq<byte>, rest: seq<byte>)
    requires |payload| > k.cap || |payload| > U32_MAX
    ensures var d := Decode(k, EncodeJson(seqNo, payload) + rest);
            d.Bad? || (d.Got? && d.frame.Json? && |d.frame.payload| < |payload|)
  {
    var s := EncodeJson(seqNo, payload) + rest;
    var len: u32 := if |payload| <= U32_MAX then |payload| else U32_MAX;
    assert s[6..10] == BigEndian(len);
    assert ReadU32(s, 6) == len;
  }

  lemma Diverged(p: Progress, got: Event, want: Event, tail: seq<Event>, events: seq<Event>)
    requires got != want && p.events + [got] <= events
    ensures events != p.events + ([want] + tail)
  {
    assert events[|p.events|] == got;
  }

  ghost predicate Misses(o: Outcome, events: seq<Event>) { o.Complete? ==> o.window.events != events }

  ghost predicate Misfits(lim: Limits, p: Progress, events: seq<seq<byte>>) {
    !EachFits(lim.codec.cap, events) || p.bytes + ByteTotal(events) > lim.maxBytes
  }

  lemma {:induction false} ConsumeBatchOnly(lim: Limits, p: Progress, base: u32, events: seq<seq<byte>>,
                                            rest: seq<byte>)
    requires events != [] && Awaits(lim, p, events)
    requires Misfits(lim, p, events)
    ensures Misses(Consume(lim, p, JsonFrames(base, events) + rest), p.events + Numbered(base, events))
    decreases |events|
  {
    var next := WrappingAdd(base, 1);
    if |events[0]| > lim.codec.cap || |events[0]| > U32_MAX {
      ConsumeOversize(lim, p, base, events, rest);
    } else {
      ConsumeFirst(lim, p, base, events, rest);
      if p.bytes + |events[0]| <= lim.maxBytes {
        var mid := AfterEvent(p, next, events[0]);
        MisfitIsLater(lim, p, next, events);
        ConsumeBatchOnly(lim, mid, next, events[1..], rest);
        NumberedLater(p, base, events);
      }
    }
  }

  lemma {:induction false} NumberedLater(p: Progress, base: u32, events: seq<seq<byte>>)
    requires events != [] && p.remaining == Some(|events|)
    ensures var next := WrappingAdd(base, 1);
            AfterEvent(p, next, events[0]).events + Numbered(next, events[1..]) == p.events + Numbered(base, events)
  {
    var first, later := [Event(WrappingAdd(base, 1), events[0])], Numbered(WrappingAdd(base, 1), events[1..]);
    assert (p.events + first) + later == p.events + (first + later);
  }

  lemma ConsumeOversize(lim: Limits, p: Progress, base: u32, events: seq<seq<byte>>, rest: seq<byte>)
    requires events != [] && Awaits(lim, p, events)
    requires |events[0]| > lim.codec.cap || |events[0]| > U32_MAX
    ensures Misses(Consume(lim, p, JsonFrames(base, events) + rest), p.events + Numbered(base, events))
  {
    var next, tail := WrappingAdd(base, 1), JsonFrames(WrappingAdd(base, 1), events[1..]);
    var s := JsonFrames(base, events) + rest;
    FirstFrame(base, events, rest);
    DecodeOversizeFront(lim.codec, next, events[0], tail + rest);
    if Decode(lim.codec, s).Got? {
      ShortPayloadDiverges(lim, p, base, events, s);
    } else {
      BadFrameMisses(lim, p, s, p.events + Numbered(base, events));
    }
  }

  lemma FirstFrame(base: u32, events: seq<seq<byte>>, rest: seq<byte>)
    requires events != []
    ensures var next := WrappingAdd(base, 1);
      JsonFrames(base, events) + rest == EncodeJson(next, events[0]) + (JsonFrames(next, events[1..]) + rest)
  {
  }

  lemma BadFrameMisses(lim: Limits, p: Progress, s: seq<byte>, events: seq<Event>)
    requires Decode(lim.codec, s).Bad?
    ensures Misses(Consume(lim, p, s), events)
  {
  }

  lemma MisfitIsLater(lim: Limits, p: Progress, next: u32, events: seq<seq<byte>>)
    requires events != [] && Awaits(lim, p, events) && Misfits(lim, p, events)
    requires |events[0]| <= lim.codec.cap && |events[0]| <= U32_MAX && p.bytes + |events[0]| <= lim.maxBytes
    ensures events[1..] != [] && Misfits(lim, AfterEvent(p, next, events[0]), events[1..])
  {
    assert ByteTotal(events) == |events[0]| + ByteTotal(events[1..]);
    if EachFits(lim.codec.cap, events[1..]) {
      forall i | 0 <= i < |events| ensures |events[i]| <= lim.codec.cap && |events[i]| <= U32_MAX {
        if i > 0 { assert events[i] == events[1..][i - 1]; }
      }
    }
  }

  lemma ShortPayloadDiverges(lim: Limits, p: Progress, base: u32, events: seq<seq<byte>>, s: seq<byte>)
    requires events != [] && Awaits(lim, p, events)
    requires var d := Decode(lim.codec, s); d.Got? && d.frame.Json? && |d.frame.payload| < |events[0]|
    ensures Misses(Consume(lim, p, s), p.events + Numbered(base, events))
  {
    var d := Decode(lim.codec, s);
    DecodeProgress(lim.codec, s);
    var got, want := Event(d.frame.seqNo, d.frame.payload), Event(WrappingAdd(base, 1), events[0]);
    var step, o := RecordEvent(lim, p, d.frame.seqNo, d.frame.payload), Consume(lim, p, s);
    if step.Continue? && o.Complete? {
      if Absorb(lim, p, d.frame).Continue? { ConsumeGrows(lim, step.next, s[d.used..]); }
      Diverged(p, got, want, Numbered(WrappingAdd(base, 1), events[1..]), o.window.events);
    }
  }

  // ---------------------------------------------------------------- the same inside a compressed frame

  function ThenInner(step: Step, lim: Limits, rest: seq<byte>): Step {
    match step case Continue(next) => AbsorbInner(lim, next, rest) case stop => stop
  }

  lemma InnerFirst(lim: Limits, p: Progress, base: u32, events: seq<seq<byte>>)
    requires events != [] && |events[0]| <= lim.codec.cap && |events[0]| <= U32_MAX
    ensures var next := WrappingAdd(base, 1);
            var step := RecordEvent(lim, p, next, events[0]);
            AbsorbInner(lim, p, JsonFrames(base, events)) == ThenInner(step, lim, JsonFrames(next, events[1..]))
  {
    var next := WrappingAdd(base, 1);
    DecodeJsonFront(lim.codec, next, events[0], JsonFrames(next, events[1..]));
  }

  ghost predicate Strays(step: Step, events: seq<Event>) { step.Continue? ==> !(step.next.events <= events) }

  lemma InnerOversize(lim: Limits, p: Progress, base: u32, events: seq<seq<byte>>)
    requires events != [] && Awaits(lim, p, events)
    requires |events[0]| > lim.codec.cap || |events[0]| > U32_MAX
    ensures Strays(AbsorbInner(lim, p, JsonFrames(base, events)), p.events + Numbered(base, events))
  {
    var next, tail := WrappingAdd(base, 1), JsonFrames(WrappingAdd(base, 1), events[1..]);
    var s := JsonFrames(base, events);
    DecodeOversizeFront(lim.codec, next, events[0], tail);
    var d := Decode(lim.codec, s);
    if d.Got? {
      DecodeProgress(lim.codec, s);
      var step := RecordEvent(lim, p, d.frame.seqNo, d.frame.payload);
      if step.Continue? {
        InnerGrows(lim, step.next, s[d.used..]);
        assert step.next.events[|p.events|].payload == d.frame.payload;
        assert (p.events + Numbered(base, events))[|p.events|].payload == events[0];
      }
    }
  }

  lemma {:induction false} AbsorbBatchOnly(lim: Limits, p: Progress, base: u32, events: seq<seq<byte>>)
    requires events != [] && Awaits(lim, p, events) && Misfits(lim, p, events)
    ensures Strays(AbsorbInner(lim, p, JsonFrames(base, events)), p.events + Numbered(base, events))
    decreases |events|
  {
    var next := WrappingAdd(base, 1);
    if |events[0]| > lim.codec.cap || |events[0]| > U32_MAX {
      InnerOversize(lim, p, base, events);
    } else {
      InnerFirst(lim, p, base, events);
      if p.bytes + |events[0]| <= lim.maxBytes {
        MisfitIsLater(lim, p, next, events);
        AbsorbBatchOnly(lim, AfterEvent(p, next, events[0]), next, events[1..]);
        NumberedLater(p, base, events);
      }
    }
  }

  // ---------------------------------------------------------------- one window

  function Opened(count: nat): Progress { Progress([], Some(count), 0, 0) }

  lemma ConsumeHeader(lim: Limits, count: u32, body: seq<byte>)
    requires count > 0
    ensures Consume(lim, START, EncodeWindow(count) + body)
         == if count > lim.maxEvents then Rejected(WindowTooLarge(EventCount, count, lim.maxEvents), START, body)
            else Consume(lim, Opened(count), body)
  {
    var s := EncodeWindow(count) + body;
    SpelledDecodes(lim.codec, Window(count), EncodeWindow(count));
    DecodeStable(lim.codec, EncodeWindow(count), body);
    assert s[6..] == body;
  }

  /** A compressed batch on the wire is the inner frames, if the cap admits them. */
  lemma ConsumeCompressed(cfg: SendConfig, lim: Limits, p: Progress, inner: seq<byte>, rest: seq<byte>)
    requires cfg.zlib.Lawful() && lim.codec.zlib == cfg.zlib && SendsCompressed(cfg, inner)
    ensures var frame := EncodeCompressed(cfg.zlib, cfg.level, inner).value;
            var o := Consume(lim, p, frame + rest);
            if |inner| > lim.codec.cap then o.Rejected?
            else o == AfterFrame(HandOver(AbsorbInner(lim, p, inner)), lim, rest)
  {
    var frame := EncodeCompressed(cfg.zlib, cfg.level, inner).value;
    var body := cfg.zlib.deflate(cfg.level, inner).value;
    var s := frame + rest;
    assert s[2..6] == BigEndian(|body|);
    assert ReadU32(s, 2) == |body|;
    assert s[6..6 + |body|] == body;
    assert s[6 + |body|..] == rest;
  }

  lemma CompressedWindow(cfg: SendConfig, lim: Limits, base: u32, events: seq<seq<byte>>, rest: seq<byte>)
    requires cfg.zlib.Lawful() && lim.codec.zlib == cfg.zlib && 0 < |events| <= U32_MAX
    requires |events| <= lim.maxEvents && SendsCompressed(cfg, JsonFrames(base, events))
    ensures var frame := EncodeCompressed(cfg.zlib, cfg.level, JsonFrames(base, events)).value;
            var o := Consume(lim, Opened(|events|), frame + rest);
            && (Fits(cfg, lim, base, events) ==> o == Complete(Sent(base, events), rest))
            && (!Fits(cfg, lim, base, events) ==> Misses(o, Numbered(base, events)))
  {
    var inner, p := JsonFrames(base, events), Opened(|events|);
    ConsumeCompressed(cfg, lim, p, inner, rest);
    assert [] + Numbered(base, events) == Numbered(base, events);
    if Fits(cfg, lim, base, events) {
      AbsorbBatch(lim, p, base, events);
      AfterBatchIs(p, base, events);
    } else if |inner| <= lim.codec.cap {
      AbsorbBatchOnly(lim, p, base, events);
      var step := AbsorbInner(lim, p, inner);
      InnerGrows(lim, p, inner);
      if step.Continue? { ConsumeGrows(lim, step.next, rest); }
    }
  }

  lemma PlainWindow(lim: Limits, base: u32, events: seq<seq<byte>>, rest: seq<byte>)
    requires 0 < |events| <= U32_MAX && |events| <= lim.maxEvents
    ensures var o := Consume(lim, Opened(|events|), JsonFrames(base, events) + rest);
            var fits := EachFits(lim.codec.cap, events) && ByteTotal(events) <= lim.maxBytes;
            && (fits ==> o == Complete(Sent(base, events), rest))
            && (!fits ==> Misses(o, Numbered(base, events)))
  {
    var p := Opened(|events|);
    assert [] + Numbered(base, events) == Numbered(base, events);
    if EachFits(lim.codec.cap, events) && ByteTotal(events) <= lim.maxBytes {
      ConsumeBatch(lim, p, base, events, rest);
      AfterBatchIs(p, base, events);
    } else {
      ConsumeBatchOnly(lim, p, base, events, rest);
    }
  }

  /** One window, whatever follows it on the wire: the receiver returns exactly the batch,
      leaving what follows unread, if and only if its caps admit the batch as sent. */
  lemma WindowDelivered(cfg: SendConfig, lim: Limits, base: u32, events: seq<seq<byte>>, rest: seq<byte>)
    requires cfg.zlib.Lawful() && lim.codec.zlib == cfg.zlib && 0 < |events| <= U32_MAX
    ensures var o := Consume(lim, START, WindowPayload(cfg, base, events) + rest);
            o == Complete(Sent(base, events), rest) <==> Fits(cfg, lim, base, events)
  {
    var inner := JsonFrames(base, events);
    var body := if SendsCompressed(cfg, inner) then EncodeCompressed(cfg.zlib, cfg.level, inner).value else inner;
    assert WindowPayload(cfg, base, events) + rest == EncodeWindow(|events|) + (body + rest);
    ConsumeHeader(lim, |events|, body + rest);
    if |events| <= lim.maxEvents {
      if SendsCompressed(cfg, inner) { CompressedWindow(cfg, lim, base, events, rest); }
      else { PlainWindow(lim, base, events, rest); }
    }
  }

  // ---------------------------------------------------------------- a whole session

  ghost predicate Batches(batches: seq<seq<seq<byte>>>) {
    forall i | 0 <= i < |batches| :: 0 < |batches[i]| <= U32_MAX
  }

  /** Everything a client writes while sending these batches, starting after `base`. */
  ghost function Written(cfg: SendConfig, base: u32, batches: seq<seq<seq<byte>>>): seq<byte>
    requires Batches(batches)
    decreases |batches|
  {
    if batches == [] then []
    else WindowPayload(cfg, base, batches[0]) + Written(cfg, WrappingAdd(base, |batches[0]|), batches[1..])
  }

  ghost function AllSent(base: u32, batches: seq<seq<seq<byte>>>): seq<EventWindow>
    requires Batches(batches)
    decreases |batches|
  {
    if batches == [] then []
    else [Sent(base, batches[0])] + AllSent(WrappingAdd(base, |batches[0]|), batches[1..])
  }

  ghost predicate AllFit(cfg: SendConfig, lim: Limits, base: u32, batches: seq<seq<seq<byte>>>)
    requires Batches(batches)
    decreases |batches|
  {
    || batches == []
    || (Fits(cfg, lim, base, batches[0]) && AllFit(cfg, lim, WrappingAdd(base, |batches[0]|), batches[1..]))
  }

  /** Acknowledging the last number of a window as sent is a full acknowledgement. */
  lemma AckOfWindowIsFull(base: u32, events: seq<seq<byte>>)
    requires 0 < |events| <= U32_MAX
    ensures JudgeAck(base, |events|, EncodeAck(Sent(base, events).lastSeq)) == FullAck(|events|)
  {
    AckVerdicts(base, |events|, WrappingAdd(base, |events|));
  }

  /** The number after which the i-th batch is numbered. */
  ghost function BaseOf(base: u32, batches: seq<seq<seq<byte>>>, i: nat): u32
    requires Batches(batches) && i < |batches|
    decreases i
  {
    if i == 0 then base else BaseOf(WrappingAdd(base, |batches[0]|), batches[1..], i - 1)
  }

  /** The i-th window is the i-th batch, and acknowledging its last number is a full
      acknowledgement for the client that sent it. */
  lemma {:induction false} SentInTurn(base: u32, batches: seq<seq<seq<byte>>>, i: nat)
    requires Batches(batches) && i < |batches|
    ensures |AllSent(base, batches)| == |batches|
    ensures AllSent(base, batches)[i] == Sent(BaseOf(base, batches, i), batches[i])
    ensures Acknowledges(AllSent(base, batches)[i], base, batches, i)
    decreases |batches|
  {
    if |batches| > 1 {
      SentInTurn(WrappingAdd(base, |batches[0]|), batches[1..], if i == 0 then 0 else i - 1);
    }
    AckOfWindowIsFull(BaseOf(base, batches, i), batches[i]);
  }

  lemma AllSentInTurn(base: u32, batches: seq<seq<seq<byte>>>)
    requires Batches(batches)
    ensures |AllSent(base, batches)| == |batches|
    ensures forall i | 0 <= i < |batches| :: AllSent(base, batches)[i] == Sent(BaseOf(base, batches, i), batches[i])
    ensures forall i | 0 <= i < |batches| :: Acknowledges(AllSent(base, batches)[i], base, batches, i)
  {
    if batches != [] { SentInTurn(base, batches, 0); }
    forall i | 0 <= i < |batches|
      ensures AllSent(base, batches)[i] == Sent(BaseOf(base, batches, i), batches[i])
      ensures Acknowledges(AllSent(base, batches)[i], base, batches, i)
    {
      SentInTurn(base, batches, i);
    }
  }

  ghost predicate Acknowledges(w: EventWindow, base: u32, batches: seq<seq<seq<byte>>>, i: nat)
    requires Batches(batches) && i < |batches|
  {
    JudgeAck(BaseOf(base, batches, i), |batches[i]|, EncodeAck(w.lastSeq)) == FullAck(|batches[i]|)
  }

  lemma AllSentStep(windows: seq<EventWindow>, now: u32, todo: seq<seq<seq<byte>>>)
    requires Batches(todo) && todo != []
    ensures windows + AllSent(now, todo)
         == windows + [Sent(now, todo[0])] + AllSent(WrappingAdd(now, |todo[0]|), todo[1..])
  {
  }

  /** One read of the session: the next batch, or the end of the stream. */
  method ReceiveNext(cfg: SendConfig, conn: ServerConnection, ghost now: u32, ghost todo: seq<seq<seq<byte>>>)
      returns (r: ReadResult)
    requires cfg.zlib.Lawful() && conn.lim.codec.zlib == cfg.zlib
    requires Batches(todo) && AllFit(cfg, conn.lim, now, todo)
    requires conn.Valid() && conn.Unread() == Written(cfg, now, todo) && !EndsInFault(conn.incoming)
    modifies conn, conn.decoder
    ensures conn.Valid() && !EndsInFault(conn.incoming)
    ensures todo == [] ==> r == EndOfStream
    ensures todo != [] ==> r == Read(Sent(now, todo[0]))
    ensures todo != [] ==> conn.Unread() == Written(cfg, WrappingAdd(now, |todo[0]|), todo[1..])
  {
    if todo != [] {
      WindowDelivered(cfg, conn.lim, now, todo[0], Written(cfg, WrappingAdd(now, |todo[0]|), todo[1..]));
    }
    r := conn.ReadWindow();
  }

  /** The session, run: a connection delivering the written bytes in any chunks yields the
      batches one by one, each window's last number earns a full acknowledgement, and then the
      stream ends cleanly. */
  method ReceiveSession(cfg: SendConfig, conn: ServerConnection, base: u32, ghost batches: seq<seq<seq<byte>>>)
      returns (windows: seq<EventWindow>, last: ReadResult)
    requires cfg.zlib.Lawful() && conn.lim.codec.zlib == cfg.zlib
    requires Batches(batches) && AllFit(cfg, conn.lim, base, batches)
    requires conn.Valid() && conn.Unread() == Written(cfg, base, batches)
    requires !EndsInFault(conn.incoming)
    modifies conn, conn.decoder
    ensures windows == AllSent(base, batches) && |windows| == |batches|
    ensures forall i | 0 <= i < |batches| :: windows[i] == Sent(BaseOf(base, batches, i), batches[i])
    ensures forall i | 0 <= i < |batches| :: Acknowledges(windows[i], base, batches, i)
    ensures last == EndOfStream
  {
    AllSentInTurn(base, batches);
    windows := [];
    ghost var todo, now := batches, base;
    while true
      invariant conn.Valid() && !EndsInFault(conn.incoming)
      invariant Batches(todo) && AllFit(cfg, conn.lim, now, todo)
      invariant conn.Unread() == Written(cfg, now, todo)
      invariant windows + AllSent(now, todo) == AllSent(base, batches)
      decreases |todo|
    {
      last := ReceiveNext(cfg, conn, now, todo);
      if !last.Read? {
        return;
      }
      AllSentStep(windows, now, todo);
      windows := windows + [last.window];
      now, todo := WrappingAdd(now, |todo[0]|), todo[1..];
    }
  }

  // ---------------------------------------------------------------- a session cut short

  /** What is decided on the bytes at hand stays decided when more arrive. */
  lemma {:induction false} ConsumeExtends(lim: Limits, p: Progress, s: seq<byte>, t: seq<byte>)
    requires !Consume(lim, p, s).Starved?
    ensures match Consume(lim, p, s)
            case Complete(w, rest) => Consume(lim, p, s + t) == Complete(w, rest + t)
            case Rejected(e, at, rest) => Consume(lim, p, s + t) == Rejected(e, at, rest + t)
            case Starved(_, _) => true
    decreases |s|
  {
    var d := Decode(lim.codec, s);
    ConsumeFront(lim, p, s, t);
    if d.Got? {
      var step := Absorb(lim, p, d.frame);
      DecodeProgress(lim.codec, s);
      if step.Continue? { ConsumeExtends(lim, step.next, s[d.used..], t); }
    }
  }

  /** A window whose last bytes are missing is not decided. */
  lemma CutWindowStarves(cfg: SendConfig, lim: Limits, base: u32, events: seq<seq<byte>>, k: nat)
    requires cfg.zlib.Lawful() && lim.codec.zlib == cfg.zlib && 0 < |events| <= U32_MAX
    requires Fits(cfg, lim, base, events) && k < |WindowPayload(cfg, base, events)|
    ensures Consume(lim, START, WindowPayload(cfg, base, events)[..k]).Starved?
  {
    var whole := WindowPayload(cfg, base, events);
    WindowDelivered(cfg, lim, base, events, []);
    assert whole + [] == whole && whole[..k] + whole[k..] == whole;
    UndecidedBefore(lim, whole[..k], whole[k..], Sent(base, events));
  }

  lemma UndecidedBefore(lim: Limits, s: seq<byte>, t: seq<byte>, w: EventWindow)
    requires Consume(lim, START, s + t) == Complete(w, []) && t != []
    ensures Consume(lim, START, s).Starved?
  {
    if !Consume(lim, START, s).Starved? { ConsumeExtends(lim, START, s, t); }
  }

  lemma {:induction false} HeaderDeclares(frames: seq<Frame>)
    requires frames != [] && frames[0].Window?
    ensures Declared(frames) != []
    decreases |frames|
  {
    if |frames| > 1 { HeaderDeclares(frames[..|frames| - 1]); }
  }

  /** The header of a window counts once all six bytes of it are there. */
  lemma CutHeader(k: Codec, count: u32, body: seq<byte>, n: nat)
    requires n <= 6 + |body|
    ensures Declared(DecodeAll(k, (EncodeWindow(count) + body)[..n]).frames) == [] <==> n < 6
  {
    var s := (EncodeWindow(count) + body)[..n];
    if n < 6 {
      ShortHeader(k, count, s);
      DecodeAllStop(k, s, []);
    } else {
      assert s[..6] == EncodeWindow(count);
      assert s[2..6] == s[..6][2..6] == BigEndian(count);
      assert Decode(k, s) == Got(Window(count), 6);
      DecodeAllStep(k, s, []);
      HeaderDeclares(DecodeAll(k, s).frames);
    }
  }

  lemma ShortHeader(k: Codec, count: u32, s: seq<byte>)
    requires |s| < 6 && s <= EncodeWindow(count)
    ensures Decode(k, s).More?
  {
  }

  /** One read at a cut: nothing of the window is returned, and unless not even its header arrived
      the end of the stream is an error. */
  lemma CutWindowEnds(cfg: SendConfig, lim: Limits, base: u32, events: seq<seq<byte>>, k: nat)
    requires cfg.zlib.Lawful() && lim.codec.zlib == cfg.zlib && 0 < |events| <= U32_MAX
    requires Fits(cfg, lim, base, events) && k < |WindowPayload(cfg, base, events)|
    ensures var o := Consume(lim, START, WindowPayload(cfg, base, events)[..k]);
      && o.Starved?
      && AtEnd(o.at, false) == if k < 6 then EndOfStream else Failed(UnexpectedEof)
  {
    var whole := WindowPayload(cfg, base, events);
    CutWindowStarves(cfg, lim, base, events, k);
    CleanEndExactly(lim, whole[..k], false);
    assert whole == EncodeWindow(|events|) + whole[6..];
    CutHeader(lim.codec, |events|, whole[6..], k);
  }

  /** How many of the batches have all their bytes among the first `k` written. */
  ghost function WholeBatches(cfg: SendConfig, base: u32, batches: seq<seq<seq<byte>>>, k: nat): (n: nat)
    requires Batches(batches)
    ensures n <= |batches|
    decreases |batches|
  {
    if batches == [] || k < |WindowPayload(cfg, base, batches[0])| then 0
    else
      var next := WrappingAdd(base, |batches[0]|);
      1 + WholeBatches(cfg, next, batches[1..], k - |WindowPayload(cfg, base, batches[0])|)
  }

  /** How many bytes of the batch after them arrived. */
  ghost function SpareBytes(cfg: SendConfig, base: u32, batches: seq<seq<seq<byte>>>, k: nat): nat
    requires Batches(batches)
    decreases |batches|
  {
    if batches == [] then 0
    else if k < |WindowPayload(cfg, base, batches[0])| then k
    else
      var next := WrappingAdd(base, |batches[0]|);
      SpareBytes(cfg, next, batches[1..], k - |WindowPayload(cfg, base, batches[0])|)
  }

  ghost function WholeSent(cfg: SendConfig, base: u32, batches: seq<seq<seq<byte>>>, k: nat): seq<EventWindow>
    requires Batches(batches)
    decreases |batches|
  {
    if batches == [] || k < |WindowPayload(cfg, base, batches[0])| then []
    else
      var next := WrappingAdd(base, |batches[0]|);
      [Sent(base, batches[0])] + WholeSent(cfg, next, batches[1..], k - |WindowPayload(cfg, base, batches[0])|)
  }

  lemma {:induction false} WholeSentIs(cfg: SendConfig, base: u32, batches: seq<seq<seq<byte>>>, k: nat)
    requires Batches(batches)
    ensures |AllSent(base, batches)| == |batches|
    ensures WholeSent(cfg, base, batches, k) == AllSent(base, batches)[..WholeBatches(cfg, base, batches, k)]
    decreases |batches|
  {
    if batches != [] {
      var next, used := WrappingAdd(base, |batches[0]|), |WindowPayload(cfg, base, batches[0])|;
      WholeSentIs(cfg, next, batches[1..], if k < used then 0 else k - used);
    }
  }

  /** What one read of the stream answers, and what it leaves. */
  method ReceiveCut(cfg: SendConfig, conn: ServerConnection, ghost now: u32, ghost todo: seq<seq<seq<byte>>>,
                    ghost k: nat)
      returns (r: ReadResult)
    requires cfg.zlib.Lawful() && conn.lim.codec.zlib == cfg.zlib
    requires Batches(todo) && AllFit(cfg, conn.lim, now, todo) && k <= |Written(cfg, now, todo)|
    requires conn.Valid() && conn.Unread() == Written(cfg, now, todo)[..k] && !EndsInFault(conn.incoming)
    modifies conn, conn.decoder
    ensures conn.Valid() && !EndsInFault(conn.incoming)
    ensures todo == [] ==> r == EndOfStream
    ensures todo != [] && k < |WindowPayload(cfg, now, todo[0])| ==>
      r == if k < 6 then EndOfStream else Failed(UnexpectedEof)
    ensures todo != [] && k >= |WindowPayload(cfg, now, todo[0])| ==>
      var used := |WindowPayload(cfg, now, todo[0])|;
      var later := Written(cfg, WrappingAdd(now, |todo[0]|), todo[1..]);
      r == Read(Sent(now, todo[0])) && k - used <= |later| && conn.Unread() == later[..k - used]
  {
    if todo != [] {
      ghost var whole := WindowPayload(cfg, now, todo[0]);
      ghost var later := Written(cfg, WrappingAdd(now, |todo[0]|), todo[1..]);
      if k < |whole| {
        CutWindowEnds(cfg, conn.lim, now, todo[0], k);
        assert (whole + later)[..k] == whole[..k];
      } else {
        WindowDelivered(cfg, conn.lim, now, todo[0], later[..k - |whole|]);
        assert (whole + later)[..k] == whole + later[..k - |whole|];
      }
    }
    r := conn.ReadWindow();
  }

  /** The session cut at any byte: exactly the batches that arrived whole are returned, and the end
      is clean only between windows, or before the header of the next one is complete. */
  method ReceiveCutSession(cfg: SendConfig, conn: ServerConnection, ghost base: u32,
                           ghost batches: seq<seq<seq<byte>>>, ghost k: nat)
      returns (windows: seq<EventWindow>, last: ReadResult)
    requires cfg.zlib.Lawful() && conn.lim.codec.zlib == cfg.zlib
    requires Batches(batches) && AllFit(cfg, conn.lim, base, batches) && k <= |Written(cfg, base, batches)|
    requires conn.Valid() && conn.Unread() == Written(cfg, base, batches)[..k]
    requires !EndsInFault(conn.incoming)
    modifies conn, conn.decoder
    ensures |AllSent(base, batches)| == |batches|
    ensures windows == AllSent(base, batches)[..WholeBatches(cfg, base, batches, k)]
    ensures last == if SpareBytes(cfg, base, batches, k) < 6 then EndOfStream else Failed(UnexpectedEof)
  {
    windows, last := ReceiveWhole(cfg, conn, base, batches, k);
    WholeSentIs(cfg, base, batches, k);
  }

  method ReceiveWhole(cfg: SendConfig, conn: ServerConnection, ghost base: u32,
                      ghost batches: seq<seq<seq<byte>>>, ghost k: nat)
      returns (windows: seq<EventWindow>, last: ReadResult)
    requires cfg.zlib.Lawful() && conn.lim.codec.zlib == cfg.zlib
    requires Batches(batches) && AllFit(cfg, conn.lim, base, batches) && k <= |Written(cfg, base, batches)|
    requires conn.Valid() && conn.Unread() == Written(cfg, base, batches)[..k]
    requires !EndsInFault(conn.incoming)
    modifies conn, conn.decoder
    ensures windows == WholeSent(cfg, base, batches, k)
    ensures last == if SpareBytes(cfg, base, batches, k) < 6 then EndOfStream else Failed(UnexpectedEof)
    decreases |batches|
  {
    last := ReceiveCut(cfg, conn, base, batches, k);
    windows := [];
    if last.Read? {
      var w := last.window;
      windows, last := ReceiveWhole(cfg, conn, WrappingAdd(base, |batches[0]|), batches[1..],
                                    k - |WindowPayload(cfg, base, batches[0])|);
      windows := [w] + windows;
    }
  }
}
