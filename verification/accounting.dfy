/** What a window contains: every slot of the declared count, accounted for, in every run of
    `read_window`, whether it completes, starves or is rejected. */
module Accounting {
  import opened Prelude
  import opened Wire
  import opened Frames
  import opened Decoder
  import opened Receiver

  // ---------------------------------------------------------------- reading frames as slots

  /** The data frames a frame carries: itself, or the frames inside a compressed batch. */
  function Carried(k: Codec, f: Frame): seq<Frame> {
    match f
    case Compressed(inner) => DecodeAll(k, inner).frames
    case Json(_, _) => [f]
    case Unknown(_, _) => [f]
    case _ => []
  }

  function Carrier(k: Codec): Frame -> seq<Frame> { f => Carried(k, f) }

  function Spread(carry: Frame -> seq<Frame>, frames: seq<Frame>): seq<Frame> {
    if frames == [] then [] else Spread(carry, frames[..|frames| - 1]) + carry(frames[|frames| - 1])
  }

  function AllCarried(k: Codec, frames: seq<Frame>): seq<Frame> { Spread(Carrier(k), frames) }

  function EventsOf(data: seq<Frame>): seq<Event> {
    if data == [] then []
    else
      var init := EventsOf(data[..|data| - 1]);
      match data[|data| - 1]
      case Json(seqNo, payload) => init + [Event(seqNo, payload)]
      case _ => init
  }

  function LegacySlots(data: seq<Frame>): nat {
    if data == [] then 0
    else LegacySlots(data[..|data| - 1]) + (if data[|data| - 1].Unknown? then 1 else 0)
  }

  function Declared(frames: seq<Frame>): seq<u32> {
    if frames == [] then []
    else
      var init := Declared(frames[..|frames| - 1]);
      match frames[|frames| - 1]
      case Window(count) => init + [count]
      case _ => init
  }

  function TotalBytes(events: seq<Event>): nat {
    if events == [] then 0
    else TotalBytes(events[..|events| - 1]) + |events[|events| - 1].payload|
  }

  function LastSeq(events: seq<Event>): u32 {
    if events == [] then 0 else events[|events| - 1].seqNo
  }

  // ---------------------------------------------------------------- the invariant

  /** Caps hold at every moment of a run. */
  ghost predicate WithinCaps(lim: Limits, p: Progress) {
    && |p.events| <= lim.maxEvents
    && p.bytes == TotalBytes(p.events) <= lim.maxBytes
    && p.lastSeq == LastSeq(p.events)
    && (p.remaining.Some? ==> |p.events| + p.remaining.value <= lim.maxEvents)
  }

  /** `p` has recorded exactly the data frames `data`, from `start` on. */
  ghost predicate Recorded(start: Progress, data: seq<Frame>, p: Progress) {
    && p.events == start.events + EventsOf(data)
    && p.remaining.Some? == start.remaining.Some?
    && (data != [] ==> start.remaining.Some?)
    && (p.remaining.Some? ==>
          start.remaining.value == |EventsOf(data)| + LegacySlots(data) + p.remaining.value)
  }

  lemma RecordedMore(start: Progress, data: seq<Frame>, mid: Progress, f: Frame, lim: Limits)
    requires WithinCaps(lim, mid) && Recorded(start, data, mid)
    requires AbsorbData(lim, mid, f).Continue?
    ensures var p := AbsorbData(lim, mid, f).next;
            WithinCaps(lim, p) && Recorded(start, data + [f], p)
  {
    assert (data + [f])[..|data|] == data;
    if f.Json? {
      var e := Event(f.seqNo, f.payload);
      assert (mid.events + [e])[..|mid.events|] == mid.events;
      assert start.events + (EventsOf(data) + [e]) == (start.events + EventsOf(data)) + [e];
    }
  }

  // ---------------------------------------------------------------- reading as a fold over frames

  function AbsorbEach(lim: Limits, p: Progress, data: seq<Frame>): Step {
    if data == [] then Continue(p)
    else
      match AbsorbEach(lim, p, data[..|data| - 1])
      case Continue(mid) => AbsorbData(lim, mid, data[|data| - 1])
      case stop => stop
  }

  lemma {:induction false} EachCons(lim: Limits, p: Progress, f: Frame, tail: seq<Frame>)
    ensures AbsorbEach(lim, p, [f] + tail) ==
            match AbsorbData(lim, p, f) case Continue(next) => AbsorbEach(lim, next, tail) case stop => stop
    decreases |tail|
  {
    var whole := [f] + tail;
    if tail == [] {
      assert whole[..0] == [] && whole[0] == f;
    } else {
      assert whole[..|whole| - 1] == [f] + tail[..|tail| - 1];
      EachCons(lim, p, f, tail[..|tail| - 1]);
    }
  }

  function ThenError(step: Step, error: Option<FrameError>): Step {
    if step.Continue? && error.Some? then Fail(CodecError(error.value), step.next) else step
  }

  /** Decoding and absorbing a compressed batch by turns is decoding all of it, then absorbing. */
  lemma {:induction false} InnerIsFold(lim: Limits, p: Progress, s: seq<byte>)
    ensures var all := DecodeAll(lim.codec, s);
            AbsorbInner(lim, p, s) == ThenError(AbsorbEach(lim, p, all.frames), all.error)
    decreases |s|
  {
    var d := Decode(lim.codec, s);
    if d.Got? {
      DecodeAllStep(lim.codec, s, []);
      var tail := s[d.used..];
      EachCons(lim, p, d.frame, DecodeAll(lim.codec, tail).frames);
      var step := AbsorbData(lim, p, d.frame);
      if step.Continue? { InnerIsFold(lim, step.next, tail); }
    } else {
      DecodeAllStop(lim.codec, s, []);
    }
  }

  // ---------------------------------------------------------------- every slot accounted for

  /** `p` has recorded the first `n` frames of `data`. */
  ghost predicate Partway(start: Progress, data: seq<Frame>, n: nat, p: Progress) {
    n <= |data| && Recorded(start, data[..n], p)
  }

  ghost predicate EventCountError(e: ProtocolError) { e.WindowTooLarge? && e.kind.EventCount? }

  /** Absorbing `data` recorded all of it, or stopped part-way, never on the event count. */
  ghost predicate Accounts(lim: Limits, start: Progress, data: seq<Frame>, step: Step) {
    match step
    case Continue(p) => WithinCaps(lim, p) && Recorded(start, data, p)
    case Fail(e, p) =>
      && WithinCaps(lim, p) && !EventCountError(e)
      && exists n :: Partway(start, data, n, p)
    case Done(_) => false
  }

  lemma AccountsMore(lim: Limits, start: Progress, data: seq<Frame>, mid: Progress, f: Frame)
    requires Accounts(lim, start, data, Continue(mid))
    ensures Accounts(lim, start, data + [f], AbsorbData(lim, mid, f))
  {
    var step := AbsorbData(lim, mid, f);
    if step.Continue? {
      RecordedMore(start, data, mid, f, lim);
    } else {
      assert (data + [f])[..|data|] == data;
      assert Partway(start, data + [f], |data|, mid);
    }
  }

  lemma AccountsStopped(lim: Limits, start: Progress, data: seq<Frame>, step: Step, more: seq<Frame>)
    requires step.Fail? && Accounts(lim, start, data, step)
    ensures Accounts(lim, start, data + more, step)
  {
    var n: nat :| Partway(start, data, n, step.at);
    assert (data + more)[..n] == data[..n];
    assert Partway(start, data + more, n, step.at);
  }

  /** A compressed batch or a single data frame: recorded in full, or rejected part-way with
      the caps intact; the mid-stream event-count check never fires. */
  lemma {:induction false} EachAccounts(lim: Limits, start: Progress, data: seq<Frame>)
    requires WithinCaps(lim, start)
    ensures Accounts(lim, start, data, AbsorbEach(lim, start, data))
    decreases |data|
  {
    if data == [] {
      assert start.events + [] == start.events;
    } else {
      var init, last := data[..|data| - 1], data[|data| - 1];
      assert init + [last] == data;
      EachAccounts(lim, start, init);
      var step := AbsorbEach(lim, start, init);
      if step.Continue? { AccountsMore(lim, start, init, step.next, last); }
      else { AccountsStopped(lim, start, init, step, [last]); }
    }
  }

  // ---------------------------------------------------------------- whole windows

  /** `p` is where a run stands after absorbing `frames` from the start of a window. */
  ghost predicate Tally(lim: Limits, frames: seq<Frame>, p: Progress) {
    var data, declared := AllCarried(lim.codec, frames), Declared(frames);
    && WithinCaps(lim, p)
    && p.events == EventsOf(data)
    && (p.remaining.None? ==> declared == [] && data == [])
    && (p.remaining.Some? ==>
          && |declared| == 1
          && declared[0] == |p.events| + LegacySlots(data) + p.remaining.value)
  }

  /** A completed window fills its declared count: one event or legacy slot per data frame. */
  ghost predicate Filled(lim: Limits, frames: seq<Frame>, w: EventWindow) {
    var data, declared := AllCarried(lim.codec, frames), Declared(frames);
    && w.events == EventsOf(data)
    && w.lastSeq == LastSeq(w.events)
    && |declared| == 1 && declared[0] == |w.events| + LegacySlots(data)
    && |w.events| <= lim.maxEvents && TotalBytes(w.events) <= lim.maxBytes
  }

  ghost predicate OverDeclares(lim: Limits, f: Frame) { f.Window? && f.count > lim.maxEvents }

  /** `p` has recorded the first `n` data frames that `frames` carry, all but some of the last
      frame's, and every one of them against the first declared count. */
  ghost predicate StoppedAfter(carry: Frame -> seq<Frame>, frames: seq<Frame>, n: nat, p: Progress) {
    && AccountedFor(Spread(carry, frames), Declared(frames), n, p)
    && (frames != [] ==> |Spread(carry, frames[..|frames| - 1])| <= n)
  }

  ghost predicate AccountedFor(data: seq<Frame>, declared: seq<u32>, n: nat, p: Progress) {
    && n <= |data| && p.events == EventsOf(data[..n])
    && (p.remaining.None? ==> n == 0)
    && (p.remaining.Some? ==>
          declared != [] && declared[0] == |p.events| + LegacySlots(data[..n]) + p.remaining.value)
  }

  /** A rejected window never held more than the caps allow, and accounts for every data frame
      before the one it was rejected at; the event count is at fault only when the declaration was. */
  ghost predicate RejectedWithin(lim: Limits, frames: seq<Frame>, e: ProtocolError, p: Progress) {
    && WithinCaps(lim, p)
    && p.events <= EventsOf(AllCarried(lim.codec, frames))
    && (exists n :: StoppedAfter(Carrier(lim.codec), frames, n, p))
    && (EventCountError(e) ==> frames != [] && OverDeclares(lim, frames[|frames| - 1]))
  }

  ghost predicate StepTallies(lim: Limits, frames: seq<Frame>, step: Step) {
    match step
    case Continue(p) => Tally(lim, frames, p)
    case Done(w) => Filled(lim, frames, w)
    case Fail(e, p) => RejectedWithin(lim, frames, e, p)
  }

  lemma {:induction false} EventsOfAppend(a: seq<Frame>, b: seq<Frame>)
    ensures EventsOf(a + b) == EventsOf(a) + EventsOf(b)
    ensures LegacySlots(a + b) == LegacySlots(a) + LegacySlots(b)
    decreases |b|
  {
    if b == [] {
      assert a + b == a;
    } else {
      assert (a + b)[..|a + b| - 1] == a + b[..|b| - 1];
      EventsOfAppend(a, b[..|b| - 1]);
    }
  }

  lemma SnocFrames(k: Codec, frames: seq<Frame>, f: Frame)
    ensures AllCarried(k, frames + [f]) == AllCarried(k, frames) + Carried(k, f)
    ensures Declared(frames + [f]) == Declared(frames) + (if f.Window? then [f.count] else [])
  {
    assert (frames + [f])[..|frames|] == frames;
  }

  /** Absorbing a data frame, as a fold over what it carries. */
  lemma AbsorbAsFold(lim: Limits, p: Progress, f: Frame) returns (step: Step, error: Option<FrameError>)
    requires f.Compressed? || f.Json? || f.Unknown?
    ensures step == AbsorbEach(lim, p, Carried(lim.codec, f))
    ensures error == if f.Compressed? then DecodeAll(lim.codec, f.decompressed).error else None
    ensures Absorb(lim, p, f) == HandOver(ThenError(step, error))
  {
    step, error := AbsorbEach(lim, p, Carried(lim.codec, f)), None;
    if f.Compressed? {
      InnerIsFold(lim, p, f.decompressed);
      error := DecodeAll(lim.codec, f.decompressed).error;
    } else {
      EachCons(lim, p, f, []);
      assert [f] + [] == Carried(lim.codec, f);
    }
  }

  lemma TallyRecorded(lim: Limits, frames: seq<Frame>, p: Progress, f: Frame, q: Progress)
    requires Tally(lim, frames, p) && !f.Window?
    requires WithinCaps(lim, q) && Recorded(p, Carried(lim.codec, f), q)
    ensures Tally(lim, frames + [f], q)
  {
    SnocFrames(lim.codec, frames, f);
    EventsOfAppend(AllCarried(lim.codec, frames), Carried(lim.codec, f));
  }

  lemma {:induction false} EventsOfPrefix(data: seq<Frame>, n: nat)
    requires n <= |data|
    ensures EventsOf(data[..n]) <= EventsOf(data)
    decreases |data|
  {
    if n == |data| {
      assert data[..n] == data;
    } else {
      var init := data[..|data| - 1];
      EventsOfPrefix(init, n);
      assert data[..n] == init[..n];
    }
  }

  lemma PartOfEvents(before: seq<Frame>, data: seq<Frame>, n: nat)
    requires n <= |data|
    ensures EventsOf(before) + EventsOf(data[..n]) <= EventsOf(before + data)
  {
    var part := data[..n];
    EventsOfAppend(before, part);
    assert (before + data)[..|before| + n] == before + part;
    EventsOfPrefix(before + data, |before| + n);
  }

  lemma PartwayAccounted(data: seq<Frame>, declared: seq<u32>, p: Progress, more: seq<Frame>, m: nat, q: Progress)
    requires AccountedFor(data, declared, |data|, p) && Partway(p, more, m, q)
    ensures AccountedFor(data + more, declared, |data| + m, q)
  {
    assert data[..|data|] == data;
    assert (data + more)[..|data| + m] == data + more[..m];
    EventsOfAppend(data, more[..m]);
  }

  lemma TallyAccounted(lim: Limits, frames: seq<Frame>, p: Progress)
    requires Tally(lim, frames, p)
    ensures AccountedFor(AllCarried(lim.codec, frames), Declared(frames), |AllCarried(lim.codec, frames)|, p)
  {
    var data := AllCarried(lim.codec, frames);
    assert data[..|data|] == data;
  }

  /** Stopping part-way through what the last frame carries. */
  lemma StoppedPartway(carry: Frame -> seq<Frame>, frames: seq<Frame>, p: Progress, f: Frame, m: nat, q: Progress)
    requires AccountedFor(Spread(carry, frames), Declared(frames), |Spread(carry, frames)|, p)
    requires Partway(p, carry(f), m, q)
    ensures StoppedAfter(carry, frames + [f], |Spread(carry, frames)| + m, q)
  {
    PartwayAccounted(Spread(carry, frames), Declared(frames), p, carry(f), m, q);
    assert (frames + [f])[..|frames|] == frames;
  }

  /** Stopping at a frame that carries no data. */
  lemma StoppedAt(carry: Frame -> seq<Frame>, frames: seq<Frame>, p: Progress, f: Frame)
    requires AccountedFor(Spread(carry, frames), Declared(frames), |Spread(carry, frames)|, p) && carry(f) == []
    ensures StoppedAfter(carry, frames + [f], |Spread(carry, frames)|, p)
  {
    assert Spread(carry, frames) + [] == Spread(carry, frames);
    assert (frames + [f])[..|frames|] == frames;
  }

  /** Stopping between two frames, at bytes that are no frame. */
  lemma StoppedBetween(lim: Limits, frames: seq<Frame>, p: Progress)
    requires Tally(lim, frames, p)
    ensures StoppedAfter(Carrier(lim.codec), frames, |AllCarried(lim.codec, frames)|, p)
  {
    TallyAccounted(lim, frames, p);
  }

  lemma TallyData(lim: Limits, frames: seq<Frame>, p: Progress, f: Frame)
    requires Tally(lim, frames, p) && (f.Compressed? || f.Json? || f.Unknown?)
    ensures StepTallies(lim, frames + [f], Absorb(lim, p, f))
  {
    EachAccounts(lim, p, Carried(lim.codec, f));
    var step, error := AbsorbAsFold(lim, p, f);
    if step.Fail? {
      RejectedPartway(lim, frames, p, f, step.error, step.at);
    } else {
      TallyRecorded(lim, frames, p, f, step.next);
      StoppedBetween(lim, frames + [f], step.next);
    }
  }

  lemma RejectedPartway(lim: Limits, frames: seq<Frame>, p: Progress, f: Frame, e: ProtocolError, q: Progress)
    requires Tally(lim, frames, p) && !f.Window? && Accounts(lim, p, Carried(lim.codec, f), Fail(e, q))
    ensures RejectedWithin(lim, frames + [f], e, q)
  {
    var m: nat :| Partway(p, Carried(lim.codec, f), m, q);
    TallyAccounted(lim, frames, p);
    StoppedPartway(Carrier(lim.codec), frames, p, f, m, q);
    SnocFrames(lim.codec, frames, f);
    PartOfEvents(AllCarried(lim.codec, frames), Carried(lim.codec, f), m);
  }

  lemma TallyMore(lim: Limits, frames: seq<Frame>, p: Progress, f: Frame)
    requires Tally(lim, frames, p)
    ensures StepTallies(lim, frames + [f], Absorb(lim, p, f))
  {
    if f.Compressed? || f.Json? || f.Unknown? {
      TallyData(lim, frames, p, f);
    } else {
      SnocFrames(lim.codec, frames, f);
      assert AllCarried(lim.codec, frames) + [] == AllCarried(lim.codec, frames);
      assert (frames + [f])[|frames|..] == [f];
      TallyAccounted(lim, frames, p);
      StoppedAt(Carrier(lim.codec), frames, p, f);
    }
  }

  // ---------------------------------------------------------------- every read

  /** Absorbing frames in turn: how many were absorbed, and the step that ended it. */
  function Fold(absorb: (Progress, Frame) -> Step, p: Progress, frames: seq<Frame>): (nat, Step)
    decreases |frames|
  {
    if frames == [] then (0, Continue(p))
    else
      match absorb(p, frames[0])
      case Continue(next) => var (n, step) := Fold(absorb, next, frames[1..]); (n + 1, step)
      case stop => (1, stop)
  }

  function Absorber(lim: Limits): (Progress, Frame) -> Step { (p, f) => Absorb(lim, p, f) }

  /** Induction over a fold: what every absorbed frame preserves holds where the fold ends. */
  lemma {:induction false} FoldInduction(absorb: (Progress, Frame) -> Step, inv: (seq<Frame>, Step) -> bool,
                                         before: seq<Frame>, p: Progress, frames: seq<Frame>)
    requires inv(before, Continue(p))
    requires forall b, q, f :: inv(b, Continue(q)) ==> inv(b + [f], absorb(q, f))
    ensures var (n, step) := Fold(absorb, p, frames);
            && n <= |frames| && (step.Continue? ==> n == |frames|)
            && inv(before + frames[..n], step)
    decreases |frames|
  {
    if frames == [] {
      assert before + frames[..0] == before;
    } else {
      var f, tail := frames[0], frames[1..];
      var now := before + [f];
      var step := absorb(p, f);
      assert inv(now, step);
      if step.Continue? {
        FoldInduction(absorb, inv, now, step.next, tail);
        var n := Fold(absorb, step.next, tail).0;
        assert before + frames[..n + 1] == now + tail[..n];
      } else {
        assert before + frames[..1] == now;
      }
    }
  }

  lemma FoldTallies(lim: Limits, frames: seq<Frame>)
    ensures var (n, step) := Fold(Absorber(lim), START, frames);
            n <= |frames| && (step.Continue? ==> n == |frames|) && StepTallies(lim, frames[..n], step)
  {
    var inv := (b, step) => StepTallies(lim, b, step);
    forall b, q, f | inv(b, Continue(q)) ensures inv(b + [f], Absorber(lim)(q, f)) {
      TallyMore(lim, b, q, f);
    }
    FoldInduction(Absorber(lim), inv, [], START, frames);
    var n := Fold(Absorber(lim), START, frames).0;
    assert [] + frames[..n] == frames[..n];
  }

  /** Reading absorbed the first `n` of the frames `all` and left the others to be read. */
  ghost predicate Splits(k: Codec, all: Stream, n: nat, rest: seq<byte>) {
    n <= |all.frames| && DecodeAll(k, rest) == Stream(all.frames[n..], all.rest, all.error)
  }

  function Concluded(step: Step, error: Option<FrameError>, rest: seq<byte>): Outcome {
    match ThenError(step, error)
    case Continue(p) => Starved(p, rest)
    case Done(w) => Complete(w, rest)
    case Fail(e, p) => Rejected(e, p, rest)
  }

  /** Reading a window off a byte string is folding over the frames it decodes to. */
  lemma {:induction false} ConsumeIsFold(lim: Limits, p: Progress, s: seq<byte>)
    ensures var all, o := DecodeAll(lim.codec, s), Consume(lim, p, s);
            var (n, step) := Fold(Absorber(lim), p, all.frames);
            o == Concluded(step, all.error, o.rest) && Splits(lim.codec, all, n, o.rest)
    decreases |s|
  {
    var d := Decode(lim.codec, s);
    if d.Got? {
      DecodeAllStep(lim.codec, s, []);
      var later := DecodeAll(lim.codec, s[d.used..]);
      assert ([d.frame] + later.frames)[1..] == later.frames;
      var step := Absorb(lim, p, d.frame);
      if step.Continue? {
        ConsumeIsFold(lim, step.next, s[d.used..]);
        var n := Fold(Absorber(lim), step.next, later.frames).0;
        assert ([d.frame] + later.frames)[n + 1..] == later.frames[n..];
      }
    } else {
      DecodeAllStop(lim.codec, s, []);
    }
  }

  /** For every byte string a peer can send: the window read, the window still open, or the
      window rejected accounts for exactly the frames absorbed, within the caps, and the frames
      after them are left to be read. */
  lemma EveryReadAccounted(lim: Limits, s: seq<byte>) returns (n: nat)
    ensures Splits(lim.codec, DecodeAll(lim.codec, s), n, Consume(lim, START, s).rest)
    ensures var absorbed := DecodeAll(lim.codec, s).frames[..n];
            match Consume(lim, START, s)
            case Starved(p, _) => Tally(lim, absorbed, p)
            case Complete(w, _) => Filled(lim, absorbed, w)
            case Rejected(e, p, _) => RejectedWithin(lim, absorbed, e, p)
  {
    ConsumeIsFold(lim, START, s);
    var frames := DecodeAll(lim.codec, s).frames;
    FoldTallies(lim, frames);
    var step;
    n, step := Fold(Absorber(lim), START, frames).0, Fold(Absorber(lim), START, frames).1;
    if step.Continue? { StoppedBetween(lim, frames[..n], step.next); }
  }
}
