/** What the window reader makes of any stream of frames: when it reads on, when it hands a window
    over, when it refuses, and what it answers when the stream ends. */
module Reading {
  import opened Prelude
  import opened Wire
  import opened Frames
  import opened Decoder
  import opened Receiver
  import opened Accounting

  // ---------------------------------------------------------------- one frame's data

  predicate AllData(data: seq<Frame>) { forall i | 0 <= i < |data| :: data[i].Json? || data[i].Unknown? }

  lemma {:induction false} EverySlotCounted(data: seq<Frame>)
    requires AllData(data)
    ensures |EventsOf(data)| + LegacySlots(data) == |data|
    decreases |data|
  {
    if data != [] { EverySlotCounted(data[..|data| - 1]); }
  }

  lemma {:induction false} TotalBytesAppend(a: seq<Event>, b: seq<Event>)
    ensures TotalBytes(a + b) == TotalBytes(a) + TotalBytes(b)
    decreases |b|
  {
    if b == [] {
      assert a + b == a;
    } else {
      assert (a + b)[..|a + b| - 1] == a + b[..|b| - 1];
      TotalBytesAppend(a, b[..|b| - 1]);
    }
  }

  /** There is a slot and room for all of these frames, and nothing among them but data. */
  ghost predicate Room(lim: Limits, p: Progress, data: seq<Frame>) {
    data != [] ==>
      && AllData(data)
      && p.remaining.Some? && |data| <= p.remaining.value
      && p.bytes + TotalBytes(EventsOf(data)) <= lim.maxBytes
  }

  lemma AbsorbsOne(lim: Limits, p: Progress, f: Frame)
    requires WithinCaps(lim, p)
    ensures AbsorbData(lim, p, f).Continue? <==>
      && (f.Json? || f.Unknown?)
      && p.remaining.Some? && p.remaining.value > 0
      && (f.Json? ==> p.bytes + |f.payload| <= lim.maxBytes)
  {
  }

  /** Data frames are absorbed exactly when there is room for all of them. */
  lemma {:induction false} AbsorbsEach(lim: Limits, p: Progress, data: seq<Frame>)
    requires WithinCaps(lim, p)
    ensures AbsorbEach(lim, p, data).Continue? <==> Room(lim, p, data)
    decreases |data|
  {
    if data != [] {
      var init, last := data[..|data| - 1], data[|data| - 1];
      AbsorbsEach(lim, p, init);
      EachAccounts(lim, p, init);
      var step := AbsorbEach(lim, p, init);
      if step.Continue? {
        AbsorbsLast(lim, p, init, last, step.next);
        assert data == init + [last];
      } else {
        RoomShrinks(lim, p, init, last);
        assert data == init + [last];
      }
    }
  }

  lemma EventsOfMore(data: seq<Frame>, f: Frame)
    ensures EventsOf(data + [f]) == EventsOf(data) + (if f.Json? then [Event(f.seqNo, f.payload)] else [])
    ensures TotalBytes(EventsOf(data + [f])) == TotalBytes(EventsOf(data)) + (if f.Json? then |f.payload| else 0)
  {
    assert (data + [f])[..|data|] == data;
    if f.Json? {
      var e := Event(f.seqNo, f.payload);
      assert (EventsOf(data) + [e])[..|EventsOf(data)|] == EventsOf(data);
    }
  }

  lemma AllDataMore(data: seq<Frame>, f: Frame)
    ensures AllData(data + [f]) <==> AllData(data) && (f.Json? || f.Unknown?)
  {
    assert forall i | 0 <= i < |data| :: (data + [f])[i] == data[i];
    assert (data + [f])[|data|] == f;
  }

  lemma RoomShrinks(lim: Limits, p: Progress, data: seq<Frame>, f: Frame)
    ensures Room(lim, p, data + [f]) ==> Room(lim, p, data)
  {
    EventsOfMore(data, f);
    AllDataMore(data, f);
  }

  lemma RoomMore(lim: Limits, p: Progress, data: seq<Frame>, f: Frame)
    requires Room(lim, p, data) && p.bytes <= lim.maxBytes
    ensures Room(lim, p, data + [f]) <==>
      && (f.Json? || f.Unknown?)
      && p.remaining.Some? && |data| < p.remaining.value
      && p.bytes + TotalBytes(EventsOf(data)) + (if f.Json? then |f.payload| else 0) <= lim.maxBytes
  {
    EventsOfMore(data, f);
    AllDataMore(data, f);
  }

  lemma RecordedStands(lim: Limits, p: Progress, data: seq<Frame>, mid: Progress)
    requires WithinCaps(lim, p) && Room(lim, p, data) && WithinCaps(lim, mid) && Recorded(p, data, mid)
    ensures mid.bytes == p.bytes + TotalBytes(EventsOf(data))
    ensures mid.remaining.Some? == p.remaining.Some?
    ensures mid.remaining.Some? ==> p.remaining.value == |data| + mid.remaining.value
  {
    TotalBytesAppend(p.events, EventsOf(data));
    if data != [] { EverySlotCounted(data); }
  }

  lemma AbsorbsLast(lim: Limits, p: Progress, data: seq<Frame>, f: Frame, mid: Progress)
    requires WithinCaps(lim, p) && Room(lim, p, data) && WithinCaps(lim, mid) && Recorded(p, data, mid)
    ensures AbsorbData(lim, mid, f).Continue? <==> Room(lim, p, data + [f])
  {
    AbsorbsOne(lim, mid, f);
    RoomMore(lim, p, data, f);
    RecordedStands(lim, p, data, mid);
  }

  // ---------------------------------------------------------------- a stream that reads on

  /** A frame that may be part of a window: a compressed one decodes to its end, into data alone. */
  predicate Admissible(k: Codec, f: Frame) {
    match f
    case Compressed(inner) => DecodeAll(k, inner).error.None? && AllData(DecodeAll(k, inner).frames)
    case Ack(_) => false
    case _ => true
  }

  /** What a receiver lets through: the frames that may be part of a window, the data they carry,
      and its caps. */
  datatype Grammar = Grammar(ok: Frame -> bool, carry: Frame -> seq<Frame>, maxEvents: nat, maxBytes: nat)

  function GrammarOf(lim: Limits): Grammar {
    Grammar(f => Admissible(lim.codec, f), Carrier(lim.codec), lim.maxEvents, lim.maxBytes)
  }

  /** A window header comes first, before any data, and declares no more events than the cap. */
  ghost predicate Headed(g: Grammar, before: seq<Frame>, f: Frame) {
    f.Window? ==> 0 < f.count <= g.maxEvents && Declared(before) == [] && Spread(g.carry, before) == []
  }

  ghost predicate Ordered(g: Grammar, frames: seq<Frame>) {
    frames == [] ||
    var (init, last) := (frames[..|frames| - 1], frames[|frames| - 1]);
    Ordered(g, init) && g.ok(last) && Headed(g, init, last)
  }

  /** Fewer slots filled than declared, and no more bytes than the cap. */
  ghost predicate Unfilled(g: Grammar, data: seq<Frame>, declared: seq<u32>) {
    && (declared == [] ==> data == [])
    && (declared != [] ==> |data| < declared[0])
    && TotalBytes(EventsOf(data)) <= g.maxBytes
  }

  /** The frames of a window not yet complete, stated without reference to the reader. */
  ghost predicate Open(g: Grammar, frames: seq<Frame>) {
    Ordered(g, frames) && Unfilled(g, Spread(g.carry, frames), Declared(frames))
  }

  /** The frame that completes an open window: it fills the last slot declared, or declares none. */
  ghost predicate Completes(g: Grammar, frames: seq<Frame>, f: Frame) {
    if f.Window? then Declared(frames) == [] && f.count == 0
    else
      var data := Spread(g.carry, frames) + g.carry(f);
      && g.ok(f) && Declared(frames) != [] && |data| == Declared(frames)[0]
      && TotalBytes(EventsOf(data)) <= g.maxBytes
  }

  lemma OneFrameMore(g: Grammar, frames: seq<Frame>, f: Frame)
    ensures Ordered(g, frames + [f]) <==> Ordered(g, frames) && g.ok(f) && Headed(g, frames, f)
    ensures Spread(g.carry, frames + [f]) == Spread(g.carry, frames) + g.carry(f)
    ensures Declared(frames + [f]) == Declared(frames) + (if f.Window? then [f.count] else [])
  {
    assert (frames + [f])[..|frames|] == frames;
  }

  // ---------------------------------------------------------------- the reader, frame by frame

  lemma AllDataAppend(a: seq<Frame>, b: seq<Frame>)
    ensures AllData(a + b) <==> AllData(a) && AllData(b)
  {
    assert forall i | 0 <= i < |a| :: (a + b)[i] == a[i];
    assert forall i | 0 <= i < |b| :: (a + b)[|a| + i] == b[i];
  }

  lemma CarriedIsData(k: Codec, f: Frame)
    requires Admissible(k, f)
    ensures AllData(Carried(k, f))
  {
  }

  lemma {:induction false} OrderedIsData(lim: Limits, frames: seq<Frame>)
    requires Ordered(GrammarOf(lim), frames)
    ensures AllData(AllCarried(lim.codec, frames))
    decreases |frames|
  {
    if frames != [] {
      var init, last := frames[..|frames| - 1], frames[|frames| - 1];
      OrderedIsData(lim, init);
      CarriedIsData(lim.codec, last);
      AllDataAppend(AllCarried(lim.codec, init), Carried(lim.codec, last));
    }
  }

  /** `p` stands where recording `data` against `declared` leaves the reader. */
  ghost predicate StandsAt(lim: Limits, data: seq<Frame>, declared: seq<u32>, p: Progress) {
    && WithinCaps(lim, p) && AllData(data) && Unfilled(GrammarOf(lim), data, declared)
    && AccountedFor(data, declared, |data|, p)
    && (p.remaining.None? <==> declared == [])
  }

  lemma SlotsAdd(lim: Limits, data: seq<Frame>, declared: seq<u32>, p: Progress, c: seq<Frame>)
    requires StandsAt(lim, data, declared, p) && AllData(c)
    ensures p.remaining.Some? ==> p.remaining.value > 0
    ensures Unfilled(GrammarOf(lim), data + c, declared) <==>
      Room(lim, p, c) && (p.remaining.Some? ==> |c| < p.remaining.value)
    ensures declared != [] && |data + c| == declared[0] && TotalBytes(EventsOf(data + c)) <= lim.maxBytes <==>
      Room(lim, p, c) && p.remaining.Some? && |c| == p.remaining.value
  {
    assert data[..|data|] == data;
    EverySlotCounted(data);
    EventsOfAppend(data, c);
    TotalBytesAppend(EventsOf(data), EventsOf(c));
    if c == [] { assert data + c == data; }
  }

  lemma OpenStands(lim: Limits, frames: seq<Frame>, p: Progress)
    requires Open(GrammarOf(lim), frames) && Tally(lim, frames, p)
    ensures StandsAt(lim, AllCarried(lim.codec, frames), Declared(frames), p)
  {
    OrderedIsData(lim, frames);
    TallyAccounted(lim, frames, p);
  }

  /** The reader's step says of `f` what the stream says: it reads on, or the window is complete. */
  ghost predicate Agrees(lim: Limits, frames: seq<Frame>, f: Frame, step: Step) {
    && (step.Continue? <==> Open(GrammarOf(lim), frames + [f]))
    && (step.Done? <==> Completes(GrammarOf(lim), frames, f))
  }

  lemma HeaderAgrees(lim: Limits, frames: seq<Frame>, p: Progress, f: Frame)
    requires Open(GrammarOf(lim), frames) && Tally(lim, frames, p) && (f.Window? || f.Ack?)
    ensures Agrees(lim, frames, f, Absorb(lim, p, f))
  {
    OneFrameMore(GrammarOf(lim), frames, f);
    assert AllCarried(lim.codec, frames) + [] == AllCarried(lim.codec, frames);
  }

  /** Absorbing what `f` carries, and the error its contents end in. */
  lemma DataStep(lim: Limits, data: seq<Frame>, declared: seq<u32>, p: Progress, c: seq<Frame>,
                 step: Step, error: Option<FrameError>)
    requires StandsAt(lim, data, declared, p) && step == AbsorbEach(lim, p, c)
    ensures HandOver(ThenError(step, error)).Continue? <==>
      error.None? && AllData(c) && Unfilled(GrammarOf(lim), data + c, declared)
    ensures HandOver(ThenError(step, error)).Done? <==>
      && error.None? && AllData(c)
      && declared != [] && |data + c| == declared[0] && TotalBytes(EventsOf(data + c)) <= lim.maxBytes
  {
    AbsorbsEach(lim, p, c);
    EachAccounts(lim, p, c);
    if AllData(c) {
      SlotsAdd(lim, data, declared, p, c);
      EverySlotCounted(c);
    }
  }

  lemma DataAgrees(lim: Limits, frames: seq<Frame>, p: Progress, f: Frame)
    requires Open(GrammarOf(lim), frames) && Tally(lim, frames, p) && (f.Compressed? || f.Json? || f.Unknown?)
    ensures Agrees(lim, frames, f, Absorb(lim, p, f))
  {
    OpenStands(lim, frames, p);
    var step, error := AbsorbAsFold(lim, p, f);
    DataStep(lim, AllCarried(lim.codec, frames), Declared(frames), p, Carried(lim.codec, f), step, error);
    AdmissibleData(lim.codec, f, error);
    OneFrameMore(GrammarOf(lim), frames, f);
  }

  lemma AdmissibleData(k: Codec, f: Frame, error: Option<FrameError>)
    requires f.Compressed? || f.Json? || f.Unknown?
    requires error == if f.Compressed? then DecodeAll(k, f.decompressed).error else None
    ensures Admissible(k, f) <==> error.None? && AllData(Carried(k, f))
  {
  }

  lemma StepAgrees(lim: Limits, frames: seq<Frame>, p: Progress, f: Frame)
    requires Open(GrammarOf(lim), frames) && Tally(lim, frames, p)
    ensures Agrees(lim, frames, f, Absorb(lim, p, f))
  {
    if f.Window? || f.Ack? { HeaderAgrees(lim, frames, p, f); }
    else { DataAgrees(lim, frames, p, f); }
  }

  // ---------------------------------------------------------------- the reader, over a whole stream

  lemma OpenBefore(g: Grammar, frames: seq<Frame>, f: Frame)
    requires Open(g, frames + [f])
    ensures Open(g, frames)
  {
    var data, c := Spread(g.carry, frames), g.carry(f);
    OneFrameMore(g, frames, f);
    EventsOfAppend(data, c);
    TotalBytesAppend(EventsOf(data), EventsOf(c));
  }

  lemma {:induction false} OpenPrefix(g: Grammar, frames: seq<Frame>, n: nat)
    requires Open(g, frames) && n <= |frames|
    ensures Open(g, frames[..n])
    decreases |frames|
  {
    if n == |frames| {
      assert frames[..n] == frames;
    } else {
      var init := frames[..|frames| - 1];
      assert frames == init + [frames[|frames| - 1]];
      OpenBefore(g, init, frames[|frames| - 1]);
      OpenPrefix(g, init, n);
      assert init[..n] == frames[..n];
    }
  }

  lemma CompleteIsNotOpen(g: Grammar, frames: seq<Frame>, f: Frame)
    requires Completes(g, frames, f)
    ensures !Open(g, frames + [f])
  {
    OneFrameMore(g, frames, f);
  }

  /** The first `n` frames are a window, complete with the last of them. */
  ghost predicate Finishes(g: Grammar, frames: seq<Frame>, n: nat) {
    0 < n <= |frames| && Open(g, frames[..n - 1]) && Completes(g, frames[..n - 1], frames[n - 1])
  }

  /** The frames read so far explain the step they led to. */
  ghost predicate Explained(g: Grammar, frames: seq<Frame>, step: Step) {
    match step
    case Continue(_) => Open(g, frames)
    case Done(_) => Finishes(g, frames, |frames|)
    case Fail(_, _) =>
      && frames != [] && Open(g, frames[..|frames| - 1])
      && !Open(g, frames) && !Finishes(g, frames, |frames|)
  }

  lemma ExplainedMore(lim: Limits, frames: seq<Frame>, p: Progress, f: Frame)
    requires Open(GrammarOf(lim), frames) && Tally(lim, frames, p)
    ensures Explained(GrammarOf(lim), frames + [f], Absorb(lim, p, f))
  {
    StepAgrees(lim, frames, p, f);
    assert (frames + [f])[..|frames|] == frames;
  }

  lemma FoldExplained(lim: Limits, frames: seq<Frame>)
    ensures var (n, step) := Fold(Absorber(lim), START, frames);
      n <= |frames| && (step.Continue? ==> n == |frames|) && Explained(GrammarOf(lim), frames[..n], step)
  {
    var inv := (b, step) => StepTallies(lim, b, step) && Explained(GrammarOf(lim), b, step);
    forall b, q, f | inv(b, Continue(q)) ensures inv(b + [f], Absorber(lim)(q, f)) {
      TallyMore(lim, b, q, f);
      ExplainedMore(lim, b, q, f);
    }
    FoldInduction(Absorber(lim), inv, [], START, frames);
    var n := Fold(Absorber(lim), START, frames).0;
    assert [] + frames[..n] == frames[..n];
  }

  lemma FinishedIsNotOpen(g: Grammar, frames: seq<Frame>, m: nat)
    requires Finishes(g, frames, m)
    ensures !Open(g, frames[..m])
  {
    assert frames[..m] == frames[..m - 1] + [frames[m - 1]];
    CompleteIsNotOpen(g, frames[..m - 1], frames[m - 1]);
  }

  lemma OpenUpTo(g: Grammar, frames: seq<Frame>, n: nat, m: nat)
    requires m <= n <= |frames| && Open(g, frames[..n])
    ensures Open(g, frames[..m])
  {
    OpenPrefix(g, frames[..n], m);
    assert frames[..n][..m] == frames[..m];
  }

  /** `frames` are open up to but not including the `n`-th. */
  ghost predicate ClosesAt(g: Grammar, frames: seq<Frame>, n: nat) {
    0 < n <= |frames| && Open(g, frames[..n - 1]) && !Open(g, frames[..n])
  }

  lemma ClosesLast(g: Grammar, frames: seq<Frame>, n: nat, m: nat)
    requires ClosesAt(g, frames, n) && ClosesAt(g, frames, m)
    ensures m >= n
  {
    if m < n { OpenUpTo(g, frames, n - 1, m); }
  }

  /** A stream stops being open in one place only. */
  lemma ClosesOnce(g: Grammar, frames: seq<Frame>, n: nat, m: nat)
    requires ClosesAt(g, frames, n) && ClosesAt(g, frames, m)
    ensures m == n
  {
    ClosesLast(g, frames, n, m);
    ClosesLast(g, frames, m, n);
  }

  lemma OpenNeverCloses(g: Grammar, frames: seq<Frame>, m: nat)
    requires Open(g, frames)
    ensures !ClosesAt(g, frames, m)
  {
    if m <= |frames| { OpenPrefix(g, frames, m); }
  }

  lemma FinishesCloses(g: Grammar, frames: seq<Frame>, m: nat)
    requires Finishes(g, frames, m)
    ensures ClosesAt(g, frames, m)
  {
    FinishedIsNotOpen(g, frames, m);
  }

  /** Every stream of frames: the reader reads on exactly while the stream is an open window, hands
      a window over exactly where the stream completes one, and refuses it otherwise. */
  lemma ReadsExactly(lim: Limits, frames: seq<Frame>)
    ensures var (n, step) := Fold(Absorber(lim), START, frames);
      && n <= |frames|
      && (step.Continue? <==> Open(GrammarOf(lim), frames))
      && (step.Done? <==> exists m :: Finishes(GrammarOf(lim), frames, m))
      && (step.Done? ==> Finishes(GrammarOf(lim), frames, n))
  {
    FoldExplained(lim, frames);
    var (n, step) := Fold(Absorber(lim), START, frames);
    StopsExactly(GrammarOf(lim), frames, n, step);
  }

  lemma StopsExactly(g: Grammar, frames: seq<Frame>, n: nat, step: Step)
    requires n <= |frames| && (step.Continue? ==> n == |frames|) && Explained(g, frames[..n], step)
    ensures step.Continue? <==> Open(g, frames)
    ensures step.Done? <==> exists m :: Finishes(g, frames, m)
    ensures step.Done? ==> Finishes(g, frames, n)
  {
    if step.Continue? {
      assert frames[..n] == frames;
      forall m ensures !Finishes(g, frames, m) {
        if Finishes(g, frames, m) {
          FinishesCloses(g, frames, m);
          OpenNeverCloses(g, frames, m);
        }
      }
    } else {
      StoppedExactly(g, frames, n, step);
    }
  }

  lemma StoppedExactly(g: Grammar, frames: seq<Frame>, n: nat, step: Step)
    requires n <= |frames| && !step.Continue? && Explained(g, frames[..n], step)
    ensures !Open(g, frames)
    ensures step.Done? <==> exists m :: Finishes(g, frames, m)
    ensures step.Done? ==> Finishes(g, frames, n)
  {
    var read := frames[..n];
    assert |read| == n && read[..n - 1] == frames[..n - 1] && read[n - 1] == frames[n - 1];
    assert Finishes(g, frames, n) <==> Finishes(g, read, n);
    if step.Done? { FinishesCloses(g, frames, n); }
    assert ClosesAt(g, frames, n);
    if Open(g, frames) { OpenNeverCloses(g, frames, n); }
    forall m | Finishes(g, frames, m) ensures m == n {
      FinishesCloses(g, frames, m);
      ClosesOnce(g, frames, n, m);
    }
  }

  // ---------------------------------------------------------------- what a refusal names

  /** The error for the first data frame there is no room for: it names a frame that has no place
      here, a frame without a slot, or the bytes it would have come to. */
  function Blame(lim: Limits, p: Progress, before: seq<Frame>, f: Frame): ProtocolError {
    if !f.Json? && !f.Unknown? then CodecError(UnknownFrameType(0))
    else if p.remaining.None? || p.remaining.value <= |before| then
      CodecError(UnknownFrameType(if f.Json? then JSON else LEGACY))
    else
      var reached := p.bytes + TotalBytes(EventsOf(before)) + (if f.Json? then |f.payload| else 0);
      WindowTooLarge(ByteTotal, reached, lim.maxBytes)
  }

  ghost predicate BlamedAt(lim: Limits, p: Progress, data: seq<Frame>, e: ProtocolError, m: nat) {
    m < |data| && Room(lim, p, data[..m]) && !Room(lim, p, data[..m + 1]) && e == Blame(lim, p, data[..m], data[m])
  }

  lemma {:induction false} RefusesFirst(lim: Limits, p: Progress, data: seq<Frame>) returns (m: nat)
    requires WithinCaps(lim, p) && AbsorbEach(lim, p, data).Fail?
    ensures BlamedAt(lim, p, data, AbsorbEach(lim, p, data).error, m)
    decreases |data|
  {
    var init, last := data[..|data| - 1], |data| - 1;
    assert data == init + [data[last]] && data[..last + 1] == data;
    EachAccounts(lim, p, init);
    AbsorbsEach(lim, p, init);
    var step := AbsorbEach(lim, p, init);
    if step.Continue? {
      AbsorbsEach(lim, p, data);
      BlamesLast(lim, p, init, data[last], step.next);
      m := last;
    } else {
      m := RefusesFirst(lim, p, init);
      assert init[..m] == data[..m] && init[..m + 1] == data[..m + 1];
    }
  }

  lemma BlamesLast(lim: Limits, p: Progress, data: seq<Frame>, f: Frame, mid: Progress)
    requires WithinCaps(lim, p) && Room(lim, p, data) && WithinCaps(lim, mid) && Recorded(p, data, mid)
    requires AbsorbData(lim, mid, f).Fail?
    ensures AbsorbData(lim, mid, f).error == Blame(lim, p, data, f)
  {
    AbsorbsOne(lim, mid, f);
    RecordedStands(lim, p, data, mid);
  }

  /** What the reader says when it refuses `f` after an open window. */
  lemma RefusalNamed(lim: Limits, frames: seq<Frame>, p: Progress, f: Frame)
    requires Open(GrammarOf(lim), frames) && Tally(lim, frames, p) && Absorb(lim, p, f).Fail?
    ensures f.Ack? ==> Absorb(lim, p, f).error == CodecError(UnknownFrameType(ACK))
    ensures f.Window? && Declared(frames) != [] ==> Absorb(lim, p, f).error == CodecError(UnknownFrameType(WINDOW))
    ensures f.Window? && Declared(frames) == [] ==>
      Absorb(lim, p, f).error == WindowTooLarge(EventCount, f.count, lim.maxEvents)
    ensures f.Json? || f.Unknown? ==> BlamedAt(lim, p, Carried(lim.codec, f), Absorb(lim, p, f).error, 0)
    ensures f.Compressed? && !Room(lim, p, Carried(lim.codec, f)) ==>
      exists m :: BlamedAt(lim, p, Carried(lim.codec, f), Absorb(lim, p, f).error, m)
    ensures f.Compressed? && Room(lim, p, Carried(lim.codec, f)) ==>
      var error := DecodeAll(lim.codec, f.decompressed).error;
      error.Some? && Absorb(lim, p, f).error == CodecError(error.value)
  {
    if f.Compressed? || f.Json? || f.Unknown? {
      var step, error := AbsorbAsFold(lim, p, f);
      AbsorbsEach(lim, p, Carried(lim.codec, f));
      EachAccounts(lim, p, Carried(lim.codec, f));
      if step.Fail? { var m := RefusesFirst(lim, p, Carried(lim.codec, f)); }
    }
  }

  // ---------------------------------------------------------------- the reader, over bytes

  /** Every byte string: reading starves exactly on an open window and no undecodable byte, returns
      exactly where the frames complete a window, and is rejected otherwise. */
  lemma WindowReadExactly(lim: Limits, s: seq<byte>)
    ensures var all, o := DecodeAll(lim.codec, s), Consume(lim, START, s);
      && (o.Starved? <==> Open(GrammarOf(lim), all.frames) && all.error.None?)
      && (o.Complete? <==> exists m :: Finishes(GrammarOf(lim), all.frames, m))
  {
    ConsumeIsFold(lim, START, s);
    ReadsExactly(lim, DecodeAll(lim.codec, s).frames);
  }

  /** The stream ends: a socket fault is reported; otherwise the end is clean exactly when no
      window was announced, and an announced one is never lost silently. */
  lemma CleanEndExactly(lim: Limits, s: seq<byte>, fault: bool)
    requires Consume(lim, START, s).Starved?
    ensures AtEnd(Consume(lim, START, s).at, fault) ==
      if fault then Failed(Io)
      else if Declared(DecodeAll(lim.codec, s).frames) == [] then EndOfStream
      else Failed(UnexpectedEof)
  {
    var frames := DecodeAll(lim.codec, s).frames;
    ConsumeIsFold(lim, START, s);
    FoldTallies(lim, frames);
    assert frames[..|frames|] == frames;
  }
}
