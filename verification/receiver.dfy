/** The receiving side: windows of events read off a connection, under aggregate caps. */
module Receiver {
  import opened Prelude
  import opened Wire
  import opened Frames
  import opened Decoder

  datatype Limits = Limits(codec: Codec, maxEvents: nat, maxBytes: nat)

  datatype Event = Event(seqNo: u32, payload: seq<byte>)

  /** A complete window: its events in receive order and the number to acknowledge. */
  datatype EventWindow = EventWindow(events: seq<Event>, lastSeq: u32)

  datatype Aggregate = EventCount | ByteTotal

  datatype ProtocolError =
    | CodecError(frameError: FrameError)
    | WindowTooLarge(kind: Aggregate, requested: nat, limit: nat)
    | Io
    | UnexpectedEof

  /** The local state of `read_window`. */
  datatype Progress = Progress(events: seq<Event>, remaining: Option<nat>, lastSeq: u32, bytes: nat)

  const START := Progress([], None, 0, 0)

  datatype Step = Continue(next: Progress) | Done(window: EventWindow) | Fail(error: ProtocolError, at: Progress)

  // ---------------------------------------------------------------- absorbing one frame

  function RecordEvent(lim: Limits, p: Progress, seqNo: u32, payload: seq<byte>): Step {
    if p.remaining.None? || p.remaining.value == 0 then Fail(CodecError(UnknownFrameType(JSON)), p)
    else if |p.events| >= lim.maxEvents then
      Fail(WindowTooLarge(EventCount, |p.events| + 1, lim.maxEvents), p)
    else if p.bytes + |payload| > lim.maxBytes then
      Fail(WindowTooLarge(ByteTotal, p.bytes + |payload|, lim.maxBytes), p)
    else
      Continue(Progress(p.events + [Event(seqNo, payload)], Some(p.remaining.value - 1), seqNo,
                        p.bytes + |payload|))
  }

  function ConsumeSlot(p: Progress): Step {
    if p.remaining.None? || p.remaining.value == 0 then Fail(CodecError(UnknownFrameType(LEGACY)), p)
    else Continue(p.(remaining := Some(p.remaining.value - 1)))
  }

  function AbsorbData(lim: Limits, p: Progress, f: Frame): Step {
    match f
    case Json(seqNo, payload) => RecordEvent(lim, p, seqNo, payload)
    case Unknown(_, _) => ConsumeSlot(p)
    case _ => Fail(CodecError(UnknownFrameType(0)), p)
  }

  /** The frames of a compressed batch. A partial frame at its end is ignored. */
  function AbsorbInner(lim: Limits, p: Progress, s: seq<byte>): Step
    decreases |s|
  {
    match Decode(lim.codec, s)
    case More => Continue(p)
    case Bad(e) => Fail(CodecError(e), p)
    case Got(f, used) =>
      DecodeProgress(lim.codec, s);
      match AbsorbData(lim, p, f)
      case Continue(next) => AbsorbInner(lim, next, s[used..])
      case stop => stop
  }

  function OpenWindow(lim: Limits, p: Progress, count: u32): Step {
    if p.remaining.Some? then Fail(CodecError(UnknownFrameType(WINDOW)), p)
    else if count > lim.maxEvents then Fail(WindowTooLarge(EventCount, count, lim.maxEvents), p)
    else if count == 0 then Done(EventWindow(p.events, 0))
    else Continue(p.(remaining := Some(count)))
  }

  /** A window is handed over once no slot remains. */
  function HandOver(step: Step): Step {
    if step.Continue? && step.next.remaining == Some(0)
    then Done(EventWindow(step.next.events, step.next.lastSeq))
    else step
  }

  function Absorb(lim: Limits, p: Progress, f: Frame): Step {
    match f
    case Window(count) => OpenWindow(lim, p, count)
    case Compressed(inner) => HandOver(AbsorbInner(lim, p, inner))
    case Ack(_) => Fail(CodecError(UnknownFrameType(ACK)), p)
    case _ => HandOver(AbsorbData(lim, p, f))
  }

  // ---------------------------------------------------------------- reading one window

  /** Reading from a byte string: starved with `rest` left over, or decided with `rest` unread. */
  datatype Outcome =
    | Starved(at: Progress, rest: seq<byte>)
    | Complete(window: EventWindow, rest: seq<byte>)
    | Rejected(error: ProtocolError, at: Progress, rest: seq<byte>)

  function Consume(lim: Limits, p: Progress, s: seq<byte>): Outcome
    decreases |s|
  {
    match Decode(lim.codec, s)
    case More => Starved(p, s)
    case Bad(e) => Rejected(CodecError(e), p, s)
    case Got(f, used) =>
      DecodeProgress(lim.codec, s);
      match Absorb(lim, p, f)
      case Continue(next) => Consume(lim, next, s[used..])
      case Done(w) => Complete(w, s[used..])
      case Fail(e, at) => Rejected(e, at, s[used..])
  }

  /** What one decoding attempt on the front of a string says about reading the whole of it. */
  function AfterFrame(step: Step, lim: Limits, rest: seq<byte>): Outcome {
    match step
    case Continue(next) => Consume(lim, next, rest)
    case Done(w) => Complete(w, rest)
    case Fail(e, at) => Rejected(e, at, rest)
  }

  lemma ConsumeFront(lim: Limits, p: Progress, front: seq<byte>, back: seq<byte>)
    ensures var d, outcome := Decode(lim.codec, front), Consume(lim, p, front + back);
            && (d.Bad? ==> outcome == Rejected(CodecError(d.error), p, front + back))
            && (d.Got? ==> d.used <= |front|)
            && (d.Got? ==> outcome == AfterFrame(Absorb(lim, p, d.frame), lim, front[d.used..] + back))
            && (d.More? && back == [] ==> outcome == Starved(p, front))
  {
    var d := Decode(lim.codec, front);
    if d.More? {
      assert back == [] ==> front + back == front;
    } else {
      DecodeStable(lim.codec, front, back);
      if d.Got? {
        DecodeProgress(lim.codec, front);
        assert (front + back)[d.used..] == front[d.used..] + back;
      }
    }
  }

  // ---------------------------------------------------------------- the connection

  datatype SocketRead = Data(bytes: seq<byte>) | Closed | Fault

  /** The bytes the socket delivers before it closes or fails; a read of nothing is a close. */
  function Arriving(script: seq<SocketRead>): seq<byte> {
    if script == [] || !script[0].Data? || script[0].bytes == [] then []
    else script[0].bytes + Arriving(script[1..])
  }

  predicate EndsInFault(script: seq<SocketRead>) {
    script != [] && (script[0].Fault? || (script[0].Data? && script[0].bytes != [] && EndsInFault(script[1..])))
  }

  datatype ReadResult = Read(window: EventWindow) | EndOfStream | Failed(error: ProtocolError)

  function AtEnd(p: Progress, fault: bool): ReadResult {
    if fault then Failed(Io)
    else if p.remaining.None? && p.events == [] then EndOfStream
    else Failed(UnexpectedEof)
  }

  class ServerConnection {
    const lim: Limits
    const decoder: FrameDecoder
    var incoming: seq<SocketRead>

    ghost predicate Valid()
      reads this, decoder
    {
      decoder.Valid() && decoder.codec == lim.codec
    }

    /** Everything still to be read: buffered, then arriving. */
    ghost function Unread(): seq<byte>
      requires Valid()
      reads this, decoder
    {
      decoder.Pending() + Arriving(incoming)
    }

    constructor (lim: Limits, incoming: seq<SocketRead>)
      ensures Valid() && fresh(decoder)
      ensures this.lim == lim && Unread() == Arriving(incoming)
      ensures EndsInFault(this.incoming) == EndsInFault(incoming)
    {
      this.lim := lim;
      this.incoming := incoming;
      decoder := new FrameDecoder(lim.codec);
      new;
      assert [] + Arriving(incoming) == Arriving(incoming);
    }

    /** The result depends on the bytes alone, not on how the socket cut them up. */
    method ReadWindow() returns (r: ReadResult)
      requires Valid()
      modifies this, decoder
      ensures Valid()
      ensures match Consume(lim, START, old(Unread()))
              case Complete(w, rest) => r == Read(w) && Unread() == rest
              case Rejected(e, _, rest) => r == Failed(e) && Unread() == rest
              case Starved(p, rest) => r == AtEnd(p, old(EndsInFault(incoming))) && Unread() == rest
      ensures EndsInFault(incoming) == old(EndsInFault(incoming))
    {
      var p := START;
      ghost var whole := Unread();
      while true
        invariant Valid()
        invariant Consume(lim, START, whole) == Consume(lim, p, Unread())
        invariant EndsInFault(incoming) == old(EndsInFault(incoming))
        decreases |incoming|, |decoder.Pending()|
      {
        ConsumeFront(lim, p, decoder.Pending(), Arriving(incoming));
        var d := decoder.NextFrame();
        match d {
          case Bad(e) =>
            return Failed(CodecError(e));
          case Got(f, used) =>
            var step := AbsorbFrame(p, f);
            match step {
              case Continue(next) => p := next;
              case Done(w) => return Read(w);
              case Fail(e, _) => return Failed(e);
            }
          case More =>
            var received, fault := Receive();
            if received == [] {
              return AtEnd(p, fault);
            }
        }
      }
    }

    /** One socket read, fed to the decoder; nothing received means the stream has ended. */
    method Receive() returns (received: seq<byte>, fault: bool)
      requires Valid()
      modifies this, decoder
      ensures Valid() && Unread() == old(Unread())
      ensures EndsInFault(incoming) == old(EndsInFault(incoming))
      ensures received == [] ==> Arriving(old(incoming)) == [] && fault == EndsInFault(incoming)
      ensures received != [] ==> |incoming| < |old(incoming)|
    {
      if incoming == [] || !incoming[0].Data? || incoming[0].bytes == [] {
        return [], incoming != [] && incoming[0].Fault?;
      }
      received, fault := incoming[0].bytes, false;
      ghost var pending := decoder.Pending();
      incoming := incoming[1..];
      decoder.Feed(received);
      assert pending + (received + Arriving(incoming)) == (pending + received) + Arriving(incoming);
    }

    method AbsorbFrame(p: Progress, f: Frame) returns (step: Step)
      ensures step == Absorb(lim, p, f)
    {
      if f.Compressed? {
        step := ReadInner(p, f.decompressed);
        step := HandOver(step);
      } else {
        step := Absorb(lim, p, f);
      }
    }

    method ReadInner(start: Progress, decompressed: seq<byte>) returns (step: Step)
      ensures step == AbsorbInner(lim, start, decompressed)
    {
      var inner := new FrameDecoder(lim.codec);
      inner.Feed(decompressed);
      var p := start;
      while true
        invariant fresh(inner) && inner.Valid() && inner.codec == lim.codec
        invariant AbsorbInner(lim, p, inner.Pending()) == AbsorbInner(lim, start, decompressed)
        decreases |inner.Pending()|
      {
        var d := inner.NextFrame();
        match d {
          case More => return Continue(p);
          case Bad(e) => return Fail(CodecError(e), p);
          case Got(f, _) =>
            var absorbed := AbsorbData(lim, p, f);
            if !absorbed.Continue? {
              return absorbed;
            }
            p := absorbed.next;
        }
      }
    }
  }
}
