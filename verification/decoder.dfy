/** The streaming decoder: a compacting buffer over `Frames.Decode`, and the proof that how its
    input was cut into chunks cannot be observed. */
module Decoder {
  import opened Prelude
  import opened Wire
  import opened Frames

  // ---------------------------------------------------------------- what a byte string means

  /** All frames at the front of a byte string, then what stopped the decoding. */
  datatype Stream = Stream(frames: seq<Frame>, rest: seq<byte>, error: Option<FrameError>)

  function DecodeAll(k: Codec, s: seq<byte>): Stream
    decreases |s|
  {
    match Decode(k, s)
    case More => Stream([], s, None)
    case Bad(e) => Stream([], s, Some(e))
    case Got(f, used) =>
      DecodeProgress(k, s);
      var tail := DecodeAll(k, s[used..]);
      Stream([f] + tail.frames, tail.rest, tail.error)
  }

  function After(frames: seq<Frame>, tail: Stream): Stream {
    Stream(frames + tail.frames, tail.rest, tail.error)
  }

  lemma AfterAfter(f: seq<Frame>, g: seq<Frame>, tail: Stream)
    ensures After(f, After(g, tail)) == After(f + g, tail)
    ensures After([], tail) == tail
  {
    assert f + (g + tail.frames) == (f + g) + tail.frames;
    assert [] + tail.frames == tail.frames;
  }

  lemma DecodeAllStep(k: Codec, s: seq<byte>, t: seq<byte>)
    requires Decode(k, s).Got?
    ensures var Got(f, used) := Decode(k, s);
            && 6 <= used <= |s|
            && DecodeAll(k, s) == After([f], DecodeAll(k, s[used..]))
            && DecodeAll(k, s + t) == After([f], DecodeAll(k, s[used..] + t))
  {
    DecodeProgress(k, s);
    DecodeStable(k, s, t);
    assert (s + t)[Decode(k, s).used..] == s[Decode(k, s).used..] + t;
  }

  lemma DecodeAllStop(k: Codec, s: seq<byte>, t: seq<byte>)
    requires !Decode(k, s).Got?
    ensures DecodeAll(k, s).frames == [] && DecodeAll(k, s).rest == s
    ensures DecodeAll(k, s).error.Some? <==> Decode(k, s).Bad?
    ensures DecodeAll(k, s).error.Some? ==> DecodeAll(k, s + t) == Stream([], s + t, DecodeAll(k, s).error)
  {
    if Decode(k, s).Bad? { DecodeStable(k, s, t); }
  }

  /** Bytes that arrive later change nothing already decided, and are decoded after it. */
  lemma {:induction false} DecodeAllAppend(k: Codec, s: seq<byte>, t: seq<byte>)
    ensures var a := DecodeAll(k, s);
            && DecodeAll(k, s + t) == After(a.frames, DecodeAll(k, a.rest + t))
            && (a.error.Some? ==> DecodeAll(k, s + t) == Stream(a.frames, a.rest + t, a.error))
    decreases |s|
  {
    if Decode(k, s).Got? {
      DecodeAllStep(k, s, t);
      var Got(f, used) := Decode(k, s);
      DecodeAllAppend(k, s[used..], t);
      var a := DecodeAll(k, s[used..]);
      AfterAfter([f], a.frames, DecodeAll(k, a.rest + t));
    } else {
      DecodeAllStop(k, s, t);
      AfterAfter([], [], DecodeAll(k, s + t));
    }
  }

  // ---------------------------------------------------------------- runs of a decoder

  datatype Action = Feed(chunk: seq<byte>) | Poll

  /** What a client of the decoder has seen, and the bytes still buffered. */
  datatype Seen = Seen(frames: seq<Frame>, errors: seq<FrameError>, pending: seq<byte>)

  function Act(k: Codec, seen: Seen, a: Action): Seen {
    match a
    case Feed(chunk) => seen.(pending := seen.pending + chunk)
    case Poll =>
      match Decode(k, seen.pending)
      case More => seen
      case Bad(e) => seen.(errors := seen.errors + [e])
      case Got(f, used) =>
        DecodeProgress(k, seen.pending);
        Seen(seen.frames + [f], seen.errors, seen.pending[used..])
  }

  function Run(k: Codec, actions: seq<Action>): Seen {
    if actions == [] then Seen([], [], [])
    else Act(k, Run(k, actions[..|actions| - 1]), actions[|actions| - 1])
  }

  /** Everything ever fed, in order. */
  function Fed(actions: seq<Action>): seq<byte> {
    if actions == [] then []
    else
      var init := Fed(actions[..|actions| - 1]);
      match actions[|actions| - 1]
      case Feed(chunk) => init + chunk
      case Poll => init
  }

  /** The frames already seen followed by the meaning of the buffered bytes are the meaning of
      everything fed, and every error reported is the error of everything fed. */
  ghost predicate Conserved(k: Codec, seen: Seen, fed: seq<byte>) {
    var whole, left := DecodeAll(k, fed), DecodeAll(k, seen.pending);
    && whole == After(seen.frames, left)
    && (forall e :: e in seen.errors ==> left == Stream([], left.rest, Some(e)))
  }

  lemma FeedConserves(k: Codec, seen: Seen, fed: seq<byte>, chunk: seq<byte>)
    requires Conserved(k, seen, fed)
    ensures Conserved(k, seen.(pending := seen.pending + chunk), fed + chunk)
  {
    DecodeAllAppend(k, seen.pending, chunk);
    DecodeAllAppend(k, fed, chunk);
    var left := DecodeAll(k, seen.pending);
    AfterAfter(seen.frames, left.frames, DecodeAll(k, left.rest + chunk));
  }

  lemma PollConserves(k: Codec, seen: Seen, fed: seq<byte>)
    requires Conserved(k, seen, fed)
    ensures Conserved(k, Act(k, seen, Poll), fed)
  {
    if Decode(k, seen.pending).Got? {
      DecodeAllStep(k, seen.pending, []);
      var Got(f, used) := Decode(k, seen.pending);
      AfterAfter(seen.frames, [f], DecodeAll(k, seen.pending[used..]));
    } else {
      DecodeAllStop(k, seen.pending, []);
    }
  }

  /** Conservation, for every interleaving of feeding and polling. */
  lemma {:induction false} RunConserves(k: Codec, actions: seq<Action>)
    ensures Conserved(k, Run(k, actions), Fed(actions))
    decreases |actions|
  {
    if actions == [] {
      AfterAfter([], [], DecodeAll(k, []));
    } else {
      var init := actions[..|actions| - 1];
      RunConserves(k, init);
      match actions[|actions| - 1]
      case Feed(chunk) => FeedConserves(k, Run(k, init), Fed(init), chunk);
      case Poll => PollConserves(k, Run(k, init), Fed(init));
    }
  }

  /** So a client that polled until no frame came has seen the frames, the error and the
      leftover bytes of one big feed, no matter how the bytes were cut and polls interleaved. */
  lemma ChunkingUnobservable(k: Codec, actions: seq<Action>, chunk: seq<byte>)
    requires Fed(actions) == chunk
    requires !Decode(k, Run(k, actions).pending).Got?
    ensures var seen, whole := Run(k, actions), DecodeAll(k, chunk);
            && seen.frames == whole.frames
            && seen.pending == whole.rest
            && (whole.error.Some? <==> Decode(k, seen.pending).Bad?)
            && (forall e :: e in seen.errors ==> whole.error == Some(e))
  {
    RunConserves(k, actions);
    DecodeAllStop(k, Run(k, actions).pending, []);
  }

  // ---------------------------------------------------------------- the decoder object

  class FrameDecoder {
    const codec: Codec
    var buf: seq<byte>
    var readPos: nat

    ghost var consumed: nat  // bytes of all frames yielded so far
    ghost var moved: nat     // bytes shifted down by all compactions so far

    /** Compaction has moved at most two bytes for every byte whose frame was reclaimed. */
    ghost predicate Valid()
      reads this
    {
      && readPos <= |buf|
      && moved + 2 * readPos <= 2 * consumed
    }

    ghost function Pending(): seq<byte>
      requires Valid()
      reads this
    {
      buf[readPos..]
    }

    constructor (codec: Codec)
      ensures Valid() && this.codec == codec && Pending() == []
      ensures consumed == 0 && moved == 0
    {
      this.codec := codec;
      buf, readPos := [], 0;
      consumed, moved := 0, 0;
    }

    /** Unread bytes survive compaction, and at least half the buffer is unread afterwards. */
    method Feed(bytes: seq<byte>)
      requires Valid()
      modifies this
      ensures Valid()
      ensures Pending() == old(Pending()) + bytes
      ensures |buf| <= 2 * |Pending()|
      ensures consumed == old(consumed)
      ensures moved <= 2 * consumed
    {
      if readPos > 0 && readPos >= |buf| / 2 {
        moved := moved + (|buf| - readPos);
        buf := buf[readPos..];
        readPos := 0;
      }
      buf := buf + bytes;
    }

    /** One decoding attempt: the frame at the front of the unread bytes is removed from them;
        without one, nothing changes. */
    method NextFrame() returns (d: Decoded)
      requires Valid()
      modifies this`readPos, this`consumed
      ensures Valid()
      ensures d == Decode(codec, old(Pending()))
      ensures !d.Got? ==> readPos == old(readPos) && consumed == old(consumed)
      ensures d.Got? ==> 6 <= d.used <= |old(Pending())|
      ensures d.Got? ==> Pending() == old(Pending())[d.used..] && consumed == old(consumed) + d.used
    {
      ghost var s := Pending();
      d := DecodeFront();
      if d.Got? {
        DecodeProgress(codec, s);
        readPos := readPos + d.used;
        consumed := consumed + d.used;
        assert Pending() == s[d.used..];
      }
    }

    method DecodeFront() returns (d: Decoded)
      requires Valid()
      ensures d == Decode(codec, Pending())
    {
      if Available() < 2 {
        return More;
      }
      var version, frameType := buf[readPos], buf[readPos + 1];
      if version != VERSION {
        return Bad(UnsupportedVersion(version));
      }
      if frameType == WINDOW {
        d := if Available() < 6 then More else Got(Window(ReadAt(2)), 6);
      } else if frameType == ACK {
        d := if Available() < 6 then More else Got(Ack(ReadAt(2)), 6);
      } else if frameType == JSON {
        d := TryDecodeJson();
      } else if frameType == COMPRESSED {
        d := TryDecodeCompressed();
      } else if frameType == LEGACY {
        d := TryDecodeLegacy();
      } else {
        return Bad(UnknownFrameType(frameType));
      }
    }

    function Available(): nat
      requires Valid()
      reads this
      ensures Available() == |Pending()|
    {
      |buf| - readPos
    }

    function ReadAt(offset: nat): u32
      requires Valid() && offset + 4 <= |Pending()|
      reads this
      ensures ReadAt(offset) == ReadU32(Pending(), offset)
    {
      ReadU32(buf, readPos + offset)
    }

    method TryDecodeJson() returns (d: Decoded)
      requires Valid()
      ensures d == DecodeJson(codec, Pending())
    {
      if Available() < 10 {
        return More;
      }
      var len: nat := ReadAt(6);
      if len > codec.cap {
        return Bad(PayloadTooLarge(len, codec.cap));
      }
      if Available() < 10 + len {
        return More;
      }
      var start := readPos + 10;
      assert buf[start..start + len] == Pending()[10..10 + len];
      return Got(Json(ReadAt(2), buf[start..start + len]), 10 + len);
    }

    method TryDecodeCompressed() returns (d: Decoded)
      requires Valid()
      ensures d == DecodeCompressed(codec, Pending())
    {
      if Available() < 6 {
        return More;
      }
      var len: nat := ReadAt(2);
      if len > codec.cap {
        return Bad(PayloadTooLarge(len, codec.cap));
      }
      if Available() < 6 + len {
        return More;
      }
      var start := readPos + 6;
      assert buf[start..start + len] == Pending()[6..6 + len];
      return DecompressCapped(codec.zlib, buf[start..start + len], codec.cap);
    }

    method TryDecodeLegacy() returns (d: Decoded)
      requires Valid()
      ensures d == DecodeLegacy(codec, Pending())
    {
      if Available() < 10 {
        return More;
      }
      var pairCount: nat := ReadAt(6);
      ghost var s := Pending();
      var cursor: nat := 10;
      for i := 0 to pairCount
        invariant ScanFields(s, codec.cap, 2 * (pairCount - i), cursor)
               == ScanFields(s, codec.cap, 2 * pairCount, 10)
        invariant cursor <= Available() + codec.cap
      {
        if Available() < cursor + 4 {
          return More;
        }
        var keyLen: nat := ReadAt(cursor);
        if keyLen > codec.cap {
          return Bad(PayloadTooLarge(keyLen, codec.cap));
        }
        assert ScanField(s, codec.cap, cursor) == Through(cursor + 4 + keyLen);
        cursor := cursor + 4 + keyLen;
        if Available() < cursor + 4 {
          return More;
        }
        var valLen: nat := ReadAt(cursor);
        if valLen > codec.cap {
          return Bad(PayloadTooLarge(valLen, codec.cap));
        }
        assert ScanField(s, codec.cap, cursor) == Through(cursor + 4 + valLen);
        cursor := cursor + 4 + valLen;
      }
      if Available() < cursor {
        return More;
      }
      assert buf[readPos..readPos + cursor] == s[..cursor];
      return Got(Unknown(LEGACY, buf[readPos..readPos + cursor]), cursor);
    }
  }
}
