/** Lumberjack v2 frames: the encoders, and decoding one frame from the front of a byte string. */
module Frames {
  import opened Prelude
  import opened Wire

  const VERSION: byte := 50
  const WINDOW: byte := 87
  const JSON: byte := 74
  const COMPRESSED: byte := 67
  const ACK: byte := 65
  const LEGACY: byte := 68

  datatype FrameError =
    | UnsupportedVersion(version: byte)
    | UnknownFrameType(frameType: byte)
    | PayloadTooLarge(requested: nat, limit: nat)
    | DecompressedTooLarge(limit: nat)
    | Decompression
    | Compression

  datatype Frame =
    | Window(count: u32)
    | Json(seqNo: u32, payload: seq<byte>)
    | Compressed(decompressed: seq<byte>)
    | Ack(ackSeq: u32)
    | Unknown(frameType: byte, raw: seq<byte>)

  /** What an inflater delivers: its output, and whether it ended cleanly or in an error. */
  datatype Inflated = Inflated(output: seq<byte>, clean: bool)

  /** The zlib library, unseen here: any pair of functions. */
  datatype Zlib = Zlib(
    deflate: (nat, seq<byte>) -> Option<seq<byte>>,
    inflate: seq<byte> -> Inflated)
  {
    /** Inflating undoes deflating, at every level. */
    ghost predicate Lawful() {
      forall level, plain :: deflate(level, plain).Some? ==>
        inflate(deflate(level, plain).value) == Inflated(plain, true)
    }
  }

  /** A decoder's configuration: the library it calls and `max_frame_payload`. */
  datatype Codec = Codec(zlib: Zlib, cap: nat)

  /** The outcome of one decoding attempt; `used` is the length of the decoded frame. */
  datatype Decoded = More | Got(frame: Frame, used: nat) | Bad(error: FrameError)

  // ---------------------------------------------------------------- encoders

  function EncodeWindow(count: u32): (b: seq<byte>)
    ensures |b| == 6
  {
    [VERSION, WINDOW] + BigEndian(count)
  }

  function EncodeAck(seqNo: u32): (b: seq<byte>)
    ensures |b| == 6
  {
    [VERSION, ACK] + BigEndian(seqNo)
  }

  /** A payload too long for the length field is written in full under a saturated length. */
  function EncodeJson(seqNo: u32, payload: seq<byte>): (b: seq<byte>)
    ensures |b| == 10 + |payload|
  {
    var len: u32 := if |payload| <= U32_MAX then |payload| else U32_MAX;
    [VERSION, JSON] + BigEndian(seqNo) + BigEndian(len) + payload
  }

  function EncodeCompressed(zlib: Zlib, level: nat, inner: seq<byte>): Option<seq<byte>> {
    match zlib.deflate(level, inner)
    case None => None
    case Some(body) =>
      if |body| <= U32_MAX then Some([VERSION, COMPRESSED] + BigEndian(|body|) + body) else None
  }

  // ---------------------------------------------------------------- decoding one frame

  /** The walk over length-prefixed fields: short of bytes, stopped by an oversize length, or
      past the last field. */
  datatype Scan = Short | Oversize(len: nat) | Through(cursor: nat)

  function ScanField(s: seq<byte>, cap: nat, cursor: nat): Scan {
    if |s| < cursor + 4 then Short
    else
      var len := ReadU32(s, cursor);
      if len > cap then Oversize(len) else Through(cursor + 4 + len)
  }

  function ScanFields(s: seq<byte>, cap: nat, fields: nat, cursor: nat): Scan
    decreases fields
  {
    if fields == 0 then Through(cursor)
    else
      match ScanField(s, cap, cursor)
      case Through(next) => ScanFields(s, cap, fields - 1, next)
      case stop => stop
  }

  /** `decompress_capped`: at most `limit + 1` octets are pulled from the inflater, so an error
      beyond them goes unseen. */
  function DecompressCapped(zlib: Zlib, body: seq<byte>, limit: nat): Decoded {
    var r := zlib.inflate(body);
    if |r.output| > limit then Bad(DecompressedTooLarge(limit))
    else if !r.clean then Bad(Decompression)
    else Got(Compressed(r.output), 6 + |body|)
  }

  function DecodeJson(k: Codec, s: seq<byte>): Decoded {
    if |s| < 10 then More
    else
      var len := ReadU32(s, 6);
      if len > k.cap then Bad(PayloadTooLarge(len, k.cap))
      else if |s| < 10 + len then More
      else Got(Json(ReadU32(s, 2), s[10..10 + len]), 10 + len)
  }

  function DecodeCompressed(k: Codec, s: seq<byte>): Decoded {
    if |s| < 6 then More
    else
      var len := ReadU32(s, 2);
      if len > k.cap then Bad(PayloadTooLarge(len, k.cap))
      else if |s| < 6 + len then More
      else DecompressCapped(k.zlib, s[6..6 + len], k.cap)
  }

  function DecodeLegacy(k: Codec, s: seq<byte>): (d: Decoded) {
    if |s| < 10 then More
    else
      match ScanFields(s, k.cap, 2 * ReadU32(s, 6), 10)
      case Short => More
      case Oversize(len) => Bad(PayloadTooLarge(len, k.cap))
      case Through(cursor) => if |s| < cursor then More else Got(Unknown(LEGACY, s[..cursor]), cursor)
  }

  function Decode(k: Codec, s: seq<byte>): Decoded {
    if |s| < 2 then More
    else if s[0] != VERSION then Bad(UnsupportedVersion(s[0]))
    else if s[1] == WINDOW then if |s| < 6 then More else Got(Window(ReadU32(s, 2)), 6)
    else if s[1] == ACK then if |s| < 6 then More else Got(Ack(ReadU32(s, 2)), 6)
    else if s[1] == JSON then DecodeJson(k, s)
    else if s[1] == COMPRESSED then DecodeCompressed(k, s)
    else if s[1] == LEGACY then DecodeLegacy(k, s)
    else Bad(UnknownFrameType(s[1]))
  }

  // ---------------------------------------------------------------- progress and stability

  lemma {:induction false} ScanAdvances(s: seq<byte>, cap: nat, fields: nat, cursor: nat)
    ensures var r := ScanFields(s, cap, fields, cursor);
            r.Through? ==> r.cursor >= cursor + 4 * fields
    decreases fields
  {
    if fields > 0 {
      var step := ScanField(s, cap, cursor);
      if step.Through? { ScanAdvances(s, cap, fields - 1, step.cursor); }
    }
  }

  /** Every decoded frame consumes at least six of the bytes at hand. */
  lemma DecodeProgress(k: Codec, s: seq<byte>)
    requires Decode(k, s).Got?
    ensures 6 <= Decode(k, s).used <= |s|
  {
    if s[1] == LEGACY { ScanAdvances(s, k.cap, 2 * ReadU32(s, 6), 10); }
  }

  lemma {:induction false} ScanStable(s: seq<byte>, t: seq<byte>, cap: nat, fields: nat, cursor: nat)
    requires !ScanFields(s, cap, fields, cursor).Short?
    ensures ScanFields(s + t, cap, fields, cursor) == ScanFields(s, cap, fields, cursor)
    decreases fields
  {
    if fields > 0 {
      assert ScanField(s + t, cap, cursor) == ScanField(s, cap, cursor);
      var step := ScanField(s, cap, cursor);
      if step.Through? { ScanStable(s, t, cap, fields - 1, step.cursor); }
    }
  }

  lemma JsonStable(k: Codec, s: seq<byte>, t: seq<byte>)
    requires !DecodeJson(k, s).More?
    ensures DecodeJson(k, s + t) == DecodeJson(k, s)
  {
    var len := ReadU32(s, 6);
    if 10 + len <= |s| { assert (s + t)[10..10 + len] == s[10..10 + len]; }
  }

  lemma CompressedStable(k: Codec, s: seq<byte>, t: seq<byte>)
    requires !DecodeCompressed(k, s).More?
    ensures DecodeCompressed(k, s + t) == DecodeCompressed(k, s)
  {
    var len := ReadU32(s, 2);
    if 6 + len <= |s| { assert (s + t)[6..6 + len] == s[6..6 + len]; }
  }

  lemma LegacyStable(k: Codec, s: seq<byte>, t: seq<byte>)
    requires !DecodeLegacy(k, s).More?
    ensures DecodeLegacy(k, s + t) == DecodeLegacy(k, s)
  {
    ScanStable(s, t, k.cap, 2 * ReadU32(s, 6), 10);
    var r := ScanFields(s, k.cap, 2 * ReadU32(s, 6), 10);
    if r.Through? && r.cursor <= |s| { assert (s + t)[..r.cursor] == s[..r.cursor]; }
  }

  /** A frame or an error decided on a prefix is decided identically on every extension. */
  lemma DecodeStable(k: Codec, s: seq<byte>, t: seq<byte>)
    requires !Decode(k, s).More?
    ensures Decode(k, s + t) == Decode(k, s)
  {
    if s[0] == VERSION {
      if s[1] == JSON { JsonStable(k, s, t); }
      if s[1] == COMPRESSED { CompressedStable(k, s, t); }
      if s[1] == LEGACY { LegacyStable(k, s, t); }
    }
  }

  /** The most one field can announce. */
  function LongestField(cap: nat): nat { if cap < U32_MAX then cap else U32_MAX }

  lemma {:induction false} ScanCursorWithin(s: seq<byte>, cap: nat, fields: nat, cursor: nat)
    requires cursor <= |s| + LongestField(cap)
    ensures var r := ScanFields(s, cap, fields, cursor); r.Through? ==> r.cursor <= |s| + LongestField(cap)
    decreases fields
  {
    if fields > 0 {
      var step := ScanField(s, cap, cursor);
      if step.Through? { ScanCursorWithin(s, cap, fields - 1, step.cursor); }
    }
  }

  /** Whatever number of fields the walk over a legacy frame has passed, its cursor is within
      `|s| + min(cap, 2^32 - 1)`; it is tested after adding four, so with at most 2^63 - 1 bytes
      buffered no 64-bit addition of the walk overflows, whatever the cap. */
  lemma ScanCursorBounded(s: seq<byte>, cap: nat, fields: nat)
    requires |s| >= 10
    ensures forall n: nat | n <= fields && ScanFields(s, cap, n, 10).Through? ::
              && ScanFields(s, cap, n, 10).cursor <= |s| + LongestField(cap)
              && (|s| < 0x8000_0000_0000_0000 ==> ScanFields(s, cap, n, 10).cursor + 4 < 0x1_0000_0000_0000_0000)
  {
    forall n: nat | n <= fields && ScanFields(s, cap, n, 10).Through?
      ensures ScanFields(s, cap, n, 10).cursor <= |s| + LongestField(cap)
    {
      ScanCursorWithin(s, cap, n, 10);
    }
  }

  /** Room for `fields` fields of at most `room` bytes each. */
  function Budget(fields: nat, room: nat): nat { if fields == 0 then 0 else room + Budget(fields - 1, room) }

  lemma {:induction false} BudgetIsProduct(fields: nat, room: nat)
    ensures Budget(fields, room) == fields * room
  {
    if fields > 0 {
      BudgetIsProduct(fields - 1, room);
      OneMoreTimes(fields - 1, room);
    }
  }

  lemma OneMoreTimes(n: nat, room: nat)
    ensures (n + 1) * room == n * room + room
  {
  }

  lemma {:induction false} ScanEnough(s: seq<byte>, cap: nat, fields: nat, cursor: nat)
    requires |s| >= cursor + Budget(fields, 4 + cap)
    ensures var r := ScanFields(s, cap, fields, cursor);
            !r.Short? && (r.Through? ==> r.cursor <= |s|)
    decreases fields
  {
    if fields > 0 {
      var step := ScanField(s, cap, cursor);
      if step.Through? { ScanEnough(s, cap, fields - 1, step.cursor); }
    }
  }

  /** Beyond the header of a frame, an announced length can make the decoder wait for at most the
      cap, and in a legacy frame for the cap of each field: it never waits for ever. */
  lemma EnoughBytesDecide(k: Codec, s: seq<byte>)
    requires |s| >= 10
    requires |s| >= 10 + (if s[1] == LEGACY then 2 * ReadU32(s, 6) * (4 + k.cap) else k.cap)
    ensures !Decode(k, s).More?
  {
    if s[1] == LEGACY {
      BudgetIsProduct(2 * ReadU32(s, 6), 4 + k.cap);
      ScanEnough(s, k.cap, 2 * ReadU32(s, 6), 10);
    }
  }

  // ---------------------------------------------------------------- refused bytes

  /** The walk stops at a length exactly when, some fields on, it is announced and over the cap. */
  ghost predicate OversizeAt(s: seq<byte>, cap: nat, fields: nat, cursor: nat, len: nat, j: nat) {
    && j < fields && ScanFields(s, cap, j, cursor).Through?
    && ScanFields(s, cap, j, cursor).cursor + 4 <= |s|
    && ReadU32(s, ScanFields(s, cap, j, cursor).cursor) == len > cap
  }

  lemma {:induction false} StopsAtOversize(s: seq<byte>, cap: nat, fields: nat, cursor: nat, len: nat) returns (j: nat)
    requires ScanFields(s, cap, fields, cursor) == Oversize(len)
    ensures OversizeAt(s, cap, fields, cursor, len, j)
    decreases fields
  {
    var step := ScanField(s, cap, cursor);
    j := 0;
    if step.Through? {
      j := StopsAtOversize(s, cap, fields - 1, step.cursor, len);
      j := j + 1;
    }
  }

  lemma {:induction false} OversizeStops(s: seq<byte>, cap: nat, fields: nat, cursor: nat, len: nat, j: nat)
    requires OversizeAt(s, cap, fields, cursor, len, j)
    ensures ScanFields(s, cap, fields, cursor) == Oversize(len)
    decreases fields
  {
    if j > 0 {
      var step := ScanField(s, cap, cursor);
      assert OversizeAt(s, cap, fields - 1, step.cursor, len, j - 1);
      OversizeStops(s, cap, fields - 1, step.cursor, len, j - 1);
    }
  }

  /** A length field of the frame at the front reads `len`. */
  ghost predicate Announces(s: seq<byte>, cap: nat, len: nat)
    requires |s| >= 2
  {
    || (s[1] == JSON && |s| >= 10 && ReadU32(s, 6) == len)
    || (s[1] == COMPRESSED && |s| >= 6 && ReadU32(s, 2) == len)
    || (s[1] == LEGACY && |s| >= 10 && exists j :: OversizeAt(s, cap, 2 * ReadU32(s, 6), 10, len, j))
  }

  /** The compressed bytes of the frame at the front, once all of them are there. */
  ghost predicate HoldsBody(k: Codec, s: seq<byte>, body: seq<byte>)
    requires |s| >= 2
  {
    && s[1] == COMPRESSED && |s| >= 6 && |s| >= 6 + ReadU32(s, 2)
    && ReadU32(s, 2) <= k.cap && body == s[6..6 + ReadU32(s, 2)]
  }

  /** What an error says of the bytes it was raised on. */
  ghost predicate Deserves(k: Codec, s: seq<byte>, e: FrameError) {
    && |s| >= 2
    && match e
       case UnsupportedVersion(version) => s[0] == version != VERSION
       case UnknownFrameType(t) => s[0] == VERSION && s[1] == t && t !in {WINDOW, ACK, JSON, COMPRESSED, LEGACY}
       case PayloadTooLarge(len, limit) => s[0] == VERSION && Announces(s, k.cap, len) && len > k.cap == limit
       case DecompressedTooLarge(limit) =>
         && s[0] == VERSION && limit == k.cap
         && exists body :: HoldsBody(k, s, body) && |k.zlib.inflate(body).output| > k.cap
       case Decompression =>
         && s[0] == VERSION
         && exists body :: HoldsBody(k, s, body) &&
                           |k.zlib.inflate(body).output| <= k.cap && !k.zlib.inflate(body).clean
       case Compression => false
  }

  /** The decoder refuses bytes with an error exactly when they deserve it. */
  lemma RefusedExactly(k: Codec, s: seq<byte>, e: FrameError)
    ensures Decode(k, s) == Bad(e) <==> Deserves(k, s, e)
  {
    if |s| >= 10 && s[0] == VERSION && s[1] == LEGACY {
      LegacyRefusedExactly(k, s, e);
    } else if |s| >= 6 && s[0] == VERSION && s[1] == COMPRESSED && |s| >= 6 + ReadU32(s, 2) {
      assert ReadU32(s, 2) <= k.cap ==> HoldsBody(k, s, s[6..6 + ReadU32(s, 2)]);
    }
  }

  lemma LegacyRefusedExactly(k: Codec, s: seq<byte>, e: FrameError)
    requires |s| >= 10 && s[0] == VERSION && s[1] == LEGACY
    ensures Decode(k, s) == Bad(e) <==> Deserves(k, s, e)
  {
    var fields := 2 * ReadU32(s, 6);
    var r := ScanFields(s, k.cap, fields, 10);
    if r.Oversize? { var j := StopsAtOversize(s, k.cap, fields, 10, r.len); }
    forall len, j | OversizeAt(s, k.cap, fields, 10, len, j) ensures r == Oversize(len) {
      OversizeStops(s, k.cap, fields, 10, len, j);
    }
  }

  // ---------------------------------------------------------------- the language of frames

  /** The bytes of the frames sent, one by one. */
  lemma WireLayout(seqNo: u32, payload: seq<byte>)
    requires |payload| <= U32_MAX
    ensures [VERSION, WINDOW, JSON, COMPRESSED, ACK, LEGACY]
         == ['2' as int, 'W' as int, 'J' as int, 'C' as int, 'A' as int, 'D' as int]
    ensures EncodeWindow(seqNo) == [VERSION, WINDOW] + BigEndian(seqNo)
    ensures EncodeAck(seqNo) == [VERSION, ACK] + BigEndian(seqNo)
    ensures var b := EncodeJson(seqNo, payload);
      && b[..2] == [VERSION, JSON] && b[2..6] == BigEndian(seqNo)
      && b[6..10] == BigEndian(|payload|) && b[10..] == payload
  {
  }

  ghost predicate FieldsFit(fields: seq<seq<byte>>, cap: nat) {
    forall i | 0 <= i < |fields| :: |fields[i]| <= cap && |fields[i]| <= U32_MAX
  }

  ghost function EncodeFields(fields: seq<seq<byte>>): seq<byte>
    requires FieldsFit(fields, U32_MAX)
  {
    if fields == [] then []
    else BigEndian(|fields[0]|) + fields[0] + EncodeFields(fields[1..])
  }

  /** The legacy data frame, which the codec decodes but never sends: `pairs` key/value pairs,
      here flattened to twice as many length-prefixed fields. */
  ghost predicate IsLegacyFrame(b: seq<byte>, seqNo: u32, pairs: u32, fields: seq<seq<byte>>, cap: nat) {
    && FieldsFit(fields, U32_MAX) && FieldsFit(fields, cap)
    && |fields| == 2 * pairs
    && b == [VERSION, LEGACY] + BigEndian(seqNo) + BigEndian(pairs) + EncodeFields(fields)
  }

  ghost predicate IsCompressedFrame(b: seq<byte>, body: seq<byte>, plain: seq<byte>, k: Codec) {
    && |body| <= U32_MAX && |body| <= k.cap && |plain| <= k.cap
    && b == [VERSION, COMPRESSED] + BigEndian(|body|) + body
    && k.zlib.inflate(body) == Inflated(plain, true)
  }

  /** The wire grammar, stated without reference to the decoder: `b` spells the frame `f`. */
  ghost predicate Spells(k: Codec, f: Frame, b: seq<byte>) {
    match f
    case Window(count) => b == EncodeWindow(count)
    case Ack(seqNo) => b == EncodeAck(seqNo)
    case Json(seqNo, payload) =>
      |payload| <= U32_MAX && |payload| <= k.cap && b == EncodeJson(seqNo, payload)
    case Compressed(plain) => exists body :: IsCompressedFrame(b, body, plain, k)
    case Unknown(frameType, raw) =>
      frameType == LEGACY && raw == b &&
      exists seqNo, pairs, fields :: IsLegacyFrame(b, seqNo, pairs, fields, k.cap)
  }

  /** The decoder recognises exactly the wire grammar: it yields `f` using `used` bytes if and
      only if the first `used` bytes spell `f`. */
  lemma DecodeIffSpells(k: Codec, s: seq<byte>, f: Frame, used: nat)
    ensures Decode(k, s) == Got(f, used) <==> used <= |s| && Spells(k, f, s[..used])
  {
    if Decode(k, s) == Got(f, used) {
      DecodeProgress(k, s);
      DecodedSpells(k, s);
    }
    if used <= |s| {
      assert s == s[..used] + s[used..];
      if Spells(k, f, s[..used]) { SpelledFrontDecodes(k, f, s[..used], s[used..]); }
    }
  }

  lemma SpelledFrontDecodes(k: Codec, f: Frame, front: seq<byte>, back: seq<byte>)
    requires Spells(k, f, front)
    ensures Decode(k, front + back) == Got(f, |front|)
  {
    SpelledDecodes(k, f, front);
    DecodeStable(k, front, back);
  }

  lemma DecodedSpells(k: Codec, s: seq<byte>)
    requires Decode(k, s).Got? && Decode(k, s).used <= |s|
    ensures Spells(k, Decode(k, s).frame, s[..Decode(k, s).used])
  {
    var Got(f, used) := Decode(k, s);
    var b := s[..used];
    match f
    case Window(count) =>
      BigEndianOfRead(s, 2);
      assert b == EncodeWindow(count);
    case Ack(seqNo) =>
      BigEndianOfRead(s, 2);
      assert b == EncodeAck(seqNo);
    case Json(_, _) => DecodedJsonSpells(k, s);
    case Compressed(_) => DecodedCompressedSpells(k, s);
    case Unknown(_, _) => DecodedLegacySpells(k, s);
  }

  lemma DecodedJsonSpells(k: Codec, s: seq<byte>)
    requires |s| >= 10 && s[0] == VERSION && s[1] == JSON && DecodeJson(k, s).Got?
    ensures Spells(k, DecodeJson(k, s).frame, s[..DecodeJson(k, s).used])
  {
    var Got(f, used) := DecodeJson(k, s);
    BigEndianOfRead(s, 2);
    BigEndianOfRead(s, 6);
    assert s[..used] == [VERSION, JSON] + s[2..6] + s[6..10] + s[10..used];
  }

  lemma DecodedCompressedSpells(k: Codec, s: seq<byte>)
    requires |s| >= 6 && s[0] == VERSION && s[1] == COMPRESSED && DecodeCompressed(k, s).Got?
    ensures Spells(k, DecodeCompressed(k, s).frame, s[..DecodeCompressed(k, s).used])
  {
    var Got(f, used) := DecodeCompressed(k, s);
    BigEndianOfRead(s, 2);
    assert s[..used] == [VERSION, COMPRESSED] + s[2..6] + s[6..used];
    assert IsCompressedFrame(s[..used], s[6..used], f.decompressed, k);
  }

  lemma DecodedLegacySpells(k: Codec, s: seq<byte>)
    requires |s| >= 10 && s[0] == VERSION && s[1] == LEGACY && DecodeLegacy(k, s).Got?
    ensures Spells(k, DecodeLegacy(k, s).frame, s[..DecodeLegacy(k, s).used])
  {
    var used := DecodeLegacy(k, s).used;
    var pairs: nat := ReadU32(s, 6);
    BigEndianOfRead(s, 2);
    BigEndianOfRead(s, 6);
    ScanAdvances(s, k.cap, 2 * pairs, 10);
    var fields := ScannedFields(s, k.cap, 2 * pairs, 10);
    assert s[..used] == [VERSION, LEGACY] + BigEndian(ReadU32(s, 2)) + BigEndian(pairs) + s[10..used];
    assert IsLegacyFrame(s[..used], ReadU32(s, 2), pairs, fields, k.cap);
  }

  /** The fields a completed walk went over. */
  lemma {:induction false} ScannedFields(s: seq<byte>, cap: nat, n: nat, cursor: nat) returns (fields: seq<seq<byte>>)
    requires cursor <= |s| && ScanFields(s, cap, n, cursor).Through?
    requires ScanFields(s, cap, n, cursor).cursor <= |s|
    ensures FieldsFit(fields, U32_MAX) && FieldsFit(fields, cap) && |fields| == n
    ensures cursor <= ScanFields(s, cap, n, cursor).cursor
    ensures s[cursor..ScanFields(s, cap, n, cursor).cursor] == EncodeFields(fields)
    decreases n
  {
    if n == 0 {
      fields := [];
    } else {
      var next := ScanField(s, cap, cursor).cursor;
      ScanAdvances(s, cap, n - 1, next);
      var tail := ScannedFields(s, cap, n - 1, next);
      fields := [s[cursor + 4..next]] + tail;
      FieldScanned(s, cap, cursor, ScanFields(s, cap, n, cursor).cursor, tail);
    }
  }

  lemma FieldScanned(s: seq<byte>, cap: nat, cursor: nat, end: nat, tail: seq<seq<byte>>)
    requires ScanField(s, cap, cursor).Through? && cursor <= ScanField(s, cap, cursor).cursor <= end <= |s|
    requires FieldsFit(tail, U32_MAX) && s[ScanField(s, cap, cursor).cursor..end] == EncodeFields(tail)
    ensures var fields := [s[cursor + 4..ScanField(s, cap, cursor).cursor]] + tail;
      FieldsFit(fields, U32_MAX) && s[cursor..end] == EncodeFields(fields)
  {
    var next := ScanField(s, cap, cursor).cursor;
    var head := s[cursor + 4..next];
    BigEndianOfRead(s, cursor);
    assert ([head] + tail)[1..] == tail;
    assert s[cursor..end] == s[cursor..cursor + 4] + head + s[next..end];
  }

  lemma SpelledJsonDecodes(k: Codec, seqNo: u32, payload: seq<byte>)
    requires |payload| <= U32_MAX && |payload| <= k.cap
    ensures var b := EncodeJson(seqNo, payload); Decode(k, b) == Got(Json(seqNo, payload), |b|)
  {
    var b := EncodeJson(seqNo, payload);
    assert b[2..6] == BigEndian(seqNo);
    assert b[6..10] == BigEndian(|payload|);
    assert ReadU32(b, 2) == seqNo && ReadU32(b, 6) == |payload|;
    assert b[10..10 + |payload|] == payload;
  }

  lemma SpelledCompressedDecodes(k: Codec, b: seq<byte>, body: seq<byte>, plain: seq<byte>)
    requires IsCompressedFrame(b, body, plain, k)
    ensures Decode(k, b) == Got(Compressed(plain), |b|)
  {
    assert b[2..6] == BigEndian(|body|);
    assert b[6..6 + |body|] == body;
  }

  lemma SpelledDecodes(k: Codec, f: Frame, b: seq<byte>)
    requires Spells(k, f, b)
    ensures Decode(k, b) == Got(f, |b|)
  {
    match f
    case Window(count) => assert b[2..6] == BigEndian(count);
    case Ack(seqNo) => assert b[2..6] == BigEndian(seqNo);
    case Json(seqNo, payload) => SpelledJsonDecodes(k, seqNo, payload);
    case Compressed(plain) =>
      var body :| IsCompressedFrame(b, body, plain, k);
      SpelledCompressedDecodes(k, b, body, plain);
    case Unknown(_, _) => SpelledLegacyDecodes(k, b);
  }

  lemma SpelledLegacyDecodes(k: Codec, b: seq<byte>)
    requires exists seqNo, pairs, fields :: IsLegacyFrame(b, seqNo, pairs, fields, k.cap)
    ensures Decode(k, b) == Got(Unknown(LEGACY, b), |b|)
  {
    var seqNo, pairs, fields :| IsLegacyFrame(b, seqNo, pairs, fields, k.cap);
    SpelledLegacyScans(b, seqNo, pairs, fields, k.cap);
    ScannedLegacyDecodes(k, b);
  }

  lemma ScannedLegacyDecodes(k: Codec, b: seq<byte>)
    requires |b| >= 10 && b[0] == VERSION && b[1] == LEGACY
    requires ScanFields(b, k.cap, 2 * ReadU32(b, 6), 10) == Through(|b|)
    ensures Decode(k, b) == Got(Unknown(LEGACY, b), |b|)
  {
    assert b[..|b|] == b;
  }

  lemma SpelledLegacyScans(b: seq<byte>, seqNo: u32, pairs: u32, fields: seq<seq<byte>>, cap: nat)
    requires IsLegacyFrame(b, seqNo, pairs, fields, cap)
    ensures |b| >= 10 && b[0] == VERSION && b[1] == LEGACY
    ensures ScanFields(b, cap, 2 * ReadU32(b, 6), 10) == Through(|b|)
  {
    var header := [VERSION, LEGACY] + BigEndian(seqNo) + BigEndian(pairs);
    assert b == header + EncodeFields(fields);
    assert b[6..10] == BigEndian(pairs);
    assert ReadU32(b, 6) == pairs;
    ScanOfEncoded(header, fields, cap);
  }

  lemma {:induction false} ScanOfEncoded(before: seq<byte>, fields: seq<seq<byte>>, cap: nat)
    requires FieldsFit(fields, U32_MAX) && FieldsFit(fields, cap)
    ensures var b := before + EncodeFields(fields);
            ScanFields(b, cap, |fields|, |before|) == Through(|b|)
    decreases |fields|
  {
    if fields != [] {
      var len: u32 := |fields[0]|;
      var before' := before + BigEndian(len) + fields[0];
      var b := before + EncodeFields(fields);
      assert b == before' + EncodeFields(fields[1..]);
      assert b[|before|..|before| + 4] == BigEndian(len);
      assert ReadU32(b, |before|) == len;
      ScanOfEncoded(before', fields[1..], cap);
    } else {
      assert before + EncodeFields(fields) == before;
    }
  }
}
