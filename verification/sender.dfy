/** The sending side: window payloads, acknowledgements, sequence reservation and failover. */
module Sender {
  import opened Prelude
  import opened Wire
  import opened Frames
  import opened Sequence

  datatype SendConfig = SendConfig(zlib: Zlib, level: nat)

  // ---------------------------------------------------------------- window payloads

  /** The data frames of a batch, numbered from the one after `base`. */
  function JsonFrames(base: u32, events: seq<seq<byte>>): seq<byte>
    decreases |events|
  {
    if events == [] then []
    else EncodeJson(WrappingAdd(base, 1), events[0]) + JsonFrames(WrappingAdd(base, 1), events[1..])
  }

  predicate SendsCompressed(cfg: SendConfig, inner: seq<byte>) {
    && cfg.level > 0
    && var c := EncodeCompressed(cfg.zlib, cfg.level, inner);
       c.Some? && |c.value| < |inner|
  }

  function WindowPayload(cfg: SendConfig, base: u32, events: seq<seq<byte>>): seq<byte>
    requires |events| <= U32_MAX
  {
    var inner := JsonFrames(base, events);
    EncodeWindow(|events|) +
    (if SendsCompressed(cfg, inner) then EncodeCompressed(cfg.zlib, cfg.level, inner).value else inner)
  }

  /** Compression is used exactly when it helps: neither form would be shorter than the one sent. */
  lemma PayloadShortest(cfg: SendConfig, base: u32, events: seq<seq<byte>>)
    requires |events| <= U32_MAX
    ensures var inner := JsonFrames(base, events);
            var packed := EncodeCompressed(cfg.zlib, cfg.level, inner);
            var size := |WindowPayload(cfg, base, events)|;
            && size <= 6 + |inner|
            && (cfg.level > 0 && packed.Some? ==> size <= 6 + |packed.value|)
            && (cfg.level == 0 || packed.None? ==> size == 6 + |inner|)
  {
  }

  // ---------------------------------------------------------------- acknowledgements

  datatype AckVerdict = FullAck(count: u32) | PartialAck(acked: u32, sent: u32) | UnexpectedAck

  function JudgeAck(base: u32, count: u32, ack: seq<byte>): AckVerdict
    requires |ack| == 6
  {
    var acked := ReadU32(ack, 2);
    if ack[0] != VERSION || ack[1] != ACK then UnexpectedAck
    else if IsExactlyAckedBy(WrappingAdd(base, count), acked) then FullAck(count)
    else
      var ackedCount := WrappingSub(acked, base);
      if ackedCount == 0 || ackedCount > count then UnexpectedAck else PartialAck(ackedCount, count)
  }

  /** Across wrap-around: the ack of the k-th number of the window is full for the last one,
      partial for an earlier one, and every other ack is unexpected. */
  lemma AckVerdicts(base: u32, count: u32, acked: u32)
    requires count > 0
    ensures var v := JudgeAck(base, count, EncodeAck(acked));
            && (v == FullAck(count) <==> acked == WrappingAdd(base, count))
            && (forall k: u32 :: v == PartialAck(k, count) <==> 1 <= k < count && acked == WrappingAdd(base, k))
            && (v == UnexpectedAck <==> forall k: u32 | 1 <= k <= count :: acked != WrappingAdd(base, k))
            && (v.FullAck? ==> v.count == count) && (v.PartialAck? ==> v.sent == count)
  {
    var ack := EncodeAck(acked);
    assert ack[2..6] == BigEndian(acked);
    assert ReadU32(ack, 2) == acked;
    var k := WrappingSub(acked, base);
    assert WrappingAdd(base, k) == acked;
    forall j: u32 | acked == WrappingAdd(base, j) ensures j == k { }
  }

  /** Only an ack frame acknowledges anything. */
  lemma ForeignAckUnexpected(base: u32, count: u32, ack: seq<byte>)
    requires |ack| == 6
    ensures JudgeAck(base, count, ack) != UnexpectedAck ==> ack == EncodeAck(ReadU32(ack, 2))
  {
    BigEndianOfRead(ack, 2);
    assert ack == [ack[0], ack[1]] + ack[2..6];
  }

  // ---------------------------------------------------------------- reserved numbers

  function Total(sizes: seq<nat>): nat {
    if sizes == [] then 0 else sizes[0] + Total(sizes[1..])
  }

  ghost predicate Sendable(sizes: seq<nat>) {
    forall i | 0 <= i < |sizes| :: sizes[i] <= U32_MAX
  }

  /** The numbers handed out by a run of sends of these sizes, each starting after the
      watermark the previous one left, whether or not that one was acknowledged. */
  ghost function Reserved(watermark: u32, sizes: seq<nat>): seq<u32>
    requires Sendable(sizes)
    decreases |sizes|
  {
    if sizes == [] then [] else Range(watermark, sizes[0]) + Reserved(WrappingAdd(watermark, sizes[0]), sizes[1..])
  }

  /** The numbers one send gives its events. */
  ghost function Range(watermark: u32, count: u32): seq<u32> {
    seq(count, i requires 0 <= i < count => WrappingAdd(watermark, i + 1))
  }

  /** The ranges of successive sends are contiguous: together they number events in order. */
  lemma {:induction false} ReservedContiguous(n: nat, sizes: seq<nat>)
    requires Sendable(sizes)
    ensures |Reserved(Serial(n), sizes)| == Total(sizes)
    ensures forall i | 0 <= i < Total(sizes) :: Reserved(Serial(n), sizes)[i] == Serial(n + i + 1)
    decreases |sizes|
  {
    if sizes != [] {
      AdvanceIsSerial(n, sizes[0]);
      ReservedContiguous(n + sizes[0], sizes[1..]);
      RangeThen(n, sizes[0], Reserved(Serial(n + sizes[0]), sizes[1..]));
    }
  }

  lemma RangeThen(n: nat, size: u32, tail: seq<u32>)
    requires forall i | 0 <= i < |tail| :: tail[i] == Serial(n + size + i + 1)
    ensures forall i | 0 <= i < size + |tail| :: (Range(Serial(n), size) + tail)[i] == Serial(n + i + 1)
  {
    forall i | 0 <= i < size + |tail| ensures (Range(Serial(n), size) + tail)[i] == Serial(n + i + 1) {
      if i < size {
        AdvanceIsSerial(n, i + 1);
      } else {
        assert tail[i - size] == Serial(n + size + (i - size) + 1);
      }
    }
  }

  lemma SerialsEqual(a: nat, b: nat)
    requires a <= b <= a + SPAN
    ensures Serial(a) == Serial(b) <==> a == b || b == a + SPAN
  {
  }

  /** No number is handed out twice exactly as long as at most 2^32 events were ever sent. */
  lemma ReservedDistinct(n: nat, sizes: seq<nat>)
    requires Sendable(sizes)
    ensures Distinct(Reserved(Serial(n), sizes)) <==> Total(sizes) <= SPAN
  {
    ReservedContiguous(n, sizes);
    var all := Reserved(Serial(n), sizes);
    if Total(sizes) > SPAN {
      SerialsEqual(n + 1, n + SPAN + 1);
      assert all[0] == all[SPAN];
    } else {
      forall i, j | 0 <= i < j < |all| ensures all[i] != all[j] {
        SerialsEqual(n + i + 1, n + j + 1);
      }
    }
  }

  // ---------------------------------------------------------------- host rotation

  /** The hosts of `n` successive attempts. */
  ghost function Rotation(start: nat, stride: nat, n: nat, attempts: nat): seq<nat>
    requires n > 0
  {
    seq(attempts, i requires 0 <= i < attempts => (start + i * stride) % n)
  }

  lemma CongruentApart(a: nat, b: nat, n: nat)
    requires n > 0 && a < b && a % n == b % n
    ensures b - a >= n && (b - a < 2 * n ==> b - a == n)
  {
    var q := b / n - a / n;
    assert b - a == q * n;
    if q >= 2 { assert q * n >= 2 * n; }
  }

  lemma AttemptsDiffer(start: nat, stride: nat, n: nat, i: nat, j: nat)
    requires n > 0 && i < j < n && (stride == 1 || (stride == 2 && n % 2 == 1))
    ensures (start + i * stride) % n != (start + j * stride) % n
  {
    var a, b := start + i * stride, start + j * stride;
    if a % n == b % n {
      assert b - a == (j - i) * stride;
      CongruentApart(a, b, n);
    }
  }

  /** One attempt per host reaches every host exactly once, except when balancing (stride two)
      over an even number of hosts, which tries some host twice. */
  lemma RotationDistinct(start: nat, stride: nat, n: nat)
    requires n > 0 && (stride == 1 || stride == 2)
    ensures Distinct(Rotation(start, stride, n, n)) <==> stride == 1 || n % 2 == 1
    ensures stride == 1 || n % 2 == 1 ==> forall host: nat | host < n :: host in Rotation(start, stride, n, n)
  {
    var tried := Rotation(start, stride, n, n);
    if stride == 2 && n % 2 == 0 {
      var half := n / 2;
      assert start + half * stride == start + n;
      ModPeriod(start, n);
      assert tried[0] == tried[half];
    } else {
      forall i, j | 0 <= i < j < n ensures tried[i] != tried[j] { AttemptsDiffer(start, stride, n, i, j); }
      DistinctCovers(tried, n);
    }
  }

  /** Balancing over two hosts, both attempts go to the same one. */
  lemma OneOfTwoHostsTried(start: nat)
    ensures Rotation(start, 2, 2, 2) == [start % 2, start % 2]
  {
    ModPeriod(start, 2);
  }

  lemma ModPeriod(a: nat, n: nat)
    requires n > 0
    ensures (a + n) % n == a % n
  {
    QuotientUnique(a + n, n, a / n + 1, a % n);
  }

  lemma QuotientUnique(x: nat, n: nat, q: nat, r: nat)
    requires r < n && x == q * n + r
    ensures x % n == r
  {
    var d := x / n - q;
    assert d * n == r - x % n;
  }

  ghost function Below(n: nat): set<nat>
    ensures |Below(n)| == n && forall x: nat :: x in Below(n) <==> x < n
  {
    if n == 0 then {} else Below(n - 1) + {n - 1}
  }

  /** Pigeonhole: `n` distinct numbers below `n` are all of them. */
  lemma DistinctCovers(s: seq<nat>, n: nat)
    requires Distinct(s) && |s| == n && forall i | 0 <= i < n :: s[i] < n
    ensures forall x: nat | x < n :: x in s
  {
    var seen, missed := Elements(s), Below(n) - Elements(s);
    assert seen + missed == Below(n);
    assert |seen + missed| == |seen| + |missed|;
  }

  ghost function Elements(s: seq<nat>): (r: set<nat>)
    ensures forall x :: x in r <==> x in s
    ensures Distinct(s) ==> |r| == |s|
  {
    if s == [] then {} else Elements(s[..|s| - 1]) + {s[|s| - 1]}
  }

  // ---------------------------------------------------------------- the client

  /** What the network does with one attempt: whether a needed connection is made, and then the
      reply, of which only six octets are read. */
  datatype Attempt = Attempt(connects: bool, reply: Option<seq<byte>>)

  datatype SendResult = Acknowledged(count: u32) | AllHostsFailed

  ghost predicate WellFormedReply(a: Attempt) { a.reply.Some? ==> |a.reply.value| == 6 }

  ghost predicate FullyAcked(a: Attempt, base: u32, count: u32) {
    a.reply.Some? && |a.reply.value| == 6 && JudgeAck(base, count, a.reply.value) == FullAck(count)
  }

  /** The i-th attempt reaches a host, over the live connection or a new one, and is fully acked. */
  ghost predicate Succeeds(net: seq<Attempt>, live: bool, i: nat, base: u32, count: u32)
    requires i < |net|
  {
    ((live && i == 0) || net[i].connects) && FullyAcked(net[i], base, count)
  }

  class Client {
    const cfg: SendConfig
    const hosts: nat
    const loadBalance: bool
    var cursor: nat
    var seqNo: u32
    var connection: Option<nat>

    /** A live connection is to the host under the cursor, or, when balancing, to the host the
        cursor was just moved past. */
    ghost predicate Valid()
      reads this
    {
      && hosts > 0
      && (connection.Some? ==> (loadBalance ==> cursor > 0) && connection.value == NextHost() % hosts)
    }

    /** The position, before reduction modulo the number of hosts, of the next host tried. */
    ghost function NextHost(): int
      reads this
    {
      if loadBalance && connection.Some? then cursor - 1 else cursor
    }

    ghost function Stride(): nat { if loadBalance then 2 else 1 }

    constructor (cfg: SendConfig, hosts: nat, loadBalance: bool)
      requires hosts > 0
      ensures Valid() && seqNo == 0 && cursor == 0 && connection.None?
      ensures this.cfg == cfg && this.hosts == hosts && this.loadBalance == loadBalance
    {
      this.cfg, this.hosts, this.loadBalance := cfg, hosts, loadBalance;
      cursor, seqNo, connection := 0, 0, None;
    }

    method PickHost() returns (host: nat)
      requires hosts > 0
      modifies this`cursor
      ensures host == old(cursor) % hosts
      ensures cursor == old(cursor) + (if loadBalance then 1 else 0)
    {
      host := cursor % hosts;
      if loadBalance {
        cursor := cursor + 1;
      }
    }

    /** One attempt: the host tried, and the verdict unless the network failed first. */
    method SendPayloadOnce(base: u32, count: u32, net: Attempt) returns (host: nat, verdict: Option<AckVerdict>)
      requires Valid() && WellFormedReply(net)
      modifies this`cursor, this`connection
      ensures host == old(NextHost()) % hosts
      ensures verdict.None? <==> (old(connection).None? && !net.connects) || net.reply.None?
      ensures verdict.Some? ==> Valid() && connection == Some(host)
      ensures verdict.Some? ==> verdict.value == JudgeAck(base, count, net.reply.value)
      ensures cursor + 1 == old(NextHost()) + Stride()
    {
      if connection.None? {
        host := PickHost();
        if !net.connects {
          return host, None;
        }
        connection := Some(host);
      } else {
        host := connection.value;
      }
      match net.reply
      case None => verdict := None;
      case Some(ack) => verdict := Some(JudgeAck(base, count, ack));
    }

    /** Sends a batch as one window, at most one attempt per host. Whatever happens, the batch's
        numbers are spent; with every attempt failing, every host was tried exactly once, unless
        balancing over an even number of hosts. */
    method SendJson(events: seq<seq<byte>>, net: seq<Attempt>)
        returns (r: SendResult, payload: seq<byte>, tried: seq<nat>)
      requires Valid() && |events| <= U32_MAX && |net| == hosts
      requires forall i | 0 <= i < |net| :: WellFormedReply(net[i])
      modifies this
      ensures Valid()
      ensures seqNo == WrappingAdd(old(seqNo), |events|)
      ensures events == [] ==> r == Acknowledged(0) && tried == []
      ensures events == [] ==> cursor == old(cursor) && connection == old(connection)
      ensures events != [] ==> payload == WindowPayload(cfg, old(seqNo), events)
      ensures events != [] ==> Tried(old(seqNo), |events|, old(NextHost()), old(connection).Some?, net, r, tried)
      ensures r.AllHostsFailed? ==> |tried| == hosts && (Distinct(tried) <==> !loadBalance || hosts % 2 == 1)
      ensures r.AllHostsFailed? && (!loadBalance || hosts % 2 == 1) ==> forall host: nat | host < hosts :: host in tried
    {
      if events == [] {
        return Acknowledged(0), [], [];
      }
      var base := seqNo;
      seqNo := WrappingAdd(seqNo, |events|);
      payload := BuildWindowPayload(events, base);
      RotationDistinct(NextHost(), Stride(), hosts);
      r, tried := TryHosts(base, |events|, net);
    }

    /** The hosts tried from `start` on: the first over the connection that is `live`, if one is;
        all of them without success but the last, or every one of them. */
    ghost predicate Tried(base: u32, count: u32, start: int, live: bool, net: seq<Attempt>,
                          r: SendResult, tried: seq<nat>)
      requires hosts > 0
      reads this
    {
      && 0 < |tried| <= |net| && start >= 0
      && tried == Rotation(start, Stride(), hosts, |tried|)
      && (forall i | 0 <= i < |tried| - 1 :: !Succeeds(net, live, i, base, count))
      && match r
         case Acknowledged(n) =>
           n == count && connection == Some(tried[|tried| - 1]) && Succeeds(net, live, |tried| - 1, base, count)
         case AllHostsFailed =>
           |tried| == |net| && connection.None? && forall i | 0 <= i < |net| :: !Succeeds(net, live, i, base, count)
    }

    method TryHosts(base: u32, count: u32, net: seq<Attempt>) returns (r: SendResult, tried: seq<nat>)
      requires Valid() && |net| == hosts
      requires forall i | 0 <= i < |net| :: WellFormedReply(net[i])
      modifies this`cursor, this`connection
      ensures Valid() && Tried(base, count, old(NextHost()), old(connection).Some?, net, r, tried)
    {
      tried := [];
      ghost var start, live := NextHost(), connection.Some?;
      for i := 0 to hosts
        invariant Valid() && start >= 0
        invariant NextHost() == start + i * Stride()
        invariant tried == Rotation(start, Stride(), hosts, i)
        invariant forall j | 0 <= j < i :: !Succeeds(net, live, j, base, count)
        invariant if i == 0 then connection.Some? == live else connection.None?
      {
        var host, verdict := SendPayloadOnce(base, count, net[i]);
        tried := tried + [host];
        if verdict == Some(FullAck(count)) {
          return Acknowledged(count), tried;
        }
        connection := None;
        cursor := cursor + 1;
      }
      r := AllHostsFailed;
    }

    method BuildWindowPayload(events: seq<seq<byte>>, base: u32) returns (out: seq<byte>)
      requires |events| <= U32_MAX
      ensures out == WindowPayload(cfg, base, events)
    {
      var inner := EncodeBatch(events, base);
      out := EncodeWindow(|events|);
      if cfg.level > 0 {
        var c := EncodeCompressed(cfg.zlib, cfg.level, inner);
        if c.Some? && |c.value| < |inner| {
          return out + c.value;
        }
      }
      out := out + inner;
    }
  }

  method EncodeBatch(events: seq<seq<byte>>, base: u32) returns (inner: seq<byte>)
    requires |events| <= U32_MAX
    ensures inner == JsonFrames(base, events)
  {
    inner := [];
    assert events[0..] == events && WrappingAdd(base, 0) == base;
    assert [] + JsonFrames(base, events) == JsonFrames(base, events);
    for i := 0 to |events|
      invariant inner + JsonFrames(WrappingAdd(base, i), events[i..]) == JsonFrames(base, events)
    {
      AppendFrame(inner, base, events, i);
      inner := inner + EncodeJson(WrappingAdd(base, i + 1), events[i]);
    }
    assert inner + [] == inner;
  }

  lemma AppendFrame(done: seq<byte>, base: u32, events: seq<seq<byte>>, i: nat)
    requires i < |events| <= U32_MAX
    ensures done + JsonFrames(WrappingAdd(base, i), events[i..])
         == done + EncodeJson(WrappingAdd(base, i + 1), events[i])
            + JsonFrames(WrappingAdd(base, i + 1), events[i + 1..])
  {
    AdvanceTwice(base, i, 1);
    assert events[i..][1..] == events[i + 1..];
    var frame := EncodeJson(WrappingAdd(base, i + 1), events[i]);
    var rest := JsonFrames(WrappingAdd(base, i + 1), events[i + 1..]);
    assert done + (frame + rest) == done + frame + rest;
  }
}
