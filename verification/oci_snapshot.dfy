/** The durable mirror of the registry's metadata: what is written, and what boot makes of it. */
module OciSnapshot {
  import opened Prelude
  import opened Wire
  import opened OciState

  // ---------------------------------------------------------------- hexadecimal

  const DIGITS: string := "0123456789abcdef"

  function HexDigit(c: char): (d: Option<nat>)
    ensures d.Some? ==> d.value < 16
  {
    if '0' <= c <= '9' then Some(c as int - '0' as int)
    else if 'a' <= c <= 'f' then Some(c as int - 'a' as int + 10)
    else if 'A' <= c <= 'F' then Some(c as int - 'A' as int + 10)
    else None
  }

  function HexEncode(b: seq<byte>): string {
    if b == [] then "" else [DIGITS[b[0] / 16], DIGITS[b[0] % 16]] + HexEncode(b[1..])
  }

  function HexDecode(s: string): Option<seq<byte>> {
    if s == "" then Some([])
    else if |s| == 1 then None
    else
      var (hi, lo, tail) := (HexDigit(s[0]), HexDigit(s[1]), HexDecode(s[2..]));
      if hi.None? || lo.None? || tail.None? then None
      else Some([Octet(hi.value, lo.value)] + tail.value)
  }

  function Octet(hi: nat, lo: nat): byte
    requires hi < 16 && lo < 16
  {
    hi * 16 + lo
  }

  function Lower(s: string): string {
    seq(|s|, i requires 0 <= i < |s| =>
      if 'A' <= s[i] <= 'F' then (s[i] as int - 'A' as int + 'a' as int) as char else s[i])
  }

  lemma DigitExactly(c: char, d: nat)
    requires d < 16
    ensures HexDigit(c) == Some(d) <==> Lower([c])[0] == DIGITS[d]
  {
  }

  lemma SamePair<T>(a: T, b: T, u: seq<T>, x: T, y: T, v: seq<T>)
    ensures [a, b] + u == [x, y] + v <==> a == x && b == y && u == v
  {
    assert ([a, b] + u)[..2] == [a, b] && ([x, y] + v)[..2] == [x, y];
    assert ([a, b] + u)[2..] == u && ([x, y] + v)[2..] == v;
  }

  lemma SameHead<T>(a: T, u: seq<T>, x: T, v: seq<T>)
    ensures [a] + u == [x] + v <==> a == x && u == v
  {
    assert ([a] + u)[0] == a && ([x] + v)[0] == x;
    assert ([a] + u)[1..] == u && ([x] + v)[1..] == v;
  }

  lemma LowerPair(s: string)
    requires |s| >= 2
    ensures Lower(s) == [Lower([s[0]])[0], Lower([s[1]])[0]] + Lower(s[2..])
  {
  }

  /** A string decodes to these bytes exactly when, letter case aside, it is how they are written. */
  lemma {:induction false} HexDecodeExactly(s: string, b: seq<byte>)
    ensures HexDecode(s) == Some(b) <==> Lower(s) == HexEncode(b)
    decreases |b|
  {
    if b == [] {
      if |s| >= 2 { assert Lower(s) != ""; }
    } else if |s| >= 2 {
      HexDecodeExactly(s[2..], b[1..]);
      PairExactly(s[0], s[1], b[0]);
      LowerPair(s);
      SamePair(Lower([s[0]])[0], Lower([s[1]])[0], Lower(s[2..]),
               DIGITS[b[0] / 16], DIGITS[b[0] % 16], HexEncode(b[1..]));
      DecodedPair(s, b);
    } else {
      assert |HexEncode(b)| >= 2;
    }
  }

  lemma DecodedPair(s: string, b: seq<byte>)
    requires |s| >= 2 && b != []
    ensures HexDecode(s) == Some(b) <==>
      && HexDigit(s[0]).Some? && HexDigit(s[1]).Some? && Octet(HexDigit(s[0]).value, HexDigit(s[1]).value) == b[0]
      && HexDecode(s[2..]) == Some(b[1..])
  {
    assert b == [b[0]] + b[1..];
    if HexDecode(s).Some? {
      SameHead(Octet(HexDigit(s[0]).value, HexDigit(s[1]).value), HexDecode(s[2..]).value, b[0], b[1..]);
    }
  }

  lemma PairExactly(hi: char, lo: char, b: byte)
    ensures HexDigit(hi).Some? && HexDigit(lo).Some? && Octet(HexDigit(hi).value, HexDigit(lo).value) == b <==>
      Lower([hi])[0] == DIGITS[b / 16] && Lower([lo])[0] == DIGITS[b % 16]
  {
    DigitExactly(hi, b / 16);
    DigitExactly(lo, b % 16);
    if HexDigit(hi).Some? && HexDigit(lo).Some? { TwoDigits(HexDigit(hi).value, HexDigit(lo).value, b); }
  }

  lemma TwoDigits(hi: nat, lo: nat, b: nat)
    requires hi < 16 && lo < 16
    ensures hi * 16 + lo == b <==> hi == b / 16 && lo == b % 16
  {
  }

  lemma DigitIsLower(d: nat)
    requires d < 16
    ensures Lower([DIGITS[d]])[0] == DIGITS[d]
  {
  }

  lemma {:induction false} EncodedIsLower(b: seq<byte>)
    ensures Lower(HexEncode(b)) == HexEncode(b)
  {
    if b != [] {
      var s := HexEncode(b);
      EncodedIsLower(b[1..]);
      DigitIsLower(b[0] / 16);
      DigitIsLower(b[0] % 16);
      assert s[0] == DIGITS[b[0] / 16] && s[1] == DIGITS[b[0] % 16] && s[2..] == HexEncode(b[1..]);
      LowerPair(s);
    }
  }

  lemma HexRoundTrip(b: seq<byte>)
    ensures HexDecode(HexEncode(b)) == Some(b)
  {
    EncodedIsLower(b);
    HexDecodeExactly(HexEncode(b), b);
  }

  // ---------------------------------------------------------------- snapshots

  datatype PersistedManifest = PersistedManifest(mediaType: string, bodyHex: string)

  datatype Snapshot = Snapshot(
    manifests: map<Name, map<Digest, PersistedManifest>>,
    tags: map<Name, map<Tag, Digest>>,
    referrers: map<Name, Referrers>)

  function Persisted(byDigest: map<Digest, Manifest>): map<Digest, PersistedManifest> {
    map d | d in byDigest :: PersistedManifest(byDigest[d].mediaType, HexEncode(byDigest[d].body))
  }

  /** What `persist_locked` writes. */
  function SnapshotOf(s: State): Snapshot {
    Snapshot(map name | name in s.manifests :: Persisted(s.manifests[name]), s.tags, s.referrers)
  }

  /** SHA-256, unseen here: any function to strings. */
  type Hash = seq<byte> -> string

  /** An entry is kept at boot if its body decodes and hashes to its key. */
  predicate Keeps(sha: Hash, d: Digest, p: PersistedManifest) {
    var body := HexDecode(p.bodyHex);
    body.Some? && d.algo.Sha256? && sha(body.value) == d.hex
  }

  function KeptManifests(sha: Hash, byDigest: map<Digest, PersistedManifest>): map<Digest, Manifest> {
    map d | d in byDigest && Keeps(sha, d, byDigest[d]) ::
      Manifest(byDigest[d].mediaType, HexDecode(byDigest[d].bodyHex).value)
  }

  function Loaded(sha: Hash, snapshot: Snapshot): State {
    State(map name | name in snapshot.manifests :: KeptManifests(sha, snapshot.manifests[name]),
          snapshot.tags, snapshot.referrers)
  }

  /** `load_snapshot`, entry by entry. */
  method LoadSnapshot(sha: Hash, snapshot: Snapshot) returns (s: State)
    ensures s == Loaded(sha, snapshot)
  {
    var manifests: map<Name, map<Digest, Manifest>> := map[];
    var names := snapshot.manifests.Keys;
    while names != {}
      invariant names <= snapshot.manifests.Keys
      invariant manifests == map name | name in snapshot.manifests && name !in names ::
                               KeptManifests(sha, snapshot.manifests[name])
      decreases |names|
    {
      var name :| name in names;
      var inner := LoadRepository(sha, snapshot.manifests[name]);
      manifests := manifests[name := inner];
      names := names - {name};
    }
    s := State(manifests, snapshot.tags, snapshot.referrers);
  }

  method LoadRepository(sha: Hash, byDigest: map<Digest, PersistedManifest>) returns (inner: map<Digest, Manifest>)
    ensures inner == KeptManifests(sha, byDigest)
  {
    inner := map[];
    var digests := byDigest.Keys;
    while digests != {}
      invariant digests <= byDigest.Keys
      invariant inner == map d | d in byDigest && d !in digests && Keeps(sha, d, byDigest[d]) ::
                           Manifest(byDigest[d].mediaType, HexDecode(byDigest[d].bodyHex).value)
      decreases |digests|
    {
      var d :| d in digests;
      digests := digests - {d};
      var body := HexDecode(byDigest[d].bodyHex);
      if body.Some? && d.algo.Sha256? && sha(body.value) == d.hex {
        inner := inner[d := Manifest(byDigest[d].mediaType, body.value)];
      }
    }
  }

  // ---------------------------------------------------------------- round trip

  ghost predicate CanonicalKeys(sha: Hash, byDigest: map<Digest, Manifest>) {
    forall d :: d in byDigest ==> d.algo.Sha256? && d.hex == sha(byDigest[d].body)
  }

  /** Every manifest is stored under the SHA-256 of its body. */
  ghost predicate Canonical(sha: Hash, s: State) {
    forall name :: name in s.manifests ==> CanonicalKeys(sha, s.manifests[name])
  }

  lemma KeepsIffCanonical(sha: Hash, byDigest: map<Digest, Manifest>)
    ensures KeptManifests(sha, Persisted(byDigest)) == byDigest <==> CanonicalKeys(sha, byDigest)
  {
    var back := KeptManifests(sha, Persisted(byDigest));
    forall d | d in byDigest
      ensures d in back <==> d.algo.Sha256? && d.hex == sha(byDigest[d].body)
      ensures d in back ==> back[d] == byDigest[d]
    {
      HexRoundTrip(byDigest[d].body);
    }
    assert back.Keys <= byDigest.Keys;
  }

  /** Entry by entry, whatever else the file holds: a manifest is loaded exactly when its body is
      written in hexadecimal and it sits under the SHA-256 of that body, and then as it is. */
  lemma LoadedEntry(sha: Hash, snapshot: Snapshot, name: Name, d: Digest, body: seq<byte>)
    requires name in snapshot.manifests && d in snapshot.manifests[name]
    requires Lower(snapshot.manifests[name][d].bodyHex) == HexEncode(body)
    ensures name in Loaded(sha, snapshot).manifests
    ensures var loaded := Loaded(sha, snapshot).manifests[name];
      && (d in loaded <==> d == Digest(Sha256, sha(body)))
      && (d in loaded ==> loaded[d] == Manifest(snapshot.manifests[name][d].mediaType, body))
  {
    HexDecodeExactly(snapshot.manifests[name][d].bodyHex, body);
  }

  /** Nothing else is loaded: what is, was on file with its body in hexadecimal. */
  lemma LoadedFromFile(sha: Hash, snapshot: Snapshot, name: Name, d: Digest)
    requires name in Loaded(sha, snapshot).manifests && d in Loaded(sha, snapshot).manifests[name]
    ensures name in snapshot.manifests && d in snapshot.manifests[name]
    ensures Lower(snapshot.manifests[name][d].bodyHex) == HexEncode(Loaded(sha, snapshot).manifests[name][d].body)
    ensures Loaded(sha, snapshot).tags == snapshot.tags && Loaded(sha, snapshot).referrers == snapshot.referrers
  {
    HexDecodeExactly(snapshot.manifests[name][d].bodyHex, Loaded(sha, snapshot).manifests[name][d].body);
  }

  /** Whatever the file holds, nothing is served under a digest that is not the SHA-256 of its body. */
  lemma LoadedCanonical(sha: Hash, snapshot: Snapshot)
    ensures Canonical(sha, Loaded(sha, snapshot))
  {
  }

  /** Boot gives back exactly what was persisted if and only if every manifest was canonical:
      an entry put under any other digest is acknowledged, persisted, and gone after a restart. */
  lemma LoadedExactly(sha: Hash, s: State)
    ensures Loaded(sha, SnapshotOf(s)) == s <==> Canonical(sha, s)
  {
    forall name | name in s.manifests
      ensures Loaded(sha, SnapshotOf(s)).manifests[name] == s.manifests[name] <==> CanonicalKeys(sha, s.manifests[name])
    {
      KeepsIffCanonical(sha, s.manifests[name]);
    }
    var back := Loaded(sha, SnapshotOf(s));
    assert back.manifests.Keys == s.manifests.Keys;
    if Canonical(sha, s) { assert back.manifests == s.manifests; }
  }
}
