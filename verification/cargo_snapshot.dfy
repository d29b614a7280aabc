/** The durable mirror of the crate index. Tarball digests are not written: boot rebuilds them
    from each entry's checksum. */
module CargoSnapshot {
  import opened Prelude
  import opened CargoIndex

  datatype PersistedRecord = PersistedRecord(entries: seq<Entry>, owners: seq<Owner>)

  type Snapshot = map<string, PersistedRecord>

  function SnapshotOf(crates: Index): Snapshot {
    map key | key in crates :: PersistedRecord(crates[key].entries, crates[key].owners)
  }

  // ---------------------------------------------------------------- boot

  predicate IsHexDigit(c: char) { IsDigit(c) || 'a' <= c <= 'f' || 'A' <= c <= 'F' }

  predicate IsSha256Hex(s: string) { |s| == 64 && forall i | 0 <= i < |s| :: IsHexDigit(s[i]) }

  lemma ChecksumShape(s: string)
    ensures IsSha256Hex(s) <==> |s| == 64 && forall i | 0 <= i < |s| :: s[i] in "0123456789abcdefABCDEF"
  {
    forall c: char ensures IsHexDigit(c) <==> c in "0123456789abcdefABCDEF" { HexDigits(c); }
  }

  lemma HexDigits(c: char)
    ensures IsHexDigit(c) <==> c in "0123456789abcdefABCDEF"
  {
    var digits := "0123456789abcdefABCDEF";
    if IsDigit(c) { assert digits[c as int - '0' as int] == c; }
    else if 'a' <= c <= 'f' { assert digits[c as int - 'a' as int + 10] == c; }
    else if 'A' <= c <= 'F' { assert digits[c as int - 'A' as int + 16] == c; }
  }

  function LowerCase(s: string): string {
    seq(|s|, i requires 0 <= i < |s| =>
      if IsUpper(s[i]) then (s[i] as int - 'A' as int + 'a' as int) as char else s[i])
  }

  lemma LowerCaseIs(s: string)
    ensures |LowerCase(s)| == |s|
    ensures forall i | 0 <= i < |s| :: !IsUpper(LowerCase(s)[i]) && (!IsUpper(s[i]) ==> LowerCase(s)[i] == s[i])
    ensures forall i | 0 <= i < |s| && IsUpper(s[i]) :: LowerCase(s)[i] as int == s[i] as int + 32
  {
  }

  /** Entries whose checksum is a SHA-256; the others are dropped as corrupt. */
  function Sound(entries: seq<Entry>): seq<Entry> {
    if entries == [] then []
    else
      var init, last := Sound(entries[..|entries| - 1]), entries[|entries| - 1];
      if IsSha256Hex(last.cksum) then init + [last] else init
  }

  function TarballsOf(entries: seq<Entry>): map<string, Digest> {
    if entries == [] then map[]
    else
      var last := entries[|entries| - 1];
      TarballsOf(entries[..|entries| - 1])[last.vers := LowerCase(last.cksum)]
  }

  function LoadedRecord(p: PersistedRecord): Record {
    Record(Sound(p.entries), TarballsOf(Sound(p.entries)), p.owners)
  }

  function Loaded(file: Snapshot): Index {
    map key | key in file && Sound(file[key].entries) != [] :: LoadedRecord(file[key])
  }

  /** `load`, entry by entry. */
  method Load(file: Snapshot) returns (out: Index)
    ensures out == Loaded(file)
  {
    out := map[];
    var keys := file.Keys;
    while keys != {}
      invariant keys <= file.Keys
      invariant out == map key | key in file && key !in keys && Sound(file[key].entries) != [] ::
                         LoadedRecord(file[key])
      decreases |keys|
    {
      var key :| key in keys;
      keys := keys - {key};
      var entries, tarballs := LoadEntries(file[key].entries);
      if entries != [] {
        out := out[key := Record(entries, tarballs, file[key].owners)];
      }
    }
  }

  method LoadEntries(all: seq<Entry>) returns (entries: seq<Entry>, tarballs: map<string, Digest>)
    ensures entries == Sound(all) && tarballs == TarballsOf(Sound(all))
  {
    entries, tarballs := [], map[];
    for i := 0 to |all|
      invariant entries == Sound(all[..i]) && tarballs == TarballsOf(entries)
    {
      assert all[..i + 1][..i] == all[..i];
      if IsSha256Hex(all[i].cksum) {
        tarballs := tarballs[all[i].vers := LowerCase(all[i].cksum)];
        assert (entries + [all[i]])[..|entries|] == entries;
        entries := entries + [all[i]];
      }
    }
    assert all[..|all|] == all;
  }

  // ---------------------------------------------------------------- any file

  predicate HasSoundChecksum(e: Entry) { IsSha256Hex(e.cksum) }

  lemma {:induction false} SoundKeeps(all: seq<Entry>) returns (at: seq<nat>)
    ensures Picks(all, Sound(all), at, HasSoundChecksum)
    decreases |all|
  {
    if all == [] {
      at := [];
    } else {
      var init, last := all[..|all| - 1], |all| - 1;
      var before := SoundKeeps(init);
      assert all == init + [all[last]];
      if IsSha256Hex(all[last].cksum) {
        at := before + [last];
        PicksToo(init, Sound(init), before, HasSoundChecksum, all[last]);
      } else {
        at := before;
        PicksNot(init, Sound(init), before, HasSoundChecksum, all[last]);
      }
    }
  }

  /** The tarball of a version is that of its last entry; versions without an entry have none. */
  lemma {:induction false} TarballsLast(entries: seq<Entry>, v: string)
    ensures v in TarballsOf(entries) <==> HasVersion(entries, v)
    ensures forall i | 0 <= i < |entries| && entries[i].vers == v && !HasVersion(entries[i + 1..], v) ::
              v in TarballsOf(entries) && TarballsOf(entries)[v] == LowerCase(entries[i].cksum)
    decreases |entries|
  {
    if entries != [] {
      var init, last := entries[..|entries| - 1], |entries| - 1;
      TarballsLast(init, v);
      assert forall i | 0 <= i < last :: init[i] == entries[i];
      if HasVersion(init, v) {
        var i :| 0 <= i < |init| && init[i].vers == v;
        assert entries[i].vers == v;
      }
      if entries[last].vers != v && HasVersion(entries, v) { EarlierEntry(entries, v); }
      forall i | 0 <= i < |entries| && entries[i].vers == v && !HasVersion(entries[i + 1..], v)
        ensures v in TarballsOf(entries) && TarballsOf(entries)[v] == LowerCase(entries[i].cksum)
      {
        if i < last { LaterEntries(entries, v, i); }
      }
    }
  }

  lemma EarlierEntry(entries: seq<Entry>, v: string)
    requires entries != [] && entries[|entries| - 1].vers != v && HasVersion(entries, v)
    ensures HasVersion(entries[..|entries| - 1], v)
  {
    var i :| 0 <= i < |entries| && entries[i].vers == v;
    assert entries[..|entries| - 1][i].vers == v;
  }

  lemma LaterEntries(entries: seq<Entry>, v: string, i: nat)
    requires i < |entries| - 1 && !HasVersion(entries[i + 1..], v)
    ensures entries[|entries| - 1].vers != v && !HasVersion(entries[..|entries| - 1][i + 1..], v)
  {
    var later, init := entries[i + 1..], entries[..|entries| - 1];
    assert later[|later| - 1] == entries[|entries| - 1];
    var rest := init[i + 1..];
    forall k | 0 <= k < |rest| ensures rest[k].vers != v { assert rest[k] == later[k]; }
  }

  /** Whatever the file holds, boot lists of every crate exactly the entries with a sound checksum,
      in their order, and no crate without one; a version listed has the tarball its last entry
      names, and no other version has one. */
  lemma LoadedServable(file: Snapshot, key: string) returns (at: seq<nat>)
    requires key in file
    ensures Loaded(file).Keys <= file.Keys
    ensures key in Loaded(file) <==> at != []
    ensures var kept := if key in Loaded(file) then Loaded(file)[key].entries else [];
      Picks(file[key].entries, kept, at, HasSoundChecksum)
    ensures key in Loaded(file) ==>
      var r := Loaded(file)[key];
      && r.owners == file[key].owners
      && (forall v :: v in r.tarballs <==> HasVersion(r.entries, v))
      && (forall i | 0 <= i < |r.entries| && !HasVersion(r.entries[i + 1..], r.entries[i].vers) ::
            r.entries[i].vers in r.tarballs && r.tarballs[r.entries[i].vers] == LowerCase(r.entries[i].cksum))
  {
    var entries := Sound(file[key].entries);
    at := SoundKeeps(file[key].entries);
    forall v ensures v in TarballsOf(entries) <==> HasVersion(entries, v) { TarballsLast(entries, v); }
    forall i | 0 <= i < |entries| && !HasVersion(entries[i + 1..], entries[i].vers)
      ensures entries[i].vers in TarballsOf(entries)
      ensures TarballsOf(entries)[entries[i].vers] == LowerCase(entries[i].cksum)
    {
      TarballsLast(entries, entries[i].vers);
    }
  }

  // ---------------------------------------------------------------- well-formed indexes

  predicate IsDigest(s: string) { IsSha256Hex(s) && LowerCase(s) == s }

  ghost predicate DistinctVersions(entries: seq<Entry>) {
    forall i, j | 0 <= i < j < |entries| :: entries[i].vers != entries[j].vers
  }

  /** One display name, whose canonical form is the key; sound checksums. */
  ghost predicate EntriesOf(key: string, entries: seq<Entry>) {
    && (forall i | 0 <= i < |entries| :: entries[i].name == entries[0].name)
    && (entries != [] ==> CanonicalName(entries[0].name) == key)
    && (forall i | 0 <= i < |entries| :: IsDigest(entries[i].cksum))
  }

  /** Exactly the versions listed have a tarball, named by their checksum. */
  ghost predicate TarballsMatch(r: Record) {
    && (forall i | 0 <= i < |r.entries| ::
          r.entries[i].vers in r.tarballs && r.tarballs[r.entries[i].vers] == r.entries[i].cksum)
    && (forall v :: v in r.tarballs ==> HasVersion(r.entries, v))
  }

  ghost predicate WellFormedRecord(key: string, r: Record) {
    && r.entries != [] && DistinctVersions(r.entries) && EntriesOf(key, r.entries)
    && TarballsMatch(r) && DistinctOwners(r.owners)
  }

  ghost predicate WellFormed(crates: Index) {
    forall key :: key in crates ==> WellFormedRecord(key, crates[key])
  }

  lemma {:induction false} SoundAll(entries: seq<Entry>)
    requires forall i | 0 <= i < |entries| :: IsDigest(entries[i].cksum)
    ensures Sound(entries) == entries
  {
    if entries != [] {
      SoundAll(entries[..|entries| - 1]);
      assert entries == entries[..|entries| - 1] + [entries[|entries| - 1]];
    }
  }

  lemma {:induction false} TarballsOfEntries(entries: seq<Entry>)
    requires DistinctVersions(entries) && forall i | 0 <= i < |entries| :: IsDigest(entries[i].cksum)
    ensures forall i | 0 <= i < |entries| ::
              entries[i].vers in TarballsOf(entries) && TarballsOf(entries)[entries[i].vers] == entries[i].cksum
    ensures forall v :: v in TarballsOf(entries) ==> HasVersion(entries, v)
  {
    if entries != [] {
      var init, last := entries[..|entries| - 1], |entries| - 1;
      TarballsOfEntries(init);
      assert forall i | 0 <= i < last :: init[i] == entries[i];
      forall v | v in TarballsOf(entries) ensures HasVersion(entries, v) {
        if v == entries[last].vers { assert entries[last].vers == v; }
        else {
          assert v in TarballsOf(init) && HasVersion(init, v);
          var i :| 0 <= i < |init| && init[i].vers == v;
          assert entries[i].vers == v;
        }
      }
    }
  }

  ghost predicate RoundTrips(r: Record) {
    LoadedRecord(PersistedRecord(r.entries, r.owners)) == r && Sound(r.entries) != []
  }

  lemma RoundTripsTogether(crates: Index)
    requires forall key :: key in crates ==> RoundTrips(crates[key])
    ensures Loaded(SnapshotOf(crates)) == crates
  {
    assert forall key | key in crates :: RoundTrips(crates[key]);
  }

  lemma LoadedRecordIs(key: string, r: Record)
    requires WellFormedRecord(key, r)
    ensures RoundTrips(r)
  {
    SoundAll(r.entries);
    TarballsOfEntries(r.entries);
    var back := TarballsOf(r.entries);
    forall v ensures v in back <==> v in r.tarballs {
      if HasVersion(r.entries, v) { var i :| 0 <= i < |r.entries| && r.entries[i].vers == v; }
    }
    forall v | v in back ensures back[v] == r.tarballs[v] {
      var i :| 0 <= i < |r.entries| && r.entries[i].vers == v;
    }
    assert back == r.tarballs;
  }

  /** Boot gives back exactly the index that was written, though its tarballs never were. */
  lemma LoadedExactly(crates: Index)
    requires WellFormed(crates)
    ensures Loaded(SnapshotOf(crates)) == crates
  {
    forall key | key in crates ensures RoundTrips(crates[key]) {
      LoadedRecordIs(key, crates[key]);
    }
    RoundTripsTogether(crates);
  }
}
