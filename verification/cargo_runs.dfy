/** Whole runs of the Cargo registry: publishes, yanks and owner changes with every save outcome,
    downloads split into lookup and fetch, and process crashes followed by a restart.
    A crash in the middle of a request is a failed request followed by a crash: memory is lost
    either way, and the file and the blobs are what the failed request left. */
module CargoRuns {
  import opened Prelude
  import opened Durability
  import opened CargoIndex
  import opened CargoSnapshot
  import opened CargoServer

  // ---------------------------------------------------------------- runs

  datatype Event =
    | PublishCall(req: Request, fate: Fate)
    | YankCall(name: string, version: string, yanked: bool, outcome: SaveOutcome)
    | OwnersCall(name: string, logins: seq<string>, remove: bool, outcome: SaveOutcome)
    | LookUp(id: nat, name: string, version: string)
    | Fetch(id: nat)
    | Crash

  /** A download between its lookup and its fetch. */
  datatype Ticket = Ticket(key: string, vers: string, digest: Digest)

  /** The line a publish was acknowledged for, and its position in the crate's index. */
  datatype Receipt = Receipt(pos: nat, entry: Entry)

  type Receipts = map<(string, string), Receipt>

  datatype System = System(store: Store, inflight: map<nat, Ticket>, acked: Receipts)

  const INITIAL := System(Store(map[], map[], None), map[], map[])

  function Boot(disk: Option<Snapshot>): Index { match disk case None => map[] case Some(file) => Loaded(file) }

  function NextPublish(sha: Hash, semver: string -> bool, sys: System, req: Request, fate: Fate): System {
    if Refused(sha, semver, sys.store, req, fate).Some? then sys
    else
      var key := CanonicalName(req.name);
      System(Publish(sha, sys.store, req, fate), sys.inflight,
             if fate.outcome.Saved?
             then sys.acked[(key, req.vers) := Receipt(|RecordOf(sys.store.crates, key).entries|, EntryOf(sha, req))]
             else sys.acked)
  }

  function NextYank(sys: System, name: string, version: string, yanked: bool, outcome: SaveOutcome): System {
    var (key, crates) := (CanonicalName(name), sys.store.crates);
    if !IsValidName(name) || key !in crates || Find(crates[key].entries, version).None? then sys
    else
      var i := Find(crates[key].entries, version).value;
      sys.(store := Replaced(sys.store, key, crates[key].(entries := Flag(crates[key].entries, i, yanked)), outcome))
  }

  function NextOwners(sys: System, name: string, logins: seq<string>, remove: bool, outcome: SaveOutcome): System {
    var (key, crates) := (CanonicalName(name), sys.store.crates);
    if !IsValidName(name) || key !in crates then sys
    else
      var owners := ChangedOwners(crates[key].owners, logins, remove);
      sys.(store := Replaced(sys.store, key, crates[key].(owners := owners), outcome))
  }

  function NextLookUp(sys: System, id: nat, name: string, version: string): System {
    var (key, crates) := (CanonicalName(name), sys.store.crates);
    if !IsValidName(name) || key !in crates || version !in crates[key].tarballs then sys
    else sys.(inflight := sys.inflight[id := Ticket(key, version, crates[key].tarballs[version])])
  }

  function Next(sha: Hash, semver: string -> bool, sys: System, e: Event): System {
    match e
    case PublishCall(req, fate) => NextPublish(sha, semver, sys, req, fate)
    case YankCall(name, version, yanked, outcome) => NextYank(sys, name, version, yanked, outcome)
    case OwnersCall(name, logins, remove, outcome) => NextOwners(sys, name, logins, remove, outcome)
    case LookUp(id, name, version) => NextLookUp(sys, id, name, version)
    case Fetch(id) => sys.(inflight := sys.inflight - {id})
    case Crash => System(sys.store.(crates := Boot(sys.store.disk)), map[], sys.acked)
  }

  ghost predicate IsStep(sha: Hash, semver: string -> bool, a: System, e: Event, b: System) {
    b == Next(sha, semver, a, e)
  }

  /** A run: the states before, between and after its events. */
  ghost predicate IsRun(sha: Hash, semver: string -> bool, run: seq<System>, events: seq<Event>) {
    && |run| == |events| + 1 && run[0] == INITIAL
    && forall i | 0 <= i < |events| :: IsStep(sha, semver, run[i], events[i], run[i + 1])
  }

  /** The bytes a fetch returns: those stored under the digest looked up, if any are. */
  function Fetched(sys: System, id: nat): Option<Bytes> {
    if id in sys.inflight && sys.inflight[id].digest in sys.store.blobs
    then Some(sys.store.blobs[sys.inflight[id].digest])
    else None
  }

  // ---------------------------------------------------------------- the invariant

  ghost predicate SameLine(a: Entry, b: Entry) { a.(yanked := b.yanked) == b }

  /** The acknowledged line is in the index, at its position, changed at most in `yanked`. */
  ghost predicate Kept(crates: Index, k: (string, string), r: Receipt) {
    && k.0 in crates && r.pos < |crates[k.0].entries|
    && SameLine(crates[k.0].entries[r.pos], r.entry) && r.entry.vers == k.1
  }

  ghost predicate AllKept(crates: Index, acked: Receipts) { forall k :: k in acked ==> Kept(crates, k, acked[k]) }

  ghost predicate BlobsHash(sha: Hash, blobs: Blobs) { forall d :: d in blobs ==> sha(blobs[d]) == d }

  ghost predicate AckedStored(acked: Receipts, blobs: Blobs) {
    forall k :: k in acked ==> acked[k].entry.cksum in blobs
  }

  ghost predicate TicketsValid(crates: Index, inflight: map<nat, Ticket>) {
    forall id :: id in inflight ==>
      var t := inflight[id];
      t.key in crates && t.vers in crates[t.key].tarballs && crates[t.key].tarballs[t.vers] == t.digest
  }

  /** An index, in memory or on file: well formed, and holding every acknowledged line. */
  ghost predicate IndexSafe(crates: Index, acked: Receipts) { WellFormed(crates) && AllKept(crates, acked) }

  ghost predicate BlobsSafe(sha: Hash, blobs: Blobs, acked: Receipts) {
    BlobsHash(sha, blobs) && AckedStored(acked, blobs)
  }

  ghost predicate Safe(sha: Hash, sys: System) {
    && IndexSafe(sys.store.crates, sys.acked)
    && IndexSafe(Boot(sys.store.disk), sys.acked)
    && BlobsSafe(sha, sys.store.blobs, sys.acked)
    && TicketsValid(sys.store.crates, sys.inflight)
  }

  /** The unseen hash: hexadecimal digits, 64 of them, lower case. */
  ghost predicate LawfulHash(sha: Hash) { forall b :: IsDigest(sha(b)) }

  lemma BootMirrored(disk: Option<Snapshot>, crates: Index, outcome: SaveOutcome)
    requires WellFormed(crates)
    ensures Boot(Mirrored(disk, crates, outcome)) == if outcome.FailedEarly? then Boot(disk) else crates
  {
    LoadedExactly(crates);
  }

  lemma MirroredSafe(disk: Option<Snapshot>, crates: Index, outcome: SaveOutcome, acked: Receipts)
    requires IndexSafe(crates, acked) && (outcome.FailedEarly? ==> IndexSafe(Boot(disk), acked))
    ensures IndexSafe(Boot(Mirrored(disk, crates, outcome)), acked)
  {
    BootMirrored(disk, crates, outcome);
  }

  /** No two crates of an index have names that collide, and one crate never has two spellings. */
  lemma NamesNeverCollide(sha: Hash, semver: string -> bool, run: seq<System>, events: seq<Event>, i: nat,
                          k: string, a: Entry, l: string, b: Entry)
    requires LawfulHash(sha) && IsRun(sha, semver, run, events) && i < |run|
    requires k in run[i].store.crates && a in run[i].store.crates[k].entries
    requires l in run[i].store.crates && b in run[i].store.crates[l].entries
    ensures k == CanonicalName(a.name)
    ensures CanonicalName(a.name) == CanonicalName(b.name) ==> k == l && a.name == b.name
  {
    EveryRunSafe(sha, semver, run, events, i);
    EntryNamed(run[i].store.crates, k, a);
    EntryNamed(run[i].store.crates, l, b);
  }

  lemma EntryNamed(crates: Index, key: string, a: Entry)
    requires WellFormed(crates) && key in crates && a in crates[key].entries
    ensures key == CanonicalName(a.name) && a.name == crates[key].entries[0].name
  {
    assert WellFormedRecord(key, crates[key]);
  }

  // ---------------------------------------------------------------- publish

  lemma PublishedRecord(sha: Hash, key: string, r: Record, req: Request)
    requires LawfulHash(sha) && req.details.Some? && key == CanonicalName(req.name)
    requires r == NEW_RECORD || (WellFormedRecord(key, r) && r.entries[0].name == req.name)
    requires !HasVersion(r.entries, req.vers)
    ensures WellFormedRecord(key, WithVersion(r, EntryOf(sha, req), sha(req.tarball)))
  {
    var entry := EntryOf(sha, req);
    var after := WithVersion(r, entry, sha(req.tarball));
    forall v | v in after.tarballs ensures HasVersion(after.entries, v) {
      if v == req.vers { assert after.entries[|r.entries|].vers == v; }
      else {
        var i :| 0 <= i < |r.entries| && r.entries[i].vers == v;
        assert after.entries[i].vers == v;
      }
    }
  }

  /** Whether some crate already listed stands in the way: one with a name that collides and is
      spelled otherwise, or that has the version. */
  ghost predicate Blocked(crates: Index, req: Request) {
    exists key, e :: key in crates && e in crates[key].entries && CanonicalName(e.name) == CanonicalName(req.name) &&
                     (e.name != req.name || e.vers == req.vers)
  }

  lemma CollidesIffBlocked(crates: Index, req: Request)
    requires WellFormed(crates)
    ensures Collides(crates, req).Some? <==> Blocked(crates, req)
  {
    var key := CanonicalName(req.name);
    if Blocked(crates, req) {
      var k, e :| k in crates && e in crates[k].entries && CanonicalName(e.name) == key &&
                  (e.name != req.name || e.vers == req.vers);
      EntryNamed(crates, k, e);
      var i :| 0 <= i < |crates[k].entries| && crates[k].entries[i] == e;
    }
    if Collides(crates, req).Some? {
      assert WellFormedRecord(key, crates[key]);
      var entries := crates[key].entries;
      assert entries[0] in entries;
      if HasVersion(entries, req.vers) {
        var i :| 0 <= i < |entries| && entries[i].vers == req.vers;
        assert entries[i] in entries;
        EntryNamed(crates, key, entries[i]);
      }
    }
  }

  /** A publish is let through exactly when its name, version and fields are sound, a checksum it
      declares is that of its tarball, nothing listed stands in the way and its blob was stored. */
  lemma AcceptedExactly(sha: Hash, semver: string -> bool, s: Store, req: Request, fate: Fate)
    requires WellFormed(s.crates)
    ensures Refused(sha, semver, s, req, fate).None? <==>
      && IsValidName(req.name) && semver(req.vers) && req.details.Some?
      && (req.declaredCksum == "" || req.declaredCksum == sha(req.tarball))
      && !Blocked(s.crates, req) && fate.stores
  {
    CollidesIffBlocked(s.crates, req);
  }

  /** Why a publish is refused: the first of its faults in this order, a colliding crate being named
      by the spelling it is listed under. */
  lemma RefusedExactly(sha: Hash, semver: string -> bool, s: Store, req: Request, fate: Fate)
    requires WellFormed(s.crates)
    ensures var (r, key) := (Refused(sha, semver, s, req, fate), CanonicalName(req.name));
      if !IsValidName(req.name) then r == Some(InvalidName)
      else if !semver(req.vers) then r == Some(InvalidVersion)
      else if req.declaredCksum !in {"", sha(req.tarball)} then r == Some(ChecksumMismatch)
      else if req.details.None? then r == Some(InvalidPublish)
      else if key in s.crates && exists e :: e in s.crates[key].entries && e.name != req.name then
        r.Some? && r.value.NameConflict? && forall e | e in s.crates[key].entries :: e.name == r.value.existing
      else if key in s.crates && exists e :: e in s.crates[key].entries && e.vers == req.vers then
        r == Some(DuplicateVersion)
      else r == if fate.stores then None else Some(BlobStoreFailed)
  {
    var key := CanonicalName(req.name);
    if key in s.crates {
      var entries := s.crates[key].entries;
      assert WellFormedRecord(key, s.crates[key]);
      assert entries[0] in entries;
      forall e | e in entries ensures e.name == entries[0].name { EntryNamed(s.crates, key, e); }
      if HasVersion(entries, req.vers) {
        var i :| 0 <= i < |entries| && entries[i].vers == req.vers;
        assert entries[i] in entries;
      }
    }
  }

  /** `after` is `before` with one more line under `key`, and its tarball. */
  ghost predicate AddsLine(before: Index, key: string, line: Entry, after: Index) {
    var was := if key in before then before[key] else NEW_RECORD;
    && after.Keys == before.Keys + {key}
    && after[key].entries == was.entries + [line]
    && after[key].tarballs == was.tarballs[line.vers := line.cksum]
    && after[key].owners == was.owners
    && (forall other | other in before && other != key :: after[other] == before[other])
  }

  /** One more receipt than before: for this line, at the end of its crate's list. */
  ghost predicate Acknowledged(sys: System, key: string, line: Entry, acked: Receipts) {
    var was := if key in sys.store.crates then sys.store.crates[key].entries else [];
    acked == sys.acked[(key, line.vers) := Receipt(|was|, line)]
  }

  lemma PublishedAddsLine(sha: Hash, crates: Index, req: Request)
    requires req.details.Some?
    ensures var line := Entry(req.name, req.vers, sha(req.tarball), false, req.details.value);
      var key := CanonicalName(req.name);
      AddsLine(crates, key, line, Published(crates, key, EntryOf(sha, req), sha(req.tarball)))
  {
  }

  /** An acknowledged publish: its line, not yanked, follows those listed before under its key; its
      tarball is stored under its hash; no other crate changes; and a restart gives all of it back. */
  lemma PublishTakesEffect(sha: Hash, semver: string -> bool, sys: System, req: Request, fate: Fate)
    requires LawfulHash(sha) && WellFormed(sys.store.crates) && fate.outcome.Saved?
    requires Refused(sha, semver, sys.store, req, fate).None?
    ensures var line := Entry(req.name, req.vers, sha(req.tarball), false, req.details.value);
      var after := NextPublish(sha, semver, sys, req, fate).store;
      && AddsLine(sys.store.crates, CanonicalName(req.name), line, after.crates)
      && Acknowledged(sys, CanonicalName(req.name), line, NextPublish(sha, semver, sys, req, fate).acked)
      && after.blobs == sys.store.blobs[sha(req.tarball) := req.tarball]
      && Boot(after.disk) == after.crates
  {
    PublishSaves(sha, semver, sys, req, fate);
    PublishedAddsLine(sha, sys.store.crates, req);
    PublishedBoots(sha, sys.store, req);
  }

  lemma PublishedWellFormed(sha: Hash, crates: Index, req: Request)
    requires LawfulHash(sha) && WellFormed(crates) && req.details.Some? && Collides(crates, req).None?
    ensures WellFormed(Published(crates, CanonicalName(req.name), EntryOf(sha, req), sha(req.tarball)))
  {
    var key := CanonicalName(req.name);
    PublishedRecord(sha, key, RecordOf(crates, key), req);
  }

  /** A failed publish leaves the index exactly as it was. */
  lemma FailedPublishExact(crates: Index, req: Request, entry: Entry, digest: Digest)
    requires WellFormed(crates) && Collides(crates, req).None? && entry.vers == req.vers
    ensures var key := CanonicalName(req.name);
            RolledBack(Published(crates, key, entry, digest), key, entry.vers, digest) == crates
  {
    var key := CanonicalName(req.name);
    if key in crates { assert WellFormedRecord(key, crates[key]); }
    RollbackExact(crates, key, entry, digest);
  }

  /** The blobs a failed publish leaves. */
  function Leftover(crates: Index, blobs: Blobs, digest: Digest, tarball: Bytes, deletes: bool): Blobs {
    var stored := blobs[digest := tarball];
    if !Referenced(crates, digest) && deletes then stored - {digest} else stored
  }

  lemma PublishFails(sha: Hash, s: Store, req: Request, fate: Fate)
    requires WellFormed(s.crates) && req.details.Some? && Collides(s.crates, req).None? && !fate.outcome.Saved?
    ensures var (key, digest) := (CanonicalName(req.name), sha(req.tarball));
            Publish(sha, s, req, fate) ==
            Store(s.crates, Leftover(s.crates, s.blobs, digest, req.tarball, fate.deletes),
                  Mirrored(s.disk, Published(s.crates, key, EntryOf(sha, req), digest), fate.outcome))
  {
    FailedPublishExact(s.crates, req, EntryOf(sha, req), sha(req.tarball));
  }

  lemma KeptPublished(crates: Index, key: string, entry: Entry, digest: Digest, acked: Receipts)
    requires AllKept(crates, acked)
    ensures AllKept(Published(crates, key, entry, digest), acked)
    ensures var receipt := Receipt(|RecordOf(crates, key).entries|, entry);
            AllKept(Published(crates, key, entry, digest), acked[(key, entry.vers) := receipt])
  {
    var after := Published(crates, key, entry, digest);
    forall k | k in acked ensures Kept(after, k, acked[k]) {
      assert Kept(crates, k, acked[k]);
    }
  }

  lemma TicketsPublished(crates: Index, key: string, entry: Entry, digest: Digest, inflight: map<nat, Ticket>)
    requires WellFormed(crates) && !HasVersion(RecordOf(crates, key).entries, entry.vers)
    requires TicketsValid(crates, inflight)
    ensures TicketsValid(Published(crates, key, entry, digest), inflight)
  {
    assert key in crates ==> WellFormedRecord(key, crates[key]);
    assert entry.vers !in RecordOf(crates, key).tarballs;
  }

  /** An acknowledged version's digest is in use, so its blob is never an orphan. */
  lemma KeptReferenced(crates: Index, k: (string, string), r: Receipt)
    requires WellFormed(crates) && Kept(crates, k, r)
    ensures Referenced(crates, r.entry.cksum)
  {
    var rec := crates[k.0];
    assert WellFormedRecord(k.0, rec);
    assert rec.tarballs[rec.entries[r.pos].vers] in rec.tarballs.Values;
  }

  lemma OrphanDeleted(sha: Hash, crates: Index, blobs: Blobs, acked: Receipts, digest: Digest)
    requires IndexSafe(crates, acked) && BlobsSafe(sha, blobs, acked) && !Referenced(crates, digest)
    ensures BlobsSafe(sha, blobs - {digest}, acked)
  {
    forall k | k in acked ensures acked[k].entry.cksum != digest {
      KeptReferenced(crates, k, acked[k]);
    }
  }

  lemma PublishSavedSafe(sha: Hash, semver: string -> bool, sys: System, req: Request, fate: Fate)
    requires LawfulHash(sha) && Safe(sha, sys) && fate.outcome.Saved?
    requires Refused(sha, semver, sys.store, req, fate).None?
    ensures Safe(sha, NextPublish(sha, semver, sys, req, fate))
  {
    var crates, key, entry, digest := sys.store.crates, CanonicalName(req.name), EntryOf(sha, req), sha(req.tarball);
    var after := Published(crates, key, entry, digest);
    var acked := sys.acked[(key, req.vers) := Receipt(|RecordOf(crates, key).entries|, entry)];
    PublishedWellFormed(sha, crates, req);
    KeptPublished(crates, key, entry, digest, sys.acked);
    TicketsPublished(crates, key, entry, digest, sys.inflight);
    MirroredSafe(sys.store.disk, after, Saved, acked);
    StoredSafe(sha, sys.store.blobs, sys.acked, key, req, acked);
    PublishSaves(sha, semver, sys, req, fate);
  }

  lemma PublishSaves(sha: Hash, semver: string -> bool, sys: System, req: Request, fate: Fate)
    requires fate.outcome.Saved? && Refused(sha, semver, sys.store, req, fate).None?
    ensures var (crates, key) := (sys.store.crates, CanonicalName(req.name));
      var (entry, digest) := (EntryOf(sha, req), sha(req.tarball));
      NextPublish(sha, semver, sys, req, fate) ==
      System(Store(Published(crates, key, entry, digest), sys.store.blobs[digest := req.tarball],
                   Mirrored(sys.store.disk, Published(crates, key, entry, digest), Saved)),
             sys.inflight, sys.acked[(key, req.vers) := Receipt(|RecordOf(crates, key).entries|, entry)])
  {
  }

  lemma StoredSafe(sha: Hash, blobs: Blobs, acked: Receipts, key: string, req: Request, acked': Receipts)
    requires BlobsSafe(sha, blobs, acked) && req.details.Some?
    requires exists pos :: acked' == acked[(key, req.vers) := Receipt(pos, EntryOf(sha, req))]
    ensures BlobsSafe(sha, blobs[sha(req.tarball) := req.tarball], acked')
  {
  }

  lemma LeftoverSafe(sha: Hash, crates: Index, blobs: Blobs, acked: Receipts, tarball: Bytes, deletes: bool)
    requires IndexSafe(crates, acked) && BlobsSafe(sha, blobs, acked)
    ensures BlobsSafe(sha, Leftover(crates, blobs, sha(tarball), tarball, deletes), acked)
  {
    var digest, stored := sha(tarball), blobs[sha(tarball) := tarball];
    assert BlobsSafe(sha, stored, acked);
    if !Referenced(crates, digest) { OrphanDeleted(sha, crates, stored, acked, digest); }
  }

  lemma PublishFailedSafe(sha: Hash, sys: System, req: Request, fate: Fate)
    requires LawfulHash(sha) && Safe(sha, sys) && !fate.outcome.Saved?
    requires req.details.Some? && Collides(sys.store.crates, req).None?
    ensures Safe(sha, sys.(store := Publish(sha, sys.store, req, fate)))
  {
    var crates, key, entry, digest := sys.store.crates, CanonicalName(req.name), EntryOf(sha, req), sha(req.tarball);
    PublishFails(sha, sys.store, req, fate);
    PublishedWellFormed(sha, crates, req);
    KeptPublished(crates, key, entry, digest, sys.acked);
    MirroredSafe(sys.store.disk, Published(crates, key, entry, digest), fate.outcome, sys.acked);
    LeftoverSafe(sha, crates, sys.store.blobs, sys.acked, req.tarball, fate.deletes);
  }

  // ---------------------------------------------------------------- yank and owners

  /** Entries that differ at most in `yanked` and `details`. */
  ghost predicate SameVersions(a: seq<Entry>, b: seq<Entry>) {
    && |a| == |b|
    && forall i | 0 <= i < |a| :: a[i].name == b[i].name && a[i].vers == b[i].vers && a[i].cksum == b[i].cksum
  }

  lemma SameTarballs(r: Record, entries: seq<Entry>)
    requires TarballsMatch(r) && SameVersions(r.entries, entries)
    ensures TarballsMatch(r.(entries := entries))
  {
    forall v | v in r.tarballs ensures HasVersion(entries, v) {
      var j :| 0 <= j < |r.entries| && r.entries[j].vers == v;
      assert entries[j].vers == v;
    }
  }

  lemma FlaggedRecord(key: string, r: Record, i: nat, yanked: bool)
    requires WellFormedRecord(key, r) && i < |r.entries|
    ensures WellFormedRecord(key, r.(entries := Flag(r.entries, i, yanked)))
    ensures SameLines(r, r.(entries := Flag(r.entries, i, yanked)))
  {
    var after := Flag(r.entries, i, yanked);
    assert SameVersions(r.entries, after);
    SameTarballs(r, after);
    assert DistinctVersions(after) && EntriesOf(key, after);
  }

  lemma OwnedRecord(key: string, r: Record, logins: seq<string>, remove: bool)
    requires WellFormedRecord(key, r)
    ensures WellFormedRecord(key, r.(owners := ChangedOwners(r.owners, logins, remove)))
  {
    if remove { RemoveLoginsDistinct(r.owners, logins); }
    else { AddLoginsDistinct(r.owners, logins, NextId(r.owners)); }
  }

  /** Two versions of a record that show downloads and receipts the same. */
  ghost predicate SameLines(a: Record, b: Record) {
    && a.tarballs == b.tarballs && |a.entries| == |b.entries|
    && forall i | 0 <= i < |a.entries| :: SameLine(a.entries[i], b.entries[i])
  }

  lemma KeptReplaced(crates: Index, key: string, r: Record, acked: Receipts)
    requires key in crates && SameLines(crates[key], r) && AllKept(crates, acked)
    ensures AllKept(crates[key := r], acked)
  {
    forall k | k in acked ensures Kept(crates[key := r], k, acked[k]) {
      assert Kept(crates, k, acked[k]);
    }
  }

  lemma ReplacedSafe(sha: Hash, sys: System, key: string, r: Record, outcome: SaveOutcome)
    requires Safe(sha, sys) && key in sys.store.crates
    requires WellFormedRecord(key, r) && SameLines(sys.store.crates[key], r)
    ensures Safe(sha, sys.(store := Replaced(sys.store, key, r, outcome)))
  {
    var crates := sys.store.crates[key := r];
    KeptReplaced(sys.store.crates, key, r, sys.acked);
    assert IndexSafe(crates, sys.acked);
    MirroredSafe(sys.store.disk, crates, outcome, sys.acked);
    assert TicketsValid(crates, sys.inflight);
  }

  lemma YankSafe(sha: Hash, sys: System, name: string, version: string, yanked: bool, outcome: SaveOutcome)
    requires Safe(sha, sys)
    ensures Safe(sha, NextYank(sys, name, version, yanked, outcome))
  {
    var key, crates := CanonicalName(name), sys.store.crates;
    if IsValidName(name) && key in crates && Find(crates[key].entries, version).Some? {
      var i := Find(crates[key].entries, version).value;
      FlaggedRecord(key, crates[key], i, yanked);
      ReplacedSafe(sha, sys, key, crates[key].(entries := Flag(crates[key].entries, i, yanked)), outcome);
    }
  }

  /** Of the lines of a crate, exactly the one of the version is flagged. */
  ghost predicate FlagsVersion(was: seq<Entry>, version: string, yanked: bool, now: seq<Entry>) {
    && |now| == |was|
    && forall i | 0 <= i < |was| :: now[i] == if was[i].vers == version then was[i].(yanked := yanked) else was[i]
  }

  lemma FlagFound(entries: seq<Entry>, version: string, yanked: bool)
    requires DistinctVersions(entries)
    ensures Find(entries, version).Some? ==>
      FlagsVersion(entries, version, yanked, Flag(entries, Find(entries, version).value, yanked))
    ensures Find(entries, version).None? ==> FlagsVersion(entries, version, yanked, entries)
  {
  }

  /** An acknowledged yank or unyank sets the flag of its version and touches no other line. */
  lemma YankTakesEffect(sys: System, name: string, version: string, yanked: bool)
    requires WellFormed(sys.store.crates) && IsValidName(name)
    ensures var (before, key) := (sys.store.crates, CanonicalName(name));
      var after := NextYank(sys, name, version, yanked, Saved).store.crates;
      && after.Keys == before.Keys
      && (forall other | other in before && other != key :: after[other] == before[other])
      && (key in before ==>
            && FlagsVersion(before[key].entries, version, yanked, after[key].entries)
            && after[key].tarballs == before[key].tarballs && after[key].owners == before[key].owners)
  {
    var key := CanonicalName(name);
    YankedIndex(sys, name, version, yanked);
    if key in sys.store.crates {
      assert WellFormedRecord(key, sys.store.crates[key]);
      FlagFound(sys.store.crates[key].entries, version, yanked);
    }
  }

  lemma YankedIndex(sys: System, name: string, version: string, yanked: bool)
    requires IsValidName(name)
    ensures var (before, key) := (sys.store.crates, CanonicalName(name));
      NextYank(sys, name, version, yanked, Saved).store.crates ==
      if key in before && Find(before[key].entries, version).Some? then
        var flagged := Flag(before[key].entries, Find(before[key].entries, version).value, yanked);
        before[key := before[key].(entries := flagged)]
      else before
  {
  }

  /** An acknowledged removal keeps exactly the owners not named, in their order; an addition keeps
      the list, and follows it with the logins named and not yet there, under new ids. Nothing
      else of the crate changes, and no other crate. */
  lemma OwnersTakeEffect(sys: System, name: string, logins: seq<string>, remove: bool) returns (at: seq<nat>)
    requires WellFormed(sys.store.crates) && IsValidName(name) && CanonicalName(name) in sys.store.crates
    ensures var (before, key) := (sys.store.crates, CanonicalName(name));
      var after := NextOwners(sys, name, logins, remove, Saved).store.crates;
      && after.Keys == before.Keys
      && (forall other | other in before && other != key :: after[other] == before[other])
      && after[key].entries == before[key].entries && after[key].tarballs == before[key].tarballs
      && (remove ==> Picks(before[key].owners, after[key].owners, at, (o: Owner) => o.login !in logins))
      && (!remove ==> AddsOwners(before[key].owners, logins, after[key].owners))
  {
    assert WellFormedRecord(CanonicalName(name), sys.store.crates[CanonicalName(name)]);
    at := OwnersChanged(sys.store.crates[CanonicalName(name)].owners, logins, remove);
  }

  lemma OwnersSafe(sha: Hash, sys: System, name: string, logins: seq<string>, remove: bool, outcome: SaveOutcome)
    requires Safe(sha, sys)
    ensures Safe(sha, NextOwners(sys, name, logins, remove, outcome))
  {
    var key, crates := CanonicalName(name), sys.store.crates;
    if IsValidName(name) && key in crates {
      OwnedRecord(key, crates[key], logins, remove);
      ReplacedSafe(sha, sys, key, crates[key].(owners := ChangedOwners(crates[key].owners, logins, remove)), outcome);
    }
  }

  // ---------------------------------------------------------------- every run

  lemma PublishSafe(sha: Hash, semver: string -> bool, sys: System, req: Request, fate: Fate)
    requires LawfulHash(sha) && Safe(sha, sys)
    ensures Safe(sha, NextPublish(sha, semver, sys, req, fate))
  {
    if Refused(sha, semver, sys.store, req, fate).None? {
      if fate.outcome.Saved? { PublishSavedSafe(sha, semver, sys, req, fate); }
      else { PublishFailedSafe(sha, sys, req, fate); }
    }
  }

  lemma NextSafe(sha: Hash, semver: string -> bool, sys: System, e: Event)
    requires LawfulHash(sha) && Safe(sha, sys)
    ensures Safe(sha, Next(sha, semver, sys, e))
  {
    match e
    case PublishCall(req, fate) => PublishSafe(sha, semver, sys, req, fate);
    case YankCall(name, version, yanked, outcome) => YankSafe(sha, sys, name, version, yanked, outcome);
    case OwnersCall(name, logins, remove, outcome) => OwnersSafe(sha, sys, name, logins, remove, outcome);
    case LookUp(id, name, version) => LookUpSafe(sha, sys, id, name, version);
    case Fetch(id) => FetchSafe(sha, sys, id);
    case Crash => CrashSafe(sha, sys);
  }

  lemma LookUpSafe(sha: Hash, sys: System, id: nat, name: string, version: string)
    requires Safe(sha, sys)
    ensures Safe(sha, NextLookUp(sys, id, name, version))
  {
  }

  lemma FetchSafe(sha: Hash, sys: System, id: nat)
    requires Safe(sha, sys)
    ensures Safe(sha, sys.(inflight := sys.inflight - {id}))
  {
  }

  lemma CrashSafe(sha: Hash, sys: System)
    requires Safe(sha, sys)
    ensures Safe(sha, System(sys.store.(crates := Boot(sys.store.disk)), map[], sys.acked))
  {
  }

  /** Safety of every state of every run. */
  lemma {:induction false} EveryRunSafe(sha: Hash, semver: string -> bool, run: seq<System>, events: seq<Event>, i: nat)
    requires LawfulHash(sha) && IsRun(sha, semver, run, events) && i < |run|
    ensures Safe(sha, run[i])
  {
    if i > 0 {
      EveryRunSafe(sha, semver, run, events, i - 1);
      assert IsStep(sha, semver, run[i - 1], events[i - 1], run[i]);
      NextSafe(sha, semver, run[i - 1], events[i - 1]);
    }
  }

  /** A version with a receipt cannot be published again. */
  lemma ReceiptBlocksPublish(crates: Index, k: (string, string), r: Receipt, req: Request)
    requires Kept(crates, k, r) && (CanonicalName(req.name), req.vers) == k
    ensures Collides(crates, req).Some?
  {
    assert crates[k.0].entries[r.pos].vers == req.vers;
  }

  lemma ReceiptStays(sha: Hash, semver: string -> bool, a: System, e: Event, b: System, k: (string, string))
    requires IsStep(sha, semver, a, e, b) && AllKept(a.store.crates, a.acked) && k in a.acked
    ensures k in b.acked && b.acked[k] == a.acked[k]
  {
    if e.PublishCall? {
      if (CanonicalName(e.req.name), e.req.vers) == k { ReceiptBlocksPublish(a.store.crates, k, a.acked[k], e.req); }
    }
  }

  lemma {:induction false} ReceiptsPersist(sha: Hash, semver: string -> bool, run: seq<System>, events: seq<Event>,
                                           i: nat, j: nat, k: (string, string))
    requires LawfulHash(sha) && IsRun(sha, semver, run, events) && i <= j < |run| && k in run[i].acked
    ensures k in run[j].acked && run[j].acked[k] == run[i].acked[k]
    decreases j - i
  {
    if i < j {
      ReceiptsPersist(sha, semver, run, events, i, j - 1, k);
      SafeStepKeepsReceipt(sha, semver, run, events, j - 1, k);
    }
  }

  lemma SafeStepKeepsReceipt(sha: Hash, semver: string -> bool, run: seq<System>, events: seq<Event>,
                             i: nat, k: (string, string))
    requires LawfulHash(sha) && IsRun(sha, semver, run, events) && i < |events| && k in run[i].acked
    ensures k in run[i + 1].acked && run[i + 1].acked[k] == run[i].acked[k]
  {
    EveryRunSafe(sha, semver, run, events, i);
    ReceiptStays(sha, semver, run[i], events[i], run[i + 1], k);
  }

  /** The receipt is honoured: its line is in the index in memory and on file, mapped to its
      tarball, and the tarball is in the blob store under its own hash. */
  ghost predicate Honoured(sha: Hash, s: Store, k: (string, string), r: Receipt) {
    && Kept(s.crates, k, r) && Kept(Boot(s.disk), k, r)
    && k.1 in s.crates[k.0].tarballs && s.crates[k.0].tarballs[k.1] == r.entry.cksum
    && r.entry.cksum in s.blobs && sha(s.blobs[r.entry.cksum]) == r.entry.cksum
  }

  lemma SafeHonours(sha: Hash, sys: System, k: (string, string))
    requires Safe(sha, sys) && k in sys.acked
    ensures Honoured(sha, sys.store, k, sys.acked[k])
  {
    var crates, r := sys.store.crates, sys.acked[k];
    assert Kept(crates, k, r) && Kept(Boot(sys.store.disk), k, r);
    assert WellFormedRecord(k.0, crates[k.0]);
    assert crates[k.0].entries[r.pos].vers == k.1;
  }

  /** An acknowledged version is for ever: whatever happens next, crashes and failed saves
      included, it stays in the index at the same position with every field but `yanked`
      unchanged, and its tarball can be had. */
  lemma AcknowledgedForever(sha: Hash, semver: string -> bool, run: seq<System>, events: seq<Event>,
                            i: nat, j: nat, k: (string, string))
    requires LawfulHash(sha) && IsRun(sha, semver, run, events) && i <= j < |run| && k in run[i].acked
    ensures k in run[j].acked && run[j].acked[k] == run[i].acked[k]
    ensures Honoured(sha, run[j].store, k, run[i].acked[k])
  {
    ReceiptsPersist(sha, semver, run, events, i, j, k);
    EveryRunSafe(sha, semver, run, events, j);
    SafeHonours(sha, run[j], k);
  }

  /** Events between the lookup and the fetch of one download in one process. */
  ghost predicate LeavesTicket(e: Event, id: nat) {
    !e.Crash? && !(e.LookUp? && e.id == id) && !(e.Fetch? && e.id == id)
  }

  lemma StepLeavesTicket(sha: Hash, semver: string -> bool, sys: System, e: Event, id: nat)
    requires id in sys.inflight && LeavesTicket(e, id)
    ensures id in Next(sha, semver, sys, e).inflight && Next(sha, semver, sys, e).inflight[id] == sys.inflight[id]
  {
  }

  lemma {:induction false} TicketStays(sha: Hash, semver: string -> bool, run: seq<System>, events: seq<Event>,
                                       i: nat, j: nat, id: nat)
    requires IsRun(sha, semver, run, events) && i <= j < |run| && id in run[i].inflight
    requires forall m | i <= m < j :: LeavesTicket(events[m], id)
    ensures id in run[j].inflight && run[j].inflight[id] == run[i].inflight[id]
    decreases j - i
  {
    if i < j {
      TicketStays(sha, semver, run, events, i, j - 1, id);
      assert IsStep(sha, semver, run[j - 1], events[j - 1], run[j]);
      StepLeavesTicket(sha, semver, run[j - 1], events[j - 1], id);
    }
  }

  /** A lookup takes a ticket for the digest listed, or changes nothing when none is. */
  lemma TicketTaken(sys: System, id: nat, name: string, version: string)
    ensures var (key, crates) := (CanonicalName(name), sys.store.crates);
      var after := NextLookUp(sys, id, name, version);
      if IsValidName(name) && key in crates && version in crates[key].tarballs then
        after.inflight == sys.inflight[id := Ticket(key, version, crates[key].tarballs[version])]
      else after == sys
  {
  }

  /** A download of an acknowledged version returns bytes whose SHA-256 is its checksum, however
      its lookup and fetch interleave with publishes, rollbacks and other requests. */
  lemma DownloadsAreGenuine(sha: Hash, semver: string -> bool, run: seq<System>, events: seq<Event>,
                            i: nat, j: nat, k: (string, string), id: nat, name: string)
    requires LawfulHash(sha) && IsRun(sha, semver, run, events) && i < j < |run| && k in run[i].acked
    requires events[i] == LookUp(id, name, k.1) && IsValidName(name) && CanonicalName(name) == k.0
    requires forall m | i < m < j :: LeavesTicket(events[m], id)
    ensures Fetched(run[j], id).Some? && sha(Fetched(run[j], id).value) == run[i].acked[k].entry.cksum
  {
    AcknowledgedForever(sha, semver, run, events, i, i, k);
    TicketTaken(run[i], id, name, k.1);
    assert IsStep(sha, semver, run[i], events[i], run[i + 1]);
    TicketStays(sha, semver, run, events, i + 1, j, id);
    AcknowledgedForever(sha, semver, run, events, i, j, k);
  }

  // ---------------------------------------------------------------- failed requests

  ghost predicate SaveFails(e: Event) {
    (e.PublishCall? && !e.fate.outcome.Saved?) || ((e.YankCall? || e.OwnersCall?) && !e.outcome.Saved?)
  }

  lemma FailureKeepsIndex(sha: Hash, semver: string -> bool, sys: System, e: Event)
    requires WellFormed(sys.store.crates) && SaveFails(e)
    ensures Next(sha, semver, sys, e).store.crates == sys.store.crates
  {
    match e
    case PublishCall(req, fate) => FailedPublishKeepsIndex(sha, semver, sys, req, fate);
    case YankCall(name, version, yanked, outcome) => FailedYankKeepsIndex(sys, name, version, yanked, outcome);
    case OwnersCall(name, logins, remove, outcome) => FailedOwnersKeepsIndex(sys, name, logins, remove, outcome);
  }

  lemma FailedPublishKeepsIndex(sha: Hash, semver: string -> bool, sys: System, req: Request, fate: Fate)
    requires WellFormed(sys.store.crates) && !fate.outcome.Saved?
    ensures NextPublish(sha, semver, sys, req, fate).store.crates == sys.store.crates
  {
    if Refused(sha, semver, sys.store, req, fate).None? { PublishFails(sha, sys.store, req, fate); }
  }

  lemma FailedYankKeepsIndex(sys: System, name: string, version: string, yanked: bool, outcome: SaveOutcome)
    requires !outcome.Saved?
    ensures NextYank(sys, name, version, yanked, outcome).store.crates == sys.store.crates
  {
  }

  lemma FailedOwnersKeepsIndex(sys: System, name: string, logins: seq<string>, remove: bool, outcome: SaveOutcome)
    requires !outcome.Saved?
    ensures NextOwners(sys, name, logins, remove, outcome).store.crates == sys.store.crates
  {
  }

  /** In every run, a request whose save fails leaves the index exactly as it was. */
  lemma FailureChangesNothing(sha: Hash, semver: string -> bool, run: seq<System>, events: seq<Event>, i: nat)
    requires LawfulHash(sha) && IsRun(sha, semver, run, events) && i < |events| && SaveFails(events[i])
    ensures run[i + 1].store.crates == run[i].store.crates
  {
    EveryRunSafe(sha, semver, run, events, i);
    assert IsStep(sha, semver, run[i], events[i], run[i + 1]);
    FailureKeepsIndex(sha, semver, run[i], events[i]);
  }

  /** A publish whose file was already replaced when its save failed, then a crash: boot brings
      the version back unacknowledged, and its blob is gone exactly if it was deleted, that is,
      if no other version used it and the delete succeeded. */
  lemma PhantomVersion(sha: Hash, s: Store, req: Request, deletes: bool)
    requires LawfulHash(sha) && WellFormed(s.crates) && req.details.Some? && Collides(s.crates, req).None?
    ensures var failed := Publish(sha, s, req, Fate(true, FailedLate, deletes));
            && failed.crates == s.crates
            && Boot(failed.disk) == Published(s.crates, CanonicalName(req.name), EntryOf(sha, req), sha(req.tarball))
            && (sha(req.tarball) in failed.blobs <==> Referenced(s.crates, sha(req.tarball)) || !deletes)
  {
    PublishFails(sha, s, req, Fate(true, FailedLate, deletes));
    PublishedBoots(sha, s, req);
    LeftoverHolds(s.crates, s.blobs, sha(req.tarball), req.tarball, deletes);
  }

  lemma LeftoverHolds(crates: Index, blobs: Blobs, digest: Digest, tarball: Bytes, deletes: bool)
    ensures digest in Leftover(crates, blobs, digest, tarball, deletes) <==> Referenced(crates, digest) || !deletes
  {
  }

  lemma PublishedBoots(sha: Hash, s: Store, req: Request)
    requires LawfulHash(sha) && WellFormed(s.crates) && req.details.Some? && Collides(s.crates, req).None?
    ensures var crates := Published(s.crates, CanonicalName(req.name), EntryOf(sha, req), sha(req.tarball));
            Boot(Mirrored(s.disk, crates, Saved)) == crates &&
            Boot(Mirrored(s.disk, crates, FailedLate)) == crates
  {
    PublishedWellFormed(sha, s.crates, req);
    var crates := Published(s.crates, CanonicalName(req.name), EntryOf(sha, req), sha(req.tarball));
    BootMirrored(s.disk, crates, Saved);
    BootMirrored(s.disk, crates, FailedLate);
  }

  // ---------------------------------------------------------------- no blob too many

  /** The store holds exactly the blobs in use. */
  ghost predicate Tidy(s: Store) { forall d :: d in s.blobs <==> Referenced(s.crates, d) }

  /** Without crashes, and with every deletion succeeding. */
  ghost predicate Smooth(events: seq<Event>) {
    forall i | 0 <= i < |events| :: !events[i].Crash? && (events[i].PublishCall? ==> events[i].fate.deletes)
  }

  lemma ReferencedPublished(crates: Index, key: string, entry: Entry, digest: Digest, d: Digest)
    requires WellFormed(crates) && !HasVersion(RecordOf(crates, key).entries, entry.vers)
    ensures Referenced(Published(crates, key, entry, digest), d) <==> Referenced(crates, d) || d == digest
  {
    var after := Published(crates, key, entry, digest);
    assert key in crates ==> WellFormedRecord(key, crates[key]);
    assert entry.vers !in RecordOf(crates, key).tarballs;
    if Referenced(crates, d) {
      var k :| k in crates && d in crates[k].tarballs.Values;
      var v :| v in crates[k].tarballs && crates[k].tarballs[v] == d;
      assert v in after[k].tarballs && after[k].tarballs[v] == d;
      assert d in after[k].tarballs.Values;
    }
    assert after[key].tarballs[entry.vers] == digest;
    assert digest in after[key].tarballs.Values;
  }

  lemma ReferencedReplaced(crates: Index, key: string, r: Record, d: Digest)
    requires key in crates && crates[key].tarballs == r.tarballs
    ensures Referenced(crates[key := r], d) <==> Referenced(crates, d)
  {
    if Referenced(crates, d) {
      var k :| k in crates && d in crates[k].tarballs.Values;
      assert d in crates[key := r][k].tarballs.Values;
    }
  }

  lemma PublishSavedTidy(crates: Index, key: string, entry: Entry, digest: Digest,
                         blobs: Blobs, tarball: Bytes, disk: Option<Snapshot>)
    requires WellFormed(crates) && !HasVersion(RecordOf(crates, key).entries, entry.vers)
    requires Tidy(Store(crates, blobs, None))
    ensures Tidy(Store(Published(crates, key, entry, digest), blobs[digest := tarball], disk))
  {
    forall d ensures Referenced(Published(crates, key, entry, digest), d) <==> Referenced(crates, d) || d == digest {
      ReferencedPublished(crates, key, entry, digest, d);
    }
  }

  lemma PublishTidy(sha: Hash, semver: string -> bool, sys: System, req: Request, fate: Fate)
    requires WellFormed(sys.store.crates) && Tidy(sys.store) && fate.deletes
    requires Refused(sha, semver, sys.store, req, fate).None?
    ensures Tidy(NextPublish(sha, semver, sys, req, fate).store)
  {
    var crates, key, entry, digest := sys.store.crates, CanonicalName(req.name), EntryOf(sha, req), sha(req.tarball);
    if fate.outcome.Saved? {
      var disk := Some(SnapshotOf(Published(crates, key, entry, digest)));
      PublishSavedTidy(crates, key, entry, digest, sys.store.blobs, req.tarball, disk);
    } else {
      PublishFails(sha, sys.store, req, fate);
      LeftoverTidy(crates, sys.store.blobs, digest, req.tarball);
    }
  }

  lemma LeftoverTidy(crates: Index, blobs: Blobs, digest: Digest, tarball: Bytes)
    requires forall d :: d in blobs <==> Referenced(crates, d)
    ensures forall d :: d in Leftover(crates, blobs, digest, tarball, true) <==> Referenced(crates, d)
  {
  }

  lemma StepTidy(sha: Hash, semver: string -> bool, sys: System, e: Event)
    requires WellFormed(sys.store.crates) && Tidy(sys.store)
    requires !e.Crash? && (e.PublishCall? ==> e.fate.deletes)
    ensures Tidy(Next(sha, semver, sys, e).store)
  {
    if e.PublishCall? {
      if Refused(sha, semver, sys.store, e.req, e.fate).None? { PublishTidy(sha, semver, sys, e.req, e.fate); }
    } else if e.YankCall? || e.OwnersCall? {
      ReplacedTidy(sha, semver, sys, e);
    }
  }

  /** In every smooth run the blob store holds exactly the tarballs of indexed versions. */
  lemma {:induction false} SmoothRunTidy(sha: Hash, semver: string -> bool, run: seq<System>, events: seq<Event>,
                                         i: nat)
    requires LawfulHash(sha) && IsRun(sha, semver, run, events) && i < |run| && Smooth(events)
    ensures Tidy(run[i].store)
  {
    if i > 0 {
      SmoothRunTidy(sha, semver, run, events, i - 1);
      EveryRunSafe(sha, semver, run, events, i - 1);
      assert IsStep(sha, semver, run[i - 1], events[i - 1], run[i]);
      StepTidy(sha, semver, run[i - 1], events[i - 1]);
    }
  }

  lemma ReplacedTidy(sha: Hash, semver: string -> bool, sys: System, e: Event)
    requires Tidy(sys.store) && (e.YankCall? || e.OwnersCall?)
    ensures Tidy(Next(sha, semver, sys, e).store)
  {
    var key, crates := CanonicalName(e.name), sys.store.crates;
    if key in crates {
      var after := Next(sha, semver, sys, e).store.crates;
      var r := after[key];
      assert after == crates || after == crates[key := r];
      forall d ensures Referenced(crates[key := r], d) <==> Referenced(crates, d) {
        ReferencedReplaced(crates, key, r, d);
      }
    }
  }
}
