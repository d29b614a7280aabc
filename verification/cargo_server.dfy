/** The registry's shared state and the requests that change it: the index, the blob store its
    tarballs live in, and the snapshot file, in one critical section per request. */
module CargoServer {
  import opened Prelude
  import opened Durability
  import opened CargoIndex
  import opened CargoSnapshot

  type Blobs = map<Digest, Bytes>

  datatype Store = Store(crates: Index, blobs: Blobs, disk: Option<Snapshot>)

  // ---------------------------------------------------------------- requests, as functions of the state

  /** A snapshot of `crates` written with this outcome. */
  function Mirrored(disk: Option<Snapshot>, crates: Index, outcome: SaveOutcome): Option<Snapshot> {
    if outcome.FailedEarly? then disk else Some(SnapshotOf(crates))
  }

  /** What the world does to a publish: whether the blob is stored, how the snapshot write ends,
      and whether an orphaned blob can be deleted. */
  datatype Fate = Fate(stores: bool, outcome: SaveOutcome, deletes: bool)

  function Publish(sha: Hash, s: Store, req: Request, fate: Fate): Store
    requires req.details.Some?
  {
    var (key, entry, digest) := (CanonicalName(req.name), EntryOf(sha, req), sha(req.tarball));
    var crates := Published(s.crates, key, entry, digest);
    var blobs := s.blobs[digest := req.tarball];
    var disk := Mirrored(s.disk, crates, fate.outcome);
    if fate.outcome.Saved? then Store(crates, blobs, disk)
    else
      var back := RolledBack(crates, key, entry.vers, digest);
      Store(back, if !Referenced(back, digest) && fate.deletes then blobs - {digest} else blobs, disk)
  }

  /** Why a publish is refused without effect, if it is. */
  function Refused(sha: Hash, semver: string -> bool, s: Store, req: Request, fate: Fate): Option<Refusal> {
    var malformed := Malformed(sha, semver, req);
    if malformed.Some? then malformed
    else
      var collides := Collides(s.crates, req);
      if collides.Some? then collides
      else if !fate.stores then Some(BlobStoreFailed)
      else None
  }

  /** Replaces a record that is there. */
  function Replaced(s: Store, key: string, r: Record, outcome: SaveOutcome): Store
    requires key in s.crates
  {
    var crates := s.crates[key := r];
    Store(if outcome.Saved? then crates else s.crates, s.blobs, Mirrored(s.disk, crates, outcome))
  }

  // ---------------------------------------------------------------- the state object

  class CargoState {
    const sha: Hash
    const semver: string -> bool
    const persistent: bool
    var crates: Index
    var blobs: Blobs
    var disk: Option<Snapshot>

    function Contents(): Store
      reads this
    {
      Store(crates, blobs, disk)
    }

    constructor (sha: Hash, semver: string -> bool, persistent: bool, blobs: Blobs, file: Option<Snapshot>)
      ensures this.sha == sha && this.semver == semver && this.persistent == persistent
      ensures this.blobs == blobs && disk == file
      ensures crates == if persistent && file.Some? then Loaded(file.value) else map[]
    {
      this.sha, this.semver, this.persistent := sha, semver, persistent;
      var index: Index := map[];
      if persistent && file.Some? {
        index := Load(file.value);
      }
      crates, this.blobs, disk := index, blobs, file;
    }

    /** Without a data directory every save succeeds, and writes nothing. */
    function Outcome(outcome: SaveOutcome): SaveOutcome { if persistent then outcome else Saved }

    ghost function OnDisk(s: Store, was: Option<Snapshot>): Store { if persistent then s else s.(disk := was) }

    method PersistLocked(outcome: SaveOutcome) returns (ok: bool)
      modifies this`disk
      ensures ok <==> !persistent || outcome.Saved?
      ensures disk == if persistent then Mirrored(old(disk), crates, outcome) else old(disk)
    {
      if !persistent {
        return true;
      }
      if !outcome.FailedEarly? {
        disk := Some(SnapshotOf(crates));
      }
      ok := outcome.Saved?;
    }

    /** A publish: refused without effect, or stored, indexed and mirrored; when the mirror
        fails, taken out of the index again, its blob deleted unless another version needs it. */
    method HandlePublish(req: Request, fate: Fate) returns (refusal: Option<Refusal>)
      modifies this
      ensures refusal.None? <==>
        Refused(sha, semver, old(Contents()), req, fate).None? && (!persistent || fate.outcome.Saved?)
      ensures !persistent ==> disk == old(disk)
      ensures var refused := Refused(sha, semver, old(Contents()), req, fate);
              && (refused.Some? ==> refusal == refused && Contents() == old(Contents()))
              && (refused.None? ==>
                    && refusal == (if Outcome(fate.outcome).Saved? then None else Some(Persistence))
                    && var after := Publish(sha, old(Contents()), req, fate.(outcome := Outcome(fate.outcome)));
                       Contents() == OnDisk(after, old(disk)))
    {
      refusal := Malformed(sha, semver, req);
      if refusal.Some? {
        return;
      }
      refusal := Collides(crates, req);
      if refusal.Some? {
        return;
      }
      if !fate.stores {
        return Some(BlobStoreFailed);
      }
      var key, entry, digest := CanonicalName(req.name), EntryOf(sha, req), sha(req.tarball);
      blobs := blobs[digest := req.tarball];
      var record := RecordOf(crates, key);
      crates := crates[key := Record(record.entries + [entry], record.tarballs[entry.vers := digest], record.owners)];
      var ok := PersistLocked(fate.outcome);
      if ok {
        return None;
      }
      RollbackPublish(key, entry.vers, digest);
      var referenced := DigestReferencedIn(crates, digest);
      if !referenced && fate.deletes {
        blobs := blobs - {digest};
      }
      refusal := Some(Persistence);
    }

    method RollbackPublish(key: string, vers: string, digest: Digest)
      modifies this`crates
      ensures crates == RolledBack(old(crates), key, vers, digest)
    {
      if key !in crates {
        return;
      }
      var record := crates[key];
      var tarballs := record.tarballs;
      if vers in tarballs && tarballs[vers] == digest {
        tarballs := tarballs - {vers};
      }
      var entries := RetainOthers(record.entries, vers);
      assert |tarballs| == 0 <==> tarballs == map[];
      if |entries| == 0 && |tarballs| == 0 && |record.owners| == 0 {
        crates := crates - {key};
      } else {
        crates := crates[key := Record(entries, tarballs, record.owners)];
      }
    }

    /** Yank and unyank: the flag of the first entry of the version, put back if the mirror fails. */
    method SetYanked(name: string, version: string, yanked: bool, outcome: SaveOutcome)
        returns (refusal: Option<Refusal>)
      modifies this`crates, this`disk
      ensures refusal.None? ==> !persistent || outcome.Saved?
      ensures refusal == Some(Persistence) ==> persistent && !outcome.Saved?
      ensures !persistent ==> disk == old(disk)
      ensures var key := CanonicalName(name);
              var i := if key in old(crates) then Find(old(crates)[key].entries, version) else None;
              if !IsValidName(name) then refusal == Some(InvalidName) && Contents() == old(Contents())
              else if i.None? then refusal == Some(NotFound) && Contents() == old(Contents())
              else
                var r := old(crates)[key];
                && refusal == (if Outcome(outcome).Saved? then None else Some(Persistence))
                && var flagged := r.(entries := Flag(r.entries, i.value, yanked));
                   Contents() == OnDisk(Replaced(old(Contents()), key, flagged, Outcome(outcome)), old(disk))
    {
      if !IsValidName(name) {
        return Some(InvalidName);
      }
      var key := CanonicalName(name);
      if key !in crates {
        return Some(NotFound);
      }
      var i := Find(crates[key].entries, version);
      if i.None? {
        return Some(NotFound);
      }
      var previous := crates[key].entries[i.value].yanked;
      ghost var was := crates[key].entries;
      crates := crates[key := crates[key].(entries := Flag(crates[key].entries, i.value, yanked))];
      var ok := PersistLocked(outcome);
      if ok {
        return None;
      }
      FindAfterFlag(was, version, i.value, yanked);
      i := Find(crates[key].entries, version);
      crates := crates[key := crates[key].(entries := Flag(crates[key].entries, i.value, previous))];
      assert crates[key].entries == was;
      assert crates == old(crates);
      refusal := Some(Persistence);
    }

    /** Owners added or removed, the whole list put back if the mirror fails. */
    method MutateOwners(name: string, logins: seq<string>, remove: bool, outcome: SaveOutcome)
        returns (refusal: Option<Refusal>)
      modifies this`crates, this`disk
      ensures refusal.None? <==>
        IsValidName(name) && CanonicalName(name) in old(crates) && (!persistent || outcome.Saved?)
      ensures !persistent ==> disk == old(disk)
      ensures var key := CanonicalName(name);
              if !IsValidName(name) then refusal == Some(InvalidName) && Contents() == old(Contents())
              else if key !in old(crates) then refusal == Some(NotFound) && Contents() == old(Contents())
              else
                var r := old(crates)[key];
                && refusal == (if Outcome(outcome).Saved? then None else Some(Persistence))
                && var owned := r.(owners := ChangedOwners(r.owners, logins, remove));
                   Contents() == OnDisk(Replaced(old(Contents()), key, owned, Outcome(outcome)), old(disk))
    {
      if !IsValidName(name) {
        return Some(InvalidName);
      }
      var key := CanonicalName(name);
      if key !in crates {
        return Some(NotFound);
      }
      var previous := crates[key].owners;
      var owners;
      if remove {
        owners := RetainOwners(previous, logins);
      } else {
        owners := AppendOwners(previous, logins);
      }
      crates := crates[key := crates[key].(owners := owners)];
      var ok := PersistLocked(outcome);
      if ok {
        return None;
      }
      crates := crates[key := crates[key].(owners := previous)];
      assert crates == old(crates);
      refusal := Some(Persistence);
    }
  }

  // ---------------------------------------------------------------- loops over vectors and maps

  method RetainOthers(all: seq<Entry>, vers: string) returns (entries: seq<Entry>)
    ensures entries == Retain(all, vers)
  {
    entries := [];
    for i := 0 to |all|
      invariant entries == Retain(all[..i], vers)
    {
      assert all[..i + 1][..i] == all[..i];
      if all[i].vers != vers {
        entries := entries + [all[i]];
      }
    }
    assert all[..|all|] == all;
  }

  method DigestReferencedIn(crates: Index, digest: Digest) returns (found: bool)
    ensures found <==> Referenced(crates, digest)
  {
    var keys := crates.Keys;
    while keys != {}
      invariant keys <= crates.Keys
      invariant forall key :: key in crates && key !in keys ==> digest !in crates[key].tarballs.Values
      decreases |keys|
    {
      var key :| key in keys;
      keys := keys - {key};
      if digest in crates[key].tarballs.Values {
        return true;
      }
    }
    found := false;
  }

  method RetainOwners(all: seq<Owner>, logins: seq<string>) returns (owners: seq<Owner>)
    ensures owners == RemoveLogins(all, logins)
  {
    owners := [];
    for i := 0 to |all|
      invariant owners == RemoveLogins(all[..i], logins)
    {
      assert all[..i + 1][..i] == all[..i];
      if all[i].login !in logins {
        owners := owners + [all[i]];
      }
    }
    assert all[..|all|] == all;
  }

  method AppendOwners(all: seq<Owner>, logins: seq<string>) returns (owners: seq<Owner>)
    ensures owners == AddLogins(all, logins, NextId(all))
  {
    owners := all;
    var nextId := NextId(all);
    for i := 0 to |logins|
      invariant AddLogins(owners, logins[i..], nextId) == AddLogins(all, logins, NextId(all))
    {
      assert logins[i..][1..] == logins[i + 1..];
      if !HasLogin(owners, logins[i]) {
        owners := owners + [Owner(nextId, logins[i], None)];
        nextId := nextId + 1;
      }
    }
  }
}
