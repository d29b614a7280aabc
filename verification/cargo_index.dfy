/** The crate index of the Cargo registry as a value: records, the changes requests make to them,
    and the snapshot they are mirrored to. */
module CargoIndex {
  import opened Prelude
  import opened Wire

  type Bytes = seq<byte>

  /** A blob digest: lower-case hexadecimal SHA-256. */
  type Digest = string

  /** SHA-256 as hexadecimal, unseen here: any function to strings. */
  type Hash = Bytes -> Digest

  // ---------------------------------------------------------------- names

  const MAX_NAME_LEN: nat := 64

  predicate IsUpper(c: char) { 'A' <= c <= 'Z' }
  predicate IsLetter(c: char) { 'a' <= c <= 'z' || IsUpper(c) }
  predicate IsDigit(c: char) { '0' <= c <= '9' }

  predicate IsValidName(name: string) {
    && 0 < |name| <= MAX_NAME_LEN
    && IsLetter(name[0])
    && forall i | 1 <= i < |name| :: IsLetter(name[i]) || IsDigit(name[i]) || name[i] == '-' || name[i] == '_'
  }

  /** What the rules mean at their edges. */
  lemma NameRules(name: string)
    ensures IsValidName("a") && IsValidName("Z-9_b") && !IsValidName("")
    ensures name != "" && name[0] in "-_0123456789 " ==> !IsValidName(name)
    ensures (exists i :: 0 <= i < |name| && name[i] in " ./:") ==> !IsValidName(name)
    ensures |name| > 64 ==> !IsValidName(name)
    ensures 0 < |name| <= 64 && (forall i | 0 <= i < |name| :: name[i] == 'a') ==> IsValidName(name)
  {
  }

  function Fold(c: char): char {
    if IsUpper(c) then (c as int - 'A' as int + 'a' as int) as char else if c == '-' then '_' else c
  }

  /** The key a crate is stored under: lower case, with `-` as `_`. */
  function CanonicalName(name: string): string {
    seq(|name|, i requires 0 <= i < |name| => Fold(name[i]))
  }

  /** Letters that no two crate names may be told apart by. */
  ghost predicate Alike(a: char, b: char) {
    || a == b
    || (IsLetter(a) && IsLetter(b) && (a as int - b as int == 32 || b as int - a as int == 32))
    || (a in "-_" && b in "-_")
  }

  /** Two names share a key exactly when they agree up to case and up to `-` for `_`; the key is the
      one of these spellings in lower case and with `_`. */
  lemma SharedKey(a: string, b: string)
    ensures CanonicalName(a) == CanonicalName(b) <==> |a| == |b| && forall i | 0 <= i < |a| :: Alike(a[i], b[i])
    ensures forall i | 0 <= i < |a| :: !IsUpper(CanonicalName(a)[i]) && CanonicalName(a)[i] != '-'
    ensures CanonicalName(CanonicalName(a)) == CanonicalName(a)
  {
    if |a| == |b| {
      forall i | 0 <= i < |a| ensures CanonicalName(a)[i] == CanonicalName(b)[i] <==> Alike(a[i], b[i]) {
        AlikeFolds(a[i], b[i]);
      }
    }
  }

  lemma AlikeFolds(a: char, b: char)
    ensures Fold(a) == Fold(b) <==> Alike(a, b)
  {
  }

  // ---------------------------------------------------------------- records

  /** One line of the index; `details` are the fields no request here looks at. */
  datatype Entry = Entry(name: string, vers: string, cksum: string, yanked: bool, details: string)

  datatype Owner = Owner(id: nat, login: string, fullName: Option<string>)

  datatype Record = Record(entries: seq<Entry>, tarballs: map<string, Digest>, owners: seq<Owner>)

  type Index = map<string, Record>

  const NEW_RECORD := Record([], map[], [])

  function RecordOf(crates: Index, key: string): Record { if key in crates then crates[key] else NEW_RECORD }

  predicate HasVersion(entries: seq<Entry>, vers: string) {
    exists i :: 0 <= i < |entries| && entries[i].vers == vers
  }

  // ---------------------------------------------------------------- publish

  datatype Request = Request(name: string, vers: string, declaredCksum: string, details: Option<string>, tarball: Bytes)

  datatype Refusal =
    | InvalidName | InvalidVersion | ChecksumMismatch | InvalidPublish
    | NameConflict(existing: string) | DuplicateVersion | BlobStoreFailed | NotFound | Persistence

  /** What is refused before the index is looked at. */
  function Malformed(sha: Hash, semver: string -> bool, req: Request): Option<Refusal> {
    if !IsValidName(req.name) then Some(InvalidName)
    else if !semver(req.vers) then Some(InvalidVersion)
    else if req.declaredCksum != "" && req.declaredCksum != sha(req.tarball) then Some(ChecksumMismatch)
    else if req.details.None? then Some(InvalidPublish)
    else None
  }

  /** What the index refuses: a different spelling of a taken name, a version already there. */
  function Collides(crates: Index, req: Request): Option<Refusal> {
    var key := CanonicalName(req.name);
    if key !in crates then None
    else
      var entries := crates[key].entries;
      if entries != [] && entries[0].name != req.name then Some(NameConflict(entries[0].name))
      else if HasVersion(entries, req.vers) then Some(DuplicateVersion)
      else None
  }

  function EntryOf(sha: Hash, req: Request): Entry
    requires req.details.Some?
  {
    Entry(req.name, req.vers, sha(req.tarball), false, req.details.value)
  }

  function WithVersion(r: Record, entry: Entry, digest: Digest): Record {
    Record(r.entries + [entry], r.tarballs[entry.vers := digest], r.owners)
  }

  function Published(crates: Index, key: string, entry: Entry, digest: Digest): Index {
    crates[key := WithVersion(RecordOf(crates, key), entry, digest)]
  }

  function Retain(entries: seq<Entry>, vers: string): seq<Entry> {
    if entries == [] then []
    else
      var init := Retain(entries[..|entries| - 1], vers);
      if entries[|entries| - 1].vers == vers then init else init + [entries[|entries| - 1]]
  }

  function WithoutVersion(r: Record, vers: string, digest: Digest): Record {
    Record(
      Retain(r.entries, vers),
      if vers in r.tarballs && r.tarballs[vers] == digest then r.tarballs - {vers} else r.tarballs,
      r.owners)
  }

  /** A record put in place, or no record if it holds nothing. */
  function Placed(crates: Index, key: string, r: Record): Index {
    if r == NEW_RECORD then crates - {key} else crates[key := r]
  }

  /** `rollback_publish`. */
  function RolledBack(crates: Index, key: string, vers: string, digest: Digest): Index {
    if key in crates then Placed(crates, key, WithoutVersion(crates[key], vers, digest)) else crates
  }

  lemma {:induction false} RetainAll(entries: seq<Entry>, vers: string)
    requires !HasVersion(entries, vers)
    ensures Retain(entries, vers) == entries
  {
    if entries != [] {
      var init := entries[..|entries| - 1];
      assert forall i | 0 <= i < |init| :: init[i] == entries[i];
      RetainAll(init, vers);
      assert entries[|entries| - 1].vers != vers;
      assert init + [entries[|entries| - 1]] == entries;
    }
  }

  /** Taking a version out again leaves the record without a tarball for it. */
  lemma VersionTakenOut(r: Record, entry: Entry, digest: Digest)
    requires !HasVersion(r.entries, entry.vers)
    ensures WithoutVersion(WithVersion(r, entry, digest), entry.vers, digest)
         == Record(r.entries, r.tarballs - {entry.vers}, r.owners)
  {
    assert (r.entries + [entry])[..|r.entries|] == r.entries;
    RetainAll(r.entries, entry.vers);
    assert r.tarballs[entry.vers := digest] - {entry.vers} == r.tarballs - {entry.vers};
  }

  lemma PlacedAgain(crates: Index, key: string, r: Record, left: Record)
    ensures Placed(crates[key := r], key, left) == Placed(crates, key, left)
    ensures Placed(crates, key, left) == crates <==>
            (if key in crates then left == crates[key] && left != NEW_RECORD else left == NEW_RECORD)
  {
    assert crates[key := r] - {key} == crates - {key};
    assert crates[key := r][key := left] == crates[key := left];
    if left == NEW_RECORD { assert key !in Placed(crates, key, left); }
    else { assert Placed(crates, key, left)[key] == left; }
  }

  /** Rolling a publish back is exact if and only if the version had no tarball on record and
      the record, if there was one, held anything at all. */
  lemma RollbackExact(crates: Index, key: string, entry: Entry, digest: Digest)
    requires !HasVersion(RecordOf(crates, key).entries, entry.vers)
    ensures RolledBack(Published(crates, key, entry, digest), key, entry.vers, digest) == crates <==>
            (key in crates ==> entry.vers !in crates[key].tarballs && crates[key] != NEW_RECORD)
  {
    var r := RecordOf(crates, key);
    var left := Record(r.entries, r.tarballs - {entry.vers}, r.owners);
    VersionTakenOut(r, entry, digest);
    PlacedAgain(crates, key, WithVersion(r, entry, digest), left);
    if entry.vers in r.tarballs { assert entry.vers !in left.tarballs; }
    else { assert left.tarballs == r.tarballs; }
  }

  predicate Referenced(crates: Index, digest: Digest) {
    exists key :: key in crates && digest in crates[key].tarballs.Values
  }

  // ---------------------------------------------------------------- yank

  /** The first entry of a version. */
  function Find(entries: seq<Entry>, vers: string): (i: Option<nat>)
    ensures i.Some? ==> i.value < |entries| && entries[i.value].vers == vers && !HasVersion(entries[..i.value], vers)
    ensures i.None? ==> !HasVersion(entries, vers)
  {
    if entries == [] then None
    else if entries[0].vers == vers then Some(0)
    else match Find(entries[1..], vers) case Some(i) => Some(i + 1) case None => None
  }

  function Flag(entries: seq<Entry>, i: nat, yanked: bool): seq<Entry>
    requires i < |entries|
  {
    entries[i := entries[i].(yanked := yanked)]
  }

  lemma {:induction false} FindAfterFlag(entries: seq<Entry>, vers: string, i: nat, yanked: bool)
    requires i < |entries|
    ensures Find(Flag(entries, i, yanked), vers) == Find(entries, vers)
  {
    if i == 0 {
      assert Flag(entries, 0, yanked)[1..] == entries[1..];
    } else {
      FindAfterFlag(entries[1..], vers, i - 1, yanked);
      assert Flag(entries, i, yanked)[1..] == Flag(entries[1..], i - 1, yanked);
    }
  }

  // ---------------------------------------------------------------- owners

  predicate HasLogin(owners: seq<Owner>, login: string) {
    exists i :: 0 <= i < |owners| && owners[i].login == login
  }

  /** One more than the largest id in use. */
  function NextId(owners: seq<Owner>): (n: nat)
    ensures n > 0 && forall i | 0 <= i < |owners| :: owners[i].id < n
  {
    if owners == [] then 1
    else
      var n := NextId(owners[..|owners| - 1]);
      if owners[|owners| - 1].id < n then n else owners[|owners| - 1].id + 1
  }

  function AddLogins(owners: seq<Owner>, logins: seq<string>, nextId: nat): seq<Owner>
    decreases |logins|
  {
    if logins == [] then owners
    else if HasLogin(owners, logins[0]) then AddLogins(owners, logins[1..], nextId)
    else AddLogins(owners + [Owner(nextId, logins[0], None)], logins[1..], nextId + 1)
  }

  function RemoveLogins(owners: seq<Owner>, logins: seq<string>): seq<Owner> {
    if owners == [] then []
    else
      var init := RemoveLogins(owners[..|owners| - 1], logins);
      if owners[|owners| - 1].login in logins then init else init + [owners[|owners| - 1]]
  }

  function ChangedOwners(owners: seq<Owner>, logins: seq<string>, remove: bool): seq<Owner> {
    if remove then RemoveLogins(owners, logins) else AddLogins(owners, logins, NextId(owners))
  }

  ghost predicate DistinctOwners(owners: seq<Owner>) {
    forall i, j | 0 <= i < j < |owners| :: owners[i].login != owners[j].login && owners[i].id != owners[j].id
  }

  lemma {:induction false} AddLoginsDistinct(owners: seq<Owner>, logins: seq<string>, nextId: nat)
    requires DistinctOwners(owners) && forall i | 0 <= i < |owners| :: owners[i].id < nextId
    ensures DistinctOwners(AddLogins(owners, logins, nextId))
    ensures owners <= AddLogins(owners, logins, nextId)
    ensures forall login ::
              HasLogin(AddLogins(owners, logins, nextId), login) <==> HasLogin(owners, login) || login in logins
    decreases |logins|
  {
    if logins != [] {
      if HasLogin(owners, logins[0]) {
        AddLoginsDistinct(owners, logins[1..], nextId);
      } else {
        var more := owners + [Owner(nextId, logins[0], None)];
        AddLoginsDistinct(more, logins[1..], nextId + 1);
        forall login ensures HasLogin(more, login) <==> HasLogin(owners, login) || login == logins[0] {
          assert more[|owners|].login == logins[0];
          if HasLogin(owners, login) {
            var i :| 0 <= i < |owners| && owners[i].login == login;
            assert more[i].login == login;
          }
        }
      }
    }
  }

  lemma {:induction false} RemoveLoginsDistinct(owners: seq<Owner>, logins: seq<string>)
    requires DistinctOwners(owners)
    ensures DistinctOwners(RemoveLogins(owners, logins))
    ensures forall o :: o in RemoveLogins(owners, logins) <==> o in owners && o.login !in logins
    decreases |owners|
  {
    if owners != [] {
      var init, last := owners[..|owners| - 1], owners[|owners| - 1];
      RemoveLoginsDistinct(init, logins);
      assert owners == init + [last];
      var kept := RemoveLogins(init, logins);
      forall i | 0 <= i < |kept| ensures kept[i].login != last.login && kept[i].id != last.id {
        assert kept[i] in kept && kept[i] in init;
      }
    }
  }

  /** `now` is `was` followed by new owners: exactly the logins asked for are there, each new owner
      without a full name and with an id above all earlier ones. */
  ghost predicate AddsOwners(was: seq<Owner>, logins: seq<string>, now: seq<Owner>) {
    && was <= now
    && (forall login :: HasLogin(now, login) <==> HasLogin(was, login) || login in logins)
    && (forall i | |was| <= i < |now| :: now[i].fullName.None? && forall j | 0 <= j < i :: now[j].id < now[i].id)
  }

  lemma {:induction false} AddLoginsFresh(owners: seq<Owner>, logins: seq<string>, nextId: nat)
    requires forall i | 0 <= i < |owners| :: owners[i].id < nextId
    ensures owners <= AddLogins(owners, logins, nextId)
    ensures var now := AddLogins(owners, logins, nextId);
      forall i | |owners| <= i < |now| :: now[i].fullName.None? && forall j | 0 <= j < i :: now[j].id < now[i].id
    decreases |logins|
  {
    if logins != [] {
      if HasLogin(owners, logins[0]) {
        AddLoginsFresh(owners, logins[1..], nextId);
      } else {
        var more := owners + [Owner(nextId, logins[0], None)];
        AddLoginsFresh(more, logins[1..], nextId + 1);
        assert AddLogins(owners, logins, nextId)[|owners|] == more[|owners|];
      }
    }
  }

  lemma {:induction false} RemoveLoginsPicks(owners: seq<Owner>, logins: seq<string>) returns (at: seq<nat>)
    ensures Picks(owners, RemoveLogins(owners, logins), at, (o: Owner) => o.login !in logins)
    decreases |owners|
  {
    if owners == [] {
      at := [];
    } else {
      var init, last := owners[..|owners| - 1], owners[|owners| - 1];
      var others := (o: Owner) => o.login !in logins;
      at := RemoveLoginsPicks(init, logins);
      assert owners == init + [last];
      if others(last) {
        PicksToo(init, RemoveLogins(init, logins), at, others, last);
        at := at + [|init|];
      } else {
        PicksNot(init, RemoveLogins(init, logins), at, others, last);
      }
    }
  }

  lemma OwnersChanged(owners: seq<Owner>, logins: seq<string>, remove: bool) returns (at: seq<nat>)
    requires DistinctOwners(owners)
    ensures remove ==> Picks(owners, ChangedOwners(owners, logins, remove), at, (o: Owner) => o.login !in logins)
    ensures !remove ==> AddsOwners(owners, logins, ChangedOwners(owners, logins, remove))
  {
    if remove {
      at := RemoveLoginsPicks(owners, logins);
    } else {
      at := [];
      AddLoginsDistinct(owners, logins, NextId(owners));
      AddLoginsFresh(owners, logins, NextId(owners));
    }
  }
}
