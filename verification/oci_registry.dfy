/** The in-memory registry: three maps changed in place under one lock, a snapshot written on
    every change, and the change taken back by hand when the snapshot cannot be written. */
module OciRegistry {
  import opened Prelude
  import opened OciState
  import opened OciSnapshot
  import opened Durability

  datatype DeleteResult = Deleted | NothingDeleted | DeleteFailed

  function DiskAfter(disk: Option<Snapshot>, outcome: SaveOutcome, s: State): Option<Snapshot> {
    if outcome.FailedEarly? then disk else Some(SnapshotOf(s))
  }

  class RegistryMeta {
    const persistent: bool
    var manifests: map<Name, map<Digest, Manifest>>
    var tags: map<Name, map<Tag, Digest>>
    var referrers: map<Name, Referrers>
    var disk: Option<Snapshot>

    function Contents(): State
      reads this
    {
      State(manifests, tags, referrers)
    }

    constructor (sha: Hash, persistent: bool, file: Option<Snapshot>)
      ensures this.persistent == persistent && disk == file
      ensures Contents() == if persistent && file.Some? then Loaded(sha, file.value) else EMPTY
    {
      this.persistent := persistent;
      var s := EMPTY;
      if persistent && file.Some? {
        s := LoadSnapshot(sha, file.value);
      }
      manifests, tags, referrers, disk := s.manifests, s.tags, s.referrers, file;
    }

    method PersistLocked(outcome: SaveOutcome) returns (ok: bool)
      modifies this`disk
      ensures ok <==> !persistent || outcome.Saved?
      ensures disk == if persistent then DiskAfter(old(disk), outcome, Contents()) else old(disk)
    {
      if !persistent {
        return true;
      }
      if !outcome.FailedEarly? {
        disk := Some(SnapshotOf(Contents()));
      }
      ok := outcome.Saved?;
    }

    /** A manifest, its tag and its referrer, stored as one transaction or not at all. */
    method PutManifestWithReferrer(name: Name, reference: Reference, digest: Digest, manifest: Manifest,
                                   referrer: Option<(Digest, Descriptor)>, outcome: SaveOutcome) returns (ok: bool)
      modifies this
      ensures Committed(old(Contents()), old(disk), Put(name, reference, digest, manifest, referrer), outcome, ok)
      ensures ok <==> !persistent || outcome.Saved?
    {
      var previousManifest := Lookup(Get(manifests, name), digest);
      manifests := manifests[name := Get(manifests, name)[digest := manifest]];
      var previousTag: Option<Digest> := None;
      if reference.ByTag? {
        previousTag := Lookup(Get(tags, name), reference.tag);
        tags := tags[name := Get(tags, name)[reference.tag := digest]];
      }
      if referrer.Some? {
        PushReferrer(name, referrer.value.0, referrer.value.1);
      }
      ok := PersistLocked(outcome);
      if !ok {
        TakeBackPut(old(Contents()), name, reference, digest, manifest, referrer, previousManifest, previousTag);
      }
    }

    /** The effect of a mutation that started from `s` and `file`, on memory and on disk. */
    ghost predicate Committed(s: State, file: Option<Snapshot>, m: Mutation, outcome: SaveOutcome, ok: bool)
      reads this
    {
      && (ok <==> !persistent || outcome.Saved?)
      && Contents() == (if ok then Apply(m, s) else Undone(m, s))
      && disk == (if persistent then DiskAfter(file, outcome, Apply(m, s)) else file)
    }

    method TakeBackPut(ghost s: State, name: Name, reference: Reference, digest: Digest, ghost manifest: Manifest,
                       referrer: Option<(Digest, Descriptor)>,
                       previousManifest: Option<Manifest>, previousTag: Option<Digest>)
      requires Contents() == Apply(Put(name, reference, digest, manifest, referrer), s)
      requires previousManifest == Lookup(Get(s.manifests, name), digest)
      requires reference.ByTag? ==> previousTag == Lookup(Get(s.tags, name), reference.tag)
      modifies this`manifests, this`tags, this`referrers
      ensures Contents() == Undone(Put(name, reference, digest, manifest, referrer), s)
    {
      TakeBackManifest(s.manifests, name, digest, manifest, previousManifest);
      if reference.ByTag? {
        TakeBackTag(s.tags, name, reference.tag, digest, previousTag);
      }
      if referrer.Some? {
        TakeBackReferrer(s.referrers, name, referrer.value.0, referrer.value.1);
      }
      PruneEmptyRepoInPlace(name);
    }

    method TakeBackManifest(ghost before: map<Name, map<Digest, Manifest>>, name: Name, digest: Digest,
                            ghost manifest: Manifest, previous: Option<Manifest>)
      requires manifests == before[name := Get(before, name)[digest := manifest]]
      requires previous == Lookup(Get(before, name), digest)
      modifies this`manifests
      ensures DropIfEmpty(manifests, name) == DropIfEmpty(before, name)
    {
      InsertTakenBack(before, name, digest, manifest);
      manifests := manifests[name := RestoreEntry(manifests[name], digest, previous)];
    }

    method TakeBackTag(ghost before: map<Name, map<Tag, Digest>>, name: Name, tag: Tag,
                       ghost digest: Digest, previous: Option<Digest>)
      requires tags == before[name := Get(before, name)[tag := digest]]
      requires previous == Lookup(Get(before, name), tag)
      modifies this`tags
      ensures DropIfEmpty(tags, name) == DropIfEmpty(before, name)
    {
      InsertTakenBack(before, name, tag, digest);
      tags := tags[name := RestoreEntry(tags[name], tag, previous)];
    }

    method TakeBackReferrer(ghost before: map<Name, Referrers>, name: Name, subject: Digest, ghost d: Descriptor)
      requires referrers == before[name := Push(Get(before, name), subject, d)]
      modifies this`referrers
      ensures DropIfEmpty(referrers, name) == DropIfEmpty(WithoutEmpty(before, name, subject), name)
    {
      PushTakenBack(before, name, subject, d);
      PopReferrer(name, subject);
    }

    method PushReferrer(name: Name, subject: Digest, d: Descriptor)
      modifies this`referrers
      ensures referrers == old(referrers)[name := Push(Get(old(referrers), name), subject, d)]
    {
      var subjects := Get(referrers, name);
      referrers := referrers[name := subjects[subject := ListOf(subjects, subject) + [d]]];
    }

    method PopReferrer(name: Name, subject: Digest)
      requires name in referrers && subject in referrers[name] && referrers[name][subject] != []
      modifies this`referrers
      ensures referrers == old(referrers)[name := Popped(old(referrers)[name], subject)]
    {
      var list := referrers[name][subject];
      var popped := list[..|list| - 1];
      if popped == [] {
        referrers := referrers[name := referrers[name] - {subject}];
      } else {
        referrers := referrers[name := referrers[name][subject := popped]];
      }
    }

    method PruneEmptyRepoInPlace(name: Name)
      modifies this`manifests, this`tags, this`referrers
      ensures Contents() == PruneEmptyRepo(old(Contents()), name)
    {
      if name in manifests && |manifests[name]| == 0 {
        manifests := manifests - {name};
      }
      if name in tags && |tags[name]| == 0 {
        tags := tags - {name};
      }
      if name in referrers && |referrers[name]| == 0 {
        referrers := referrers - {name};
      }
    }

    method RegisterReferrer(name: Name, subject: Digest, d: Descriptor, outcome: SaveOutcome) returns (ok: bool)
      modifies this
      ensures Committed(old(Contents()), old(disk), Register(name, subject, d), outcome, ok)
      ensures ok <==> !persistent || outcome.Saved?
    {
      PushReferrer(name, subject, d);
      ok := PersistLocked(outcome);
      if !ok {
        TakeBackReferrer(old(referrers), name, subject, d);
        PruneEmptyRepoInPlace(name);
      }
    }

    /** A manifest, the tags pointing at it and every descriptor naming it, removed together. */
    method DeleteManifest(name: Name, reference: Reference, outcome: SaveOutcome) returns (r: DeleteResult)
      modifies this
      ensures r == DeleteFailed ==> persistent && !outcome.Saved?
      ensures r == Deleted ==> !persistent || outcome.Saved?
      ensures reference.ByTag? || !Effective(Delete(name, reference.digest), old(Contents())) ==>
                r == NothingDeleted && Contents() == old(Contents()) && disk == old(disk)
      ensures reference.ByDigest? && Effective(Delete(name, reference.digest), old(Contents())) ==>
                && r != NothingDeleted
                && Committed(old(Contents()), old(disk), Delete(name, reference.digest), outcome, r.Deleted?)
    {
      if reference.ByTag? || name !in manifests || reference.digest !in manifests[name] {
        return NothingDeleted;
      }
      var digest := reference.digest;
      var removedManifest := manifests[name][digest];
      manifests := manifests[name := manifests[name] - {digest}];
      var removedTags := RemoveTags(name, digest);
      var removedReferrers := PruneReferrers(name, digest);
      var ok := PersistLocked(outcome);
      if ok {
        return Deleted;
      }
      RestoreDeleted(old(Contents()), name, digest, removedManifest, removedTags, removedReferrers);
      r := DeleteFailed;
    }

    method RestoreDeleted(ghost s: State, name: Name, digest: Digest, manifest: Manifest,
                          removedTags: seq<Tag>, removedReferrers: seq<Removal>)
      requires Effective(Delete(name, digest), s) && manifest == s.manifests[name][digest]
      requires manifests == s.manifests[name := s.manifests[name] - {digest}]
      requires tags == if name in s.tags then s.tags[name := Untagged(s.tags[name], digest)] else s.tags
      requires forall t :: t in removedTags <==> t in Get(s.tags, name) && Get(s.tags, name)[t] == digest
      requires referrers == PrunedIn(s.referrers, name, digest)
      requires LogUndoes(removedReferrers, s.referrers, name, digest)
      modifies this`manifests, this`tags, this`referrers
      ensures Contents() == DeleteUndone(s, name)
    {
      manifests := manifests[name := manifests[name][digest := manifest]];
      assert s.manifests[name] == manifests[name];
      RestoreTags(s.tags, name, digest, removedTags);
      RestoreReferrers(s.referrers, name, digest, removedReferrers);
    }

    method RemoveTags(name: Name, digest: Digest) returns (removed: seq<Tag>)
      modifies this`tags
      ensures tags == if name in old(tags) then old(tags)[name := Untagged(old(tags)[name], digest)] else old(tags)
      ensures forall t :: t in removed <==> t in Get(old(tags), name) && Get(old(tags), name)[t] == digest
    {
      removed := [];
      if name !in tags {
        return;
      }
      var all := tags[name];
      var todo := all.Keys;
      var kept: map<Tag, Digest> := map[];
      while todo != {}
        invariant todo <= all.Keys
        invariant kept == map t | t in all && t !in todo && all[t] != digest :: all[t]
        invariant forall t :: t in removed <==> t in all && t !in todo && all[t] == digest
        decreases |todo|
      {
        var t :| t in todo;
        todo := todo - {t};
        if all[t] == digest {
          removed := removed + [t];
        } else {
          kept := kept[t := all[t]];
        }
      }
      assert kept == Untagged(all, digest);
      tags := tags[name := kept];
    }

    method RestoreTags(ghost before: map<Name, map<Tag, Digest>>, name: Name, digest: Digest, removed: seq<Tag>)
      requires tags == if name in before then before[name := Untagged(before[name], digest)] else before
      requires forall t :: t in removed <==> t in Get(before, name) && Get(before, name)[t] == digest
      modifies this`tags
      ensures tags == before
    {
      if removed == [] {
        forall t | name in before && t in before[name] ensures before[name][t] != digest { assert t !in removed; }
        assert name in before ==> tags[name] == before[name];
        return;
      }
      assert removed[0] in removed;
      var tagMap := Get(tags, name);
      for i := 0 to |removed|
        invariant forall t :: t in tagMap ==> t in before[name] && tagMap[t] == before[name][t]
        invariant forall t :: t in before[name] ==> t in tagMap || t in removed[i..]
      {
        assert removed[i] in removed;
        tagMap := tagMap[removed[i] := digest];
      }
      assert tagMap == before[name];
      tags := tags[name := tagMap];
    }

    /** Descriptors naming `digest` removed from every list of the repository, each recorded. */
    method PruneReferrers(name: Name, digest: Digest) returns (log: seq<Removal>)
      modifies this`referrers
      ensures referrers == PrunedIn(old(referrers), name, digest)
      ensures LogUndoes(log, old(referrers), name, digest)
    {
      log := [];
      if name !in referrers {
        return;
      }
      var m: Referrers;
      m, log := PruneSubjects(referrers[name], digest);
      referrers := referrers[name := DropEmpty(m)];
    }

    /** The removals put back, last one first; the guard on the position never takes effect. */
    method RestoreReferrers(ghost before: map<Name, Referrers>, name: Name, ghost digest: Digest, log: seq<Removal>)
      requires referrers == PrunedIn(before, name, digest)
      requires LogUndoes(log, before, name, digest)
      modifies this`referrers
      ensures referrers == if name in before then before[name := DropEmpty(before[name])] else before
    {
      if log == [] {
        return;
      }
      ReplayDropsEmpty(Pruned(before[name], digest), log);
      var m := ReplayLog(Get(referrers, name), log);
      referrers := referrers[name := m];
    }
  }

  method ReplayLog(m0: Referrers, log: seq<Removal>) returns (m: Referrers)
    requires NeverClamps(m0, log)
    ensures m == Replay(m0, log)
  {
    m := m0;
    assert log[..|log|] == log;
    for i := |log| downto 0
      invariant Replay(m, log[..i]) == Replay(m0, log) && NeverClamps(m, log[..i])
    {
      var r := log[i];
      assert log[..i + 1][..i] == log[..i] && log[..i + 1][i] == r;
      var list := ListOf(m, r.subject);
      assert r.idx <= |list|;
      var at := if r.idx <= |list| then r.idx else |list|;
      m := m[r.subject := list[..at] + [r.descriptor] + list[at..]];
    }
  }

  ghost function PrunedIn(m: map<Name, Referrers>, name: Name, digest: Digest): map<Name, Referrers> {
    if name in m then m[name := DropEmpty(Pruned(m[name], digest))] else m
  }

  /** The log is an exact undo of pruning the repository's lists. */
  ghost predicate LogUndoes(log: seq<Removal>, m: map<Name, Referrers>, name: Name, digest: Digest) {
    && (name !in m ==> log == [])
    && (name in m ==> Replay(Pruned(m[name], digest), log) == m[name])
    && (name in m ==> NeverClamps(Pruned(m[name], digest), log))
  }

  /** Every subject's list in turn. */
  method PruneSubjects(all: Referrers, digest: Digest) returns (m: Referrers, log: seq<Removal>)
    ensures m == Pruned(all, digest)
    ensures Replay(m, log) == all && NeverClamps(m, log)
  {
    m, log := all, [];
    var todo := m.Keys;
    while todo != {}
      invariant todo <= all.Keys == m.Keys
      invariant forall s :: s in all ==> m[s] == if s in todo then all[s] else Without(all[s], digest)
      invariant SameUndo(all, [], m, log)
      decreases |todo|
    {
      var subject :| subject in todo;
      var less, more := PruneSubject(m, subject, digest, log);
      SameUndoChain(all, [], m, log, less, more);
      m, log := less, more;
      todo := todo - {subject};
    }
  }

  /** One subject's list, walked back to front. */
  method PruneSubject(m: Referrers, subject: Digest, digest: Digest, log: seq<Removal>)
      returns (m': Referrers, log': seq<Removal>)
    requires subject in m
    ensures m' == m[subject := Without(m[subject], digest)]
    ensures SameUndo(m, log, m', log')
  {
    m', log' := m, log;
    var all := m[subject];
    assert all[..|all|] + [] == all && all[|all|..] == [];
    for idx := |all| downto 0
      invariant m'.Keys == m.Keys && m' == m[subject := m'[subject]]
      invariant m'[subject] == all[..idx] + Without(all[idx..], digest)
      invariant SameUndo(m, log, m', log')
    {
      var list := m'[subject];
      WithoutStep(all, idx, digest);
      if list[idx].digest == digest {
        var less, more := RemoveAt(m', log', subject, idx);
        SameUndoChain(m, log, m', log', less, more);
        m', log' := less, more;
      }
    }
    assert all[0..] == all && all[..0] + Without(all, digest) == Without(all, digest);
  }

  method RemoveAt(m: Referrers, log: seq<Removal>, subject: Digest, idx: nat)
      returns (m': Referrers, log': seq<Removal>)
    requires subject in m && idx < |m[subject]|
    ensures m' == m[subject := m[subject][..idx] + m[subject][idx + 1..]]
    ensures SameUndo(m, log, m', log')
  {
    ReplayRemoval(m, log, subject, idx);
    var list := m[subject];
    m' := m[subject := list[..idx] + list[idx + 1..]];
    log' := log + [Removal(subject, idx, list[idx])];
  }

  /** Undoing the second log from the second map comes to the same as undoing the first. */
  ghost predicate SameUndo(m: Referrers, log: seq<Removal>, m': Referrers, log': seq<Removal>) {
    Replay(m', log') == Replay(m, log) && (NeverClamps(m', log') <==> NeverClamps(m, log))
  }

  lemma SameUndoChain(m: Referrers, log: seq<Removal>, m1: Referrers, log1: seq<Removal>,
                      m2: Referrers, log2: seq<Removal>)
    requires SameUndo(m, log, m1, log1) && SameUndo(m1, log1, m2, log2)
    ensures SameUndo(m, log, m2, log2)
  {
  }

  /** Walking back over one more descriptor. */
  lemma WithoutStep(all: seq<Descriptor>, idx: nat, digest: Digest)
    requires idx < |all|
    ensures var list := all[..idx + 1] + Without(all[idx + 1..], digest);
      && list[idx] == all[idx]
      && (all[idx].digest == digest ==> list[..idx] + list[idx + 1..] == all[..idx] + Without(all[idx..], digest))
      && (all[idx].digest != digest ==> list == all[..idx] + Without(all[idx..], digest))
  {
    var later := Without(all[idx + 1..], digest);
    var list := all[..idx + 1] + later;
    assert all[idx..][1..] == all[idx + 1..];
    assert list[..idx] == all[..idx] && list[idx + 1..] == later;
    assert list == all[..idx] + ([all[idx]] + later);
  }
}
