/** The metadata plane of the OCI registry as a value: manifests, tags and the referrer index,
    the mutations on them, and how a failed mutation is undone. */
module OciState {
  import opened Prelude
  import opened Wire

  type Name = string
  type Tag = string

  datatype Algo = Sha256 | Sha512
  datatype Digest = Digest(algo: Algo, hex: string)
  datatype Manifest = Manifest(mediaType: string, body: seq<byte>)
  datatype Reference = ByTag(tag: Tag) | ByDigest(digest: Digest)

  datatype Descriptor = Descriptor(
    mediaType: string, digest: Digest, size: nat,
    artifactType: Option<string>, annotations: Option<map<string, string>>)

  type Referrers = map<Digest, seq<Descriptor>>

  datatype State = State(
    manifests: map<Name, map<Digest, Manifest>>,
    tags: map<Name, map<Tag, Digest>>,
    referrers: map<Name, Referrers>)

  const EMPTY := State(map[], map[], map[])

  /** The entry of a repository, an absent one counting as empty. */
  function Get<K, V>(m: map<Name, map<K, V>>, name: Name): map<K, V> {
    if name in m then m[name] else map[]
  }

  function ListOf(m: Referrers, subject: Digest): seq<Descriptor> {
    if subject in m then m[subject] else []
  }

  // ---------------------------------------------------------------- mutations

  datatype Mutation =
    | Put(name: Name, reference: Reference, digest: Digest, manifest: Manifest,
          referrer: Option<(Digest, Descriptor)>)
    | Delete(name: Name, digest: Digest)
    | Register(name: Name, subject: Digest, descriptor: Descriptor)

  function Push(m: Referrers, subject: Digest, d: Descriptor): Referrers {
    m[subject := ListOf(m, subject) + [d]]
  }

  function Without(list: seq<Descriptor>, digest: Digest): seq<Descriptor> {
    if list == [] then []
    else
      var tail := Without(list[1..], digest);
      if list[0].digest == digest then tail else [list[0]] + tail
  }

  lemma {:induction false} WithoutMore(list: seq<Descriptor>, d: Descriptor, digest: Digest)
    ensures Without(list + [d], digest) == Without(list, digest) + (if d.digest == digest then [] else [d])
    decreases |list|
  {
    if list == [] {
      assert list + [d] == [d];
    } else {
      assert (list + [d])[1..] == list[1..] + [d];
      WithoutMore(list[1..], d, digest);
    }
  }

  /** The descriptors of other digests, in their order. */
  lemma {:induction false} WithoutPicks(list: seq<Descriptor>, digest: Digest) returns (at: seq<nat>)
    ensures Picks(list, Without(list, digest), at, (d: Descriptor) => d.digest != digest)
    decreases |list|
  {
    if list == [] {
      at := [];
    } else {
      var init, last := list[..|list| - 1], list[|list| - 1];
      var others := (d: Descriptor) => d.digest != digest;
      at := WithoutPicks(init, digest);
      assert list == init + [last];
      WithoutMore(init, last, digest);
      if others(last) {
        PicksToo(init, Without(init, digest), at, others, last);
        at := at + [|init|];
      } else {
        PicksNot(init, Without(init, digest), at, others, last);
        assert Without(init, digest) + [] == Without(init, digest);
      }
    }
  }

  function Pruned(m: Referrers, digest: Digest): Referrers {
    map s | s in m :: Without(m[s], digest)
  }

  function DropEmpty(m: Referrers): Referrers {
    map s | s in m && m[s] != [] :: m[s]
  }

  function Untagged(m: map<Tag, Digest>, digest: Digest): map<Tag, Digest> {
    map t | t in m && m[t] != digest :: m[t]
  }

  /** Whether the call changes anything at all, and so writes a snapshot. */
  predicate Effective(m: Mutation, s: State) {
    m.Delete? ==> m.digest in Get(s.manifests, m.name)
  }

  function Apply(m: Mutation, s: State): State {
    match m
    case Put(name, reference, digest, manifest, referrer) =>
      State(
        s.manifests[name := Get(s.manifests, name)[digest := manifest]],
        if reference.ByTag? then s.tags[name := Get(s.tags, name)[reference.tag := digest]] else s.tags,
        if referrer.Some? then s.referrers[name := Push(Get(s.referrers, name), referrer.value.0, referrer.value.1)]
        else s.referrers)
    case Delete(name, digest) =>
      State(
        if name in s.manifests then s.manifests[name := s.manifests[name] - {digest}] else s.manifests,
        if name in s.tags then s.tags[name := Untagged(s.tags[name], digest)] else s.tags,
        if name in s.referrers then s.referrers[name := DropEmpty(Pruned(s.referrers[name], digest))] else s.referrers)
    case Register(name, subject, descriptor) =>
      s.(referrers := s.referrers[name := Push(Get(s.referrers, name), subject, descriptor)])
  }

  function DropIfEmpty<K, V>(m: map<Name, map<K, V>>, name: Name): map<Name, map<K, V>> {
    if name in m && |m[name]| == 0 then m - {name} else m
  }

  /** `prune_empty_repo`. */
  function PruneEmptyRepo(s: State, name: Name): State {
    State(DropIfEmpty(s.manifests, name), DropIfEmpty(s.tags, name), DropIfEmpty(s.referrers, name))
  }

  // ---------------------------------------------------------------- undoing a delete

  /** One descriptor taken out of a subject's list, and where it was. */
  datatype Removal = Removal(subject: Digest, idx: nat, descriptor: Descriptor)

  function InsertAt(list: seq<Descriptor>, idx: nat, d: Descriptor): seq<Descriptor> {
    var at := if idx <= |list| then idx else |list|;
    list[..at] + [d] + list[at..]
  }

  function Reinsert(m: Referrers, r: Removal): Referrers {
    m[r.subject := InsertAt(ListOf(m, r.subject), r.idx, r.descriptor)]
  }

  /** The recorded removals put back, last one first. */
  function Replay(m: Referrers, log: seq<Removal>): Referrers
    decreases |log|
  {
    if log == [] then m else Replay(Reinsert(m, log[|log| - 1]), log[..|log| - 1])
  }

  /** Every position replayed lies within the list it is replayed on. */
  predicate NeverClamps(m: Referrers, log: seq<Removal>)
    decreases |log|
  {
    log == [] ||
    var r := log[|log| - 1];
    r.idx <= |ListOf(m, r.subject)| && NeverClamps(Reinsert(m, r), log[..|log| - 1])
  }

  /** Recording a removal keeps the log an exact undo. */
  lemma ReplayRemoval(m: Referrers, log: seq<Removal>, subject: Digest, idx: nat)
    requires subject in m && idx < |m[subject]|
    ensures var list := m[subject];
            var less := m[subject := list[..idx] + list[idx + 1..]];
            var more := log + [Removal(subject, idx, list[idx])];
            Replay(less, more) == Replay(m, log) && (NeverClamps(less, more) <==> NeverClamps(m, log))
  {
    var list := m[subject];
    var less := m[subject := list[..idx] + list[idx + 1..]];
    var r := Removal(subject, idx, list[idx]);
    assert (log + [r])[..|log|] == log;
    assert InsertAt(less[subject], idx, list[idx]) == list;
    assert Reinsert(less, r) == m;
  }

  lemma ReinsertDropsEmpty(m: Referrers, r: Removal)
    ensures ListOf(DropEmpty(m), r.subject) == ListOf(m, r.subject)
    ensures Reinsert(DropEmpty(m), r) == DropEmpty(Reinsert(m, r))
  {
    var list := InsertAt(ListOf(m, r.subject), r.idx, r.descriptor);
    assert ListOf(DropEmpty(m), r.subject) == ListOf(m, r.subject);
    assert list != [];
  }

  /** Emptied lists may be dropped before the replay: it recreates the ones it needs. */
  lemma {:induction false} ReplayDropsEmpty(m: Referrers, log: seq<Removal>)
    ensures Replay(DropEmpty(m), log) == DropEmpty(Replay(m, log))
    ensures NeverClamps(DropEmpty(m), log) <==> NeverClamps(m, log)
    decreases |log|
  {
    if log != [] {
      var r := log[|log| - 1];
      ReinsertDropsEmpty(m, r);
      ReplayDropsEmpty(Reinsert(m, r), log[..|log| - 1]);
    }
  }

  /** What a failed delete leaves behind: everything as it was, but for subject lists of that
      repository that were already empty. */
  function DeleteUndone(s: State, name: Name): State {
    if name in s.referrers then s.(referrers := s.referrers[name := DropEmpty(s.referrers[name])]) else s
  }

  ghost predicate NoEmptyList(m: Referrers) { forall s :: s in m ==> m[s] != [] }

  /** A failed delete is exact if and only if the repository has no empty subject list. */
  lemma DeleteUndoneExactly(s: State, name: Name)
    ensures DeleteUndone(s, name) == s <==> NoEmptyList(Get(s.referrers, name))
  {
    if name in s.referrers {
      var m := s.referrers[name];
      if NoEmptyList(m) {
        assert DropEmpty(m) == m;
        assert s.referrers[name := m] == s.referrers;
      } else {
        var subject :| subject in m && m[subject] == [];
        assert subject !in DropEmpty(m);
        assert DeleteUndone(s, name).referrers[name] != s.referrers[name];
      }
    }
  }

  // ---------------------------------------------------------------- undoing a put

  function DropSubjectIfEmpty(m: Referrers, subject: Digest): Referrers {
    if subject in m && m[subject] == [] then m - {subject} else m
  }

  function RestoreEntry<K, V>(m: map<K, V>, k: K, previous: Option<V>): map<K, V> {
    match previous case Some(v) => m[k := v] case None => m - {k}
  }

  function Lookup<K, V>(m: map<K, V>, k: K): Option<V> { if k in m then Some(m[k]) else None }

  /** Undoing an insertion with the value it displaced restores the map. */
  lemma RestoreUndoesInsert<K, V>(m: map<K, V>, k: K, v: V)
    ensures RestoreEntry(m[k := v], k, Lookup(m, k)) == m
  {
  }

  /** Taking back an insertion into a repository's map, then dropping the map if it is empty,
      leaves the index as pruning it in the first place would have. */
  lemma InsertTakenBack<K, V>(m: map<Name, map<K, V>>, name: Name, k: K, v: V)
    ensures var inserted := m[name := Get(m, name)[k := v]];
            var restored := inserted[name := RestoreEntry(inserted[name], k, Lookup(Get(m, name), k))];
            DropIfEmpty(restored, name) == DropIfEmpty(m, name)
  {
    RestoreUndoesInsert(Get(m, name), k, v);
    ReplacedByItself(m, name);
  }

  lemma ReplacedByItself<K, V>(m: map<Name, map<K, V>>, name: Name)
    ensures DropIfEmpty(m[name := Get(m, name)], name) == DropIfEmpty(m, name)
  {
    if name in m {
      assert m[name := Get(m, name)] == m;
    } else {
      assert m[name := map[]] - {name} == m;
    }
  }

  /** The last descriptor of a list removed, and the list with it once it is empty. */
  function Popped(m: Referrers, subject: Digest): Referrers
    requires subject in m && m[subject] != []
  {
    var popped := m[subject][..|m[subject]| - 1];
    if popped == [] then m - {subject} else m[subject := popped]
  }

  /** An empty list of the repository's subject dropped. */
  function WithoutEmpty(m: map<Name, Referrers>, name: Name, subject: Digest): map<Name, Referrers> {
    if name in m then m[name := DropSubjectIfEmpty(m[name], subject)] else m
  }

  lemma PushTakenBack(m: map<Name, Referrers>, name: Name, subject: Digest, d: Descriptor)
    ensures var pushed := m[name := Push(Get(m, name), subject, d)];
            var popped := pushed[name := Popped(pushed[name], subject)];
            DropIfEmpty(popped, name) == DropIfEmpty(WithoutEmpty(m, name, subject), name)
  {
    PopUndoesPush(Get(m, name), subject, d);
    ReplaceTwice(m, name, Push(Get(m, name), subject, d), DropSubjectIfEmpty(Get(m, name), subject));
    DroppedWithoutEmpty(m, name, subject);
  }

  lemma ReplaceTwice(m: map<Name, Referrers>, name: Name, first: Referrers, second: Referrers)
    ensures m[name := first][name := second] == m[name := second]
  {
  }

  lemma DroppedWithoutEmpty(m: map<Name, Referrers>, name: Name, subject: Digest)
    ensures DropIfEmpty(m[name := DropSubjectIfEmpty(Get(m, name), subject)], name)
         == DropIfEmpty(WithoutEmpty(m, name, subject), name)
  {
    if name !in m { ReplacedByItself(m, name); }
  }

  lemma PopUndoesPush(m: Referrers, subject: Digest, d: Descriptor)
    ensures Popped(Push(m, subject, d), subject) == DropSubjectIfEmpty(m, subject)
  {
    var list := ListOf(m, subject);
    assert (list + [d])[..|list|] == list;
  }

  function SubjectOf(m: Mutation): Option<Digest> {
    match m
    case Put(_, _, _, _, referrer) => if referrer.Some? then Some(referrer.value.0) else None
    case Delete(_, _) => None
    case Register(_, subject, _) => Some(subject)
  }

  /** What a failed mutation leaves in memory. */
  function Undone(m: Mutation, s: State): State {
    if m.Delete? then DeleteUndone(s, m.name)
    else
      var subject := SubjectOf(m);
      var s' := if subject.Some? then s.(referrers := WithoutEmpty(s.referrers, m.name, subject.value)) else s;
      PruneEmptyRepo(s', m.name)
  }

  ghost predicate NoEmptyLists(s: State) {
    forall name :: name in s.referrers ==> NoEmptyList(s.referrers[name])
  }

  /** The repository has no empty map of its own in any of the three indexes. */
  ghost predicate NoEmptyMaps(s: State, name: Name) {
    && (name in s.manifests ==> s.manifests[name] != map[])
    && (name in s.tags ==> s.tags[name] != map[])
    && (name in s.referrers ==> s.referrers[name] != map[])
  }

  /** A failed put or registration is exact if and only if no per-repository map was empty:
      otherwise the repository loses those maps, and with them its catalog entry. */
  lemma PutUndoneExactly(m: Mutation, s: State)
    requires !m.Delete? && NoEmptyLists(s)
    ensures Undone(m, s) == PruneEmptyRepo(s, m.name)
    ensures Undone(m, s) == s <==> NoEmptyMaps(s, m.name)
  {
    if m.name in s.referrers {
      var refs := s.referrers[m.name];
      var subject := SubjectOf(m);
      assert subject.Some? ==> DropSubjectIfEmpty(refs, subject.value) == refs;
      assert s.referrers[m.name := refs] == s.referrers;
    }
    DropIfEmptyExactly(s.manifests, m.name);
    DropIfEmptyExactly(s.tags, m.name);
    DropIfEmptyExactly(s.referrers, m.name);
  }

  /** A repository whose last manifest was deleted is forgotten by a put that fails. */
  lemma EmptiedRepositoryForgotten(m: Mutation, s: State)
    requires m.Put? && s == State(map[m.name := map[]], map[], map[])
    ensures Undone(m, s) == EMPTY != s
  {
    assert m.name in s.manifests;
  }

  lemma DropIfEmptyExactly<K, V>(m: map<Name, map<K, V>>, name: Name)
    ensures DropIfEmpty(m, name) == m <==> (name in m ==> m[name] != map[])
  {
    if name in m && |m[name]| == 0 { assert name !in DropIfEmpty(m, name); }
    if name in m && m[name] != map[] { var k :| k in m[name]; assert k in m[name].Keys; }
  }
}
