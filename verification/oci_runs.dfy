/** Whole runs of the durable registry: mutations with every save outcome, and restarts. */
module OciRuns {
  import opened Prelude
  import opened OciState
  import opened OciSnapshot
  import opened OciRegistry
  import opened Durability

  // ---------------------------------------------------------------- states that agree

  /** Equal but for per-repository maps that are empty in one and absent in the other. */
  ghost predicate Agree(a: State, b: State) {
    && (forall name :: Get(a.manifests, name) == Get(b.manifests, name))
    && (forall name :: Get(a.tags, name) == Get(b.tags, name))
    && (forall name :: Get(a.referrers, name) == Get(b.referrers, name))
  }

  /** What a mutation does to the one repository it names. */
  function ManifestsAfter(m: Mutation, repo: map<Digest, Manifest>): map<Digest, Manifest> {
    match m
    case Put(_, _, digest, manifest, _) => repo[digest := manifest]
    case Delete(_, digest) => repo - {digest}
    case Register(_, _, _) => repo
  }

  function TagsAfter(m: Mutation, repo: map<Tag, Digest>): map<Tag, Digest> {
    match m
    case Put(_, reference, digest, _, _) => if reference.ByTag? then repo[reference.tag := digest] else repo
    case Delete(_, digest) => Untagged(repo, digest)
    case Register(_, _, _) => repo
  }

  function ReferrersAfter(m: Mutation, repo: Referrers): Referrers {
    match m
    case Put(_, _, _, _, referrer) =>
      if referrer.Some? then Push(repo, referrer.value.0, referrer.value.1) else repo
    case Delete(_, digest) => DropEmpty(Pruned(repo, digest))
    case Register(_, subject, d) => Push(repo, subject, d)
  }

  lemma ManifestsAt(m: Mutation, s: State, name: Name)
    ensures Get(Apply(m, s).manifests, name)
         == if name == m.name then ManifestsAfter(m, Get(s.manifests, name)) else Get(s.manifests, name)
  {
    if m.Delete? {
      var none: map<Digest, Manifest> := map[];
      assert none - {m.digest} == none;
    }
  }

  lemma TagsAt(m: Mutation, s: State, name: Name)
    ensures Get(Apply(m, s).tags, name) == if name == m.name then TagsAfter(m, Get(s.tags, name)) else Get(s.tags, name)
  {
    if m.Delete? { assert Untagged(map[], m.digest) == map[]; }
  }

  lemma ReferrersAt(m: Mutation, s: State, name: Name)
    ensures Get(Apply(m, s).referrers, name)
         == if name == m.name then ReferrersAfter(m, Get(s.referrers, name)) else Get(s.referrers, name)
  {
    if m.Delete? { assert DropEmpty(Pruned(map[], m.digest)) == map[]; }
  }

  /** A mutation is local to its repository, and blind to whether a map is empty or absent. */
  lemma ApplyAt(m: Mutation, s: State, name: Name)
    ensures var s' := Apply(m, s);
            && Get(s'.manifests, name)
               == (if name == m.name then ManifestsAfter(m, Get(s.manifests, name)) else Get(s.manifests, name))
            && Get(s'.tags, name) == (if name == m.name then TagsAfter(m, Get(s.tags, name)) else Get(s.tags, name))
            && Get(s'.referrers, name)
               == (if name == m.name then ReferrersAfter(m, Get(s.referrers, name)) else Get(s.referrers, name))
  {
    ManifestsAt(m, s, name);
    TagsAt(m, s, name);
    ReferrersAt(m, s, name);
  }

  lemma ApplyAgrees(m: Mutation, a: State, b: State)
    requires Agree(a, b)
    ensures Agree(Apply(m, a), Apply(m, b)) && (Effective(m, a) <==> Effective(m, b))
  {
    forall name
      ensures Get(Apply(m, a).manifests, name) == Get(Apply(m, b).manifests, name)
      ensures Get(Apply(m, a).tags, name) == Get(Apply(m, b).tags, name)
      ensures Get(Apply(m, a).referrers, name) == Get(Apply(m, b).referrers, name)
    {
      ApplyAt(m, a, name);
      ApplyAt(m, b, name);
    }
  }

  /** A failed mutation leaves memory in agreement with what it was. */
  lemma UndoneAgrees(m: Mutation, s: State)
    requires NoEmptyLists(s)
    ensures Agree(Undone(m, s), s)
  {
    if m.Delete? {
      DeleteUndoneExactly(s, m.name);
    } else {
      PutUndoneExactly(m, s);
      DroppedAgrees(s.manifests, m.name);
      DroppedAgrees(s.tags, m.name);
      DroppedAgrees(s.referrers, m.name);
    }
  }

  lemma DroppedAgrees<K, V>(m: map<Name, map<K, V>>, name: Name)
    ensures forall n :: Get(DropIfEmpty(m, name), n) == Get(m, n)
  {
    if name in m && |m[name]| == 0 { assert m[name] == map[]; }
  }

  // ---------------------------------------------------------------- well-formed states

  ghost predicate TagsResolveIn(tags: map<Tag, Digest>, manifests: map<Digest, Manifest>) {
    forall tag :: tag in tags ==> tags[tag] in manifests
  }

  ghost predicate ReferrersPresentIn(referrers: Referrers, manifests: map<Digest, Manifest>) {
    forall subject, d: Descriptor :: subject in referrers && d in referrers[subject] ==> d.digest in manifests
  }

  /** One repository: every tag names a manifest of it, so does every referrer listed, no
      subject has an empty list, and every manifest is stored under its SHA-256. */
  ghost predicate WellFormedAt(sha: Hash, s: State, name: Name) {
    && TagsResolveIn(Get(s.tags, name), Get(s.manifests, name))
    && ReferrersPresentIn(Get(s.referrers, name), Get(s.manifests, name))
    && NoEmptyList(Get(s.referrers, name))
    && CanonicalKeys(sha, Get(s.manifests, name))
  }

  ghost predicate WellFormed(sha: Hash, s: State) { forall name :: WellFormedAt(sha, s, name) }

  lemma WellFormedParts(sha: Hash, s: State)
    requires WellFormed(sha, s)
    ensures NoEmptyLists(s) && Canonical(sha, s)
  {
    forall name | name in s.referrers ensures NoEmptyList(s.referrers[name]) { assert WellFormedAt(sha, s, name); }
    forall name | name in s.manifests ensures CanonicalKeys(sha, s.manifests[name]) {
      assert WellFormedAt(sha, s, name);
    }
  }

  lemma WellFormedAgrees(sha: Hash, a: State, b: State)
    requires Agree(a, b) && WellFormed(sha, a)
    ensures WellFormed(sha, b)
  {
    forall name ensures WellFormedAt(sha, b, name) { assert WellFormedAt(sha, a, name); }
  }

  /** What callers promise: a manifest is put under its own digest, and the descriptor of a
      referrer is that of a manifest then present in the repository. */
  ghost predicate Honest(sha: Hash, m: Mutation, s: State) {
    match m
    case Put(name, _, digest, manifest, referrer) =>
      && digest == Digest(Sha256, sha(manifest.body))
      && (referrer.Some? ==> referrer.value.1.digest == digest || referrer.value.1.digest in Get(s.manifests, name))
    case Delete(_, _) => true
    case Register(name, _, d) => d.digest in Get(s.manifests, name)
  }

  lemma ApplyWellFormed(sha: Hash, m: Mutation, s: State)
    requires WellFormed(sha, s) && Honest(sha, m, s)
    ensures WellFormed(sha, Apply(m, s))
  {
    forall name ensures WellFormedAt(sha, Apply(m, s), name) {
      assert WellFormedAt(sha, s, name);
      ApplyAt(m, s, name);
      if name == m.name && m.Delete? { DeleteKeepsReferrers(m, Get(s.referrers, name), Get(s.manifests, name)); }
    }
  }

  lemma {:induction false} WithoutContains(list: seq<Descriptor>, digest: Digest, d: Descriptor)
    ensures d in Without(list, digest) <==> d in list && d.digest != digest
    decreases |list|
  {
    if list != [] {
      WithoutContains(list[1..], digest, d);
      assert d in list <==> d == list[0] || d in list[1..];
    }
  }

  lemma DeleteKeepsReferrers(m: Mutation, referrers: Referrers, manifests: map<Digest, Manifest>)
    requires m.Delete? && ReferrersPresentIn(referrers, manifests)
    ensures ReferrersPresentIn(ReferrersAfter(m, referrers), ManifestsAfter(m, manifests))
  {
    var after := ReferrersAfter(m, referrers);
    forall subject, d: Descriptor | subject in after && d in after[subject]
      ensures d.digest in ManifestsAfter(m, manifests)
    {
      WithoutContains(referrers[subject], m.digest, d);
    }
  }

  lemma UndoneWellFormed(sha: Hash, m: Mutation, s: State)
    requires WellFormed(sha, s)
    ensures WellFormed(sha, Undone(m, s)) && Agree(Undone(m, s), s)
  {
    WellFormedParts(sha, s);
    UndoneAgrees(m, s);
    WellFormedAgrees(sha, s, Undone(m, s));
  }

  // ---------------------------------------------------------------- runs

  datatype Event = Call(mutation: Mutation, outcome: SaveOutcome) | Restart

  /** The durable registry: memory, the snapshot file, and the mutation on file that was
      reported as failed, if there is one. */
  datatype Node = Node(mem: State, disk: Option<Snapshot>, unacked: Option<Mutation>)

  function Boot(sha: Hash, disk: Option<Snapshot>): State {
    match disk case None => EMPTY case Some(file) => Loaded(sha, file)
  }

  function Next(sha: Hash, n: Node, e: Event): Node {
    match e
    case Restart => Node(Boot(sha, n.disk), n.disk, None)
    case Call(m, outcome) =>
      if !Effective(m, n.mem) then n
      else
        Node(if outcome.Saved? then Apply(m, n.mem) else Undone(m, n.mem),
             DiskAfter(n.disk, outcome, Apply(m, n.mem)),
             match outcome case Saved => None case FailedEarly => n.unacked case FailedLate => Some(m))
  }

  function After(sha: Hash, events: seq<Event>): Node {
    if events == [] then Node(EMPTY, None, None)
    else Next(sha, After(sha, events[..|events| - 1]), events[|events| - 1])
  }

  ghost predicate HonestRun(sha: Hash, events: seq<Event>)
    decreases |events|
  {
    events == [] ||
    var (init, last) := (events[..|events| - 1], events[|events| - 1]);
    HonestRun(sha, init) && (last.Call? ==> Honest(sha, last.mutation, After(sha, init).mem))
  }

  /** What the file holds: memory, or memory with exactly the unacknowledged mutation applied. */
  function OnFile(n: Node): State {
    match n.unacked case None => n.mem case Some(m) => Apply(m, n.mem)
  }

  ghost predicate Coherent(sha: Hash, n: Node) {
    && WellFormed(sha, n.mem)
    && WellFormed(sha, Boot(sha, n.disk))
    && Agree(Boot(sha, n.disk), OnFile(n))
  }

  lemma BootOfSaved(sha: Hash, s: State)
    requires WellFormed(sha, s)
    ensures Boot(sha, Some(SnapshotOf(s))) == s
  {
    WellFormedParts(sha, s);
    LoadedExactly(sha, s);
  }

  lemma NextCoherent(sha: Hash, n: Node, e: Event)
    requires Coherent(sha, n) && (e.Call? ==> Honest(sha, e.mutation, n.mem))
    ensures Coherent(sha, Next(sha, n, e))
  {
    if e.Call? && Effective(e.mutation, n.mem) {
      var m := e.mutation;
      ApplyWellFormed(sha, m, n.mem);
      BootOfSaved(sha, Apply(m, n.mem));
      if !e.outcome.Saved? {
        UndoneWellFormed(sha, m, n.mem);
        var left := Undone(m, n.mem);
        if e.outcome.FailedLate? { ApplyAgrees(m, n.mem, left); }
        else if n.unacked.Some? { ApplyAgrees(n.unacked.value, n.mem, left); }
      }
    }
  }

  lemma EmptyCoherent(sha: Hash)
    ensures Coherent(sha, Node(EMPTY, None, None))
  {
    forall name ensures WellFormedAt(sha, EMPTY, name) {
      assert Get(EMPTY.manifests, name) == map[];
    }
  }

  /** Safety of every run, with every save outcome and any restarts: memory and file are well
      formed, and the file is memory or memory plus exactly one unacknowledged mutation. */
  lemma {:induction false} EveryRunCoherent(sha: Hash, events: seq<Event>)
    requires HonestRun(sha, events)
    ensures Coherent(sha, After(sha, events))
    decreases |events|
  {
    if events == [] {
      EmptyCoherent(sha);
    } else {
      EveryRunCoherent(sha, events[..|events| - 1]);
      NextCoherent(sha, After(sha, events[..|events| - 1]), events[|events| - 1]);
    }
  }

  /** An acknowledged mutation is on file exactly as it is in memory: a restart right after it
      changes nothing. */
  lemma AcknowledgedIsDurable(sha: Hash, events: seq<Event>, m: Mutation)
    requires HonestRun(sha, events) && Honest(sha, m, After(sha, events).mem)
    requires Effective(m, After(sha, events).mem)
    ensures var n := Next(sha, After(sha, events), Call(m, Saved));
            n.mem == Apply(m, After(sha, events).mem) && Next(sha, n, Restart).mem == n.mem
  {
    EveryRunCoherent(sha, events);
    var mem := After(sha, events).mem;
    ApplyWellFormed(sha, m, mem);
    BootOfSaved(sha, Apply(m, mem));
  }

  // ---------------------------------------------------------------- what clients see

  /** In every run, a delete whose save fails leaves memory exactly as it was. */
  lemma FailedDeleteChangesNothing(sha: Hash, events: seq<Event>, name: Name, digest: Digest)
    requires HonestRun(sha, events)
    ensures Undone(Delete(name, digest), After(sha, events).mem) == After(sha, events).mem
  {
    var mem := After(sha, events).mem;
    EveryRunCoherent(sha, events);
    WellFormedParts(sha, mem);
    DeleteUndoneExactly(mem, name);
  }

  /** A put that fails early after this put and delete of a first manifest: the repository, still
      listed with an empty map before, is forgotten. */
  lemma RepositoryForgotten(sha: Hash, put: Mutation, events: seq<Event>)
    requires put.Put? && put.reference.ByDigest? && put.referrer.None?
    requires put.digest == Digest(Sha256, sha(put.manifest.body))
    requires events == [Call(put, Saved), Call(Delete(put.name, put.digest), Saved)]
    ensures HonestRun(sha, events) && After(sha, events).mem == State(map[put.name := map[]], map[], map[])
    ensures Next(sha, After(sha, events), Call(put, FailedEarly)).mem == EMPTY
  {
    var first := events[..1];
    assert first == [Call(put, Saved)] && first[..0] == [] && events[..1] == first;
    assert After(sha, []).mem == EMPTY;
    assert After(sha, first) == Next(sha, After(sha, []), first[0]);
    assert After(sha, first).mem == State(map[put.name := map[put.digest := put.manifest]], map[], map[]);
    assert After(sha, events) == Next(sha, After(sha, first), events[1]);
    EmptiedRepositoryForgotten(put, After(sha, events).mem);
  }

  /** The descriptors listed for a subject. */
  function ListReferrers(s: State, name: Name, subject: Digest): seq<Descriptor> {
    ListOf(Get(s.referrers, name), subject)
  }

  /** A registration, alone or with a put, is listed after everything listed before for its
      subject; every other list is unchanged. */
  lemma RegisterThenListed(m: Mutation, s: State, name: Name, subject: Digest)
    requires m.Register? || m.Put?
    ensures ListReferrers(Apply(m, s), name, subject) == ListReferrers(s, name, subject) +
      (if name != m.name then []
       else if m.Register? then (if subject == m.subject then [m.descriptor] else [])
       else if m.referrer.Some? && m.referrer.value.0 == subject then [m.referrer.value.1] else [])
  {
  }

  /** A delete takes the descriptors of its digest out of every list of its repository, and leaves
      the others in their order. */
  lemma DeleteThenListed(m: Mutation, s: State, name: Name, subject: Digest) returns (at: seq<nat>)
    requires m.Delete?
    ensures name != m.name ==> ListReferrers(Apply(m, s), name, subject) == ListReferrers(s, name, subject)
    ensures name == m.name ==>
      Picks(ListReferrers(s, name, subject), ListReferrers(Apply(m, s), name, subject), at,
            (d: Descriptor) => d.digest != m.digest)
  {
    at := WithoutPicks(ListReferrers(s, name, subject), m.digest);
    ReferrersAt(m, s, name);
  }

  /** Acknowledged deletes hide their manifest, effective or not. */
  lemma DeletedIsGone(sha: Hash, n: Node, name: Name, digest: Digest)
    ensures GetManifest(Next(sha, n, Call(Delete(name, digest), Saved)).mem, name, ByDigest(digest)).None?
  {
  }

  function GetManifest(s: State, name: Name, reference: Reference): Option<(Digest, Manifest)> {
    if name !in s.manifests then None
    else
      var digest := match reference
                    case ByDigest(d) => Some(d)
                    case ByTag(t) => Lookup(Get(s.tags, name), t);
      if digest.Some? && digest.value in s.manifests[name] then Some((digest.value, s.manifests[name][digest.value]))
      else None
  }

  /** In every run, a listed tag can be pulled, a pulled manifest hashes to its digest, and a
      listed referrer can be pulled by its digest. */
  lemma ListedIsPullable(sha: Hash, events: seq<Event>, name: Name)
    requires HonestRun(sha, events)
    ensures var s := After(sha, events).mem;
            && (forall t :: t in Get(s.tags, name) <==> GetManifest(s, name, ByTag(t)).Some?)
            && (forall r :: GetManifest(s, name, r).Some? ==>
                  var (digest, manifest) := GetManifest(s, name, r).value;
                  digest == Digest(Sha256, sha(manifest.body)))
            && (forall subject, d: Descriptor ::
                  subject in Get(s.referrers, name) && d in Get(s.referrers, name)[subject] ==>
                  GetManifest(s, name, ByDigest(d.digest)).Some?)
  {
    EveryRunCoherent(sha, events);
    assert WellFormedAt(sha, After(sha, events).mem, name);
  }

  predicate TagLeadsTo(s: State, name: Name, tag: Tag, digest: Digest) {
    Lookup(Get(s.tags, name), tag) == Some(digest)
  }

  /** A put is seen under its digest and its tag, and nowhere else. */
  lemma PutThenPull(m: Mutation, s: State, name: Name, r: Reference)
    requires m.Put?
    ensures GetManifest(Apply(m, s), name, r) ==
            if name == m.name && (r == ByDigest(m.digest) ||
                                  (r.ByTag? && (r == m.reference || TagLeadsTo(s, name, r.tag, m.digest))))
            then Some((m.digest, m.manifest))
            else GetManifest(s, name, r)
  {
  }

  /** A delete hides exactly the references that led to the manifest. */
  lemma DeleteThenPull(m: Mutation, s: State, name: Name, r: Reference)
    requires m.Delete?
    ensures var was := GetManifest(s, name, r);
            GetManifest(Apply(m, s), name, r) ==
            if name == m.name && was.Some? && was.value.0 == m.digest then None else was
  {
  }
}
