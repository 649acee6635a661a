/** `publish_result`: bytes first, then the manifest; and the result is at once reusable. */
module Publishing {
  import opened Text
  import opened Digests
  import opened Records
  import opened Stores
  import opened Evaluation
  import opened Lineage
  import opened Admissibility
  import opened Search
  import opened MemoryStore
  import opened SourceRecords
  import Sorting

  datatype Artifact = Artifact(name: Text, data: Bytes, mediaType: Text)

  predicate NameLess(a: Artifact, b: Artifact) {
    Less(a.name, b.name)
  }

  predicate DependencyLess(a: Dependency, b: Dependency) {
    Less(a.name, b.name)
  }

  function DescriptorOf(a: Artifact): Descriptor {
    Descriptor(a.name, DigestBytes(a.data), |a.data|, a.mediaType)
  }

  function DescriptorsOf(xs: seq<Artifact>): seq<Descriptor> {
    seq(|xs|, i requires 0 <= i < |xs| => DescriptorOf(xs[i]))
  }

  /** The manifest published for artifacts given in any order; naming dependencies makes it a lineage manifest. */
  function ManifestFor(actionDigest: Digest, artifacts: seq<Artifact>, producer: Text, producedAt: Time,
                       freshUntil: Option<Time>, dependencies: Option<seq<Dependency>>): Manifest {
    Manifest(
      if dependencies.Some? then ResultV1 else ResultV0,
      actionDigest,
      DescriptorsOf(Sorting.Sort(artifacts, NameLess)),
      producedAt, freshUntil, producer,
      if dependencies.Some? then Some(Sorting.Sort(dependencies.value, DependencyLess)) else None)
  }

  function BlobOps(xs: seq<Artifact>): seq<Op> {
    seq(|xs|, i requires 0 <= i < |xs| => Op.PutBlob(xs[i].data))
  }

  /** The puts of one publication, in order. */
  function PublishOps(artifacts: seq<Artifact>, m: Manifest): seq<Op> {
    BlobOps(Sorting.Sort(artifacts, NameLess)) + [Op.PutResult(m)]
  }

  lemma {:induction false} RunConcat(s: State, a: seq<Op>, b: seq<Op>)
    ensures Run(s, a + b) == Run(Run(s, a), b)
    decreases |a|
  {
    if a == [] {
      assert a + b == b;
    } else {
      assert (a + b)[1..] == a[1..] + b;
      RunConcat(Apply(s, a[0]), a[1..], b);
    }
  }

  /**
   Each dictionary entry is a distinct name, so sorting has one outcome. `actionDigest` is `None` where `action_digest`
   raises, which it does once the blobs are stored; the result is `None` where anything raises.
   */
  method PublishResult(store: MemoryStore, actionDigest: Option<Digest>, artifacts: seq<Artifact>, producer: Text,
                       producedAt: Time, freshUntil: Option<Time>, dependencies: Option<seq<Dependency>>)
    returns (published: Option<Manifest>)
    modifies store
    ensures actionDigest.None? ==>
      && published == None
      && store.Contents() == Run(old(store.Contents()), BlobOps(Sorting.Sort(artifacts, NameLess)))
    ensures actionDigest.Some? ==>
      var m := ManifestFor(actionDigest.value, artifacts, producer, producedAt, freshUntil, dependencies);
      && published == (if ValidManifest(m) then Some(m) else None)
      && store.Contents() == Run(old(store.Contents()), PublishOps(artifacts, m))
    ensures published.Some? ==>
      var m := published.value;
      && actionDigest == Some(m.actionDigest) && m.producer == producer && m.producedAt == producedAt
      && m.freshUntil == freshUntil
      && m.dependencies.Some? == dependencies.Some?
      && (dependencies.Some? ==>
            && |m.dependencies.value| == |dependencies.value|
            && (forall d :: d in m.dependencies.value <==> d in dependencies.value)
            && (forall i, k | 0 <= i < k < |m.dependencies.value| ::
                  Less(m.dependencies.value[i].name, m.dependencies.value[k].name)))
      && |m.artifacts| == |artifacts|
      && (forall x :: x in m.artifacts <==>
            exists a | a in artifacts :: x == Descriptor(a.name, DigestBytes(a.data), |a.data|, a.mediaType))
  {
    var sorted := Sorting.Sort(artifacts, NameLess);
    var descriptors := PutArtifacts(store, sorted);
    if actionDigest.None? {
      return None;
    }
    var m := Manifest(
      if dependencies.Some? then ResultV1 else ResultV0, actionDigest.value, descriptors, producedAt, freshUntil, producer,
      if dependencies.Some? then Some(Sorting.Sort(dependencies.value, DependencyLess)) else None);
    RunConcat(old(store.Contents()), BlobOps(sorted), [Op.PutResult(m)]);
    var ok := store.PutResult(m);
    ManifestCarries(actionDigest.value, artifacts, producer, producedAt, freshUntil, dependencies);
    return if ok then Some(m) else None;
  }

  /** What the manifest says of the artifacts and dependencies it was made for. */
  lemma ManifestCarries(actionDigest: Digest, artifacts: seq<Artifact>, producer: Text, producedAt: Time,
                        freshUntil: Option<Time>, dependencies: Option<seq<Dependency>>)
    ensures var m := ManifestFor(actionDigest, artifacts, producer, producedAt, freshUntil, dependencies);
      && m.actionDigest == actionDigest && m.producer == producer && m.producedAt == producedAt
      && m.freshUntil == freshUntil && m.version == (if dependencies.Some? then ResultV1 else ResultV0)
      && m.dependencies.Some? == dependencies.Some?
      && (dependencies.Some? ==>
            && |m.dependencies.value| == |dependencies.value|
            && (forall d :: d in m.dependencies.value <==> d in dependencies.value))
      && |m.artifacts| == |artifacts|
      && (forall x :: x in m.artifacts <==>
            exists a | a in artifacts :: x == Descriptor(a.name, DigestBytes(a.data), |a.data|, a.mediaType))
  {
    if dependencies.Some? {
      Sorting.SortElements(dependencies.value, DependencyLess);
    }
    Sorting.SortElements(artifacts, NameLess);
    DescriptorsCarry(Sorting.Sort(artifacts, NameLess), artifacts);
  }

  lemma DescriptorsCarry(sorted: seq<Artifact>, artifacts: seq<Artifact>)
    requires forall a :: a in sorted <==> a in artifacts
    ensures forall x :: x in DescriptorsOf(sorted) <==>
              exists a | a in artifacts :: x == Descriptor(a.name, DigestBytes(a.data), |a.data|, a.mediaType)
  {
    var xs := DescriptorsOf(sorted);
    forall a | a in artifacts ensures Descriptor(a.name, DigestBytes(a.data), |a.data|, a.mediaType) in xs {
      var i :| 0 <= i < |sorted| && sorted[i] == a;
      assert xs[i] == DescriptorOf(a);
    }
    forall x | x in xs
      ensures exists a | a in artifacts :: x == Descriptor(a.name, DigestBytes(a.data), |a.data|, a.mediaType)
    {
      var i :| 0 <= i < |xs| && xs[i] == x;
      assert sorted[i] in artifacts && x == DescriptorOf(sorted[i]);
    }
  }

  /** Given distinct names, as a dictionary has, the descriptors ascend by name. */
  lemma DescriptorsAscend(artifacts: seq<Artifact>)
    requires forall i, k | 0 <= i < k < |artifacts| :: artifacts[i].name != artifacts[k].name
    ensures var xs := DescriptorsOf(Sorting.Sort(artifacts, NameLess));
      forall i, k | 0 <= i < k < |xs| :: Less(xs[i].name, xs[k].name)
  {
    forall x: Artifact ensures !NameLess(x, x) {
      LessIrreflexive(x.name);
    }
    forall x: Artifact, y: Artifact, z: Artifact | NameLess(x, y) && NameLess(y, z) ensures NameLess(x, z) {
      LessTransitive(x.name, y.name, z.name);
    }
    forall i, k | 0 <= i < |artifacts| && 0 <= k < |artifacts| && i != k
      ensures NameLess(artifacts[i], artifacts[k]) || NameLess(artifacts[k], artifacts[i])
    {
      LessTotal(artifacts[i].name, artifacts[k].name);
      assert i < k ==> artifacts[i].name != artifacts[k].name;
      assert k < i ==> artifacts[k].name != artifacts[i].name;
    }
    Sorting.SortAscending(artifacts, NameLess);
  }

  /** The artifacts a lookup gives back are the published ones, each under its name. */
  lemma {:induction false} ArtifactMapMeans(xs: seq<Artifact>)
    requires forall i, k | 0 <= i < k < |xs| :: xs[i].name != xs[k].name
    ensures ArtifactMap(xs).Keys == (set a | a in xs :: a.name)
    ensures forall a | a in xs :: ArtifactMap(xs)[a.name] == a.data
    decreases |xs|
  {
    if xs != [] {
      var front, last := xs[..|xs| - 1], xs[|xs| - 1];
      assert xs == front + [last];
      ArtifactMapMeans(front);
      forall a | a in front ensures a.name != last.name {
        var i :| 0 <= i < |front| && front[i] == a;
        assert xs[i].name != xs[|xs| - 1].name;
      }
    }
  }

  /** Sorting leaves that so: a published dictionary comes back as it was given. */
  lemma {:induction false} PublishedBytes(artifacts: seq<Artifact>)
    requires forall i, k | 0 <= i < k < |artifacts| :: artifacts[i].name != artifacts[k].name
    ensures var r := ArtifactMap(Sorting.Sort(artifacts, NameLess));
      r.Keys == (set a | a in artifacts :: a.name) && forall a | a in artifacts :: r[a.name] == a.data
  {
    var sorted := Sorting.Sort(artifacts, NameLess);
    DescriptorsAscend(artifacts);
    Sorting.SortElements(artifacts, NameLess);
    forall i, k | 0 <= i < k < |sorted| ensures sorted[i].name != sorted[k].name {
      assert Less(DescriptorsOf(sorted)[i].name, DescriptorsOf(sorted)[k].name);
      LessIrreflexive(sorted[i].name);
    }
    ArtifactMapMeans(sorted);
  }

  /** `publish_invalidation`; `None` where the record does not validate. */
  method PublishInvalidation(store: MemoryStore, resultDigest: Digest, producer: Text, invalidatedAt: Time, reason: Text)
    returns (record: Option<Invalidation>)
    modifies store
    ensures var r := Invalidation(resultDigest, invalidatedAt, producer, reason);
      && record == (if ValidInvalidation(r) then Some(r) else None)
      && store.Contents() == Apply(old(store.Contents()), Op.PutInvalidation(r))
  {
    var r := Invalidation(resultDigest, invalidatedAt, producer, reason);
    var ok := store.PutInvalidation(r);
    return if ok then Some(r) else None;
  }

  /** The loop that stores the bytes and describes them. */
  method PutArtifacts(store: MemoryStore, sorted: seq<Artifact>) returns (descriptors: seq<Descriptor>)
    modifies store
    ensures descriptors == DescriptorsOf(sorted)
    ensures store.Contents() == Run(old(store.Contents()), BlobOps(sorted))
  {
    descriptors := [];
    for i := 0 to |sorted|
      invariant descriptors == DescriptorsOf(sorted[..i])
      invariant store.Contents() == Run(old(store.Contents()), BlobOps(sorted[..i]))
    {
      var d := store.PutBlob(sorted[i].data);
      RunConcat(old(store.Contents()), BlobOps(sorted[..i]), [Op.PutBlob(sorted[i].data)]);
      assert BlobOps(sorted[..i + 1]) == BlobOps(sorted[..i]) + [Op.PutBlob(sorted[i].data)];
      descriptors := descriptors + [Descriptor(sorted[i].name, d, |sorted[i].data|, sorted[i].mediaType)];
    }
    assert sorted[..|sorted|] == sorted;
  }

  // ---------- publishing, then looking up ----------

  /** The artifacts as `reuse` returns them. */
  function ArtifactMap(xs: seq<Artifact>): map<Text, Bytes> {
    if xs == [] then map[] else ArtifactMap(xs[..|xs| - 1])[xs[|xs| - 1].name := xs[|xs| - 1].data]
  }

  ghost predicate Holds(s: State, xs: seq<Artifact>) {
    forall x | x in xs :: DigestBytes(x.data) in s.blobs && s.blobs[DigestBytes(x.data)] == x.data
  }

  lemma {:induction false} BlobsPut(s: State, xs: seq<Artifact>)
    requires Addressed(s)
    ensures Holds(Run(s, BlobOps(xs)), xs) && Run(s, BlobOps(xs)) == s.(blobs := Run(s, BlobOps(xs)).blobs)
    decreases |xs|
  {
    if xs != [] {
      var first := Op.PutBlob(xs[0].data);
      assert BlobOps(xs)[1..] == BlobOps(xs[1..]);
      ApplyGrows(s, first);
      BlobsPut(Apply(s, first), xs[1..]);
      RunGrows(Apply(s, first), BlobOps(xs[1..]));
      assert forall x :: x in xs <==> x == xs[0] || x in xs[1..];
    }
  }

  /** What one publication leaves behind. */
  lemma PublishLeaves(s: State, artifacts: seq<Artifact>, m: Manifest)
    requires Addressed(s)
    ensures var s' := Run(s, PublishOps(artifacts, m));
      && Addressed(s') && Holds(s', artifacts)
      && s'.validations == s.validations && s'.invalidations == s.invalidations
      && (ValidManifest(m) ==> s'.results == Appended(s.results, m.actionDigest, m))
      && (!ValidManifest(m) ==> s'.results == s.results)
  {
    var sorted := Sorting.Sort(artifacts, NameLess);
    Sorting.SortElements(artifacts, NameLess);
    BlobsPut(s, sorted);
    RunConcat(s, BlobOps(sorted), [Op.PutResult(m)]);
    RunGrows(s, PublishOps(artifacts, m));
    assert Run(s, PublishOps(artifacts, m)) == Apply(Run(s, BlobOps(sorted)), Op.PutResult(m));
  }

  lemma LoadStep(blob: Digest -> Read<Option<Bytes>>, xs: seq<Artifact>, k: nat)
    requires k < |xs| && blob(DigestBytes(xs[k].data)) == Readable(Some(xs[k].data))
    ensures Load(DescriptorsOf(xs[k..]), blob, ArtifactMap(xs[..k])) ==
            Load(DescriptorsOf(xs[k + 1..]), blob, ArtifactMap(xs[..k + 1]))
  {
    assert DescriptorsOf(xs[k..])[1..] == DescriptorsOf(xs[k + 1..]);
    assert xs[..k + 1][..k] == xs[..k];
  }

  lemma {:induction false} LoadPublished(blob: Digest -> Read<Option<Bytes>>, xs: seq<Artifact>, k: nat)
    requires k <= |xs|
    requires forall x | x in xs :: blob(DigestBytes(x.data)) == Readable(Some(x.data))
    ensures Load(DescriptorsOf(xs[k..]), blob, ArtifactMap(xs[..k])) == Accepted(ArtifactMap(xs), None)
    decreases |xs| - k
  {
    if k < |xs| {
      LoadStep(blob, xs, k);
      LoadPublished(blob, xs, k + 1);
    } else {
      assert xs[..k] == xs;
    }
  }

  // ---------- a published result and its upstreams ----------

  /** Below every dependency of `m` hangs a sound unfolding, and together they keep within the bounds. */
  ghost predicate UpstreamsAdmissible(w: World, m: Manifest, upstream: seq<Tree>) {
    && |upstream| == |Dependencies(m)|
    && (forall i | 0 <= i < |upstream| ::
          Upstream(w, Dependencies(m)[i].resultDigest, upstream[i], w.policy.maxDepth - 1))
    && Edges(Tree(m, 0, upstream)) <= w.policy.maxCount
  }

  /** A run that records no invalidation leaves a passable tree passable. */
  lemma PassableAfterRun(name: Text, s: State, ops: seq<Op>, policy: Policy, t: Tree, n: int)
    requires Addressed(s) && OnlyAdds(ops) && Passable(Alone(name, s, policy), t, n, false, false)
    ensures Passable(Alone(name, Run(s, ops), policy), t, n, false, false)
  {
    RunGrows(s, ops);
    UnfoldsInGrown(name, s, Run(s, ops), policy, t);
    GrowsItself(s);
    AllSoundInGrown(name, s, s, policy, t, false, false);
    AllSoundInGrown(name, s, Run(s, ops), policy, t, false, false);
    StruckWithinAfterRun(name, s, ops, policy, t);
    assert forall r :: !Heeded(ops, policy, r);
  }

  lemma GrowsItself(s: State)
    ensures Grown(s, s)
  {
  }

  lemma UpstreamAfterRun(name: Text, s: State, ops: seq<Op>, policy: Policy, d: Digest, t: Tree, n: int)
    requires Addressed(s) && OnlyAdds(ops) && Upstream(Alone(name, s, policy), d, t, n)
    ensures Upstream(Alone(name, Run(s, ops), policy), d, t, n)
  {
    PassableAfterRun(name, s, ops, policy, t, n);
    RunGrows(s, ops);
    LocateAlone(name, s, d);
    LocateAlone(name, Run(s, ops), d);
  }

  /** The result's own conditions: trusted, fresh, never invalidated, and of lineage form where that is required. */
  ghost predicate Reusable(s: State, policy: Policy, m: Manifest) {
    && ValidManifest(m) && !Struck(s, policy, m) && Policy.Trusts(policy.trustedProducers, m.producer)
    && (policy.requireLineage ==> m.version == ResultV1)
    && if m.freshUntil.Some? then m.freshUntil.value >= policy.now else policy.permitNoExpiry
  }

  /** What the root's own examination gives when the store holds its artifacts. */
  lemma OwnExamination(name: Text, s: State, policy: Policy, m: Manifest, sorted: seq<Artifact>)
    requires Reusable(s, policy, m) && m.artifacts == DescriptorsOf(sorted) && Holds(s, sorted)
    ensures var own := Examine(Alone(name, s, policy), m, 0, true, false);
      own.Accepted? && own.artifacts == ArtifactMap(sorted)
  {
    var w := Alone(name, s, policy);
    NotInvalidated(name, s, policy, m, m.version == ResultV1);
    StillFresh(m, w.stores[0].validations(ManifestDigest(m)), policy);
    LoadPublished(View(name, s).blob, sorted, 0);
    assert sorted[0..] == sorted && sorted[..0] == [];
    assert w.stores[0] == View(name, s);
    assert Load(m.artifacts, w.stores[0].blob, map[]) == Accepted(ArtifactMap(sorted), None);
  }

  lemma RootCertified(w: World, m: Manifest, upstream: seq<Tree>)
    requires |w.stores| == 1 && ValidManifest(m) && UpstreamsAdmissible(w, m, upstream)
    requires Examine(w, m, 0, true, false).Accepted? && (w.policy.requireLineage ==> m.version == ResultV1)
    ensures Certifies(w, Tree(m, 0, upstream), m, 0, false)
  {
    ExamineAccepts(w, m, 0, true, false);
    PassableWhole(w, Tree(m, 0, upstream), w.policy.maxDepth, w.policy.maxDepth - 1, true, false);
  }

  /** The verdict on a manifest whose artifacts and upstreams the store has. */
  lemma PublishedVerdict(name: Text, s: State, policy: Policy, m: Manifest, sorted: seq<Artifact>, upstream: seq<Tree>)
    requires Reusable(s, policy, m) && m.artifacts == DescriptorsOf(sorted) && Holds(s, sorted)
    requires UpstreamsAdmissible(Alone(name, s, policy), m, upstream)
    ensures var v := VerdictOn(Alone(name, s, policy), m.actionDigest, m, 0, false);
      v.Accepted? && v.artifacts == ArtifactMap(sorted)
  {
    var w := Alone(name, s, policy);
    OwnExamination(name, s, policy, m, sorted);
    RootCertified(w, m, upstream);
    CertificateGivesVerdict(w, Tree(m, 0, upstream), m, 0, false, true);
  }

  /**
   Publish, then look up: a result that its policy trusts, that is still fresh and was never invalidated, and whose
   upstreams, if it names any, are admissible within the bounds, is hit first and gives back exactly its artifacts.
   */
  lemma PublishedIsReused(name: Text, s: State, policy: Policy, actionDigest: Digest, artifacts: seq<Artifact>,
                          producer: Text, producedAt: Time, freshUntil: Option<Time>,
                          dependencies: Option<seq<Dependency>>, upstream: seq<Tree>)
    requires Addressed(s)
    requires var m := ManifestFor(actionDigest, artifacts, producer, producedAt, freshUntil, dependencies);
      Reusable(s, policy, m) && UpstreamsAdmissible(Alone(name, s, policy), m, upstream)
    ensures var m := ManifestFor(actionDigest, artifacts, producer, producedAt, freshUntil, dependencies);
      var o := Reused(Alone(name, Run(s, PublishOps(artifacts, m)), policy), actionDigest);
      o.Hit? && o.manifest == m && o.artifacts == ArtifactMap(Sorting.Sort(artifacts, NameLess))
  {
    var m := ManifestFor(actionDigest, artifacts, producer, producedAt, freshUntil, dependencies);
    PublishedFirst(name, s, policy, artifacts, m, upstream);
  }

  lemma UpstreamsAfterRun(name: Text, s: State, ops: seq<Op>, policy: Policy, m: Manifest, upstream: seq<Tree>)
    requires Addressed(s) && OnlyAdds(ops) && UpstreamsAdmissible(Alone(name, s, policy), m, upstream)
    ensures UpstreamsAdmissible(Alone(name, Run(s, ops), policy), m, upstream)
  {
    forall i | 0 <= i < |upstream|
      ensures Upstream(Alone(name, Run(s, ops), policy), Dependencies(m)[i].resultDigest, upstream[i], policy.maxDepth - 1)
    {
      UpstreamAfterRun(name, s, ops, policy, Dependencies(m)[i].resultDigest, upstream[i], policy.maxDepth - 1);
    }
  }

  lemma PublishOnlyAdds(artifacts: seq<Artifact>, m: Manifest)
    ensures OnlyAdds(PublishOps(artifacts, m))
  {
  }

  lemma PublishedFirst(name: Text, s: State, policy: Policy, artifacts: seq<Artifact>, m: Manifest, upstream: seq<Tree>)
    requires Addressed(s) && Reusable(s, policy, m) && UpstreamsAdmissible(Alone(name, s, policy), m, upstream)
    requires m.artifacts == DescriptorsOf(Sorting.Sort(artifacts, NameLess))
    ensures var o := Reused(Alone(name, Run(s, PublishOps(artifacts, m)), policy), m.actionDigest);
      o.Hit? && o.manifest == m && o.artifacts == ArtifactMap(Sorting.Sort(artifacts, NameLess))
  {
    var ops, sorted := PublishOps(artifacts, m), Sorting.Sort(artifacts, NameLess);
    var s' := Run(s, ops);
    PublishLeaves(s, artifacts, m);
    PublishOnlyAdds(artifacts, m);
    UpstreamsAfterRun(name, s, ops, policy, m, upstream);
    Sorting.SortElements(artifacts, NameLess);
    PublishedVerdict(name, s', policy, m, sorted, upstream);
    NewestAcceptedIsHit(name, s', policy, m.actionDigest, Listed(s.results, m.actionDigest), m);
  }

  /** The newest candidate is evaluated first. */
  lemma NewestAcceptedIsHit(name: Text, s: State, policy: Policy, actionDigest: Digest, earlier: seq<Manifest>, m: Manifest)
    requires Listed(s.results, actionDigest) == earlier + [m]
    requires VerdictOn(Alone(name, s, policy), actionDigest, m, 0, false).Accepted?
    ensures var o := Reused(Alone(name, s, policy), actionDigest);
      var v := VerdictOn(Alone(name, s, policy), actionDigest, m, 0, false);
      o == Hit(0, m, v.artifacts, v.validation, [])
  {
    var w := Alone(name, s, policy);
    var ms := Reversed(earlier + [m]);
    assert ms[0] == m;
    assert CandidatesOf(w, actionDigest, 0) == Readable(ms);
    assert SearchFrom(w, actionDigest, false, 0) == SearchStore(w, actionDigest, false, 0, ms, 0);
  }

  lemma NotInvalidated(name: Text, s: State, policy: Policy, m: Manifest, required: bool)
    requires ValidManifest(m) && !Struck(s, policy, m)
    ensures InvalidationFailure(InvalidationsOf(View(name, s), ManifestDigest(m)), policy, required) == None
  {
    var rs := Listed(s.invalidations, ManifestDigest(m));
    ReversedElements(rs);
    forall i | 0 <= i < |Reversed(rs)| ensures !policy.Effective(Reversed(rs)[i]) {
      assert Reversed(rs)[i] in rs;
    }
  }

  lemma StillFresh(m: Manifest, validations: Read<seq<Validation>>, policy: Policy)
    requires validations.Readable?
    requires if m.freshUntil.Some? then m.freshUntil.value >= policy.now else policy.permitNoExpiry
    ensures FreshnessOf(m, validations, policy).Fresh?
  {
  }

  /** The verdict on a stand-alone manifest whose artifacts the store holds. */
  lemma StandaloneVerdict(name: Text, s: State, policy: Policy, m: Manifest, sorted: seq<Artifact>)
    requires Reusable(s, policy, m) && m.version == ResultV0 && m.artifacts == DescriptorsOf(sorted) && Holds(s, sorted)
    ensures var v := VerdictOn(Alone(name, s, policy), m.actionDigest, m, 0, false);
      v.Accepted? && v.artifacts == ArtifactMap(sorted)
  {
    assert Dependencies(m) == [];
    PublishedVerdict(name, s, policy, m, sorted, []);
  }

  // ---------- a published result falls with its upstreams ----------

  /** A record that revokes an upstream rejects what depends on it. */
  lemma RevokedUpstreamRejects(name: Text, s: State, policy: Policy, m: Manifest, i: nat, r: Invalidation,
                               ignoreFreshness: bool)
    requires ValidManifest(m) && i < |Dependencies(m)| && r in Listed(s.invalidations, Dependencies(m)[i].resultDigest)
    requires policy.Effective(r)
    ensures !Admissible(Alone(name, s, policy), m, 0, ignoreFreshness)
  {
    var w := Alone(name, s, policy);
    if t :| Certifies(w, t, m, 0, ignoreFreshness) {
      var u := t.upstream[i];
      assert AllSound(w, u, false, false) && Sound(w, u.manifest, u.store, false, false);
      assert u.store == 0 && ManifestDigest(u.manifest) == Dependencies(m)[i].resultDigest;
      ReversedElements(Listed(s.invalidations, Dependencies(m)[i].resultDigest));
    }
  }

  /**
   Publish on an upstream, then revoke the upstream: over every run that records a valid invalidation of `d`, dated by now
   and by a producer the policy trusts for that, a result that names `d` among its dependencies is inadmissible.
   */
  lemma PublishedFallsWithUpstream(name: Text, s: State, ops: seq<Op>, policy: Policy, m: Manifest, d: Dependency,
                                   r: Invalidation, ignoreFreshness: bool)
    requires ValidManifest(m) && m.dependencies.Some? && d in m.dependencies.value
    requires Op.PutInvalidation(r) in ops && ValidInvalidation(r) && r.resultDigest == d.resultDigest
    requires r.invalidatedAt <= policy.now
    requires policy.trustedInvalidationProducers.Some? ==> r.producer in policy.trustedInvalidationProducers.value
    requires policy.trustedInvalidationProducers.None? && policy.trustedProducers.Some? ==>
               r.producer in policy.trustedProducers.value
    ensures var w := Alone(name, Run(s, ops), policy);
      && !Admissible(w, m, 0, ignoreFreshness)
      && !VerdictOn(w, m.actionDigest, m, 0, ignoreFreshness).Accepted?
  {
    RunRecords(s, ops, d.resultDigest, r);
    var i :| 0 <= i < |Dependencies(m)| && Dependencies(m)[i] == d;
    RevokedUpstreamRejects(name, Run(s, ops), policy, m, i, r, ignoreFreshness);
    AcceptedExactlyWhenAdmissible(Alone(name, Run(s, ops), policy), m.actionDigest, m, 0, ignoreFreshness, true);
  }

  /** When the revoked upstream is the first dependency and nothing else is wrong, the reason is `dependency_invalidated`. */
  lemma RevokedUpstreamReason(name: Text, s: State, policy: Policy, m: Manifest, u: Manifest, r: Invalidation,
                              ignoreFreshness: bool)
    requires Addressed(s) && ValidManifest(m) && ValidManifest(u) && Dependencies(m) != []
    requires ManifestDigest(u) == Dependencies(m)[0].resultDigest != ManifestDigest(m)
    requires ManifestDigest(u) in s.byDigest && s.byDigest[ManifestDigest(u)] == u
    requires Examine(Alone(name, s, policy), m, 0, true, ignoreFreshness).Accepted?
    requires Policy.Trusts(policy.trustedProducers, u.producer) && (policy.requireLineage ==> u.version == ResultV1)
    requires r in Listed(s.invalidations, ManifestDigest(u)) && policy.Effective(r)
    ensures VerdictOn(Alone(name, s, policy), m.actionDigest, m, 0, ignoreFreshness) == Rejected(OfDependency(Invalidated))
  {
    var w, d := Alone(name, s, policy), ManifestDigest(u);
    LocateAlone(name, s, d);
    RevokedIsRejected(name, s, policy, u, r);
    var active := {} + {ManifestDigest(m)};
    assert Evaluate(w, u.actionDigest, u, 0, active, 1, 1, false, true) == (Rejected(Invalidated), 1);
    assert EvaluateUpstream(w, d, active, 0, 0, true).0 == Some(Rejected(OfDependency(Invalidated)));
    assert EvaluateFrom(w, m, 0, active, 0, 0, true).0 == Some(Rejected(OfDependency(Invalidated)));
  }

  lemma RevokedIsRejected(name: Text, s: State, policy: Policy, u: Manifest, r: Invalidation)
    requires ValidManifest(u) && Policy.Trusts(policy.trustedProducers, u.producer)
    requires r in Listed(s.invalidations, ManifestDigest(u)) && policy.Effective(r)
    ensures Examine(Alone(name, s, policy), u, 0, false, false) == Rejected(Invalidated)
  {
    var rs := Listed(s.invalidations, ManifestDigest(u));
    ReversedElements(rs);
    var i :| 0 <= i < |Reversed(rs)| && Reversed(rs)[i] == r;
    assert InvalidationsOf(View(name, s), ManifestDigest(u)) == Some(Readable(Reversed(rs)));
    assert policy.Effective(Reversed(rs)[i]);
  }
}
