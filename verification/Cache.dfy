/** `cache.py`, step by step: the loops and the shared traversal state, proved against module Evaluation. */
module Cache {
  import opened Text
  import opened Digests
  import opened Records
  import opened Stores
  import opened Evaluation
  import opened Search

  /** `_DependencyTraversal`; `calls` counts the recursive evaluations made so far. */
  class DependencyTraversal {
    var active: set<Digest>
    var edges: nat
    ghost var calls: nat

    constructor ()
      ensures active == {} && edges == 0 && calls == 0
    {
      active, edges, calls := {}, 0, 0;
    }
  }

  method EffectiveInvalidated(m: Manifest, store: Store, policy: Policy, required: bool) returns (r: Option<Reason>)
    requires ValidManifest(m)
    ensures r == InvalidationFailure(InvalidationsOf(store, ManifestDigest(m)), policy, required)
  {
    if store.invalidations.None? {
      return if required then Some(InvalidationLookupUnsupported) else None;
    }
    var d := DigestOf(m);
    var answer := store.invalidations.value(d);
    if answer.Unreadable? {
      return Some(InvalidationReadFailed);
    }
    var records := answer.value;
    for i := 0 to |records|
      invariant forall k | 0 <= k < i :: !policy.Effective(records[k])
    {
      if Policy.Trusts(policy.InvalidationTrust(), records[i].producer) && records[i].invalidatedAt <= policy.now {
        return Some(Invalidated);
      }
    }
    return None;
  }

  /** `manifest_digest`, computed. */
  method DigestOf(m: Manifest) returns (d: Digest)
    requires ValidManifest(m)
    ensures d == ManifestDigest(m)
  {
    ManifestDigestIsCanonical(m);
    d := ObjectDigest(ManifestJson(m)).value;
  }

  method LocateResult(d: Digest, stores: seq<Store>) returns (r: Location)
    ensures r == Locate(stores, d)
  {
    var readFailed, supported := false, false;
    for k := 0 to |stores|
      invariant forall j | 0 <= j < k :: !Answers(stores[j], d)
      invariant readFailed <==> exists j | 0 <= j < k :: stores[j].result.Some? && stores[j].result.value(d).Unreadable?
      invariant supported <==> exists j | 0 <= j < k :: stores[j].result.Some?
    {
      if stores[k].result.None? {
        continue;
      }
      supported := true;
      var answer := stores[k].result.value(d);
      if answer.Unreadable? {
        readFailed := true;
        continue;
      }
      if answer.value.None? {
        continue;
      }
      var m := answer.value.value;
      FirstAnswerAt(stores, d, k);
      var ok := ValidateManifest(m);
      if !ok {
        return NotFound(DependencyInvalidManifest);
      }
      var actual := DigestOf(m);
      if actual != d {
        return NotFound(DependencyDigestMismatch);
      }
      return Found(m, k);
    }
    if readFailed {
      return NotFound(DependencyReadFailed);
    }
    if !supported {
      return NotFound(DependencyLookupUnsupported);
    }
    return NotFound(DependencyMissing);
  }

  lemma FirstAnswerAt(stores: seq<Store>, d: Digest, k: nat)
    requires k < |stores| && Answers(stores[k], d)
    requires forall j | 0 <= j < k :: !Answers(stores[j], d)
    ensures FirstAnswer(stores, d) == k
  {
    assert k < |stores| && !(FirstAnswer(stores, d) > k);
  }

  method SelectFreshness(m: Manifest, store: Store, policy: Policy) returns (r: Freshness)
    requires ValidManifest(m)
    ensures r == FreshnessOf(m, store.validations(ManifestDigest(m)), policy)
  {
    var isFresh := m.freshUntil.Some? && m.freshUntil.value >= policy.now;
    var selected: Option<Validation> := None;
    if !isFresh {
      var d := DigestOf(m);
      var answer := store.validations(d);
      if answer.Unreadable? {
        return Stale(ValidationReadFailed);
      }
      var vs := answer.value;
      for i := 0 to |vs|
        invariant FirstExtension(vs, policy) == FirstExtension(vs[i..], policy)
        invariant !isFresh && selected.None?
      {
        assert vs[i..][1..] == vs[i + 1..];
        if Policy.Trusts(policy.ValidationTrust(), vs[i].producer) && vs[i].freshUntil >= policy.now {
          isFresh := true;
          selected := Some(vs[i]);
          break;
        }
      }
    }
    if !isFresh {
      if m.freshUntil.None? && !policy.permitNoExpiry {
        return Stale(MissingFreshnessRule);
      }
      if m.freshUntil.Some? {
        return Stale(Expired);
      }
    }
    return Fresh(selected);
  }

  method LoadArtifacts(xs: seq<Descriptor>, blob: Digest -> Read<Option<Bytes>>) returns (v: Verdict)
    ensures v == Load(xs, blob, map[])
  {
    var artifacts: map<Text, Bytes> := map[];
    for i := 0 to |xs|
      invariant Load(xs, blob, map[]) == Load(xs[i..], blob, artifacts)
    {
      var a := xs[i];
      assert xs[i..][0] == a && xs[i..][1..] == xs[i + 1..];
      var b := blob(a.digest);
      if b.Unreadable? {
        return Raised;
      }
      if b.value.None? {
        return Rejected(ArtifactMissing);
      }
      if |b.value.value| != a.size || DigestBytes(b.value.value) != a.digest {
        return Rejected(ArtifactIntegrityFailure);
      }
      artifacts := artifacts[a.name := b.value.value];
    }
    return Accepted(artifacts, None);
  }

  /** The checks of `_evaluate` between the cycle check and the dependencies. */
  method ExamineManifest(w: World, m: Manifest, k: nat, depth: nat, ignoreFreshness: bool) returns (v: Verdict)
    requires k < |w.stores| && ValidManifest(m)
    ensures v == Examine(w, m, k, depth == 0, ignoreFreshness)
  {
    var store := w.stores[k];
    if w.policy.trustedProducers.Some? && m.producer !in w.policy.trustedProducers.value {
      return Rejected(UntrustedProducer);
    }
    var invalidation := EffectiveInvalidated(m, store, w.policy, m.version == ResultV1 || depth > 0);
    if invalidation.Some? {
      return Rejected(invalidation.value);
    }
    var freshness := Fresh(None);
    if !ignoreFreshness {
      freshness := SelectFreshness(m, store, w.policy);
    }
    if freshness.Stale? {
      return Rejected(freshness.reason);
    }
    v := LoadArtifacts(m.artifacts, store.blob);
    if v.Accepted? {
      v := Accepted(v.artifacts, freshness.validation);
    }
  }

  /**
   `_evaluate`. On every exit the digests active at entry are active again; within one traversal there are
   never more recursive evaluations than counted edges, nor more than the policy allows.
   */
  method EvaluateCandidate(w: World, requested: Text, m: Manifest, k: nat, traversal: DependencyTraversal,
                           depth: nat, ignoreFreshness: bool) returns (v: Verdict)
    requires k < |w.stores| && depth <= w.policy.maxDepth + 1
    requires traversal.calls <= traversal.edges && traversal.calls <= w.policy.maxCount
    modifies traversal
    ensures traversal.active == old(traversal.active)
    ensures (v, traversal.edges) ==
      Evaluate(w, requested, m, k, old(traversal.active), old(traversal.edges), depth, ignoreFreshness, true)
    ensures old(traversal.calls) <= traversal.calls <= traversal.edges && traversal.calls <= w.policy.maxCount
    decreases w.policy.maxDepth + 1 - depth, 2
  {
    var valid := ValidateManifest(m);
    if !valid {
      return Rejected(InvalidManifest);
    }
    if m.actionDigest != requested {
      return Rejected(ActionDigestMismatch);
    }
    if w.policy.requireLineage && m.version != ResultV1 {
      return Rejected(LineageRequired);
    }
    var d := DigestOf(m);
    if depth > w.policy.maxDepth {
      return Rejected(DependencyDepthExceeded);
    }
    if d in traversal.active {
      return Rejected(DependencyCycle);
    }
    v := ExamineManifest(w, m, k, depth, ignoreFreshness);
    if !v.Accepted? {
      return;
    }
    if m.version == ResultV1 {
      traversal.active := traversal.active + {d};
      var failure := EvaluateDependencies(w, m, traversal, depth);
      traversal.active := traversal.active - {d};
      if failure.Some? {
        v := failure.value;
      }
    }
  }

  /** The dependency loop of `_evaluate`; its caller takes the digest off `active` again whatever happens here. */
  method EvaluateDependencies(w: World, m: Manifest, traversal: DependencyTraversal, depth: nat)
    returns (failure: Option<Verdict>)
    requires ValidManifest(m) && m.version == ResultV1 && depth <= w.policy.maxDepth
    requires traversal.calls <= traversal.edges && traversal.calls <= w.policy.maxCount
    modifies traversal
    ensures traversal.active == old(traversal.active)
    ensures (failure, traversal.edges) ==
      EvaluateFrom(w, m, 0, old(traversal.active), old(traversal.edges), depth, true)
    ensures old(traversal.calls) <= traversal.calls <= traversal.edges && traversal.calls <= w.policy.maxCount
    decreases w.policy.maxDepth + 1 - depth, 1
  {
    var ds := m.dependencies.value;
    for i := 0 to |ds|
      invariant traversal.active == old(traversal.active)
      invariant old(traversal.calls) <= traversal.calls <= traversal.edges && traversal.calls <= w.policy.maxCount
      invariant EvaluateFrom(w, m, 0, old(traversal.active), old(traversal.edges), depth, true) ==
                EvaluateFrom(w, m, i, traversal.active, traversal.edges, depth, true)
    {
      var failed := EvaluateDependency(w, ds[i].resultDigest, traversal, depth);
      if failed.Some? {
        return failed;
      }
    }
    return None;
  }

  /** One turn of the dependency loop. */
  method EvaluateDependency(w: World, d: Digest, traversal: DependencyTraversal, depth: nat)
    returns (failure: Option<Verdict>)
    requires depth <= w.policy.maxDepth
    requires traversal.calls <= traversal.edges && traversal.calls <= w.policy.maxCount
    modifies traversal
    ensures traversal.active == old(traversal.active)
    ensures (failure, traversal.edges) ==
      EvaluateUpstream(w, d, old(traversal.active), old(traversal.edges), depth, true)
    ensures old(traversal.calls) <= traversal.calls <= traversal.edges && traversal.calls <= w.policy.maxCount
    decreases w.policy.maxDepth + 1 - depth, 0
  {
    traversal.edges := traversal.edges + 1;
    if traversal.edges > w.policy.maxCount {
      return Some(Rejected(DependencyCountExceeded));
    }
    var location := LocateResult(d, w.stores);
    if location.NotFound? {
      return Some(Rejected(location.reason));
    }
    var dependency := location.manifest;
    traversal.calls := traversal.calls + 1;
    var verdict :=
      EvaluateCandidate(w, dependency.actionDigest, dependency, location.store, traversal, depth + 1, false);
    if verdict.Rejected? {
      return Some(Rejected(if verdict.reason.AboutDependency() then verdict.reason else OfDependency(verdict.reason)));
    }
    if verdict.Raised? {
      return Some(Raised);
    }
    return None;
  }

  /** The loops shared by `reuse` and `candidate_for_revalidation`: every candidate gets a fresh traversal. */
  method LookUp(w: World, requested: Digest, ignoreFreshness: bool) returns (o: Outcome)
    ensures o == SearchFrom(w, requested, ignoreFreshness, 0)
  {
    var rejections: seq<Rejection> := [];
    for k := 0 to |w.stores|
      invariant SearchFrom(w, requested, ignoreFreshness, 0) ==
                After(rejections, SearchFrom(w, requested, ignoreFreshness, k))
    {
      var answer := w.stores[k].candidates(requested);
      if answer.Unreadable? {
        AfterAfter(rejections, [TierUnreadable(w.stores[k].name)], SearchFrom(w, requested, ignoreFreshness, k + 1));
        rejections := rejections + [TierUnreadable(w.stores[k].name)];
        continue;
      }
      var ms := answer.value;
      for i := 0 to |ms|
        invariant SearchFrom(w, requested, ignoreFreshness, 0) ==
                  After(rejections, SearchStore(w, requested, ignoreFreshness, k, ms, i))
      {
        var traversal := new DependencyTraversal();
        var verdict := EvaluateCandidate(w, requested, ms[i], k, traversal, 0, ignoreFreshness);
        if verdict.Raised? {
          return LookupRaised;
        }
        if verdict.Accepted? {
          return Hit(k, ms[i], verdict.artifacts, verdict.validation, rejections);
        }
        var rejection := TurnedDown(w.stores[k].name, verdict.reason);
        AfterAfter(rejections, [rejection], SearchStore(w, requested, ignoreFreshness, k, ms, i + 1));
        rejections := rejections + [rejection];
      }
    }
    return Miss(rejections);
  }

  lemma AfterAfter(a: seq<Rejection>, b: seq<Rejection>, o: Outcome)
    ensures After(a, After(b, o)) == After(a + b, o)
  {
    if !o.LookupRaised? {
      assert a + (b + o.rejections) == a + b + o.rejections;
    }
  }

  method Reuse(w: World, requested: Digest) returns (o: Outcome)
    ensures o == Reused(w, requested) && FindsFirst(w, requested, false, 0, 0, o)
  {
    o := LookUp(w, requested, false);
    SearchFindsFirst(w, requested, false, 0);
  }

  method CandidateForRevalidation(w: World, requested: Digest) returns (o: Outcome)
    ensures o == RevalidationCandidate(w, requested) && FindsFirst(w, requested, true, 0, 0, o)
  {
    o := LookUp(w, requested, true);
    SearchFindsFirst(w, requested, true, 0);
  }
}
