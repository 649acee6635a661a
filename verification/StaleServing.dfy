/** When the stale-while-revalidate branch serves stale bytes, a fresh hit, or executes, and why. */
module StaleServing {
  import opened Text
  import opened Digests
  import opened Records
  import opened Stores
  import opened Evaluation
  import opened Search
  import opened StaleWhileRevalidate

  /** The first store of that name. */
  predicate FirstNamed(stores: seq<Store>, name: Text, k: nat) {
    k < |stores| && stores[k].name == name && forall j | 0 <= j < k :: stores[j].name != name
  }

  /** The latest of the manifest's own boundary and those that trusted validations set. */
  ghost predicate Latest(b: Time, own: Option<Time>, vs: seq<Validation>, trusted: set<Text>) {
    && (own == Some(b) || exists v :: v in vs && v.producer in trusted && v.freshUntil == b)
    && (own.Some? ==> own.value <= b)
    && (forall v | v in vs && v.producer in trusted :: v.freshUntil <= b)
  }

  /** The candidate: found with exactly this policy, its own freshness excused. */
  ghost function CandidateFor(stores: seq<Store>, requested: Digest, p: OperationPolicy, now: Time): Outcome {
    var policy :=
      Policy(now, Some(p.trustedResultProducers), Some(p.trustedValidationProducers), None, false, false, 8, 64);
    RevalidationCandidate(World(stores, policy), requested)
  }

  /** A supplier that may be served from, and the validations in the first store of its name. */
  ghost predicate Stands(stores: seq<Store>, o: Outcome, j: nat, vs: seq<Validation>) {
    && o.Hit? && o.store < |stores| && ValidManifest(o.manifest)
    && FirstNamed(stores, stores[o.store].name, j)
    && stores[j].validations(ManifestDigest(o.manifest)) == Readable(vs)
  }

  /** Everything the caller must bring for a refresh to be under way. */
  predicate CanRefresh(p: OperationPolicy, o: Outcome, caller: Caller)
    requires o.Hit?
  {
    && caller.hasValidator(o.artifacts)
    && caller.producer in p.trustedValidationProducers && caller.producer in p.trustedResultProducers
    && caller.coordinator.Some? && caller.publishes && caller.coordinator.value != Refused
  }

  lemma NamedIsFirst(stores: seq<Store>, name: Text, k: nat)
    requires FirstNamed(stores, name, k)
    ensures StoreNamed(stores, name) == k
  {
    assert StoreNamed(stores, name) <= |stores|;
  }

  lemma LatestMeans(own: Option<Time>, vs: seq<Validation>, trusted: set<Text>, b: Time)
    ensures LatestFrom(own, vs, trusted) == Some(b) <==> Latest(b, own, vs, trusted)
  {
    LatestIsMaximum(own, vs, trusted);
  }

  lemma BoundaryFound(stores: seq<Store>, o: Outcome, j: nat, vs: seq<Validation>, trusted: set<Text>)
    requires Stands(stores, o, j, vs)
    ensures LatestTrustedFreshness(stores, o.manifest, stores[o.store].name, trusted)
         == (LatestFrom(o.manifest.freshUntil, vs, trusted), false)
  {
    NamedIsFirst(stores, stores[o.store].name, j);
  }

  /**
   Stale bytes are served exactly when a candidate stands in an allowed tier, its latest trusted boundary has passed by
   no more than the window, and the caller brings everything a refresh needs; whether a refresh was scheduled or one
   was already in flight is what the coordinator answered.
   */
  lemma ServeStaleExactly(stores: seq<Store>, requested: Digest, p: OperationPolicy, now: Time, caller: Caller, j: nat,
                          vs: seq<Validation>, b: Time)
    requires var o := CandidateFor(stores, requested, p, now);
      Stands(stores, o, j, vs) && Latest(b, o.manifest.freshUntil, vs, p.trustedValidationProducers)
    ensures var o, d := CandidateFor(stores, requested, p, now), Decide(stores, requested, p, now, caller);
      && (d.ServeStale? <==>
            && stores[o.store].name in p.allowedTiers
            && b < now <= b + p.maxStaleSeconds * 1_000_000
            && CanRefresh(p, o, caller))
      && (d.ServeStale? ==>
            && d.candidate == o
            && (d.scheduled <==> caller.coordinator == Some(Scheduled))
            && (!d.scheduled <==> caller.coordinator == Some(Coalesced)))
      && (d.FreshHit? <==> stores[o.store].name in p.allowedTiers && now <= b)
      && (d.FreshHit? ==> d.candidate == o)
  {
    var o := CandidateFor(stores, requested, p, now);
    BoundaryFound(stores, o, j, vs, p.trustedValidationProducers);
    LatestMeans(o.manifest.freshUntil, vs, p.trustedValidationProducers, b);
  }

  /** With no boundary at all, nothing is served. */
  lemma NoBoundaryExecutes(stores: seq<Store>, requested: Digest, p: OperationPolicy, now: Time, caller: Caller, j: nat,
                           vs: seq<Validation>)
    requires Stands(stores, CandidateFor(stores, requested, p, now), j, vs)
    requires forall b :: !Latest(b, CandidateFor(stores, requested, p, now).manifest.freshUntil, vs,
                                 p.trustedValidationProducers)
    ensures var o, d := CandidateFor(stores, requested, p, now), Decide(stores, requested, p, now, caller);
      d == Execute(if stores[o.store].name in p.allowedTiers then StaleFreshnessMissing else TierDenied)
  {
    var o := CandidateFor(stores, requested, p, now);
    BoundaryFound(stores, o, j, vs, p.trustedValidationProducers);
    var found := LatestFrom(o.manifest.freshUntil, vs, p.trustedValidationProducers);
    if found.Some? {
      LatestMeans(o.manifest.freshUntil, vs, p.trustedValidationProducers, found.value);
    }
  }

  /** Without a candidate nothing is served either. */
  lemma NoCandidateExecutes(stores: seq<Store>, requested: Digest, p: OperationPolicy, now: Time, caller: Caller)
    ensures var o, d := CandidateFor(stores, requested, p, now), Decide(stores, requested, p, now, caller);
      (o.LookupRaised? <==> d.Failed?) && (o.Miss? <==> d == Execute(CandidateMissing))
  {
    var o := CandidateFor(stores, requested, p, now);
    SearchFindsFirst(World(stores, TrustPolicy(p, now)), requested, true, 0);
    if o.Hit? {
      assert o.store < |stores| && ValidManifest(o.manifest);
    }
  }

  /** Nor when the validations cannot be read. */
  lemma UnreadableExecutes(stores: seq<Store>, requested: Digest, p: OperationPolicy, now: Time, caller: Caller, j: nat)
    requires var o := CandidateFor(stores, requested, p, now);
      && o.Hit? && o.store < |stores| && ValidManifest(o.manifest) && FirstNamed(stores, stores[o.store].name, j)
      && stores[j].validations(ManifestDigest(o.manifest)).Unreadable?
    ensures var o := CandidateFor(stores, requested, p, now);
      Decide(stores, requested, p, now, caller)
      == Execute(if stores[o.store].name in p.allowedTiers then StaleValidationReadFailed else TierDenied)
  {
    NamedIsFirst(stores, stores[CandidateFor(stores, requested, p, now).store].name, j);
  }

  /** Past the boundary, the first thing that is missing is the cause of execution. */
  lemma CauseOfExecution(stores: seq<Store>, requested: Digest, p: OperationPolicy, now: Time, caller: Caller, j: nat,
                         vs: seq<Validation>, b: Time)
    requires var o := CandidateFor(stores, requested, p, now);
      Stands(stores, o, j, vs) && Latest(b, o.manifest.freshUntil, vs, p.trustedValidationProducers)
    requires CandidateFor(stores, requested, p, now).store < |stores|
    requires stores[CandidateFor(stores, requested, p, now).store].name in p.allowedTiers && b < now
    ensures var o, d := CandidateFor(stores, requested, p, now), Decide(stores, requested, p, now, caller);
      var late := now > b + p.maxStaleSeconds * 1_000_000;
      && (d == Execute(StaleWindowExceeded) <==> late)
      && (d == Execute(ValidatorMissing) <==> !late && !caller.hasValidator(o.artifacts))
      && (d == Execute(ValidatorUntrusted) <==>
            !late && caller.hasValidator(o.artifacts) && caller.producer !in p.trustedValidationProducers)
      && (d == Execute(RefreshProducerUntrusted) <==>
            && !late && caller.hasValidator(o.artifacts)
            && caller.producer in p.trustedValidationProducers && caller.producer !in p.trustedResultProducers)
      && (d == Execute(RevalidationSchedulerMissing) <==> !late && Trusted(p, o, caller) && caller.coordinator.None?)
      && (d == Execute(RevalidationPublishStoreMissing) <==>
            !late && Trusted(p, o, caller) && caller.coordinator.Some? && !caller.publishes)
      && (d == Execute(RevalidationScheduleFailed) <==>
            !late && Trusted(p, o, caller) && caller.coordinator == Some(Refused) && caller.publishes)
  {
    var o := CandidateFor(stores, requested, p, now);
    BoundaryFound(stores, o, j, vs, p.trustedValidationProducers);
    LatestMeans(o.manifest.freshUntil, vs, p.trustedValidationProducers, b);
  }

  predicate Trusted(p: OperationPolicy, o: Outcome, caller: Caller)
    requires o.Hit?
  {
    && caller.hasValidator(o.artifacts)
    && caller.producer in p.trustedValidationProducers && caller.producer in p.trustedResultProducers
  }
}
