/** `runtime.py`: the stale-while-revalidate branch, and how its own freshness rule agrees with `reuse`. */
module StaleWhileRevalidate {
  import opened Text
  import opened Digests
  import opened Records
  import opened Stores
  import opened Evaluation
  import opened Lineage
  import opened Admissibility
  import opened Search
  import Cache

  /** A validated operation policy in stale-while-revalidate mode, so the stale window is positive. */
  datatype OperationPolicy = OperationPolicy(
    trustedResultProducers: set<Text>,
    trustedValidationProducers: set<Text>,
    allowedTiers: set<Text>,
    maxStaleSeconds: Positive)

  datatype Cause =
    | CandidateMissing
    | TierDenied
    | StaleValidationReadFailed
    | StaleFreshnessMissing
    | StaleWindowExceeded
    | ValidatorMissing
    | ValidatorUntrusted
    | RefreshProducerUntrusted
    | RevalidationSchedulerMissing
    | RevalidationPublishStoreMissing
    | RevalidationScheduleFailed

  datatype Decision =
    | Execute(cause: Cause)
    | FreshHit(candidate: Outcome)
    | ServeStale(candidate: Outcome, scheduled: bool)
    | Failed

  datatype Submission = Scheduled | Coalesced | Refused

  /** What the branch consults besides the stores: the caller, and what the coordinator would answer. */
  datatype Caller = Caller(
    producer: Text,
    hasValidator: map<Text, Bytes> -> bool,
    coordinator: Option<Submission>,
    publishes: bool)

  function TrustPolicy(p: OperationPolicy, now: Time): Policy {
    Policy(now, Some(p.trustedResultProducers), Some(p.trustedValidationProducers), None, false, false, 8, 64)
  }

  // ---------- _latest_trusted_freshness ----------

  function Later(a: Option<Time>, t: Time): Option<Time> {
    if a.Some? && a.value >= t then a else Some(t)
  }

  /** The latest of `start` and the boundaries set by trusted validations. */
  function LatestFrom(start: Option<Time>, vs: seq<Validation>, trusted: set<Text>): Option<Time>
    decreases |vs|
  {
    if vs == [] then start
    else LatestFrom(if vs[0].producer in trusted then Later(start, vs[0].freshUntil) else start, vs[1..], trusted)
  }

  /** The position of the first store of that name. */
  function StoreNamed(stores: seq<Store>, name: Text): (k: nat)
    ensures k <= |stores| && (k < |stores| ==> stores[k].name == name)
    ensures forall j | 0 <= j < k :: stores[j].name != name
  {
    if stores == [] || stores[0].name == name then 0 else 1 + StoreNamed(stores[1..], name)
  }

  /** The latest boundary, and whether the validations could not be read. */
  ghost function LatestTrustedFreshness(stores: seq<Store>, m: Manifest, tier: Text, trusted: set<Text>)
    : (Option<Time>, bool)
    requires ValidManifest(m)
  {
    var k := StoreNamed(stores, tier);
    if k == |stores| then (m.freshUntil, false)
    else
      match stores[k].validations(ManifestDigest(m))
      case Unreadable => (None, true)
      case Readable(vs) => (LatestFrom(m.freshUntil, vs, trusted), false)
  }

  method FindLatestTrustedFreshness(stores: seq<Store>, m: Manifest, tier: Text, trusted: set<Text>)
    returns (boundary: Option<Time>, failed: bool)
    requires ValidManifest(m)
    ensures (boundary, failed) == LatestTrustedFreshness(stores, m, tier, trusted)
  {
    boundary, failed := m.freshUntil, false;
    var k := StoreNamed(stores, tier);
    if k == |stores| {
      return;
    }
    var d := Cache.DigestOf(m);
    var answer := stores[k].validations(d);
    if answer.Unreadable? {
      return None, true;
    }
    var vs := answer.value;
    for i := 0 to |vs|
      invariant LatestFrom(m.freshUntil, vs, trusted) == LatestFrom(boundary, vs[i..], trusted)
    {
      assert vs[i..][1..] == vs[i + 1..];
      if vs[i].producer in trusted {
        boundary := Later(boundary, vs[i].freshUntil);
      }
    }
  }

  /** The latest boundary is one of the boundaries, and none is later. */
  lemma {:induction false} LatestIsMaximum(start: Option<Time>, vs: seq<Validation>, trusted: set<Text>)
    decreases |vs|
    ensures var b := LatestFrom(start, vs, trusted);
      && (b.None? <==> start.None? && forall v | v in vs :: v.producer !in trusted)
      && (b.Some? ==> b == start || exists v | v in vs :: v.producer in trusted && v.freshUntil == b.value)
      && (b.Some? && start.Some? ==> start.value <= b.value)
      && (b.Some? ==> forall v | v in vs && v.producer in trusted :: v.freshUntil <= b.value)
  {
    if vs != [] {
      assert forall v :: v in vs <==> v == vs[0] || v in vs[1..];
      LatestIsMaximum(if vs[0].producer in trusted then Later(start, vs[0].freshUntil) else start, vs[1..], trusted);
    }
  }

  // ---------- the branch ----------

  /** What is decided once a candidate stands and its latest boundary is known. */
  ghost function DecideBoundary(o: Outcome, boundary: Option<Time>, failed: bool, p: OperationPolicy, now: Time,
                                caller: Caller): Decision
    requires o.Hit?
  {
    if failed then Execute(StaleValidationReadFailed)
    else if boundary.None? then Execute(StaleFreshnessMissing)
    else if now - boundary.value <= 0 then FreshHit(o)
    else if now - boundary.value > p.maxStaleSeconds * SECOND then Execute(StaleWindowExceeded)
    else if !caller.hasValidator(o.artifacts) then Execute(ValidatorMissing)
    else if caller.producer !in p.trustedValidationProducers then Execute(ValidatorUntrusted)
    else if caller.producer !in p.trustedResultProducers then Execute(RefreshProducerUntrusted)
    else if caller.coordinator.None? then Execute(RevalidationSchedulerMissing)
    else if !caller.publishes then Execute(RevalidationPublishStoreMissing)
    else if caller.coordinator.value == Refused then Execute(RevalidationScheduleFailed)
    else ServeStale(o, caller.coordinator.value == Scheduled)
  }

  ghost function Decide(stores: seq<Store>, requested: Digest, p: OperationPolicy, now: Time, caller: Caller): Decision {
    var w := World(stores, TrustPolicy(p, now));
    var o := RevalidationCandidate(w, requested);
    match o
    case LookupRaised => Failed
    case Miss(_) => Execute(CandidateMissing)
    case Hit(k, m, _, _, _) =>
      if k >= |stores| || !ValidManifest(m) then Failed
      else if stores[k].name !in p.allowedTiers then Execute(TierDenied)
      else
        var (boundary, failed) := LatestTrustedFreshness(stores, m, stores[k].name, p.trustedValidationProducers);
        DecideBoundary(o, boundary, failed, p, now, caller)
  }

  method ServeOrExecute(stores: seq<Store>, requested: Digest, p: OperationPolicy, now: Time, caller: Caller)
    returns (d: Decision)
    ensures d == Decide(stores, requested, p, now, caller)
  {
    var w := World(stores, TrustPolicy(p, now));
    var o := Cache.CandidateForRevalidation(w, requested);
    if o.LookupRaised? {
      return Failed;
    }
    if o.Miss? {
      return Execute(CandidateMissing);
    }
    var tier := stores[o.store].name;
    if tier !in p.allowedTiers {
      return Execute(TierDenied);
    }
    var boundary, failed := FindLatestTrustedFreshness(stores, o.manifest, tier, p.trustedValidationProducers);
    if failed {
      return Execute(StaleValidationReadFailed);
    }
    if boundary.None? {
      return Execute(StaleFreshnessMissing);
    }
    var stale := now - boundary.value;
    if stale <= 0 {
      return FreshHit(o);
    }
    if stale > p.maxStaleSeconds * SECOND {
      return Execute(StaleWindowExceeded);
    }
    if !caller.hasValidator(o.artifacts) {
      return Execute(ValidatorMissing);
    }
    if caller.producer !in p.trustedValidationProducers {
      return Execute(ValidatorUntrusted);
    }
    if caller.producer !in p.trustedResultProducers {
      return Execute(RefreshProducerUntrusted);
    }
    if caller.coordinator.None? {
      return Execute(RevalidationSchedulerMissing);
    }
    if !caller.publishes {
      return Execute(RevalidationPublishStoreMissing);
    }
    match caller.coordinator.value
    case Refused => return Execute(RevalidationScheduleFailed);
    case Scheduled => return ServeStale(o, true);
    case Coalesced => return ServeStale(o, false);
  }

  // ---------- agreement with reuse ----------

  /** Excusing the root from freshness never costs a candidate its acceptance, nor changes its artifacts. */
  lemma IgnoringFreshnessIsWeaker(w: World, requested: Digest, m: Manifest, k: nat)
    requires k < |w.stores|
    ensures var excused := VerdictOn(w, requested, m, k, true);
      var held := VerdictOn(w, requested, m, k, false);
      && (held.Accepted? ==> excused.Accepted?)
      && (excused.Rejected? ==> held.Rejected?)
      && (excused.Accepted? && FreshIn(w.stores[k], m, w.policy) ==>
            held.Accepted? && held.artifacts == excused.artifacts)
  {
    if ValidManifest(m) {
      var s, d := w.stores[k], ManifestDigest(m);
      if s.validations(d).Readable? {
        var vs := s.validations(d).value;
        assert FirstExtension(vs, w.policy).Some? <==> exists v | v in vs :: w.policy.Extends(v);
      }
    }
  }

  lemma {:induction false} MissesTogether(w: World, requested: Digest, k: nat)
    requires k <= |w.stores| && SearchFrom(w, requested, true, k).Miss?
    ensures SearchFrom(w, requested, false, k).Miss?
    decreases |w.stores| - k, 1, 0
  {
    if k < |w.stores| {
      match CandidatesOf(w, requested, k)
      case Unreadable => MissesTogether(w, requested, k + 1);
      case Readable(ms) => StoreMissesTogether(w, requested, k, ms, 0);
    }
  }

  lemma {:induction false} StoreMissesTogether(w: World, requested: Digest, k: nat, ms: seq<Manifest>, i: nat)
    requires k < |w.stores| && i <= |ms| && SearchStore(w, requested, true, k, ms, i).Miss?
    ensures SearchStore(w, requested, false, k, ms, i).Miss?
    decreases |w.stores| - k, 0, |ms| - i
  {
    if i == |ms| {
      MissesTogether(w, requested, k + 1);
    } else {
      IgnoringFreshnessIsWeaker(w, requested, ms[i], k);
      StoreMissesTogether(w, requested, k, ms, i + 1);
    }
  }

  /** When `candidate_for_revalidation` finds nothing, neither does `reuse`. */
  lemma NoCandidateNoReuse(w: World, requested: Digest)
    requires RevalidationCandidate(w, requested).Miss?
    ensures Reused(w, requested).Miss?
  {
    MissesTogether(w, requested, 0);
  }

  /** The two lookups hit the same manifest in the same store with the same bytes. */
  ghost predicate SameHit(a: Outcome, b: Outcome) {
    a.Hit? && b.Hit? && a.store == b.store && a.manifest == b.manifest && a.artifacts == b.artifacts
  }

  lemma {:induction false} FreshCandidateIsReused(w: World, requested: Digest, k: nat)
    requires k <= |w.stores|
    requires var o := SearchFrom(w, requested, true, k);
      o.Hit? && o.store < |w.stores| && ValidManifest(o.manifest) && FreshIn(w.stores[o.store], o.manifest, w.policy)
    ensures SameHit(SearchFrom(w, requested, false, k), SearchFrom(w, requested, true, k))
    decreases |w.stores| - k, 1, 0
  {
    if k < |w.stores| {
      match CandidatesOf(w, requested, k)
      case Unreadable => FreshCandidateIsReused(w, requested, k + 1);
      case Readable(ms) => FreshCandidateIsReusedFrom(w, requested, k, ms, 0);
    }
  }

  lemma {:induction false} FreshCandidateIsReusedFrom(w: World, requested: Digest, k: nat, ms: seq<Manifest>, i: nat)
    requires k < |w.stores| && i <= |ms|
    requires var o := SearchStore(w, requested, true, k, ms, i);
      o.Hit? && o.store < |w.stores| && ValidManifest(o.manifest) && FreshIn(w.stores[o.store], o.manifest, w.policy)
    ensures SameHit(SearchStore(w, requested, false, k, ms, i), SearchStore(w, requested, true, k, ms, i))
    decreases |w.stores| - k, 0, |ms| - i
  {
    if i == |ms| {
      FreshCandidateIsReused(w, requested, k + 1);
    } else {
      IgnoringFreshnessIsWeaker(w, requested, ms[i], k);
      if VerdictOn(w, requested, ms[i], k, true).Rejected? {
        FreshCandidateIsReusedFrom(w, requested, k, ms, i + 1);
      }
    }
  }

  ghost predicate UniqueNames(stores: seq<Store>) {
    forall i, k | 0 <= i < k < |stores| :: stores[i].name != stores[k].name
  }

  /** With unique store names the branch's freshness rule is the lookup's own. */
  lemma BoundaryMeansFresh(stores: seq<Store>, k: nat, m: Manifest, p: OperationPolicy, now: Time)
    requires k < |stores| && UniqueNames(stores) && ValidManifest(m)
    ensures var (b, failed) := LatestTrustedFreshness(stores, m, stores[k].name, p.trustedValidationProducers);
      !failed ==> (FreshIn(stores[k], m, TrustPolicy(p, now)) <==> b.Some? && now - b.value <= 0)
  {
    var j := StoreNamed(stores, stores[k].name);
    assert j == k;
    var answer := stores[k].validations(ManifestDigest(m));
    if answer.Readable? {
      LatestIsMaximum(m.freshUntil, answer.value, p.trustedValidationProducers);
    }
  }

  /** What `reuse` hits is fresh in the store that supplied it. */
  lemma ReusedIsFresh(w: World, requested: Digest)
    requires Reused(w, requested).Hit?
    ensures var o := Reused(w, requested);
      o.store < |w.stores| && ValidManifest(o.manifest) && FreshIn(w.stores[o.store], o.manifest, w.policy)
  {
    SearchFindsFirst(w, requested, false, 0);
    var o := Reused(w, requested);
    assert Admissible(w, o.manifest, o.store, false);
    var t :| Certifies(w, t, o.manifest, o.store, false);
  }

  /**
   A `fresh_hit` serves what `reuse` would have, same manifest, same store, same bytes, exactly when the candidate is
   fresh in the store that supplied it. The branch asks the first store of that name instead.
   */
  lemma FreshHitIsReuseExactly(stores: seq<Store>, requested: Digest, p: OperationPolicy, now: Time, caller: Caller)
    requires Decide(stores, requested, p, now, caller).FreshHit?
    ensures var o := Decide(stores, requested, p, now, caller).candidate;
      && o.Hit? && o.store < |stores| && ValidManifest(o.manifest)
      && (SameHit(Reused(World(stores, TrustPolicy(p, now)), requested), o)
          <==> FreshIn(stores[o.store], o.manifest, TrustPolicy(p, now)))
  {
    var w := World(stores, TrustPolicy(p, now));
    var o := RevalidationCandidate(w, requested);
    if FreshIn(stores[o.store], o.manifest, w.policy) {
      FreshCandidateIsReused(w, requested, 0);
    } else if Reused(w, requested).Hit? {
      ReusedIsFresh(w, requested);
    }
  }

  // ---------- two stores of one name ----------

  const TWIN: Text := [97]

  /** A result without artifacts that expired at time 0. */
  function ExpiredResult(): Manifest {
    Manifest(ResultV0, DigestBytes([]), [], 0, Some(0), TWIN, None)
  }

  /** Two stores of one name: the second lists the result, the first has a validation of it up to time 1. */
  function Twins(v: Validation): seq<Store> {
    [Store(TWIN, _ => Readable([]), None, _ => Readable([v]), None, _ => Readable(None)),
     Store(TWIN, _ => Readable([ExpiredResult()]), None, _ => Readable([]), None, _ => Readable(None))]
  }

  lemma TwinCandidate(w: World, v: Validation, ignoreFreshness: bool)
    requires w.stores == Twins(v) && Policy.Trusts(w.policy.trustedProducers, TWIN) && !w.policy.requireLineage
    requires w.policy.now > 0
    ensures ValidManifest(ExpiredResult())
    ensures VerdictOn(w, DigestBytes([]), ExpiredResult(), 1, ignoreFreshness) ==
            if ignoreFreshness then Verdict.Accepted(map[], None) else Rejected(Expired)
  {
    var m := ExpiredResult();
    assert ValidManifest(m) && Dependencies(m) == [];
    var own := Examine(w, m, 1, true, ignoreFreshness);
    assert own == if ignoreFreshness then Verdict.Accepted(map[], None) else Rejected(Expired);
    assert EvaluateFrom(w, m, 0, {} + {ManifestDigest(m)}, 0, 0, true) == (None, 0);
  }

  lemma TwinSearch(w: World, v: Validation, ignoreFreshness: bool)
    requires w.stores == Twins(v) && Policy.Trusts(w.policy.trustedProducers, TWIN) && !w.policy.requireLineage
    requires w.policy.now > 0
    ensures var o := SearchFrom(w, DigestBytes([]), ignoreFreshness, 0);
      if ignoreFreshness then o == Hit(1, ExpiredResult(), map[], None, []) else o.Miss?
  {
    var d, ms := DigestBytes([]), [ExpiredResult()];
    TwinCandidate(w, v, ignoreFreshness);
    assert CandidatesOf(w, d, 0) == Readable([]) && CandidatesOf(w, d, 1) == Readable(ms);
    assert SearchFrom(w, d, ignoreFreshness, 2) == Miss([]);
    assert SearchStore(w, d, ignoreFreshness, 1, ms, 1) == Miss([]);
    assert SearchFrom(w, d, ignoreFreshness, 1) == SearchStore(w, d, ignoreFreshness, 1, ms, 0);
    assert SearchStore(w, d, ignoreFreshness, 0, [], 0) == SearchFrom(w, d, ignoreFreshness, 1);
  }

  /** Two stores of one name can disagree: the branch calls the candidate fresh, and `reuse` finds nothing. */
  lemma TwinsDisagree(caller: Caller) returns (stores: seq<Store>, p: OperationPolicy, now: Time)
    ensures Decide(stores, DigestBytes([]), p, now, caller).FreshHit?
    ensures Reused(World(stores, TrustPolicy(p, now)), DigestBytes([])).Miss?
  {
    var m := ExpiredResult();
    assert ValidManifest(m);
    var v := Validation(ManifestDigest(m), 0, 1, TWIN, Method(Ascii("http.conditional"), Ascii("1"), 304, Some(TWIN), None));
    stores, p, now := Twins(v), OperationPolicy({TWIN}, {TWIN}, {TWIN}, 1), 1;
    var w := World(stores, TrustPolicy(p, now));
    TwinSearch(w, v, true);
    TwinSearch(w, v, false);
    assert StoreNamed(stores, TWIN) == 0;
    assert LatestFrom(Some(0), [v], {TWIN}) == LatestFrom(Some(1), [], {TWIN});
    assert LatestTrustedFreshness(stores, m, TWIN, {TWIN}) == (Some(1), false);
  }

  /** With unique store names a `fresh_hit` always serves exactly what `reuse` would have. */
  lemma FreshHitIsReuse(stores: seq<Store>, requested: Digest, p: OperationPolicy, now: Time, caller: Caller)
    requires UniqueNames(stores) && Decide(stores, requested, p, now, caller).FreshHit?
    ensures SameHit(Reused(World(stores, TrustPolicy(p, now)), requested),
                    Decide(stores, requested, p, now, caller).candidate)
  {
    FreshHitIsReuseExactly(stores, requested, p, now, caller);
    var o := Decide(stores, requested, p, now, caller).candidate;
    BoundaryMeansFresh(stores, o.store, o.manifest, p, now);
  }

  /** Stale bytes are served only strictly after, and within the window after, the latest trusted boundary. */
  lemma StaleOnlyWithinWindow(stores: seq<Store>, requested: Digest, p: OperationPolicy, now: Time, caller: Caller)
    requires Decide(stores, requested, p, now, caller).ServeStale?
    ensures var o := Decide(stores, requested, p, now, caller).candidate;
      && o == RevalidationCandidate(World(stores, TrustPolicy(p, now)), requested) && o.Hit?
      && o.store < |stores| && stores[o.store].name in p.allowedTiers && ValidManifest(o.manifest)
      && caller.producer in p.trustedResultProducers && caller.producer in p.trustedValidationProducers
      && (UniqueNames(stores) ==> !FreshIn(stores[o.store], o.manifest, TrustPolicy(p, now)))
      && exists b: Time ::
           && LatestTrustedFreshness(stores, o.manifest, stores[o.store].name, p.trustedValidationProducers)
              == (Some(b), false)
           && 0 < now - b <= p.maxStaleSeconds * SECOND
  {
    var o := Decide(stores, requested, p, now, caller).candidate;
    var (boundary, failed) :=
      LatestTrustedFreshness(stores, o.manifest, stores[o.store].name, p.trustedValidationProducers);
    if UniqueNames(stores) {
      BoundaryMeansFresh(stores, o.store, o.manifest, p, now);
    }
    assert boundary == Some(boundary.value);
  }
}
