/**
 What each check of a lookup answers and why, by the fields of the policy and of the records alone: who is trusted for
 what, when each reason is given, which validation a hit reports, and which rejections it lists.
 */
module Reasons {
  import opened Text
  import opened Digests
  import opened Records
  import opened Stores
  import opened Evaluation
  import opened Lineage
  import opened Admissibility
  import opened Search

  // ---------- who is trusted for what ----------

  /** A record revokes exactly when it is dated by now and its producer is among those the policy names for that. */
  lemma EffectiveMeans(p: Policy, r: Invalidation)
    ensures p.Effective(r) <==>
      && r.invalidatedAt <= p.now
      && (p.trustedInvalidationProducers.Some? ==> r.producer in p.trustedInvalidationProducers.value)
      && (p.trustedInvalidationProducers.None? && p.trustedProducers.Some? ==> r.producer in p.trustedProducers.value)
  {
  }

  /** A validation extends exactly when it has not ended and its producer is among those the policy names for that. */
  lemma ExtendsMeans(p: Policy, v: Validation)
    ensures p.Extends(v) <==>
      && p.now <= v.freshUntil
      && (p.trustedValidationProducers.Some? ==> v.producer in p.trustedValidationProducers.value)
      && (p.trustedValidationProducers.None? && p.trustedProducers.Some? ==> v.producer in p.trustedProducers.value)
  {
  }

  // ---------- invalidation ----------

  /** `_effective_invalidated`: when each answer is given. */
  lemma InvalidationAnswer(records: Option<Read<seq<Invalidation>>>, p: Policy, required: bool)
    ensures var f := InvalidationFailure(records, p, required);
      && (f == Some(InvalidationLookupUnsupported) <==> records.None? && required)
      && (f == Some(InvalidationReadFailed) <==> records.Some? && records.value.Unreadable?)
      && (f == Some(Invalidated) <==> records.Some? && records.value.Readable? && exists r | r in records.value.value ::
              && r.invalidatedAt <= p.now
              && (p.trustedInvalidationProducers.Some? ==> r.producer in p.trustedInvalidationProducers.value)
              && (p.trustedInvalidationProducers.None? && p.trustedProducers.Some? ==> r.producer in p.trustedProducers.value))
      && (f.Some? ==> f.value.InvalidationLookupUnsupported? || f.value.InvalidationReadFailed? || f.value.Invalidated?)
  {
    if records.Some? && records.value.Readable? {
      var rs := records.value.value;
      assert (exists i | 0 <= i < |rs| :: p.Effective(rs[i])) <==> exists r | r in rs :: p.Effective(r);
      forall r | r in rs
        ensures p.Effective(r) <==>
          && r.invalidatedAt <= p.now
          && (p.trustedInvalidationProducers.Some? ==> r.producer in p.trustedInvalidationProducers.value)
          && (p.trustedInvalidationProducers.None? && p.trustedProducers.Some? ==> r.producer in p.trustedProducers.value)
      {
        EffectiveMeans(p, r);
      }
    }
  }

  // ---------- freshness ----------

  /** The validation at `i` is the first that is trusted and has not ended. */
  ghost predicate FirstExtending(vs: seq<Validation>, p: Policy, i: nat) {
    i < |vs| && p.Extends(vs[i]) && forall j | 0 <= j < i :: !p.Extends(vs[j])
  }

  lemma {:induction false} ExtensionIsFirst(vs: seq<Validation>, p: Policy)
    ensures FirstExtension(vs, p).Some? <==> exists v | v in vs :: p.Extends(v)
    ensures forall v :: FirstExtension(vs, p) == Some(v) <==> exists i: nat :: FirstExtending(vs, p, i) && vs[i] == v
  {
    if vs != [] {
      assert forall v :: v in vs <==> v == vs[0] || v in vs[1..];
      ExtensionIsFirst(vs[1..], p);
      if p.Extends(vs[0]) {
        assert FirstExtending(vs, p, 0);
      } else {
        forall i: nat ensures FirstExtending(vs, p, i + 1) <==> FirstExtending(vs[1..], p, i) {
          assert forall j | 0 <= j < i && i < |vs[1..]| :: vs[1..][j] == vs[j + 1];
          assert FirstExtending(vs, p, i + 1) ==> forall j | 0 <= j < i :: vs[1..][j] == vs[j + 1];
        }
        forall v ensures FirstExtension(vs, p) == Some(v) <==> exists i: nat :: FirstExtending(vs, p, i) && vs[i] == v {
          if i: nat :| FirstExtending(vs, p, i) && vs[i] == v {
            assert i > 0 && FirstExtending(vs[1..], p, i - 1) && vs[1..][i - 1] == v;
          }
          if i: nat :| FirstExtending(vs[1..], p, i) && vs[1..][i] == v {
            assert FirstExtending(vs, p, i + 1) && vs[i + 1] == v;
          }
        }
      }
    }
  }

  /** A manifest is fresh by itself while its own boundary has not passed. */
  predicate FreshAlone(m: Manifest, now: Time) {
    m.freshUntil.Some? && now <= m.freshUntil.value
  }

  /**
   When each freshness answer is given. A validation is reported exactly when the manifest is not fresh alone, and then
   it is the first trusted one that has not ended.
   */
  lemma FreshnessAnswer(m: Manifest, answer: Read<seq<Validation>>, p: Policy)
    ensures var f := FreshnessOf(m, answer, p);
      && (f == Stale(ValidationReadFailed) <==> !FreshAlone(m, p.now) && answer.Unreadable?)
      && (f == Stale(Expired) <==>
            !FreshAlone(m, p.now) && answer.Readable? && m.freshUntil.Some? && forall v | v in answer.value :: !p.Extends(v))
      && (f == Stale(MissingFreshnessRule) <==>
            answer.Readable? && m.freshUntil.None? && !p.permitNoExpiry && forall v | v in answer.value :: !p.Extends(v))
      && (f.Stale? ==> f.reason.ValidationReadFailed? || f.reason.Expired? || f.reason.MissingFreshnessRule?)
      && (f.Fresh? && f.validation.Some? ==>
            && !FreshAlone(m, p.now) && answer.Readable?
            && exists i: nat :: FirstExtending(answer.value, p, i) && answer.value[i] == f.validation.value)
      && (f.Fresh? && f.validation.None? ==>
            || FreshAlone(m, p.now)
            || (answer.Readable? && m.freshUntil.None? && p.permitNoExpiry && forall v | v in answer.value :: !p.Extends(v)))
  {
    if answer.Readable? {
      ExtensionIsFirst(answer.value, p);
      var extension := FirstExtension(answer.value, p);
      if extension.Some? {
        var i: nat :| FirstExtending(answer.value, p, i) && answer.value[i] == extension.value;
        assert answer.value[i] in answer.value;
      }
    }
  }

  // ---------- artifacts ----------

  /** The artifact is there, with the size and digest its descriptor says. */
  predicate Sits(a: Descriptor, answer: Read<Option<Bytes>>) {
    match answer
    case Readable(Some(data)) => |data| == a.size && DigestBytes(data) == a.digest
    case _ => false
  }

  /** The artifact at `i` is the first that cannot be used. */
  ghost predicate FirstBad(xs: seq<Descriptor>, blob: Digest -> Read<Option<Bytes>>, i: nat) {
    i < |xs| && !Sits(xs[i], blob(xs[i].digest)) && forall j | 0 <= j < i :: Sits(xs[j], blob(xs[j].digest))
  }

  /** What a blob that is not what it should be comes to: a read error is raised, the rest are rejections. */
  function FailureOf(answer: Read<Option<Bytes>>): Verdict {
    match answer
    case Unreadable => Raised
    case Readable(None) => Rejected(ArtifactMissing)
    case Readable(Some(_)) => Rejected(ArtifactIntegrityFailure)
  }

  /** The first artifact that cannot be used decides what loading answers. */
  lemma {:induction false} LoadAnswer(xs: seq<Descriptor>, blob: Digest -> Read<Option<Bytes>>, loaded: map<Text, Bytes>)
    ensures var f := Load(xs, blob, loaded);
      && (f.Accepted? <==> forall a | a in xs :: Sits(a, blob(a.digest)))
      && (f.Accepted? ==> f.validation == None)
      && (f.Rejected? ==> f.reason == ArtifactMissing || f.reason == ArtifactIntegrityFailure)
    ensures forall i: nat | FirstBad(xs, blob, i) :: Load(xs, blob, loaded) == FailureOf(blob(xs[i].digest))
  {
    if xs != [] {
      assert forall a :: a in xs <==> a == xs[0] || a in xs[1..];
      if Sits(xs[0], blob(xs[0].digest)) {
        LoadAnswer(xs[1..], blob, loaded[xs[0].name := blob(xs[0].digest).value.value]);
        forall i: nat | FirstBad(xs, blob, i) ensures i > 0 && FirstBad(xs[1..], blob, i - 1) && xs[1..][i - 1] == xs[i] {
          assert forall j | 0 <= j < i - 1 :: xs[1..][j] == xs[j + 1];
        }
      }
    }
  }

  /** Under the name of every descriptor exactly the bytes the store gives for its digest, besides what was there. */
  ghost predicate LoadedFrom(xs: seq<Descriptor>, blob: Digest -> Read<Option<Bytes>>, loaded: map<Text, Bytes>,
                             r: map<Text, Bytes>) {
    && r.Keys == loaded.Keys + (set a | a in xs :: a.name)
    && (forall a | a in xs :: blob(a.digest) == Readable(Some(r[a.name])))
    && (forall n | n in loaded && (forall a | a in xs :: a.name != n) :: r[n] == loaded[n])
  }

  lemma LoadedOneMore(x: Descriptor, xs: seq<Descriptor>, blob: Digest -> Read<Option<Bytes>>, loaded: map<Text, Bytes>,
                      data: Bytes, r: map<Text, Bytes>)
    requires blob(x.digest) == Readable(Some(data)) && LoadedFrom(xs, blob, loaded[x.name := data], r)
    requires forall a | a in xs :: a.name != x.name
    ensures LoadedFrom([x] + xs, blob, loaded, r)
  {
  }

  /** What loading gives. */
  lemma {:induction false} LoadedBytes(xs: seq<Descriptor>, blob: Digest -> Read<Option<Bytes>>, loaded: map<Text, Bytes>)
    requires Load(xs, blob, loaded).Accepted? && forall i, k | 0 <= i < k < |xs| :: xs[i].name != xs[k].name
    ensures LoadedFrom(xs, blob, loaded, Load(xs, blob, loaded).artifacts)
  {
    if xs != [] {
      var data := blob(xs[0].digest).value.value;
      LoadedBytes(xs[1..], blob, loaded[xs[0].name := data]);
      LoadedOneMore(xs[0], xs[1..], blob, loaded, data, Load(xs, blob, loaded).artifacts);
      assert xs == [xs[0]] + xs[1..];
    }
  }

  // ---------- locating ----------

  /** The store at `k` is the first to give any manifest for the digest. */
  ghost predicate FirstToAnswer(stores: seq<Store>, d: Digest, k: nat, m: Manifest) {
    && k < |stores| && stores[k].result.Some? && stores[k].result.value(d) == Readable(Some(m))
    && forall j | 0 <= j < k :: stores[j].result.None? || stores[j].result.value(d).Unreadable?
                                || stores[j].result.value(d) == Readable(None)
  }

  lemma AnswerFound(stores: seq<Store>, d: Digest, k: nat, m: Manifest)
    requires FirstToAnswer(stores, d, k, m)
    ensures FirstAnswer(stores, d) == k && Answer(stores[k], d) == m
  {
    assert Answers(stores[k], d) && forall j | 0 <= j < k :: !Answers(stores[j], d);
    var i := FirstAnswer(stores, d);
    assert !(i < k) && !(k < i);
  }

  /** `_locate_result`: the first store to answer decides; with no answer, a failed read shows before missing readers. */
  lemma LocateAnswer(stores: seq<Store>, d: Digest)
    ensures forall k: nat, m | FirstToAnswer(stores, d, k, m) ::
              && (!ValidManifest(m) ==> Locate(stores, d) == NotFound(DependencyInvalidManifest))
              && (ValidManifest(m) && ManifestDigest(m) != d ==> Locate(stores, d) == NotFound(DependencyDigestMismatch))
              && (ValidManifest(m) && ManifestDigest(m) == d ==> Locate(stores, d) == Found(m, k))
    ensures (forall k: nat, m :: !FirstToAnswer(stores, d, k, m)) ==>
              var failed := exists s | s in stores :: s.result.Some? && s.result.value(d).Unreadable?;
              var supported := exists s | s in stores :: s.result.Some?;
              && (failed ==> Locate(stores, d) == NotFound(DependencyReadFailed))
              && (!failed && supported ==> Locate(stores, d) == NotFound(DependencyMissing))
              && (!supported ==> Locate(stores, d) == NotFound(DependencyLookupUnsupported))
  {
    forall k: nat, m | FirstToAnswer(stores, d, k, m) ensures FirstAnswer(stores, d) == k && Answer(stores[k], d) == m {
      AnswerFound(stores, d, k, m);
    }
    var k := FirstAnswer(stores, d);
    if k < |stores| {
      assert FirstToAnswer(stores, d, k, Answer(stores[k], d));
    }
    assert forall s :: s in stores <==> exists j :: 0 <= j < |stores| && stores[j] == s;
  }

  // ---------- one manifest ----------

  /** One manifest is sound, said by the fields of the policy and of the store's records. */
  lemma SoundMeans(w: World, m: Manifest, k: nat, root: bool, ignoreFreshness: bool)
    requires k < |w.stores| && ValidManifest(m)
    ensures var s, p, d := w.stores[k], w.policy, ManifestDigest(m);
      Sound(w, m, k, root, ignoreFreshness) <==>
        && (p.requireLineage ==> m.version == ResultV1)
        && (p.trustedProducers.Some? ==> m.producer in p.trustedProducers.value)
        && (s.invalidations.None? ==> root && m.version != ResultV1)
        && (s.invalidations.Some? ==>
              && s.invalidations.value(d).Readable?
              && forall r | r in s.invalidations.value(d).value :: !p.Effective(r))
        && (ignoreFreshness
            || FreshAlone(m, p.now)
            || (s.validations(d).Readable? && ((exists v | v in s.validations(d).value :: p.Extends(v))
                                               || (m.freshUntil.None? && p.permitNoExpiry))))
        && (forall a | a in m.artifacts :: Sits(a, s.blob(a.digest)))
  {
  }

  /** The order in which one manifest's own checks show. */
  lemma ExamineAnswer(w: World, m: Manifest, k: nat, root: bool, ignoreFreshness: bool)
    requires k < |w.stores| && ValidManifest(m)
    ensures var s, p, d := w.stores[k], w.policy, ManifestDigest(m);
      var v := Examine(w, m, k, root, ignoreFreshness);
      var revoked := InvalidationFailure(if s.invalidations.Some? then Some(s.invalidations.value(d)) else None, p,
                                         m.version == ResultV1 || !root);
      var freshness := FreshnessOf(m, s.validations(d), p);
      && (v == Rejected(UntrustedProducer) <==> p.trustedProducers.Some? && m.producer !in p.trustedProducers.value)
      && (v != Rejected(UntrustedProducer) && revoked.Some? ==> v == Rejected(revoked.value))
      && (v != Rejected(UntrustedProducer) && revoked.None? && !ignoreFreshness && freshness.Stale? ==>
            v == Rejected(freshness.reason))
      && (v != Rejected(UntrustedProducer) && revoked.None? && (ignoreFreshness || freshness.Fresh?) ==>
            && (!Load(m.artifacts, s.blob, map[]).Accepted? ==> v == Load(m.artifacts, s.blob, map[]))
            && (Load(m.artifacts, s.blob, map[]).Accepted? ==>
                  && v.Accepted? && v.artifacts == Load(m.artifacts, s.blob, map[]).artifacts
                  && v.validation == if ignoreFreshness then None else freshness.validation))
  {
    LoadAnswer(m.artifacts, w.stores[k].blob, map[]);
    var s, d := w.stores[k], ManifestDigest(m);
    InvalidationAnswer(InvalidationsOf(s, d), w.policy, m.version == ResultV1 || !root);
    FreshnessAnswer(m, s.validations(d), w.policy);
  }

  /** Before a manifest's own checks: the candidate itself, its form, the depth, and the digests above it. */
  lemma EvaluateAnswer(w: World, requested: Text, m: Manifest, k: nat, active: set<Digest>, edges: nat, depth: nat,
                       ignoreFreshness: bool)
    requires k < |w.stores| && depth <= w.policy.maxDepth + 1
    ensures var v := Evaluate(w, requested, m, k, active, edges, depth, ignoreFreshness, true).0;
      if !ValidManifest(m) then v == Rejected(InvalidManifest)
      else if m.actionDigest != requested then v == Rejected(ActionDigestMismatch)
      else if w.policy.requireLineage && m.version == ResultV0 then v == Rejected(LineageRequired)
      else if depth > w.policy.maxDepth then v == Rejected(DependencyDepthExceeded)
      else if ManifestDigest(m) in active then v == Rejected(DependencyCycle)
      else
        var own := Examine(w, m, k, depth == 0, ignoreFreshness);
        (!own.Accepted? ==> v == own) && (own.Accepted? && v.Accepted? ==> v == own)
  {
  }

  /** One dependency edge: the count first, then what cannot be located, then the upstream's own reason, prefixed once. */
  lemma UpstreamAnswer(w: World, d: Digest, active: set<Digest>, edges: nat, depth: nat)
    requires depth <= w.policy.maxDepth
    ensures var (failure, edges') := EvaluateUpstream(w, d, active, edges, depth, true);
      && (edges >= w.policy.maxCount ==> failure == Some(Rejected(DependencyCountExceeded)) && edges' == edges + 1)
      && (edges < w.policy.maxCount && Locate(w.stores, d).NotFound? ==>
            failure == Some(Rejected(Locate(w.stores, d).reason)) && edges' == edges + 1)
      && (edges < w.policy.maxCount && Locate(w.stores, d).Found? ==>
            var m, k := Locate(w.stores, d).manifest, Locate(w.stores, d).store;
            var (verdict, after) := Evaluate(w, m.actionDigest, m, k, active, edges + 1, depth + 1, false, true);
            && edges' == after
            && (verdict.Accepted? <==> failure.None?)
            && (verdict.Raised? ==> failure == Some(Raised))
            && (verdict.Rejected? ==>
                  && failure.Some? && failure.value.Rejected?
                  && (OwnReason(verdict.reason) ==> failure.value.reason == OfDependency(verdict.reason))
                  && (!OwnReason(verdict.reason) ==> failure.value.reason == verdict.reason)))
  {
  }

  /** The reasons whose code does not start with `dependency_`. */
  predicate OwnReason(r: Reason) {
    || r == InvalidManifest || r == ActionDigestMismatch || r == LineageRequired || r == UntrustedProducer
    || r == InvalidationLookupUnsupported || r == InvalidationReadFailed || r == Invalidated
    || r == ValidationReadFailed || r == MissingFreshnessRule || r == Expired
    || r == ArtifactMissing || r == ArtifactIntegrityFailure
  }

  // ---------- a hit ----------

  /** Everything a `reuse` hit promises, in the fields of what was looked at. */
  lemma HitPromises(w: World, requested: Digest)
    requires Reused(w, requested).Hit?
    ensures var o := Reused(w, requested);
      && o.store < |w.stores| && ValidManifest(o.manifest) && o.manifest.actionDigest == requested
      && w.stores[o.store].candidates(requested).Readable? && o.manifest in w.stores[o.store].candidates(requested).value
      && HitIsSound(w, o)
  {
    SearchFindsFirst(w, requested, false, 0);
    var o := Reused(w, requested);
    var i: nat :| Usable(w, requested, false, o.store, i) && CandidateAt(w, requested, o.store, i) == o.manifest;
    assert o.manifest in w.stores[o.store].candidates(requested).value;
    AcceptedPromises(w, o.manifest, o.store, o.artifacts, o.validation);
  }

  ghost predicate HitIsSound(w: World, o: Outcome)
    requires o.Hit? && o.store < |w.stores| && ValidManifest(o.manifest)
  {
    var s, p, d, m := w.stores[o.store], w.policy, ManifestDigest(o.manifest), o.manifest;
    && (p.trustedProducers.Some? ==> m.producer in p.trustedProducers.value)
    && (p.requireLineage ==> m.version == ResultV1)
    && (s.invalidations.Some? ==>
          && s.invalidations.value(d).Readable?
          && forall r | r in s.invalidations.value(d).value && r.invalidatedAt <= p.now ::
               if p.trustedInvalidationProducers.Some? then r.producer !in p.trustedInvalidationProducers.value
               else p.trustedProducers.Some? && r.producer !in p.trustedProducers.value)
    && o.artifacts.Keys == (set a | a in m.artifacts :: a.name)
    && (forall a | a in m.artifacts ::
          && s.blob(a.digest) == Readable(Some(o.artifacts[a.name]))
          && |o.artifacts[a.name]| == a.size && DigestBytes(o.artifacts[a.name]) == a.digest)
    && (o.validation.Some? <==> !FreshAlone(m, p.now) && s.validations(d).Readable?
                                && exists v | v in s.validations(d).value :: p.Extends(v))
    && (o.validation.Some? ==>
          exists i: nat :: FirstExtending(s.validations(d).value, p, i) && s.validations(d).value[i] == o.validation.value)
    && (o.validation.None? ==> FreshAlone(m, p.now) || (m.freshUntil.None? && p.permitNoExpiry))
  }

  lemma AcceptedPromises(w: World, m: Manifest, k: nat, artifacts: map<Text, Bytes>, validation: Option<Validation>)
    requires k < |w.stores| && VerdictOn(w, m.actionDigest, m, k, false) == Verdict.Accepted(artifacts, validation)
    ensures ValidManifest(m) && HitIsSound(w, Hit(k, m, artifacts, validation, []))
  {
    EvaluateAnswer(w, m.actionDigest, m, k, {}, 0, 0, false);
    ExamineAnswer(w, m, k, true, false);
    NotRevoked(w, m, k);
    ReportedValidation(m, w.stores[k].validations(ManifestDigest(m)), w.policy);
    LoadedArtifacts(m, w.stores[k].blob);
  }

  lemma NotRevoked(w: World, m: Manifest, k: nat)
    requires k < |w.stores| && ValidManifest(m) && Examine(w, m, k, true, false).Accepted?
    ensures var s, p, d := w.stores[k], w.policy, ManifestDigest(m);
      s.invalidations.Some? ==>
        && s.invalidations.value(d).Readable?
        && forall r | r in s.invalidations.value(d).value && r.invalidatedAt <= p.now ::
             if p.trustedInvalidationProducers.Some? then r.producer !in p.trustedInvalidationProducers.value
             else p.trustedProducers.Some? && r.producer !in p.trustedProducers.value
  {
    InvalidationAnswer(InvalidationsOf(w.stores[k], ManifestDigest(m)), w.policy, m.version == ResultV1);
  }

  lemma ReportedValidation(m: Manifest, answer: Read<seq<Validation>>, p: Policy)
    requires FreshnessOf(m, answer, p).Fresh?
    ensures var reported := FreshnessOf(m, answer, p).validation;
      && (reported.Some? <==>
            !FreshAlone(m, p.now) && answer.Readable? && exists v | v in answer.value :: p.Extends(v))
      && (reported.Some? ==>
            answer.Readable? && exists i: nat :: FirstExtending(answer.value, p, i) && answer.value[i] == reported.value)
      && (reported.None? ==> FreshAlone(m, p.now) || (m.freshUntil.None? && p.permitNoExpiry))
  {
    FreshnessAnswer(m, answer, p);
    if answer.Readable? {
      ExtensionIsFirst(answer.value, p);
    }
  }

  lemma LoadedArtifacts(m: Manifest, blob: Digest -> Read<Option<Bytes>>)
    requires ValidManifest(m) && Load(m.artifacts, blob, map[]).Accepted?
    ensures var r := Load(m.artifacts, blob, map[]).artifacts;
      && r.Keys == (set a | a in m.artifacts :: a.name)
      && forall a | a in m.artifacts ::
           blob(a.digest) == Readable(Some(r[a.name])) && |r[a.name]| == a.size && DigestBytes(r[a.name]) == a.digest
  {
    LoadAnswer(m.artifacts, blob, map[]);
    LoadedBytes(m.artifacts, blob, map[]);
  }

  // ---------- the rejections a search lists ----------

  /** Where a search stops by: a store whose list cannot be read, or a candidate. */
  datatype Stop = AtStore(store: nat) | AtCandidate(store: nat, position: nat)

  /** The stops from store `k`, candidate `i` on, in search order. */
  ghost function Stops(w: World, requested: Digest, k: nat, i: nat): seq<Stop>
    requires k <= |w.stores|
    decreases |w.stores| - k, if IsCandidate(w, requested, k, i) then |CandidatesOf(w, requested, k).value| - i else 0
  {
    if k == |w.stores| then []
    else if CandidatesOf(w, requested, k).Unreadable? then [AtStore(k)] + Stops(w, requested, k + 1, 0)
    else if !IsCandidate(w, requested, k, i) then Stops(w, requested, k + 1, 0)
    else [AtCandidate(k, i)] + Stops(w, requested, k, i + 1)
  }

  /** What is listed for a stop that is passed by. */
  ghost predicate ListedFor(w: World, requested: Digest, ignoreFreshness: bool, stop: Stop, r: Rejection) {
    match stop
    case AtStore(k) => k < |w.stores| && r == TierUnreadable(w.stores[k].name)
    case AtCandidate(k, i) =>
      && IsCandidate(w, requested, k, i) && r.TurnedDown? && r.tier == w.stores[k].name
      && VerdictOn(w, requested, CandidateAt(w, requested, k, i), k, ignoreFreshness) == Rejected(r.reason)
  }

  /** The rejections stand for the first stops, one each and in order. */
  ghost predicate ListsFirst(w: World, requested: Digest, ignoreFreshness: bool, stops: seq<Stop>, rs: seq<Rejection>) {
    |rs| <= |stops| && forall j | 0 <= j < |rs| :: ListedFor(w, requested, ignoreFreshness, stops[j], rs[j])
  }

  /** A miss lists every stop; a hit lists every stop before the candidate it found, and nothing else. */
  ghost predicate ListsPassed(w: World, requested: Digest, ignoreFreshness: bool, stops: seq<Stop>, o: Outcome) {
    match o
    case Miss(rs) => ListsFirst(w, requested, ignoreFreshness, stops, rs) && |rs| == |stops|
    case Hit(k, m, _, _, rs) =>
      && ListsFirst(w, requested, ignoreFreshness, stops, rs) && |rs| < |stops|
      && stops[|rs|].AtCandidate? && stops[|rs|].store == k
      && IsCandidate(w, requested, k, stops[|rs|].position) && CandidateAt(w, requested, k, stops[|rs|].position) == m
    case LookupRaised => true
  }

  lemma OneMorePassed(w: World, requested: Digest, ignoreFreshness: bool, stop: Stop, r: Rejection, stops: seq<Stop>,
                      o: Outcome)
    requires ListedFor(w, requested, ignoreFreshness, stop, r) && ListsPassed(w, requested, ignoreFreshness, stops, o)
    ensures ListsPassed(w, requested, ignoreFreshness, [stop] + stops, After([r], o))
  {
  }

  lemma {:induction false} RejectionsInOrder(w: World, requested: Digest, ignoreFreshness: bool, k: nat)
    requires k <= |w.stores|
    ensures ListsPassed(w, requested, ignoreFreshness, Stops(w, requested, k, 0), SearchFrom(w, requested, ignoreFreshness, k))
    decreases |w.stores| - k, 1, 0
  {
    if k < |w.stores| {
      match CandidatesOf(w, requested, k)
      case Unreadable =>
        RejectionsInOrder(w, requested, ignoreFreshness, k + 1);
        OneMorePassed(w, requested, ignoreFreshness, AtStore(k), TierUnreadable(w.stores[k].name),
                      Stops(w, requested, k + 1, 0), SearchFrom(w, requested, ignoreFreshness, k + 1));
      case Readable(ms) => RejectionsFromCandidate(w, requested, ignoreFreshness, k, ms, 0);
    }
  }

  lemma {:induction false} RejectionsFromCandidate(w: World, requested: Digest, ignoreFreshness: bool, k: nat,
                                                   ms: seq<Manifest>, i: nat)
    requires k < |w.stores| && i <= |ms| && CandidatesOf(w, requested, k) == Readable(ms)
    ensures ListsPassed(w, requested, ignoreFreshness, Stops(w, requested, k, i),
                        SearchStore(w, requested, ignoreFreshness, k, ms, i))
    decreases |w.stores| - k, 0, |ms| - i
  {
    if i == |ms| {
      RejectionsInOrder(w, requested, ignoreFreshness, k + 1);
    } else {
      match VerdictOn(w, requested, ms[i], k, ignoreFreshness)
      case Accepted(_, _) =>
      case Raised =>
      case Rejected(reason) =>
        RejectionsFromCandidate(w, requested, ignoreFreshness, k, ms, i + 1);
        OneMorePassed(w, requested, ignoreFreshness, AtCandidate(k, i), TurnedDown(w.stores[k].name, reason),
                      Stops(w, requested, k, i + 1), SearchStore(w, requested, ignoreFreshness, k, ms, i + 1));
    }
  }
}
