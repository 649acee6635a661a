/** `cache.py`: locating exact results and deciding whether a candidate may stand in for a computation. */
module Evaluation {
  import opened Text
  import opened Digests
  import opened Records
  import opened Stores

  function Dependencies(m: Manifest): seq<Dependency> {
    if m.dependencies.Some? then m.dependencies.value else []
  }

  // ---------- the checks on one manifest ----------

  /** `_effective_invalidated` */
  function InvalidationFailure(records: Option<Read<seq<Invalidation>>>, policy: Policy, required: bool): Option<Reason> {
    match records
    case None => if required then Some(InvalidationLookupUnsupported) else None
    case Some(Unreadable) => Some(InvalidationReadFailed)
    case Some(Readable(rs)) =>
      if exists i | 0 <= i < |rs| :: policy.Effective(rs[i]) then Some(Invalidated) else None
  }

  /** The first record that is trusted and still fresh. */
  function FirstExtension(vs: seq<Validation>, policy: Policy): (r: Option<Validation>)
    ensures r.Some? ==> policy.Extends(r.value) && r.value in vs
    ensures r.None? ==> forall i | 0 <= i < |vs| :: !policy.Extends(vs[i])
  {
    if vs == [] then None
    else if policy.Extends(vs[0]) then Some(vs[0])
    else FirstExtension(vs[1..], policy)
  }

  /** Fresh, with the validation that made it so, or the reason it is not. */
  datatype Freshness = Fresh(validation: Option<Validation>) | Stale(reason: Reason)

  function FreshnessOf(m: Manifest, validations: Read<seq<Validation>>, policy: Policy): Freshness {
    if m.freshUntil.Some? && m.freshUntil.value >= policy.now then Fresh(None)
    else
      match validations
      case Unreadable => Stale(ValidationReadFailed)
      case Readable(vs) =>
        var extension := FirstExtension(vs, policy);
        if extension.Some? then Fresh(extension)
        else if m.freshUntil.Some? then Stale(Expired)
        else if policy.permitNoExpiry then Fresh(None)
        else Stale(MissingFreshnessRule)
  }

  predicate Intact(a: Descriptor, blob: Read<Option<Bytes>>) {
    blob.Readable? && blob.value.Some? && |blob.value.value| == a.size && DigestBytes(blob.value.value) == a.digest
  }

  /** The artifacts in descriptor order up to the first that cannot be used. */
  function Load(xs: seq<Descriptor>, blob: Digest -> Read<Option<Bytes>>, loaded: map<Text, Bytes>): Verdict {
    if xs == [] then Accepted(loaded, None)
    else
      var b := blob(xs[0].digest);
      if b.Unreadable? then Raised
      else if b.value.None? then Rejected(ArtifactMissing)
      else if !Intact(xs[0], b) then Rejected(ArtifactIntegrityFailure)
      else Load(xs[1..], blob, loaded[xs[0].name := b.value.value])
  }

  function InvalidationsOf(s: Store, d: Digest): Option<Read<seq<Invalidation>>> {
    if s.invalidations.Some? then Some(s.invalidations.value(d)) else None
  }

  /** Everything checked about a manifest apart from its place in the traversal and its dependencies. */
  ghost function Examine(w: World, m: Manifest, k: nat, root: bool, ignoreFreshness: bool): Verdict
    requires k < |w.stores| && ValidManifest(m)
  {
    var s := w.stores[k];
    var d := ManifestDigest(m);
    var invalidation := InvalidationFailure(InvalidationsOf(s, d), w.policy, m.version == ResultV1 || !root);
    var freshness := if ignoreFreshness then Fresh(None) else FreshnessOf(m, s.validations(d), w.policy);
    if !Policy.Trusts(w.policy.trustedProducers, m.producer) then Rejected(UntrustedProducer)
    else if invalidation.Some? then Rejected(invalidation.value)
    else if freshness.Stale? then Rejected(freshness.reason)
    else
      match Load(m.artifacts, s.blob, map[])
      case Accepted(artifacts, _) => Accepted(artifacts, freshness.validation)
      case other => other
  }

  // ---------- locating an exact result ----------

  datatype Location = Found(manifest: Manifest, store: nat) | NotFound(reason: Reason)

  /** The store has a reader and that reader returns some manifest. */
  predicate Answers(s: Store, d: Digest) {
    s.result.Some? && s.result.value(d).Readable? && s.result.value(d).value.Some?
  }

  function Answer(s: Store, d: Digest): Manifest
    requires Answers(s, d)
  {
    s.result.value(d).value.value
  }

  /** The first store that answers decides, whether its answer is usable or not. */
  function FirstAnswer(stores: seq<Store>, d: Digest): (k: nat)
    ensures k <= |stores| && (k < |stores| ==> Answers(stores[k], d))
    ensures forall j | 0 <= j < k :: !Answers(stores[j], d)
  {
    if stores == [] || Answers(stores[0], d) then 0 else 1 + FirstAnswer(stores[1..], d)
  }

  ghost function Locate(stores: seq<Store>, d: Digest): (r: Location)
    ensures r.Found? ==> r.store < |stores| && ValidManifest(r.manifest) && ManifestDigest(r.manifest) == d
    ensures r.NotFound? ==> r.reason.AboutDependency()
  {
    var k := FirstAnswer(stores, d);
    if k < |stores| then
      var m := Answer(stores[k], d);
      if !ValidManifest(m) then NotFound(DependencyInvalidManifest)
      else if ManifestDigest(m) != d then NotFound(DependencyDigestMismatch)
      else Found(m, k)
    else if exists j | 0 <= j < |stores| :: stores[j].result.Some? && stores[j].result.value(d).Unreadable? then
      NotFound(DependencyReadFailed)
    else if forall j | 0 <= j < |stores| :: stores[j].result.None? then NotFound(DependencyLookupUnsupported)
    else NotFound(DependencyMissing)
  }

  // ---------- the traversal ----------

  /**
   The verdict on a candidate and the edge counter afterwards. With `cycles` false the check for a digest that
   is already active is left out; the source has it on.
   */
  ghost function Evaluate(w: World, requested: Text, m: Manifest, k: nat, active: set<Digest>, edges: nat,
                          depth: nat, ignoreFreshness: bool, cycles: bool): (r: (Verdict, nat))
    requires k < |w.stores| && depth <= w.policy.maxDepth + 1
    ensures edges <= r.1 && (edges <= w.policy.maxCount ==> r.1 <= w.policy.maxCount + 1)
    ensures r.0.Accepted? && edges <= w.policy.maxCount ==> r.1 <= w.policy.maxCount
    decreases w.policy.maxDepth + 1 - depth, 2, 0
  {
    if !ValidManifest(m) then (Rejected(InvalidManifest), edges)
    else if m.actionDigest != requested then (Rejected(ActionDigestMismatch), edges)
    else if w.policy.requireLineage && m.version != ResultV1 then (Rejected(LineageRequired), edges)
    else if depth > w.policy.maxDepth then (Rejected(DependencyDepthExceeded), edges)
    else if cycles && ManifestDigest(m) in active then (Rejected(DependencyCycle), edges)
    else
      var own := Examine(w, m, k, depth == 0, ignoreFreshness);
      if !own.Accepted? then (own, edges)
      else
        var (failure, edges') := EvaluateFrom(w, m, 0, active + {ManifestDigest(m)}, edges, depth, cycles);
        (if failure.Some? then failure.value else own, edges')
  }

  /** The dependencies of `m` from position `i` on: the first failure, if any, and the edge counter. */
  ghost function EvaluateFrom(w: World, m: Manifest, i: nat, active: set<Digest>, edges: nat, depth: nat,
                              cycles: bool): (r: (Option<Verdict>, nat))
    requires i <= |Dependencies(m)| && depth <= w.policy.maxDepth
    ensures edges <= r.1 && (edges <= w.policy.maxCount ==> r.1 <= w.policy.maxCount + 1)
    ensures r.0.None? && edges <= w.policy.maxCount ==> r.1 <= w.policy.maxCount
    ensures r.0.Some? ==> !r.0.value.Accepted?
    decreases w.policy.maxDepth + 1 - depth, 1, |Dependencies(m)| - i
  {
    if i == |Dependencies(m)| then (None, edges)
    else
      var (failure, edges') := EvaluateUpstream(w, Dependencies(m)[i].resultDigest, active, edges, depth, cycles);
      if failure.Some? then (failure, edges') else EvaluateFrom(w, m, i + 1, active, edges', depth, cycles)
  }

  /** One dependency edge: count it, locate the exact result, evaluate it one level deeper. */
  ghost function EvaluateUpstream(w: World, d: Digest, active: set<Digest>, edges: nat, depth: nat, cycles: bool)
    : (r: (Option<Verdict>, nat))
    requires depth <= w.policy.maxDepth
    ensures edges + 1 <= r.1 && (edges <= w.policy.maxCount ==> r.1 <= w.policy.maxCount + 1)
    ensures r.0.None? && edges <= w.policy.maxCount ==> r.1 <= w.policy.maxCount
    ensures r.0.Some? ==> !r.0.value.Accepted?
    decreases w.policy.maxDepth + 1 - depth, 0, 0
  {
    if edges + 1 > w.policy.maxCount then (Some(Rejected(DependencyCountExceeded)), edges + 1)
    else
      match Locate(w.stores, d)
      case NotFound(reason) => (Some(Rejected(reason)), edges + 1)
      case Found(m, k) =>
        var (verdict, edges') := Evaluate(w, m.actionDigest, m, k, active, edges + 1, depth + 1, false, cycles);
        match verdict
        case Accepted(_, _) => (None, edges')
        case Rejected(reason) => (Some(Rejected(reason.Propagated())), edges')
        case Raised => (Some(Raised), edges')
  }
}
