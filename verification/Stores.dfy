/** What a lookup can observe of a store, the trust policy it applies, and why a candidate is turned down. */
module Stores {
  import opened Text
  import opened Digests
  import opened Records

  /** The answer of a store read; `Unreadable` is StoreReadError. */
  datatype Read<+T> = Readable(value: T) | Unreadable

  /** Optional readers are `None` for a store type without that method. */
  datatype Store = Store(
    name: Text,
    candidates: Digest -> Read<seq<Manifest>>,
    result: Option<Digest -> Read<Option<Manifest>>>,
    validations: Digest -> Read<seq<Validation>>,
    invalidations: Option<Digest -> Read<seq<Invalidation>>>,
    blob: Digest -> Read<Option<Bytes>>)

  type Positive = n: int | n > 0 witness 1

  datatype Policy = Policy(
    now: Time,
    trustedProducers: Option<set<Text>>,
    trustedValidationProducers: Option<set<Text>>,
    trustedInvalidationProducers: Option<set<Text>>,
    permitNoExpiry: bool,
    requireLineage: bool,
    maxDepth: Positive,
    maxCount: Positive)
  {
    /** A trust set that is not given trusts everyone. */
    static predicate Trusts(trust: Option<set<Text>>, producer: Text) {
      trust.None? || producer in trust.value
    }

    function ValidationTrust(): Option<set<Text>> {
      if trustedValidationProducers.Some? then trustedValidationProducers else trustedProducers
    }

    function InvalidationTrust(): Option<set<Text>> {
      if trustedInvalidationProducers.Some? then trustedInvalidationProducers else trustedProducers
    }

    predicate Effective(r: Invalidation) {
      Trusts(InvalidationTrust(), r.producer) && r.invalidatedAt <= now
    }

    predicate Extends(v: Validation) {
      Trusts(ValidationTrust(), v.producer) && v.freshUntil >= now
    }
  }

  /** The stores in search order and the policy of one lookup. */
  datatype World = World(stores: seq<Store>, policy: Policy)

  datatype Reason =
    | InvalidManifest
    | ActionDigestMismatch
    | LineageRequired
    | UntrustedProducer
    | InvalidationLookupUnsupported
    | InvalidationReadFailed
    | Invalidated
    | ValidationReadFailed
    | MissingFreshnessRule
    | Expired
    | ArtifactMissing
    | ArtifactIntegrityFailure
    | DependencyDepthExceeded
    | DependencyCycle
    | DependencyCountExceeded
    | DependencyDigestMismatch
    | DependencyInvalidManifest
    | DependencyReadFailed
    | DependencyLookupUnsupported
    | DependencyMissing
    | OfDependency(reason: Reason)
  {
    /** The reason code starts with `dependency_`. */
    predicate AboutDependency() {
      || DependencyDepthExceeded? || DependencyCycle? || DependencyCountExceeded? || DependencyDigestMismatch?
      || DependencyInvalidManifest? || DependencyReadFailed? || DependencyLookupUnsupported? || DependencyMissing?
      || OfDependency?
    }

    /** The reason a dependent gives when a dependency is turned down: prefixed once, never twice. */
    function Propagated(): (r: Reason)
      ensures r.AboutDependency() && (AboutDependency() ==> r == this)
    {
      if AboutDependency() then this else OfDependency(this)
    }
  }

  /** Outcome of evaluating one candidate; `Raised` is a read error that is not turned into a rejection. */
  datatype Verdict =
    | Accepted(artifacts: map<Text, Bytes>, validation: Option<Validation>)
    | Rejected(reason: Reason)
    | Raised
}
