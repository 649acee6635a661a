/**
 Importing a result from a peer: what a reported import proves, by the records' own fields, what a refusal leaves
 alone, and how long what was imported stays.
 */
module FederatedImport {
  import opened Text
  import opened Json
  import opened Digests
  import opened Records
  import opened MemoryStore
  import opened Signing
  import opened LeasedCache
  import opened LeasedFiles
  import opened Availability
  import opened PeerCatalog
  import opened PeerImport
  import Sorting

  // ---------- the availability ----------

  /** Signed over its own canonical bytes with the key the receiver has configured for the peer. */
  ghost predicate SignedAsConfigured(a: AvailabilityManifest, config: Config) {
    && a.signature.Some? && |config.availabilityKey| == 32
    && a.signature.value.keyId == DigestBytes(config.availabilityKey)
    && CanonicalJson(UnsignedJson(a)).Some?
    && Ed25519.verify(config.availabilityKey, AVAILABILITY_DOMAIN + CanonicalJson(UnsignedJson(a)).value,
                      a.signature.value.value)
  }

  /** Every entry is well formed, and they ascend by action and then by result without repetition. */
  ghost predicate ListedInOrder(es: seq<Entry>) {
    && (forall i | 0 <= i < |es| ::
          && IsDigest(es[i].actionDigest) && IsDigest(es[i].resultDigest)
          && es[i].operation.name != [] && es[i].operation.version != [] && es[i].artifactBytes >= 0)
    && (forall i, k | 0 <= i < k < |es| ::
          || Less(es[i].actionDigest, es[k].actionDigest)
          || (es[i].actionDigest == es[k].actionDigest && Less(es[i].resultDigest, es[k].resultDigest)))
  }

  lemma SigningInputMeans(a: AvailabilityManifest)
    ensures SigningInput(a) == CanonicalJson(UnsignedJson(a))
  {
    assert IsSigningInput(SigningInput);
  }

  /** An availability is trusted exactly when it is the peer's own, signed as configured, in order, short and timely. */
  lemma TrustedMeans(a: AvailabilityManifest, config: Config, now: Time)
    ensures TrustedAvailability(a, config, now) <==>
            && a.peer == config.peer && a.peer != [] && SignedAsConfigured(a, config) && |a.signature.value.value| == 64
            && ListedInOrder(a.entries) && |a.entries| <= config.maxEntries
            && now - config.maxAge <= a.generatedAt <= now + config.skew
  {
    SigningInputMeans(a);
    assert ListedInOrder(a.entries) <==>
           (forall i | 0 <= i < |a.entries| :: ValidEntry(a.entries[i])) && Sorting.Ascending(a.entries, EntryBefore);
  }

  // ---------- the entry ----------

  /** `e` is the first entry of the action, for its operation, allowed and small enough. */
  ghost predicate AsksFor(es: seq<Entry>, i: nat, action: Action, d: Digest, config: Config) {
    && i < |es| && es[i].actionDigest == d && (forall k | 0 <= k < i :: es[k].actionDigest != d)
    && es[i].operation == action.operation
    && es[i].operation.name + ['/' as int] + es[i].operation.version in config.allowedOperations
    && es[i].artifactBytes <= config.maxTransferBytes
  }

  lemma {:induction false} FirstForMeans(es: seq<Entry>, i: nat, d: Digest)
    requires i < |es| && es[i].actionDigest == d && forall k | 0 <= k < i :: es[k].actionDigest != d
    ensures FirstFor(es, d) == Some(es[i])
  {
    if i > 0 {
      FirstForMeans(es[1..], i - 1, d);
    }
  }

  lemma {:induction false} FirstForPosition(es: seq<Entry>, d: Digest) returns (i: nat)
    requires FirstFor(es, d).Some?
    ensures i < |es| && es[i] == FirstFor(es, d).value && es[i].actionDigest == d
    ensures forall k | 0 <= k < i :: es[k].actionDigest != d
  {
    if es[0].actionDigest == d {
      i := 0;
    } else {
      var k := FirstForPosition(es[1..], d);
      i := k + 1;
    }
  }

  // ---------- the bundle ----------

  /** Signed over its own canonical bytes with the receiver's key of that id, for this result and its producer. */
  ghost predicate ReceiptAsConfigured(r: Receipt, m: Manifest, d: Digest, config: Config) {
    && r.resultDigest == d && r.producer == m.producer && r.environment.Obj?
    && r.signature.Some? && r.signature.value.keyId in config.receiptKeys
    && r.signature.value.keyId == DigestBytes(config.receiptKeys[r.signature.value.keyId])
    && CanonicalJson(UnsignedReceiptJson(r)).Some?
    && Ed25519.verify(config.receiptKeys[r.signature.value.keyId],
                      RECEIPT_DOMAIN + CanonicalJson(UnsignedReceiptJson(r)).value, r.signature.value.value)
  }

  lemma ReceiptInputMeans(r: Receipt)
    ensures ReceiptInput(r) == CanonicalJson(UnsignedReceiptJson(r))
  {
    assert IsReceiptInput(ReceiptInput);
  }

  /** A bundle's manifest is admitted exactly when it is the advertised one, by a trusted producer, with its receipt. */
  lemma ManifestAdmittedMeans(b: Bundle, e: Entry, config: Config)
    ensures ManifestAdmitted(b, e, config) <==>
            && ValidManifest(b.manifest) && b.manifest.version == ResultV0
            && ManifestDigest(b.manifest) == e.resultDigest && b.manifest.actionDigest == e.actionDigest
            && b.manifest.producer in config.trustedProducers
            && ReceiptAsConfigured(b.receipt, b.manifest, e.resultDigest, config) && |b.receipt.signature.value.value| == 64
  {
    ReceiptInputMeans(b.receipt);
    if ValidManifest(b.manifest) {
      ManifestDigestIsCanonical(b.manifest);
    }
  }

  /** Artifacts are admitted exactly when they are the described ones, none too large, and add up to the advertised size. */
  lemma ArtifactsAdmittedMeans(b: Bundle, e: Entry, config: Config)
    ensures ArtifactsAdmitted(b, e, config) <==>
            && (forall n :: n in b.artifacts <==> exists x :: x in b.manifest.artifacts && x.name == n)
            && (forall x | x in b.manifest.artifacts ::
                  && |b.artifacts[x.name]| == x.size <= config.maxArtifactBytes
                  && DigestBytes(b.artifacts[x.name]) == x.digest)
            && TotalBytes(b.manifest.artifacts) == e.artifactBytes
  {
  }

  /** The sum of the sizes, first to last. */
  lemma {:induction false} TotalMeans(x: Descriptor, xs: seq<Descriptor>)
    ensures TotalBytes([]) == 0 && TotalBytes([x] + xs) == x.size + TotalBytes(xs)
    decreases |xs|
  {
    if xs == [] {
      assert ([x] + xs)[..0] == [];
    } else {
      TotalMeans(x, xs[..|xs| - 1]);
      assert ([x] + xs)[..|xs|] == [x] + xs[..|xs| - 1];
    }
  }

  // ---------- what an import proves ----------

  /** The bundle is the advertised one: its manifest, its receipt and every artifact. */
  ghost predicate BundleAsAdvertised(b: Bundle, e: Entry, config: Config) {
    && ValidManifest(b.manifest) && b.manifest.version == ResultV0
    && ManifestDigest(b.manifest) == e.resultDigest && b.manifest.actionDigest == e.actionDigest
    && b.manifest.producer in config.trustedProducers
    && ReceiptAsConfigured(b.receipt, b.manifest, e.resultDigest, config) && |b.receipt.signature.value.value| == 64
    && (forall n :: n in b.artifacts <==> exists x :: x in b.manifest.artifacts && x.name == n)
    && (forall x | x in b.manifest.artifacts ::
          && |b.artifacts[x.name]| == x.size <= config.maxArtifactBytes
          && DigestBytes(b.artifacts[x.name]) == x.digest)
    && TotalBytes(b.manifest.artifacts) == e.artifactBytes
  }

  ghost predicate AvailabilityAsConfigured(a: AvailabilityManifest, config: Config, now: Time) {
    && a.peer == config.peer && a.peer != [] && SignedAsConfigured(a, config) && |a.signature.value.value| == 64
    && ListedInOrder(a.entries) && |a.entries| <= config.maxEntries
    && now - config.maxAge <= a.generatedAt <= now + config.skew
  }

  lemma BundlePassesMeans(b: Bundle, e: Entry, config: Config)
    ensures BundlePasses(Some(b), e, config) <==> BundleAsAdvertised(b, e, config)
  {
    ManifestAdmittedMeans(b, e, config);
    ArtifactsAdmittedMeans(b, e, config);
  }

  lemma SelectedMeans(a: AvailabilityManifest, i: nat, action: Action, d: Digest, config: Config, now: Time)
    requires AsksFor(a.entries, i, action, d, config)
    ensures Selected(a, action.operation, d, config, now) <==> AvailabilityAsConfigured(a, config, now)
    ensures FirstFor(a.entries, d) == Some(a.entries[i])
  {
    TrustedMeans(a, config, now);
    FirstForMeans(a.entries, i, d);
  }

  lemma SelectedAsks(a: AvailabilityManifest, action: Action, d: Digest, config: Config, now: Time) returns (i: nat)
    requires Selected(a, action.operation, d, config, now)
    ensures AsksFor(a.entries, i, action, d, config) && AvailabilityAsConfigured(a, config, now)
  {
    i := FirstForPosition(a.entries, d);
    TrustedMeans(a, config, now);
  }

  /** A reported import: which entry was asked for, and everything that was checked. */
  ghost predicate Proves(a: AvailabilityManifest, i: nat, fetch: Digest -> Fetched, action: Action, d: Digest,
                         config: Config, now: Time, b: Bundle) {
    && AvailabilityAsConfigured(a, config, now) && AsksFor(a.entries, i, action, d, config)
    && fetch(a.entries[i].resultDigest) == Returns(Some(b)) && BundleAsAdvertised(b, a.entries[i], config)
  }

  /** What is imported was signed for, asked for, and is what was advertised. */
  lemma ImportedProves(a: Option<AvailabilityManifest>, fetch: Digest -> Fetched, action: Action, d: Digest, config: Config,
                       now: Time, o: Outcome, b: Option<Bundle>) returns (i: nat)
    requires Decides(a, fetch, action.operation, d, config, now, o, b) && o.Imported?
    ensures a.Some? && b.Some? && Proves(a.value, i, fetch, action, d, config, now, b.value)
    ensures o == Outcome.Imported(ManifestDigest(b.value.manifest), TotalBytes(b.value.manifest.artifacts))
  {
    i := SelectedAsks(a.value, action, d, config, now);
    SelectedMeans(a.value, i, action, d, config, now);
    BundlePassesMeans(b.value, a.value.entries[i], config);
  }

  /** Conversely, all of that is enough. */
  lemma ProvedIsImported(a: AvailabilityManifest, i: nat, fetch: Digest -> Fetched, action: Action, d: Digest,
                         config: Config, now: Time, x: Bundle, o: Outcome, b: Option<Bundle>)
    requires Decides(Some(a), fetch, action.operation, d, config, now, o, b)
    requires Proves(a, i, fetch, action, d, config, now, x)
    ensures b == Some(x) && o == Outcome.Imported(ManifestDigest(x.manifest), TotalBytes(x.manifest.artifacts))
  {
    SelectedMeans(a, i, action, d, config, now);
    BundlePassesMeans(x, a.entries[i], config);
  }

  /** An availability that is not the configured peer's own, signed and timely, is refused without asking. */
  lemma ForgedAvailabilityRefused(a: AvailabilityManifest, fetch: Digest -> Fetched, action: Action, d: Digest,
                                  config: Config, now: Time, o: Outcome, b: Option<Bundle>)
    requires Decides(Some(a), fetch, action.operation, d, config, now, o, b)
    requires !AvailabilityAsConfigured(a, config, now)
    ensures !o.Imported? && !o.FetchRaised?
    ensures (&& ValidAvailability(a) && |a.entries| <= config.maxEntries
             && !(a.peer == config.peer && SignedAsConfigured(a, config)))
      ==> o.AvailabilityUntrusted?
  {
    TrustedMeans(a, config, now);
    SigningInputMeans(a);
  }

  /** A bundle without its producer's receipt under a configured key, or not as advertised, is refused. */
  lemma ForgedBundleRefused(a: AvailabilityManifest, i: nat, fetch: Digest -> Fetched, action: Action, d: Digest,
                            config: Config, now: Time, x: Bundle, o: Outcome, b: Option<Bundle>)
    requires Decides(Some(a), fetch, action.operation, d, config, now, o, b)
    requires AsksFor(a.entries, i, action, d, config) && fetch(a.entries[i].resultDigest) == Returns(Some(x))
    requires !BundleAsAdvertised(x, a.entries[i], config)
    ensures !o.Imported? && !o.FetchRaised?
    ensures (&& AvailabilityAsConfigured(a, config, now) && ManifestMatches(x, a.entries[i])
             && x.manifest.producer in config.trustedProducers && x.receipt.signature.value.keyId in config.receiptKeys
             && !ReceiptAsConfigured(x.receipt, x.manifest, a.entries[i].resultDigest, config))
      ==> o.ReceiptInvalid?
  {
    ManifestAdmittedMeans(x, a.entries[i], config);
    SelectedMeans(a, i, action, d, config, now);
    BundlePassesMeans(x, a.entries[i], config);
  }

  // ---------- the import ----------

  /** The bundle is in the cache, leased until `until`; what else was there is there still. */
  ghost predicate Took(before: Cache, after: Cache, b: Bundle, until: Time)
    requires ValidManifest(b.manifest)
  {
    var d, a := ManifestDigest(b.manifest), b.manifest.actionDigest;
    && after.leases == before.leases[d := until]
    && after.results == before.results[a := (if a in before.results then before.results[a] else []) + [b.manifest]]
    && after.receipts == before.receipts[d := (if d in before.receipts then before.receipts[d] else []) + [b.receipt]]
    && (forall x | x in b.manifest.artifacts ::
          x.name in b.artifacts && Lookup(after.blobs, x.digest) == Some(b.artifacts[x.name]))
    && (forall k | k in before.blobs && (forall x | x in b.manifest.artifacts :: x.digest != k) ::
          Lookup(after.blobs, k) == Some(before.blobs[k]))
    && (forall k | k in after.blobs :: k in before.blobs || exists x :: x in b.manifest.artifacts && x.digest == k)
  }

  lemma {:induction false} WithBlobsHolds(blobs: map<Digest, Bytes>, xs: seq<Descriptor>, artifacts: map<Text, Bytes>)
    requires forall x | x in xs :: x.name in artifacts && DigestBytes(artifacts[x.name]) == x.digest
    ensures var after := WithBlobs(blobs, xs, artifacts);
      && (forall x | x in xs :: Lookup(after, x.digest) == Some(artifacts[x.name]))
      && (forall k | k in blobs && (forall x | x in xs :: x.digest != k) :: Lookup(after, k) == Some(blobs[k]))
      && (forall k | k in after :: k in blobs || exists x :: x in xs && x.digest == k)
    decreases |xs|
  {
    if xs != [] {
      var rest, last := xs[..|xs| - 1], xs[|xs| - 1];
      assert xs == rest + [last] && last in xs;
      WithBlobsHolds(blobs, rest, artifacts);
      forall x | x in xs ensures Lookup(WithBlobs(blobs, xs, artifacts), x.digest) == Some(artifacts[x.name]) {
        if x.digest == last.digest {
          DigestBytesInjective(artifacts[x.name], artifacts[last.name]);
        }
      }
    }
  }

  lemma ImportTakes(before: Cache, b: Bundle, until: Time)
    requires IntactBundle(b)
    ensures Took(before, AfterImport(before, b, until), b, until)
  {
    AfterImportIsImported(before, b, until);
    WithBlobsHolds(before.blobs, b.manifest.artifacts, b.artifacts);
  }

  /** A reported import and the entry it rests on. */
  ghost predicate Evident(a: Option<AvailabilityManifest>, fetch: Digest -> Fetched, action: Action, config: Config,
                          now: Time, o: Outcome, b: Option<Bundle>) {
    && a.Some? && b.Some? && IntactBundle(b.value) && ActionId(action).Some?
    && (exists i: nat :: Proves(a.value, i, fetch, action, ActionId(action).value, config, now, b.value))
    && o == Outcome.Imported(ManifestDigest(b.value.manifest), TotalBytes(b.value.manifest.artifacts))
  }

  lemma ImportedIsEvident(a: Option<AvailabilityManifest>, fetch: Digest -> Fetched, action: Action, config: Config,
                          now: Time, o: Outcome, b: Option<Bundle>)
    requires ActionId(action).Some? && o.Imported?
    requires Decides(a, fetch, action.operation, ActionId(action).value, config, now, o, b)
    ensures Evident(a, fetch, action, config, now, o, b)
  {
    var i := ImportedProves(a, fetch, action, ActionId(action).value, config, now, o, b);
  }

  /** An import puts the bundle into the destination, leased for the retention; nothing else changes it. */
  ghost predicate Leaves(before: Cache, after: Cache, o: Outcome, b: Option<Bundle>, now: Time, retention: Time) {
    if !o.Imported? then after == before
    else
      && b.Some? && IntactBundle(b.value)
      && after == AfterImport(before, b.value, now + retention)
      && Took(before, after, b.value, now + retention)
  }

  method Keep(destination: FederationCacheStore, o: Outcome, b: Option<Bundle>, now: Time, retention: Time)
    requires o.Imported? ==> b.Some? && IntactBundle(b.value)
    modifies destination
    ensures Leaves(old(destination.Contents()), destination.Contents(), o, b, now, retention)
  {
    if o.Imported? {
      ImportTakes(destination.Contents(), b.value, now + retention);
      destination.ImportBundle(b.value, now + retention);
    }
  }

  method Decide(action: Action, availability: Option<AvailabilityManifest>, fetch: Digest -> Fetched, config: Config,
                now: Time) returns (o: Outcome, b: Option<Bundle>)
    requires ActionId(action).Some?
    ensures Decides(availability, fetch, action.operation, ActionId(action).value, config, now, o, b)
    ensures o.Imported? ==> Evident(availability, fetch, action, config, now, o, b)
    ensures o.Imported? ==> b.Some? && IntactBundle(b.value)
  {
    o, b := Gate(availability, fetch, action.operation, ActionId(action).value, config, now);
    if o.Imported? {
      ImportedIsEvident(availability, fetch, action, config, now, o, b);
    }
  }

  /**
   `import_from_peer`, the peer given by its two answers. A reported import proves everything that was checked and puts
   exactly the advertised bundle in the destination, leased for the retention; otherwise the destination stays as it was.
   */
  method ImportFromPeer(action: Action, availability: Option<AvailabilityManifest>, fetch: Digest -> Fetched,
                        config: Config, destination: FederationCacheStore, now: Time)
    returns (o: Outcome, b: Option<Bundle>)
    requires ValidAction(action)
    modifies destination
    ensures ActionId(action).Some?
    ensures Decides(availability, fetch, action.operation, ActionId(action).value, config, now, o, b)
    ensures o.Imported? ==> Evident(availability, fetch, action, config, now, o, b)
    ensures Leaves(old(destination.Contents()), destination.Contents(), o, b, now, config.retention)
  {
    ValidActionHasId(action);
    o, b := Decide(action, availability, fetch, config, now);
    Keep(destination, o, b, now, config.retention);
  }
}
