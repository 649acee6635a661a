/** The import gate: what it lets into a leased cache, and that an honest peer gets through it. */
module PeerImport {
  import opened Text
  import opened Json
  import opened Digests
  import opened Records
  import opened Stores
  import opened Evaluation
  import opened MemoryStore
  import opened Signing
  import opened LeasedCache
  import opened LeasedFiles
  import opened Availability
  import opened PeerCatalog
  import Sorting

  datatype Config = Config(
    peer: Text,
    availabilityKey: Bytes,
    receiptKeys: map<Text, Bytes>,
    trustedProducers: set<Text>,
    allowedOperations: set<Text>,
    maxEntries: nat,
    maxArtifactBytes: nat,
    maxTransferBytes: nat,
    maxAge: Time,
    skew: Time,
    retention: Time)

  /** Receipt keys stand under their own key ids. */
  ghost predicate ValidConfig(config: Config) {
    && |config.availabilityKey| == 32 && config.maxAge > 0 && config.skew >= 0 && config.retention > 0
    && forall k | k in config.receiptKeys :: KeyId(config.receiptKeys[k]) == k
  }

  datatype Outcome =
    | Imported(digest: Digest, bytes: int)
    | AvailabilityInvalid
    | AvailabilityLimitExceeded
    | AvailabilityUntrusted
    | AvailabilityExpired
    | AvailabilityFromFuture
    | NotAvailable
    | OperationDenied
    | TransferLimitExceeded
    | FetchRaised
    | BundleUnavailable
    | BundleInvalid
    | ProducerUntrusted
    | ReceiptKeyUntrusted
    | ReceiptInvalid
    | ArtifactLimitExceeded

  /** A failed outcome the gate reports itself. */
  predicate Refuses(o: Outcome) {
    !o.Imported? && !o.FetchRaised?
  }

  function OperationKey(o: Operation): Text {
    o.name + [47] + o.version
  }

  /** The first entry of the action. */
  function FirstFor(es: seq<Entry>, d: Digest): (e: Option<Entry>)
    ensures e.None? ==> forall i | 0 <= i < |es| :: es[i].actionDigest != d
    ensures e.Some? ==> e.value in es && e.value.actionDigest == d
  {
    if es == [] then None else if es[0].actionDigest == d then Some(es[0]) else FirstFor(es[1..], d)
  }

  // ---------- what passes ----------

  ghost predicate TrustedAvailability(a: AvailabilityManifest, config: Config, now: Time) {
    && ValidAvailability(a) && |a.entries| <= config.maxEntries && Verify(a, config.peer, config.availabilityKey)
    && now - config.maxAge <= a.generatedAt <= now + config.skew
  }

  predicate EntryAllowed(e: Entry, o: Operation, config: Config) {
    e.operation == o && OperationKey(o) in config.allowedOperations && e.artifactBytes <= config.maxTransferBytes
  }

  /** The manifest is the advertised one, by a trusted producer with a verified receipt. */
  ghost predicate ManifestAdmitted(b: Bundle, e: Entry, config: Config) {
    && FederationResult(b.manifest) && ValidSignedReceipt(b.receipt)
    && ManifestDigest(b.manifest) == e.resultDigest && b.manifest.actionDigest == e.actionDigest
    && b.manifest.producer in config.trustedProducers
    && b.receipt.signature.value.keyId in config.receiptKeys
    && VerifyForManifest(b.receipt, b.manifest, config.receiptKeys[b.receipt.signature.value.keyId])
  }

  /** The artifacts are exactly those described, none too large, and add up to the advertised size. */
  ghost predicate ArtifactsAdmitted(b: Bundle, e: Entry, config: Config) {
    && NamesMatch(b) && ArtifactsIntact(b)
    && (forall x | x in b.manifest.artifacts :: x.size <= config.maxArtifactBytes)
    && TotalBytes(b.manifest.artifacts) == e.artifactBytes
  }

  ghost predicate Selected(a: AvailabilityManifest, o: Operation, d: Digest, config: Config, now: Time) {
    && TrustedAvailability(a, config, now)
    && FirstFor(a.entries, d).Some? && EntryAllowed(FirstFor(a.entries, d).value, o, config)
  }

  /** The availability selects an entry and `b`, the peer's answer for it, is what was advertised. */
  ghost predicate Passes(a: AvailabilityManifest, b: Option<Bundle>, o: Operation, d: Digest, config: Config, now: Time) {
    Selected(a, o, d, config, now) && BundlePasses(b, FirstFor(a.entries, d).value, config)
  }

  ghost predicate BundlePasses(b: Option<Bundle>, e: Entry, config: Config) {
    b.Some? && ManifestAdmitted(b.value, e, config) && ArtifactsAdmitted(b.value, e, config)
  }

  // ---------- why something is refused: the first check that fails ----------

  ghost predicate AvailabilityFails(a: AvailabilityManifest, config: Config, now: Time, o: Outcome): (r: bool)
    ensures r ==> Refuses(o)
  {
    match o
    case AvailabilityInvalid => !ValidAvailability(a)
    case AvailabilityLimitExceeded => ValidAvailability(a) && |a.entries| > config.maxEntries
    case AvailabilityUntrusted =>
      ValidAvailability(a) && |a.entries| <= config.maxEntries && !Verify(a, config.peer, config.availabilityKey)
    case AvailabilityExpired =>
      && ValidAvailability(a) && |a.entries| <= config.maxEntries && Verify(a, config.peer, config.availabilityKey)
      && a.generatedAt < now - config.maxAge
    case AvailabilityFromFuture =>
      && ValidAvailability(a) && |a.entries| <= config.maxEntries && Verify(a, config.peer, config.availabilityKey)
      && now - config.maxAge <= a.generatedAt && a.generatedAt > now + config.skew
    case _ => false
  }

  ghost predicate SelectionFails(a: AvailabilityManifest, op: Operation, d: Digest, config: Config, now: Time, o: Outcome):
    (r: bool)
    ensures r ==> Refuses(o)
  {
    || AvailabilityFails(a, config, now, o)
    || (TrustedAvailability(a, config, now) &&
        match FirstFor(a.entries, d)
        case None => o.NotAvailable?
        case Some(e) =>
          if e.operation != op || OperationKey(op) !in config.allowedOperations then o.OperationDenied?
          else e.artifactBytes > config.maxTransferBytes && o.TransferLimitExceeded?)
  }

  ghost predicate ManifestMatches(b: Bundle, e: Entry) {
    && FederationResult(b.manifest) && ValidSignedReceipt(b.receipt)
    && ManifestDigest(b.manifest) == e.resultDigest && b.manifest.actionDigest == e.actionDigest
  }

  ghost predicate ManifestFails(b: Bundle, e: Entry, config: Config, o: Outcome): (r: bool)
    ensures r ==> Refuses(o)
  {
    match o
    case BundleInvalid => !ManifestMatches(b, e)
    case ProducerUntrusted => ManifestMatches(b, e) && b.manifest.producer !in config.trustedProducers
    case ReceiptKeyUntrusted =>
      && ManifestMatches(b, e) && b.manifest.producer in config.trustedProducers
      && b.receipt.signature.value.keyId !in config.receiptKeys
    case ReceiptInvalid =>
      && ManifestMatches(b, e) && b.manifest.producer in config.trustedProducers
      && b.receipt.signature.value.keyId in config.receiptKeys
      && !VerifyForManifest(b.receipt, b.manifest, config.receiptKeys[b.receipt.signature.value.keyId])
    case _ => false
  }

  /** The artifacts before the `i`-th are admitted and within the transfer limit. */
  ghost predicate AdmittedBefore(b: Bundle, i: nat, config: Config)
    requires NamesMatch(b)
  {
    && i <= |b.manifest.artifacts| && TotalBytes(b.manifest.artifacts[..i]) <= config.maxTransferBytes
    && forall j | 0 <= j < i :: PartAdmitted(b, j, config)
  }

  function DataOf(b: Bundle, i: nat): Bytes
    requires NamesMatch(b) && i < |b.manifest.artifacts|
  {
    assert b.manifest.artifacts[i] in b.manifest.artifacts;
    b.artifacts[b.manifest.artifacts[i].name]
  }

  /** Too large, damaged, or too much together with those before. */
  ghost predicate ArtifactFails(b: Bundle, i: nat, config: Config, o: Outcome)
    requires NamesMatch(b) && i < |b.manifest.artifacts|
  {
    match o
    case ArtifactLimitExceeded => |DataOf(b, i)| > config.maxArtifactBytes
    case BundleInvalid =>
      && |DataOf(b, i)| <= config.maxArtifactBytes
      && !Intact(b.manifest.artifacts[i], Readable(Some(DataOf(b, i))))
    case TransferLimitExceeded =>
      PartAdmitted(b, i, config) && TotalBytes(b.manifest.artifacts[..i + 1]) > config.maxTransferBytes
    case _ => false
  }

  /** The names, the first artifact that fails, or the advertised size. */
  ghost predicate ArtifactsFail(b: Bundle, e: Entry, config: Config, o: Outcome): (r: bool)
    ensures r ==> Refuses(o)
  {
    if !NamesMatch(b) then o.BundleInvalid?
    else
      || (exists i: nat :: i < |b.manifest.artifacts| && AdmittedBefore(b, i, config) && ArtifactFails(b, i, config, o))
      || (&& AdmittedBefore(b, |b.manifest.artifacts|, config)
          && TotalBytes(b.manifest.artifacts) != e.artifactBytes && o.BundleInvalid?)
  }

  ghost predicate BundleFails(b: Option<Bundle>, e: Entry, config: Config, o: Outcome): (r: bool)
    ensures r ==> Refuses(o)
  {
    match b
    case None => o.BundleUnavailable?
    case Some(x) => ManifestFails(x, e, config, o) || (ManifestAdmitted(x, e, config) && ArtifactsFail(x, e, config, o))
  }

  // ---------- the gate ----------

  /** `None` when all is well, else the reason. */
  method CheckAvailability(a: AvailabilityManifest, config: Config, now: Time) returns (failure: Option<Outcome>)
    ensures failure.None? <==> TrustedAvailability(a, config, now)
    ensures failure.Some? ==> AvailabilityFails(a, config, now, failure.value)
  {
    var valid := ValidateAvailability(a);
    if !valid {
      return Some(AvailabilityInvalid);
    } else if |a.entries| > config.maxEntries {
      return Some(AvailabilityLimitExceeded);
    } else if !Verify(a, config.peer, config.availabilityKey) {
      return Some(AvailabilityUntrusted);
    } else if a.generatedAt < now - config.maxAge {
      return Some(AvailabilityExpired);
    } else if a.generatedAt > now + config.skew {
      return Some(AvailabilityFromFuture);
    }
    return None;
  }

  method CheckManifest(b: Bundle, e: Entry, config: Config) returns (failure: Option<Outcome>)
    ensures failure.None? <==> ManifestAdmitted(b, e, config)
    ensures failure.Some? ==> ManifestFails(b, e, config, failure.value)
  {
    var valid := ValidateManifest(b.manifest);
    if !valid || b.manifest.version != ResultV0 || !ValidSignedReceipt(b.receipt) {
      return Some(BundleInvalid);
    }
    ManifestDigestIsCanonical(b.manifest);
    var digest := ObjectDigest(ManifestJson(b.manifest)).value;
    if digest != e.resultDigest || b.manifest.actionDigest != e.actionDigest {
      return Some(BundleInvalid);
    }
    if b.manifest.producer !in config.trustedProducers {
      return Some(ProducerUntrusted);
    }
    var keyId := b.receipt.signature.value.keyId;
    if keyId !in config.receiptKeys {
      return Some(ReceiptKeyUntrusted);
    }
    if b.receipt.resultDigest != digest || b.receipt.producer != b.manifest.producer
       || !VerifyReceipt(b.receipt, config.receiptKeys[keyId]) {
      return Some(ReceiptInvalid);
    }
    return None;
  }

  lemma {:induction false} TotalGrows(xs: seq<Descriptor>, n: nat)
    requires n <= |xs| && forall i | 0 <= i < |xs| :: xs[i].size >= 0
    ensures 0 <= TotalBytes(xs[..n]) <= TotalBytes(xs)
    decreases |xs| - n
  {
    if n < |xs| {
      TotalGrows(xs, n + 1);
      assert xs[..n + 1][..n] == xs[..n];
      TotalPositive(xs[..n]);
    } else {
      assert xs[..n] == xs;
      TotalPositive(xs);
    }
  }

  lemma {:induction false} TotalPositive(xs: seq<Descriptor>)
    requires forall i | 0 <= i < |xs| :: xs[i].size >= 0
    ensures TotalBytes(xs) >= 0
    decreases |xs|
  {
    if xs != [] {
      TotalPositive(xs[..|xs| - 1]);
    }
  }

  lemma TotalNext(xs: seq<Descriptor>, i: nat)
    requires i < |xs|
    ensures TotalBytes(xs[..i + 1]) == TotalBytes(xs[..i]) + xs[i].size
  {
    assert xs[..i + 1][..i] == xs[..i];
  }

  predicate PartAdmitted(b: Bundle, i: nat, config: Config)
    requires NamesMatch(b) && i < |b.manifest.artifacts|
  {
    var x := b.manifest.artifacts[i];
    assert x in b.manifest.artifacts;
    Intact(x, Readable(Some(b.artifacts[x.name]))) && x.size <= config.maxArtifactBytes
  }

  lemma Unadmitted(b: Bundle, e: Entry, i: nat, config: Config)
    requires NamesMatch(b) && i < |b.manifest.artifacts| && !PartAdmitted(b, i, config)
    ensures !ArtifactsAdmitted(b, e, config)
  {
    assert b.manifest.artifacts[i] in b.manifest.artifacts;
  }

  /** The first artifact that fails is why the bundle does. */
  lemma FailsThere(b: Bundle, e: Entry, i: nat, config: Config, o: Outcome)
    requires ValidManifest(b.manifest) && e.artifactBytes <= config.maxTransferBytes && NamesMatch(b)
    requires i < |b.manifest.artifacts| && AdmittedBefore(b, i, config) && ArtifactFails(b, i, config, o)
    ensures ArtifactsFail(b, e, config, o) && !ArtifactsAdmitted(b, e, config)
  {
    if o.TransferLimitExceeded? {
      OverLimit(b, e, i + 1, config);
    } else {
      Unadmitted(b, e, i, config);
    }
  }

  /** A partial sum over the transfer limit is over what was advertised. */
  lemma OverLimit(b: Bundle, e: Entry, n: nat, config: Config)
    requires ValidManifest(b.manifest) && n <= |b.manifest.artifacts| && e.artifactBytes <= config.maxTransferBytes
    requires TotalBytes(b.manifest.artifacts[..n]) > config.maxTransferBytes
    ensures !ArtifactsAdmitted(b, e, config)
  {
    TotalGrows(b.manifest.artifacts, n);
  }

  lemma AllAdmitted(b: Bundle, e: Entry, config: Config)
    requires NamesMatch(b) && forall i | 0 <= i < |b.manifest.artifacts| :: PartAdmitted(b, i, config)
    ensures ArtifactsAdmitted(b, e, config) <==> TotalBytes(b.manifest.artifacts) == e.artifactBytes
  {
    forall x | x in b.manifest.artifacts
      ensures Intact(x, Readable(Some(b.artifacts[x.name]))) && x.size <= config.maxArtifactBytes
    {
      var i: nat :| i < |b.manifest.artifacts| && b.manifest.artifacts[i] == x;
      assert PartAdmitted(b, i, config);
    }
  }

  lemma AdmittedNext(b: Bundle, i: nat, config: Config)
    requires NamesMatch(b) && i < |b.manifest.artifacts| && AdmittedBefore(b, i, config) && PartAdmitted(b, i, config)
    ensures TotalBytes(b.manifest.artifacts[..i + 1]) == TotalBytes(b.manifest.artifacts[..i]) + |DataOf(b, i)|
    ensures TotalBytes(b.manifest.artifacts[..i + 1]) <= config.maxTransferBytes ==> AdmittedBefore(b, i + 1, config)
  {
    TotalNext(b.manifest.artifacts, i);
  }

  lemma AdmittedToTheEnd(b: Bundle, e: Entry, config: Config, total: int)
    requires NamesMatch(b) && AdmittedBefore(b, |b.manifest.artifacts|, config)
    requires total == TotalBytes(b.manifest.artifacts[..|b.manifest.artifacts|])
    ensures total == TotalBytes(b.manifest.artifacts)
    ensures ArtifactsAdmitted(b, e, config) <==> total == e.artifactBytes
    ensures total != e.artifactBytes ==> ArtifactsFail(b, e, config, BundleInvalid)
  {
    assert b.manifest.artifacts[..|b.manifest.artifacts|] == b.manifest.artifacts;
    AllAdmitted(b, e, config);
  }

  /** The loop with its running total. */
  method CheckArtifacts(b: Bundle, e: Entry, config: Config) returns (failure: Option<Outcome>, total: int)
    requires ValidManifest(b.manifest) && e.artifactBytes <= config.maxTransferBytes
    ensures failure.None? <==> ArtifactsAdmitted(b, e, config)
    ensures failure.None? ==> total == TotalBytes(b.manifest.artifacts)
    ensures failure.Some? ==> ArtifactsFail(b, e, config, failure.value)
  {
    total := 0;
    if !NamesMatch(b) {
      return Some(BundleInvalid), total;
    }
    var xs := b.manifest.artifacts;
    for i := 0 to |xs|
      invariant total == TotalBytes(xs[..i])
      invariant AdmittedBefore(b, i, config)
    {
      var data := DataOf(b, i);
      if |data| > config.maxArtifactBytes {
        FailsThere(b, e, i, config, ArtifactLimitExceeded);
        return Some(ArtifactLimitExceeded), total;
      }
      if |data| != xs[i].size || DigestBytes(data) != xs[i].digest {
        FailsThere(b, e, i, config, BundleInvalid);
        return Some(BundleInvalid), total;
      }
      AdmittedNext(b, i, config);
      total := total + |data|;
      if total > config.maxTransferBytes {
        FailsThere(b, e, i, config, TransferLimitExceeded);
        return Some(TransferLimitExceeded), total;
      }
    }
    AdmittedToTheEnd(b, e, config, total);
    if total != e.artifactBytes {
      return Some(BundleInvalid), total;
    }
    return None, total;
  }

  /** Everything up to the entry to ask for. */
  method SelectEntry(a: AvailabilityManifest, o: Operation, d: Digest, config: Config, now: Time)
    returns (failure: Option<Outcome>, e: Option<Entry>)
    ensures failure.None? <==> Selected(a, o, d, config, now)
    ensures failure.Some? ==> SelectionFails(a, o, d, config, now, failure.value)
    ensures failure.None? ==> e == FirstFor(a.entries, d)
  {
    failure := CheckAvailability(a, config, now);
    if failure.Some? {
      return failure, None;
    }
    e := FirstFor(a.entries, d);
    if e.None? {
      return Some(NotAvailable), None;
    }
    if e.value.operation != o || OperationKey(e.value.operation) !in config.allowedOperations {
      return Some(OperationDenied), None;
    }
    if e.value.artifactBytes > config.maxTransferBytes {
      return Some(TransferLimitExceeded), None;
    }
  }

  method CheckBundle(b: Bundle, e: Entry, config: Config) returns (failure: Option<Outcome>, total: int)
    requires e.artifactBytes <= config.maxTransferBytes
    ensures failure.None? <==> ManifestAdmitted(b, e, config) && ArtifactsAdmitted(b, e, config)
    ensures failure.None? ==> total == TotalBytes(b.manifest.artifacts)
    ensures failure.Some? ==> BundleFails(Some(b), e, config, failure.value)
  {
    failure := CheckManifest(b, e, config);
    if failure.Some? {
      return failure, 0;
    }
    failure, total := CheckArtifacts(b, e, config);
  }

  method CheckFetched(bundle: Option<Bundle>, e: Entry, config: Config) returns (o: Outcome)
    requires e.artifactBytes <= config.maxTransferBytes
    ensures o.Imported? <==> BundlePasses(bundle, e, config)
    ensures o.Imported? ==> o == Outcome.Imported(e.resultDigest, TotalBytes(bundle.value.manifest.artifacts))
    ensures !o.Imported? ==> BundleFails(bundle, e, config, o)
  {
    if bundle.None? {
      return BundleUnavailable;
    }
    var failure, total := CheckBundle(bundle.value, e, config);
    o := if failure.Some? then failure.value else Outcome.Imported(e.resultDigest, total);
  }

  /** What `fetch_bundle` does; an exception of its own passes through the gate. */
  datatype Fetched = Raises | Returns(bundle: Option<Bundle>)

  /** What the gate decides, and with which bundle. */
  ghost predicate Decides(a: Option<AvailabilityManifest>, fetch: Digest -> Fetched, op: Operation, d: Digest,
                          config: Config, now: Time, o: Outcome, b: Option<Bundle>) {
    if a.None? then o.AvailabilityInvalid?
    else if !Selected(a.value, op, d, config, now) then SelectionFails(a.value, op, d, config, now, o)
    else
      var e := FirstFor(a.value.entries, d).value;
      match fetch(e.resultDigest)
      case Raises => o.FetchRaised?
      case Returns(answer) =>
        if Passes(a.value, answer, op, d, config, now) then
          && b == answer && IntactBundle(b.value)
          && o == Outcome.Imported(e.resultDigest, TotalBytes(b.value.manifest.artifacts))
        else BundleFails(answer, e, config, o)
  }

  /** Nothing is asked for when no entry is selected. */
  lemma DecidesUnasked(a: Option<AvailabilityManifest>, fetch: Digest -> Fetched, op: Operation, d: Digest, config: Config,
                       now: Time, o: Outcome, b: Option<Bundle>)
    requires if a.None? then o.AvailabilityInvalid?
      else !Selected(a.value, op, d, config, now) && SelectionFails(a.value, op, d, config, now, o)
    ensures Decides(a, fetch, op, d, config, now, o, b)
  {
  }

  /** The entry is asked for, and the outcome is that of checking the answer. */
  lemma DecidesAsked(a: AvailabilityManifest, fetch: Digest -> Fetched, op: Operation, d: Digest, config: Config, now: Time,
                     e: Entry, o: Outcome, b: Option<Bundle>)
    requires Selected(a, op, d, config, now) && FirstFor(a.entries, d) == Some(e)
    requires match fetch(e.resultDigest)
      case Raises => o.FetchRaised?
      case Returns(answer) =>
        && b == answer
        && (if o.Imported? then BundlePasses(b, e, config)
            else BundleFails(b, e, config, o) && !BundlePasses(b, e, config))
        && (o.Imported? ==> o == Outcome.Imported(e.resultDigest, TotalBytes(b.value.manifest.artifacts)))
    ensures Decides(Some(a), fetch, op, d, config, now, o, b)
  {
    if o.Imported? {
      PassedIsIntact(a, b, op, d, config, now);
    }
  }

  method Gate(a: Option<AvailabilityManifest>, fetch: Digest -> Fetched, op: Operation, d: Digest, config: Config, now: Time)
    returns (o: Outcome, bundle: Option<Bundle>)
    ensures Decides(a, fetch, op, d, config, now, o, bundle)
    ensures o.Imported? ==> bundle.Some? && Complete(bundle.value)
  {
    if a.None? {
      DecidesUnasked(a, fetch, op, d, config, now, AvailabilityInvalid, None);
      return AvailabilityInvalid, None;
    }
    var failure, entry := SelectEntry(a.value, op, d, config, now);
    if failure.Some? {
      DecidesUnasked(a, fetch, op, d, config, now, failure.value, None);
      return failure.value, None;
    }
    var answer := fetch(entry.value.resultDigest);
    if answer.Raises? {
      DecidesAsked(a.value, fetch, op, d, config, now, entry.value, FetchRaised, None);
      return FetchRaised, None;
    }
    bundle := answer.bundle;
    o := CheckFetched(bundle, entry.value, config);
    DecidesAsked(a.value, fetch, op, d, config, now, entry.value, o, bundle);
  }

  // ---------- the main results ----------

  /** What passes is an intact bundle whose bytes add up to the advertised size, within both limits. */
  lemma PassedIsIntact(a: AvailabilityManifest, b: Option<Bundle>, o: Operation, d: Digest, config: Config, now: Time)
    requires Passes(a, b, o, d, config, now)
    ensures b.Some? && IntactBundle(b.value)
    ensures TotalBytes(b.value.manifest.artifacts) == FirstFor(a.entries, d).value.artifactBytes <= config.maxTransferBytes
    ensures forall x | x in b.value.manifest.artifacts ::
              |b.value.artifacts[x.name]| == x.size <= config.maxArtifactBytes
  {
  }

  /** An import always shows: the destination is not what it was. */
  lemma ImportChanges(s: Cache, b: Bundle, until: Time)
    requires IntactBundle(b)
    ensures AfterImport(s, b, until) != s
  {
    AfterImportIsImported(s, b, until);
    var after := LeasedCache.Imported(s, b, until);
    assert |Listed(after.results, b.manifest.actionDigest)| == |Listed(s.results, b.manifest.actionDigest)| + 1;
  }

  /** The first entry of the action has its least result digest. */
  lemma {:induction false} FirstIsLeast(es: seq<Entry>, d: Digest, e: Entry)
    requires Sorting.Ascending(es, EntryBefore) && e in es && e.actionDigest == d
    ensures FirstFor(es, d).Some?
    ensures FirstFor(es, d).value == e || Less(FirstFor(es, d).value.resultDigest, e.resultDigest)
  {
    if es[0].actionDigest == d {
      var i :| 0 <= i < |es| && es[i] == e;
      if i > 0 {
        assert EntryBefore(es[0], es[i]);
        LessIrreflexive(d);
      }
    } else {
      assert e in es[1..] by {
        var i :| 0 <= i < |es| && es[i] == e;
        assert es[1..][i - 1] == e;
      }
      FirstIsLeast(es[1..], d, e);
    }
  }

  /** The receiver's configuration permits this publication. */
  ghost predicate Permits(config: Config, p: Publication) {
    && p.manifest.producer in config.trustedProducers
    && OperationKey(p.action.operation) in config.allowedOperations
    && p.receipt.signature.Some? && p.receipt.signature.value.keyId in config.receiptKeys
    && TotalBytes(p.manifest.artifacts) <= config.maxTransferBytes
    && forall x | x in p.manifest.artifacts :: x.size <= config.maxArtifactBytes
  }

  /** The receiver knows the peer under its name and key. */
  ghost predicate Knows(config: Config, c: Catalog) {
    && ValidConfig(config) && config.peer == c.peer && config.availabilityKey == Ed25519.publicKey(c.seed)
    && c.peer != [] && NoSurrogates(c.peer)
  }

  lemma AdvertisedEntryValid(c: Catalog, es: seq<Entry>, e: Entry)
    requires Honest(c) && Advertises(es, c.published) && e in es
    requires TotalBytes(c.published[e.resultDigest].manifest.artifacts) <= MAX_SAFE_INTEGER
    ensures ValidEntry(e) && EncodableEntry(e)
  {
    var p := c.published[e.resultDigest];
    assert Publishable(c, p);
    ValidActionHasId(p.action);
    ManifestDigestIsCanonical(p.manifest);
    TotalPositive(p.manifest.artifacts);
  }

  ghost predicate SafeTotals(c: Catalog) {
    forall d | d in c.published :: TotalBytes(c.published[d].manifest.artifacts) <= MAX_SAFE_INTEGER
  }

  /** An honest peer can sign what it advertises. */
  lemma HonestSigns(c: Catalog, es: seq<Entry>, now: Time)
    requires Honest(c) && Advertises(es, c.published) && SafeTotals(c) && c.peer != [] && NoSurrogates(c.peer)
    ensures var signed := Sign(AvailabilityManifest(c.peer, now, es, None), c.seed);
      && signed.Some? && signed.value.entries == es && signed.value.generatedAt == now
      && ValidAvailability(signed.value) && Verify(signed.value, c.peer, Ed25519.publicKey(c.seed))
  {
    forall i | 0 <= i < |es| ensures ValidEntry(es[i]) && EncodableEntry(es[i]) {
      assert es[i] in es;
      AdvertisedEntryValid(c, es, es[i]);
    }
    SignedVerifies(AvailabilityManifest(c.peer, now, es, None), c.seed);
  }

  /** The receipt key an honest catalog verified with is the one the receiver has under that id. */
  lemma SameReceiptKey(c: Catalog, p: Publication, config: Config)
    requires Publishable(c, p) && ValidConfig(config) && p.receipt.signature.value.keyId in config.receiptKeys
    ensures config.receiptKeys[p.receipt.signature.value.keyId] == c.receiptKeys[p.receipt.signature.value.keyId]
  {
    var k := p.receipt.signature.value.keyId;
    assert KeyId(c.receiptKeys[k]) == k && KeyId(config.receiptKeys[k]) == k;
    DigestBytesInjective(c.receiptKeys[k], config.receiptKeys[k]);
  }

  lemma HonestBundleAdmitted(c: Catalog, d: Digest, p: Publication, config: Config)
    requires Honest(c) && d in c.published && p == c.published[d] && ValidConfig(config) && Permits(config, p)
    ensures Served(c, d).Some?
    ensures ManifestAdmitted(Served(c, d).value, EntryFor(d, p), config)
    ensures ArtifactsAdmitted(Served(c, d).value, EntryFor(d, p), config)
  {
    assert Publishable(c, p);
    ServesIntact(c, d, p);
    SameReceiptKey(c, p, config);
  }

  /**
   An honest peer can advertise at all exactly when every published result adds up to at most 2^53 - 1 bytes: one
   larger result makes the whole availability manifest unsignable.
   */
  lemma AdvertisesExactlyWhenSafe(c: Catalog, now: Time)
    requires Honest(c) && c.peer != [] && NoSurrogates(c.peer)
    ensures SignedAt(c, now).Some? <==> SafeTotals(c)
  {
    if SafeTotals(c) {
      SafeSigns(c, now);
    } else {
      var d :| d in c.published && TotalBytes(c.published[d].manifest.artifacts) > MAX_SAFE_INTEGER;
      UnsafeListed(c, AdvertisedList(c.published), now, d);
    }
  }

  lemma SafeSigns(c: Catalog, now: Time)
    requires Honest(c) && SafeTotals(c) && c.peer != [] && NoSurrogates(c.peer)
    ensures SignedAt(c, now).Some? && SignedAt(c, now).value.entries == AdvertisedList(c.published)
  {
    HonestSigns(c, AdvertisedList(c.published), now);
  }

  lemma UnsafeListed(c: Catalog, es: seq<Entry>, now: Time, d: Digest)
    requires Advertises(es, c.published) && d in c.published
    requires TotalBytes(c.published[d].manifest.artifacts) > MAX_SAFE_INTEGER
    ensures Sign(AvailabilityManifest(c.peer, now, es, None), c.seed) == None
  {
    var i :| 0 <= i < |es| && es[i] == EntryFor(d, c.published[d]);
    UnsafeUnsigned(AvailabilityManifest(c.peer, now, es, None), c.seed, i);
  }

  lemma UnsafeUnsigned(a: AvailabilityManifest, seed: Bytes, i: nat)
    requires i < |a.entries| && a.entries[i].artifactBytes > MAX_SAFE_INTEGER
    ensures Sign(a, seed) == None
  {
    if SigningInput(a).Some? {
      SigningNeedsSafeSizes(a, i);
    }
  }

  /** The action's least published result, in a catalog that can advertise. */
  ghost predicate Offered(c: Catalog, action: Action, d: Digest) {
    && ValidAction(action) && d in c.published && ActionId(c.published[d].action) == ActionId(action)
    && (forall k | k in c.published && ActionId(c.published[k].action) == ActionId(action) :: k == d || Less(d, k))
    && SafeTotals(c)
  }

  lemma PassedIsPermitted(c: Catalog, d: Digest, o: Operation, config: Config)
    requires Honest(c) && d in c.published && Served(c, d).Some?
    requires EntryAllowed(EntryFor(d, c.published[d]), o, config)
    requires ManifestAdmitted(Served(c, d).value, EntryFor(d, c.published[d]), config)
    requires ArtifactsAdmitted(Served(c, d).value, EntryFor(d, c.published[d]), config)
    ensures Permits(config, c.published[d])
  {
    ServesIntact(c, d, c.published[d]);
  }

  lemma LeastIsFirst(c: Catalog, es: seq<Entry>, action: Action, d: Digest)
    requires Honest(c) && Advertises(es, c.published) && ValidAction(action) && d in c.published
    requires ActionId(action).Some? && ActionId(c.published[d].action) == ActionId(action)
    requires forall k | k in c.published && ActionId(c.published[k].action) == ActionId(action) :: k == d || Less(d, k)
    ensures FirstFor(es, ActionId(action).value) == Some(EntryFor(d, c.published[d]))
  {
    var e := EntryFor(d, c.published[d]);
    assert Publishable(c, c.published[d]);
    FirstIsLeast(es, ActionId(action).value, e);
    var first := FirstFor(es, ActionId(action).value).value;
    var k := first.resultDigest;
    assert Publishable(c, c.published[k]) && first == EntryFor(k, c.published[k]);
    if k != d {
      LessTransitive(d, k, d);
      LessIrreflexive(d);
    }
  }

  /** What an honest peer signs is trusted by a receiver who knows it, unless it lists too much. */
  lemma SignedTrusted(c: Catalog, config: Config, now: Time)
    requires Honest(c) && Knows(config, c) && SafeTotals(c)
    ensures var signed := SignedAt(c, now);
      && signed.Some? && signed.value.entries == AdvertisedList(c.published)
      && (TrustedAvailability(signed.value, config, now) <==> |AdvertisedList(c.published)| <= config.maxEntries)
  {
    HonestSigns(c, AdvertisedList(c.published), now);
  }

  /** The advertised bundle is let through exactly when the configuration permits it. */
  lemma BundlePassesExactly(c: Catalog, d: Digest, p: Publication, o: Operation, config: Config)
    requires Honest(c) && d in c.published && p == c.published[d] && ValidConfig(config) && o == p.action.operation
    ensures EntryAllowed(EntryFor(d, p), o, config) && BundlePasses(Served(c, d), EntryFor(d, p), config)
       <==> Permits(config, p)
  {
    ServesIntact(c, d, p);
    if Permits(config, p) {
      HonestBundleAdmitted(c, d, p, config);
    }
    if EntryAllowed(EntryFor(d, p), o, config) && BundlePasses(Served(c, d), EntryFor(d, p), config) {
      PassedIsPermitted(c, d, o, config);
    }
  }

  /** The offered result's entry is the one the receiver asks for, and its operation is the action's. */
  lemma OfferedFirst(c: Catalog, action: Action, d: Digest)
    requires Honest(c) && Offered(c, action, d)
    ensures ActionId(action).Some? && c.published[d].action.operation == action.operation
    ensures FirstFor(AdvertisedList(c.published), ActionId(action).value) == Some(EntryFor(d, c.published[d]))
  {
    assert Publishable(c, c.published[d]);
    ValidActionHasId(action);
    SameIdSameOperation(c.published[d].action, action);
    LeastIsFirst(c, AdvertisedList(c.published), action, d);
  }

  /**
   What an import of the action from the catalog comes to when `d` is its least published result: the peer can sign,
   that result is the one asked for, and it passes the gate exactly under a permitting configuration.
   */
  ghost predicate ImportsExactly(c: Catalog, action: Action, d: Digest, config: Config, now: Time)
    requires d in c.published
  {
    var signed := SignedAt(c, now);
    && signed.Some? && ActionId(action).Some?
    && FirstFor(signed.value.entries, ActionId(action).value) == Some(EntryFor(d, c.published[d]))
    && (Passes(signed.value, Served(c, d), action.operation, ActionId(action).value, config, now)
        <==> |AdvertisedList(c.published)| <= config.maxEntries && Permits(config, c.published[d]))
  }

  /**
   Importing from an honest catalog succeeds exactly under a permitting configuration, and with the least-digest
   manifest advertised for the action.
   */
  lemma HonestImportExactly(c: Catalog, action: Action, d: Digest, config: Config, now: Time)
    requires Honest(c) && Knows(config, c) && Offered(c, action, d)
    ensures ImportsExactly(c, action, d, config, now)
  {
    OfferedFirst(c, action, d);
    SignedTrusted(c, config, now);
    BundlePassesExactly(c, d, c.published[d], action.operation, config);
  }

  /** A catalog with nothing published, over a store whose blobs stand under their digests. */
  ghost predicate Unpublished(c: Catalog) {
    c.published == map[] && StoreAddressed(c)
  }

  /** Every catalog there can be is honest, so the exact conditions hold of each. */
  lemma ReachableImportExactly(start: Catalog, ops: seq<CatalogOp>, action: Action, d: Digest, config: Config, now: Time)
    requires Unpublished(start) && Knows(config, start) && Offered(CatalogRun(start, ops), action, d)
    ensures ImportsExactly(CatalogRun(start, ops), action, d, config, now)
  {
    RunHonest(start, ops);
    HonestImportExactly(CatalogRun(start, ops), action, d, config, now);
  }
}
