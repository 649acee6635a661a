/** One result too large to advertise silences its peer: the publication that shows it, for any honest catalog. */
module OversizedResult {
  import opened Text
  import opened Json
  import opened Digests
  import opened Records
  import opened Stores
  import opened Evaluation
  import opened Signing
  import opened LeasedCache
  import opened LeasedFiles
  import opened Availability
  import opened PeerCatalog
  import opened PeerImport
  import Profile = Json
  import Puts = MemoryStore

  const A_NAME: Text := [97]
  const ANOTHER_NAME: Text := [98]

  function LargestBlob(): (b: Bytes)
    ensures |b| == MAX_SAFE_INTEGER
  {
    seq(MAX_SAFE_INTEGER, _ => 0)
  }

  /** A small action: every text is `a` and every object is empty. */
  function SmallAction(): Action {
    Action(Operation(A_NAME, A_NAME), Obj([]), Executor(A_NAME, A_NAME, Obj([])), A_NAME, Obj([]))
  }

  lemma SmallActionParts()
    ensures var o := OperationJson(Operation(A_NAME, A_NAME)); Profile.Accepted(o) && Dictionary(o)
    ensures var e := ExecutorJson(Executor(A_NAME, A_NAME, Obj([]))); Profile.Accepted(e) && Dictionary(e)
  {
    var ms := OperationJson(Operation(A_NAME, A_NAME)).members;
    AsciiText("name");
    AsciiText("version");
    AsciiText("config");
    assert |ms[0].key.text| == 4 && |ms[1].key.text| == 7;
    assert AcceptedMember(ms[0]) && AcceptedMember(ms[1]);
    var ns := ExecutorJson(Executor(A_NAME, A_NAME, Obj([]))).members;
    assert |ns[0].key.text| == 4 && |ns[1].key.text| == 7 && |ns[2].key.text| == 6;
    assert AcceptedMember(ns[0]) && AcceptedMember(ns[1]) && AcceptedMember(ns[2]);
  }

  lemma SmallActionKeys()
    ensures DistinctKeys(ActionMembers(SmallAction()))
  {
    var ms := ActionMembers(SmallAction());
    assert |ms[0].key.text| == 12 && |ms[1].key.text| == 9 && |ms[2].key.text| == 6;
    assert |ms[3].key.text| == 8 && |ms[4].key.text| == 13 && |ms[5].key.text| == 4;
  }

  lemma SmallActionHead()
    ensures forall i | 0 <= i < 3 :: AcceptedMember(ActionMembers(SmallAction())[i])
  {
    var ms := ActionMembers(SmallAction());
    SmallActionParts();
    AsciiText("oncemesh.action/v0");
    FieldAccepted("spec_version", ms[0].value);
    FieldAccepted("operation", ms[1].value);
    FieldAccepted("inputs", ms[2].value);
  }

  lemma SmallActionTail()
    ensures forall i | 3 <= i < 6 :: AcceptedMember(ActionMembers(SmallAction())[i])
  {
    var ms := ActionMembers(SmallAction());
    SmallActionParts();
    FieldAccepted("executor", ms[3].value);
    FieldAccepted("output_schema", ms[4].value);
    FieldAccepted("vary", ms[5].value);
  }

  lemma SmallActionValid()
    ensures ValidAction(SmallAction()) && ActionId(SmallAction()).Some? && IsDigest(ActionId(SmallAction()).value)
  {
    var a := SmallAction();
    SmallActionParts();
    SmallActionKeys();
    SmallActionHead();
    SmallActionTail();
    assert forall i | 0 <= i < 6 :: AcceptedMember(ActionMembers(a)[i]) && Dictionary(ActionMembers(a)[i].value);
    ValidActionHasId(a);
  }

  /** The blob is listed under two names. */
  function TwiceListed(b: Bytes): seq<Descriptor> {
    [Descriptor(A_NAME, DigestBytes(b), |b|, A_NAME), Descriptor(ANOTHER_NAME, DigestBytes(b), |b|, A_NAME)]
  }

  function OversizedManifest(id: Digest): Manifest {
    Manifest(ResultV0, id, TwiceListed(LargestBlob()), 0, None, A_NAME, None)
  }

  lemma OversizedManifestValid(id: Digest)
    requires IsDigest(id)
    ensures FederationResult(OversizedManifest(id))
    ensures TotalBytes(OversizedManifest(id).artifacts) > MAX_SAFE_INTEGER
  {
    var xs := TwiceListed(LargestBlob());
    assert xs[0].name != xs[1].name;
    assert xs[..1][..0] == [] && TotalBytes(xs[..1]) == xs[0].size;
  }

  /** A receipt for the manifest, signed by the seed. */
  ghost function SignedReceipt(m: Manifest, seed: Bytes): Receipt
    requires ValidManifest(m)
  {
    var unsigned := Receipt(ManifestDigest(m), m.producer, Obj([]), None);
    unsigned.(signature := Some(Signature(KeyId(Ed25519.publicKey(seed)),
      Ed25519.sign(seed, RECEIPT_DOMAIN + match ReceiptInput(unsigned) case Some(b) => b case None => []))))
  }

  lemma ReceiptVerifies(m: Manifest, seed: Bytes)
    requires ValidManifest(m) && m.producer == A_NAME
    ensures var r := SignedReceipt(m, seed);
      ValidSignedReceipt(r) && VerifyForManifest(r, m, Ed25519.publicKey(seed))
  {
    var r := SignedReceipt(m, seed);
    ManifestDigestIsCanonical(m);
    ReceiptEncodable(r);
    assert IsReceiptInput(ReceiptInput);
    assert UnsignedReceiptJson(r) == UnsignedReceiptJson(r.(signature := None));
    assert ReceiptInput(r) == ReceiptInput(r.(signature := None));
    assert IsSound(Ed25519);
  }

  lemma ReceiptHead(r: Receipt)
    requires IsDigest(r.resultDigest)
    ensures forall i | 0 <= i < 2 :: AcceptedMember(UnsignedReceiptJson(r).members[i])
  {
    var ms := UnsignedReceiptJson(r).members;
    DigestText(r.resultDigest);
    AsciiText("oncemesh.receipt/v0");
    FieldAccepted("spec_version", ms[0].value);
    FieldAccepted("result_digest", ms[1].value);
  }

  lemma ReceiptEncodable(r: Receipt)
    requires IsDigest(r.resultDigest) && r.producer == A_NAME && r.environment == Obj([])
    ensures ReceiptInput(r).Some?
  {
    var ms := UnsignedReceiptJson(r).members;
    ReceiptHead(r);
    FieldAccepted("producer", ms[2].value);
    FieldAccepted("executor_environment", ms[3].value);
    FieldAccepted("signature", ms[4].value);
    assert forall i | 0 <= i < 5 :: AcceptedMember(ms[i]);
    assert IsReceiptInput(ReceiptInput);
    assert ReceiptInput(r) == CanonicalJson(UnsignedReceiptJson(r));
  }

  ghost function Oversized(id: Digest, seed: Bytes): Publication
    requires IsDigest(id)
  {
    OversizedManifestValid(id);
    Publication(SmallAction(), OversizedManifest(id), SignedReceipt(OversizedManifest(id), seed))
  }

  /** The blob is stored and the publication is accepted. */
  ghost function Steps(id: Digest, seed: Bytes): seq<CatalogOp>
    requires IsDigest(id)
  {
    [StorePut(Puts.Op.PutBlob(LargestBlob())), PublishResult(Oversized(id, seed), true)]
  }

  ghost predicate TrustsSeed(c: Catalog, seed: Bytes) {
    var k := Ed25519.publicKey(seed);
    KeyId(k) in c.receiptKeys && c.receiptKeys[KeyId(k)] == k
  }

  lemma OversizedWellFormed(id: Digest, seed: Bytes)
    requires ActionId(SmallAction()) == Some(id) && IsDigest(id)
    ensures WellFormed(Oversized(id, seed))
    ensures var p := Oversized(id, seed); VerifyForManifest(p.receipt, p.manifest, Ed25519.publicKey(seed))
  {
    SmallActionValid();
    OversizedManifestValid(id);
    ReceiptVerifies(OversizedManifest(id), seed);
  }

  lemma OversizedHeld(id: Digest, blobs: map<Digest, Bytes>)
    requires DigestBytes(LargestBlob()) in blobs && blobs[DigestBytes(LargestBlob())] == LargestBlob()
    ensures Held(OversizedManifest(id), blobs)
  {
    var b := LargestBlob();
    forall x | x in TwiceListed(b) ensures Intact(x, Readable(Some(blobs[x.digest]))) {
      assert x.digest == DigestBytes(b) && x.size == |b|;
    }
  }

  lemma OversizedPublishable(c: Catalog, id: Digest, seed: Bytes)
    requires ActionId(SmallAction()) == Some(id) && IsDigest(id) && TrustsSeed(c, seed)
    requires DigestBytes(LargestBlob()) in c.blobs && c.blobs[DigestBytes(LargestBlob())] == LargestBlob()
    ensures Publishable(c, Oversized(id, seed))
  {
    OversizedWellFormed(id, seed);
    OversizedHeld(id, c.blobs);
  }

  lemma OversizedIsPublished(c: Catalog, id: Digest, seed: Bytes)
    requires ActionId(SmallAction()) == Some(id) && IsDigest(id) && TrustsSeed(c, seed)
    ensures !SafeTotals(CatalogRun(c, Steps(id, seed)))
  {
    var ops := Steps(id, seed);
    var stored := c.(blobs := c.blobs[DigestBytes(LargestBlob()) := LargestBlob()]);
    assert Done(c, ops[0]) == stored;
    OversizedPublishable(stored, id, seed);
    OversizedAccepted(stored, id, seed);
    RunOfTwo(c, ops);
  }

  lemma OversizedAccepted(c: Catalog, id: Digest, seed: Bytes)
    requires IsDigest(id) && Publishable(c, Oversized(id, seed))
    ensures !SafeTotals(Done(c, PublishResult(Oversized(id, seed), true)))
  {
    OversizedManifestValid(id);
    var d := ManifestDigest(OversizedManifest(id));
    assert Done(c, PublishResult(Oversized(id, seed), true)).published[d].manifest == OversizedManifest(id);
  }

  lemma RunOfTwo(c: Catalog, ops: seq<CatalogOp>)
    requires |ops| == 2
    ensures CatalogRun(c, ops) == Done(Done(c, ops[0]), ops[1])
  {
    var last := ops[1..];
    assert last != [] && last[0] == ops[1] && last[1..] == [];
    assert CatalogRun(Done(c, ops[0]), last) == CatalogRun(Done(Done(c, ops[0]), last[0]), last[1..]);
  }

  lemma UnsafeIsSilent(c: Catalog, ops: seq<CatalogOp>, now: Time)
    requires Honest(c) && StoreAddressed(c) && c.peer != [] && NoSurrogates(c.peer)
    requires !SafeTotals(CatalogRun(c, ops))
    ensures Honest(CatalogRun(c, ops)) && SignedAt(CatalogRun(c, ops), now).None?
  {
    RunHonest(c, ops);
    AdvertisesExactlyWhenSafe(CatalogRun(c, ops), now);
  }

  /**
   Whatever honest catalog trusts a producer, that producer's one publication of a blob of 2^53 - 1 bytes under two
   names is accepted, and from then on the peer can advertise nothing at all.
   */
  lemma OneResultSilencesPeer(c: Catalog, seed: Bytes, now: Time) returns (ops: seq<CatalogOp>)
    requires Honest(c) && StoreAddressed(c) && c.peer != [] && NoSurrogates(c.peer) && TrustsSeed(c, seed)
    ensures |ops| == 2 && Honest(CatalogRun(c, ops)) && !SafeTotals(CatalogRun(c, ops))
    ensures SignedAt(CatalogRun(c, ops), now).None?
  {
    SmallActionValid();
    var id := ActionId(SmallAction()).value;
    ops := Steps(id, seed);
    OversizedIsPublished(c, id, seed);
    UnsafeIsSilent(c, ops, now);
  }

  /** Such catalogs exist: from an empty one, two steps lead to an honest catalog that can advertise nothing. */
  lemma SilencedCatalogExists(seed: Bytes, now: Time) returns (start: Catalog, ops: seq<CatalogOp>)
    ensures Unpublished(start) && |ops| == 2
    ensures var c := CatalogRun(start, ops); Honest(c) && !SafeTotals(c) && SignedAt(c, now).None?
  {
    var k := Ed25519.publicKey(seed);
    start := Catalog(A_NAME, seed, map[KeyId(k) := k], map[], map[]);
    ops := OneResultSilencesPeer(start, seed, now);
  }
}
