/** Ed25519 as an uninterpreted scheme, and the receipts it signs. */
module Signing {
  import opened Text
  import opened Json
  import opened Digests
  import opened Records

  datatype Scheme = Scheme(
    publicKey: Bytes -> Bytes,
    sign: (Bytes, Bytes) -> Bytes,
    verify: (Bytes, Bytes, Bytes) -> bool)

  /** Keys and signatures have their sizes, and what a seed signs its public key verifies. */
  ghost predicate IsSound(s: Scheme) {
    && (forall seed :: |s.publicKey(seed)| == 32)
    && (forall seed, message :: |s.sign(seed, message)| == 64)
    && (forall seed, message :: s.verify(s.publicKey(seed), message, s.sign(seed, message)))
  }

  function Zeros(n: nat): (b: Bytes)
    ensures |b| == n
  {
    seq(n, _ => 0)
  }

  function Trusting(): Scheme {
    Scheme(_ => Zeros(32), (_, _) => Zeros(64), (_, _, _) => true)
  }

  type SoundScheme = s: Scheme | IsSound(s) witness Trusting()

  /** Nothing else is known of Ed25519. */
  const Ed25519: SoundScheme

  function KeyId(publicKey: Bytes): Digest {
    DigestBytes(publicKey)
  }

  predicate ValidSignature(s: Signature) {
    IsDigest(s.keyId) && |s.value| == 64
  }

  // ---------- receipts ----------

  function UnsignedReceiptJson(r: Receipt): Json {
    Obj([Field("spec_version", Str(Ascii("oncemesh.receipt/v0"))),
         Field("result_digest", Str(r.resultDigest)),
         Field("producer", Str(r.producer)),
         Field("executor_environment", r.environment),
         Field("signature", Null)])
  }

  /** What signed bytes of one kind start with: an ASCII text and a zero byte. */
  function Domain(name: string): (b: Bytes)
    requires forall i | 0 <= i < |name| :: name[i] < 128 as char
    ensures |b| == |name| + 1 && b[|name|] == 0 && forall i | 0 <= i < |name| :: b[i] == name[i] as int
  {
    seq(|name|, i requires 0 <= i < |name| => name[i] as int) + [0]
  }

  const RECEIPT_DOMAIN: Bytes := Domain("OnceMesh receipt signature v1")

  ghost predicate IsReceiptInput(f: Receipt -> Option<Bytes>) {
    forall r {:trigger UnsignedReceiptJson(r)} :: f(r) == CanonicalJson(UnsignedReceiptJson(r))
  }

  type ReceiptInputFunction = f: Receipt -> Option<Bytes> | IsReceiptInput(f)
    witness (r: Receipt) => CanonicalJson(UnsignedReceiptJson(r))

  /** The canonical bytes under a receipt signature, by a name proofs do not unfold; `None` where it raises. */
  const ReceiptInput: ReceiptInputFunction

  /** `validate_receipt` with a signature required. */
  predicate ValidSignedReceipt(r: Receipt) {
    && IsDigest(r.resultDigest) && r.producer != [] && r.environment.Obj?
    && r.signature.Some? && ValidSignature(r.signature.value)
    && ReceiptInput(r).Some?
  }

  /** `verify_receipt` */
  predicate VerifyReceipt(r: Receipt, publicKey: Bytes)
    requires ValidSignedReceipt(r)
  {
    && r.signature.value.keyId == KeyId(publicKey)
    && Ed25519.verify(publicKey, RECEIPT_DOMAIN + ReceiptInput(r).value, r.signature.value.value)
  }

  /** `verify_receipt_for_manifest` on a manifest and receipt that validate. */
  ghost predicate VerifyForManifest(r: Receipt, m: Manifest, publicKey: Bytes)
    requires ValidSignedReceipt(r) && ValidManifest(m)
  {
    r.resultDigest == ManifestDigest(m) && r.producer == m.producer && VerifyReceipt(r, publicKey)
  }
}
