/** Signed federation requests: the headers they arrive in, the bytes a signature covers, and their verification. */
module RequestSigning {
  import opened Text
  import opened Json
  import opened Digests
  import opened Records
  import opened Signing

  /** A request as it is signed; the body of a GET is empty. */
  datatype FederationRequest = FederationRequest(peer: Text, timestamp: Time, nonce: Text, verb: Text, path: Text)

  /** The values of each authentication header, as many as there are; times and signatures are decoded. */
  datatype Headers = Headers(
    peers: seq<Text>,
    timestamps: seq<Time>,
    nonces: seq<Text>,
    keyIds: seq<Text>,
    signatures: seq<Bytes>)
  {
    predicate EachOnce() {
      |peers| == 1 && |timestamps| == 1 && |nonces| == 1 && |keyIds| == 1 && |signatures| == 1
    }

    function RequestFor(verb: Text, path: Text): FederationRequest
      requires EachOnce()
    {
      FederationRequest(peers[0], timestamps[0], nonces[0], verb, path)
    }
  }

  /** NONCE_PATTERN */
  predicate ValidNonce(n: Text) {
    |n| == 32 && forall i | 0 <= i < |n| :: IsHexDigit(n[i])
  }

  const AVAILABILITY_PATH: Text := Ascii("/v0/availability")
  const BUNDLE_PATH: Text := Ascii("/v0/bundles/")

  /** REQUEST_PATH_PATTERN, with digests as they are modelled. */
  predicate ValidPath(p: Text) {
    p == AVAILABILITY_PATH || (BUNDLE_PATH <= p && IsDigest(p[|BUNDLE_PATH|..]))
  }

  function RequestJson(q: FederationRequest): Json {
    Obj([Field("spec_version", Str(Ascii("oncemesh.federation-request/v0"))), Field("peer_id", Str(q.peer)),
         Field("timestamp", TimeJson(q.timestamp)), Field("nonce", Str(q.nonce)), Field("method", Str(q.verb)),
         Field("path", Str(q.path)), Field("body_digest", Str(DigestBytes([])))])
  }

  const REQUEST_DOMAIN: Bytes := Domain("OnceMesh federation HTTP request v1")

  ghost predicate IsRequestInput(f: FederationRequest -> Option<Bytes>) {
    forall q {:trigger RequestJson(q)} :: f(q) == CanonicalJson(RequestJson(q))
  }

  type RequestInputFunction = f: FederationRequest -> Option<Bytes> | IsRequestInput(f)
    witness (q: FederationRequest) => CanonicalJson(RequestJson(q))

  /** The canonical bytes under a request signature, by a name proofs do not unfold; `None` where it raises. */
  const RequestInput: RequestInputFunction

  /** `validate_federation_request` */
  predicate ValidRequest(q: FederationRequest) {
    q.peer != [] && ValidNonce(q.nonce) && q.verb == Ascii("GET") && ValidPath(q.path) && RequestInput(q).Some?
  }

  /** `verify_federation_request` */
  predicate VerifyRequest(q: FederationRequest, keyId: Text, signature: Bytes, publicKey: Bytes) {
    && |publicKey| == 32 && keyId == KeyId(publicKey) && |signature| == 64
    && ValidRequest(q)
    && Ed25519.verify(publicKey, REQUEST_DOMAIN + RequestInput(q).value, signature)
  }

  /** `sign_federation_request` */
  function SignRequest(q: FederationRequest, seed: Bytes): (Text, Bytes)
    requires ValidRequest(q)
  {
    (KeyId(Ed25519.publicKey(seed)), Ed25519.sign(seed, REQUEST_DOMAIN + RequestInput(q).value))
  }

  /** What a seed signs verifies under its public key. */
  lemma SignedRequestVerifies(q: FederationRequest, seed: Bytes)
    requires ValidRequest(q)
    ensures var (keyId, signature) := SignRequest(q, seed);
      VerifyRequest(q, keyId, signature, Ed25519.publicKey(seed))
  {
    assert IsSound(Ed25519);
  }

  /** The headers, requester and signature all check out. */
  predicate Verified(requesters: map<Text, Bytes>, h: Headers, verb: Text, path: Text) {
    && h.EachOnce()
    && h.peers[0] in requesters
    && VerifyRequest(h.RequestFor(verb, path), h.keyIds[0], h.signatures[0], requesters[h.peers[0]])
  }

  /**
   Every header once, and a signature by the configured key of the requester named over the request's own canonical
   bytes: a GET of the availability or of a bundle, with a nonce of 32 hexadecimal digits.
   */
  ghost predicate SignedAsConfigured(requesters: map<Text, Bytes>, h: Headers, verb: Text, path: Text) {
    && |h.peers| == |h.timestamps| == |h.nonces| == |h.keyIds| == |h.signatures| == 1
    && h.peers[0] in requesters && h.peers[0] != []
    && var key, q := requesters[h.peers[0]], FederationRequest(h.peers[0], h.timestamps[0], h.nonces[0], verb, path);
      && |key| == 32 && h.keyIds[0] == DigestBytes(key) && |h.signatures[0]| == 64
      && |h.nonces[0]| == 32
      && (forall c | c in h.nonces[0] :: '0' as int <= c <= '9' as int || 'a' as int <= c <= 'f' as int)
      && verb == ['G' as int, 'E' as int, 'T' as int]
      && (path == Ascii("/v0/availability")
          || (Ascii("/v0/bundles/") <= path && IsDigest(path[|Ascii("/v0/bundles/")|..])))
      && CanonicalJson(RequestJson(q)).Some?
      && Ed25519.verify(key, REQUEST_DOMAIN + CanonicalJson(RequestJson(q)).value, h.signatures[0])
  }

  lemma RequestInputMeans(q: FederationRequest)
    ensures RequestInput(q) == CanonicalJson(RequestJson(q))
  {
    assert IsRequestInput(RequestInput);
  }

  lemma NonceMeans(n: Text)
    ensures ValidNonce(n) <==>
            |n| == 32 && forall c | c in n :: '0' as int <= c <= '9' as int || 'a' as int <= c <= 'f' as int
  {
    assert forall i | 0 <= i < |n| :: n[i] in n;
  }

  lemma VerbMeans(verb: Text)
    ensures verb == Ascii("GET") <==> verb == ['G' as int, 'E' as int, 'T' as int]
  {
    var get := Ascii("GET");
    assert get == ['G' as int, 'E' as int, 'T' as int];
  }

  /** The headers verify exactly when they are signed as configured. */
  lemma VerifiedMeans(requesters: map<Text, Bytes>, h: Headers, verb: Text, path: Text)
    ensures Verified(requesters, h, verb, path) <==> SignedAsConfigured(requesters, h, verb, path)
  {
    VerbMeans(verb);
    if h.EachOnce() {
      RequestInputMeans(h.RequestFor(verb, path));
      NonceMeans(h.nonces[0]);
    }
  }

  function HeadersOf(q: FederationRequest, keyId: Text, signature: Bytes): Headers {
    Headers([q.peer], [q.timestamp], [q.nonce], [keyId], [signature])
  }

  /** A configured requester's own signed request verifies. */
  lemma RequesterIsVerified(requesters: map<Text, Bytes>, q: FederationRequest, seed: Bytes)
    requires ValidRequest(q) && q.peer in requesters && requesters[q.peer] == Ed25519.publicKey(seed)
    ensures var (keyId, signature) := SignRequest(q, seed);
      Verified(requesters, HeadersOf(q, keyId, signature), q.verb, q.path)
  {
    SignedRequestVerifies(q, seed);
    var (keyId, signature) := SignRequest(q, seed);
    assert HeadersOf(q, keyId, signature).RequestFor(q.verb, q.path) == q;
  }
}
