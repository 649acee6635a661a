/** What each record must satisfy, field by field. */
module Validity {
  import opened Text
  import opened Json
  import opened Digests
  import opened Records
  import opened SourceRecords
  import opened Signing
  import opened PeerCatalog

  /** No lone surrogates, so that UTF-8 can encode it. */
  predicate Unicode(t: Text) {
    forall c | c in t :: c < 0xD800 || 0xDFFF < c
  }

  lemma UnicodeMeans(t: Text)
    ensures NoSurrogates(t) <==> Unicode(t)
  {
    assert forall i | 0 <= i < |t| :: t[i] in t;
  }

  /** `sha256:` and hexadecimal digits in lower case. */
  lemma DigestMeans(d: Text)
    ensures IsDigest(d) <==>
            && |d| >= 7
            && d[..7] == ['s' as int, 'h' as int, 'a' as int, '2' as int, '5' as int, '6' as int, ':' as int]
            && forall c | c in d[7..] :: '0' as int <= c <= '9' as int || 'a' as int <= c <= 'f' as int
  {
    assert |d| >= 7 ==> (DIGEST_PREFIX <= d <==> d[..7] == DIGEST_PREFIX);
    if |d| >= 7 {
      assert forall i | 7 <= i < |d| :: d[i] == d[7..][i - 7] && d[i] in d[7..];
    }
  }

  lemma DescriptorMeans(x: Descriptor)
    ensures ValidDescriptor(x) <==>
            && x.name != [] && Unicode(x.name) && x.mediaType != [] && Unicode(x.mediaType)
            && IsDigest(x.digest) && 0 <= x.size <= 9007199254740991
  {
    UnicodeMeans(x.name);
    UnicodeMeans(x.mediaType);
  }

  lemma DependencyMeans(x: Dependency)
    ensures ValidDependency(x) <==> x.name != [] && Unicode(x.name) && IsDigest(x.resultDigest)
  {
    UnicodeMeans(x.name);
  }

  /** A result manifest validates exactly when all of this holds. */
  lemma ManifestMeans(m: Manifest)
    ensures ValidManifest(m) <==>
            && (m.version == ResultV0 || m.version == ResultV1) && (m.dependencies.Some? <==> m.version == ResultV1)
            && IsDigest(m.actionDigest) && m.producer != [] && Unicode(m.producer)
            && (forall i | 0 <= i < |m.artifacts| ::
                  && m.artifacts[i].name != [] && Unicode(m.artifacts[i].name)
                  && m.artifacts[i].mediaType != [] && Unicode(m.artifacts[i].mediaType)
                  && IsDigest(m.artifacts[i].digest) && 0 <= m.artifacts[i].size <= 9007199254740991)
            && (forall i, k | 0 <= i < k < |m.artifacts| :: m.artifacts[i].name != m.artifacts[k].name)
            && (m.dependencies.Some? ==>
                  && (forall i | 0 <= i < |m.dependencies.value| ::
                        && m.dependencies.value[i].name != [] && Unicode(m.dependencies.value[i].name)
                        && IsDigest(m.dependencies.value[i].resultDigest))
                  && (forall i, k | 0 <= i < k < |m.dependencies.value| ::
                        && Less(m.dependencies.value[i].name, m.dependencies.value[k].name)
                        && m.dependencies.value[i].resultDigest != m.dependencies.value[k].resultDigest))
  {
    UnicodeMeans(m.producer);
    forall i | 0 <= i < |m.artifacts|
      ensures ValidDescriptor(m.artifacts[i]) <==>
              && m.artifacts[i].name != [] && Unicode(m.artifacts[i].name)
              && m.artifacts[i].mediaType != [] && Unicode(m.artifacts[i].mediaType)
              && IsDigest(m.artifacts[i].digest) && 0 <= m.artifacts[i].size <= 9007199254740991
    {
      DescriptorMeans(m.artifacts[i]);
    }
    if m.dependencies.Some? {
      forall i | 0 <= i < |m.dependencies.value|
        ensures ValidDependency(m.dependencies.value[i]) <==>
                && m.dependencies.value[i].name != [] && Unicode(m.dependencies.value[i].name)
                && IsDigest(m.dependencies.value[i].resultDigest)
      {
        DependencyMeans(m.dependencies.value[i]);
      }
    }
  }

  /** A validation: HTTP, a 304 answer to a conditional request, with an entity tag or a modification time. */
  lemma ValidationMeans(v: Validation)
    ensures ValidValidation(v) <==>
            && IsDigest(v.resultDigest) && v.producer != [] && Unicode(v.producer) && v.validatedAt <= v.freshUntil
            && v.means.name == Ascii("http.conditional") && v.means.version == Ascii("1") && v.means.status == 304
            && (v.means.etag != None || v.means.lastModified != None)
            && (v.means.etag.Some? ==> v.means.etag.value != [] && Unicode(v.means.etag.value))
            && (v.means.lastModified.Some? ==> v.means.lastModified.value != [] && Unicode(v.means.lastModified.value))
  {
    UnicodeMeans(v.producer);
    if v.means.etag.Some? {
      UnicodeMeans(v.means.etag.value);
    }
    if v.means.lastModified.Some? {
      UnicodeMeans(v.means.lastModified.value);
    }
  }

  lemma InvalidationMeans(r: Invalidation)
    ensures ValidInvalidation(r) <==>
            && IsDigest(r.resultDigest)
            && r.producer != [] && Unicode(r.producer) && r.reason != [] && Unicode(r.reason)
  {
    UnicodeMeans(r.producer);
    UnicodeMeans(r.reason);
  }

  /** A receipt for the manifest, signed over its own canonical bytes with the key given. */
  ghost predicate ReceiptBy(r: Receipt, m: Manifest, key: Bytes)
    requires ValidManifest(m)
  {
    && r.resultDigest == ManifestDigest(m) && r.producer == m.producer && r.environment.Obj?
    && r.signature.Some? && r.signature.value.keyId == DigestBytes(key) && |r.signature.value.value| == 64
    && CanonicalJson(UnsignedReceiptJson(r)).Some?
    && Ed25519.verify(key, RECEIPT_DOMAIN + CanonicalJson(UnsignedReceiptJson(r)).value, r.signature.value.value)
  }

  lemma ReceiptByMeans(r: Receipt, m: Manifest, key: Bytes)
    requires ValidManifest(m)
    ensures ReceiptBy(r, m, key) <==> ValidSignedReceipt(r) && VerifyForManifest(r, m, key)
  {
    assert IsReceiptInput(ReceiptInput);
    assert ReceiptInput(r) == CanonicalJson(UnsignedReceiptJson(r));
    ManifestDigestIsCanonical(m);
  }

  /** A result may be published exactly when it is its action's, certified under a configured key, and held intact. */
  lemma PublishableMeans(c: Catalog, p: Publication)
    ensures Publishable(c, p) <==>
            && ValidAction(p.action) && ValidManifest(p.manifest) && p.manifest.version == ResultV0
            && ActionId(p.action) == Some(p.manifest.actionDigest)
            && p.receipt.signature.Some? && p.receipt.signature.value.keyId in c.receiptKeys
            && ReceiptBy(p.receipt, p.manifest, c.receiptKeys[p.receipt.signature.value.keyId])
            && (forall x | x in p.manifest.artifacts ::
                  && x.digest in c.blobs && |c.blobs[x.digest]| == x.size && DigestBytes(c.blobs[x.digest]) == x.digest)
  {
    if ValidManifest(p.manifest) && p.receipt.signature.Some? && p.receipt.signature.value.keyId in c.receiptKeys {
      ReceiptByMeans(p.receipt, p.manifest, c.receiptKeys[p.receipt.signature.value.keyId]);
    }
  }

  /** An action validates exactly when its texts are not empty, its parts are objects and it can be canonicalized. */
  lemma ActionMeans(a: Action)
    requires Dictionary(JsonOf(a))
    ensures ValidAction(a) <==>
            && a.operation.name != [] && a.operation.version != []
            && a.executor.name != [] && a.executor.version != [] && a.outputSchema != []
            && a.inputs.Obj? && a.executor.config.Obj? && a.vary.Obj?
            && CanonicalJson(JsonOf(a)).Some?
  {
  }
}
