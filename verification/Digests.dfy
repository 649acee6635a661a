/** SHA-256 as an uninterpreted injective function into digest texts, and digests of canonical JSON. */
module Digests {
  import opened Text
  import opened Json
  import JsonIdentity

  type Digest = Text

  /** `sha256:` */
  const DIGEST_PREFIX: Text := [115, 104, 97, 50, 53, 54, 58]

  predicate IsHexDigit(c: CodePoint) {
    48 <= c < 58 || 97 <= c < 103
  }

  /** DIGEST_PATTERN with the number of hexadecimal digits left open: an injective digest needs them all. */
  predicate IsDigest(d: Text) {
    DIGEST_PREFIX <= d && forall i | |DIGEST_PREFIX| <= i < |d| :: IsHexDigit(d[i])
  }

  function HexText(b: Bytes): (r: Text)
    ensures |r| == 2 * |b|
    ensures forall i | 0 <= i < |r| :: IsHexDigit(r[i])
  {
    if b == [] then [] else [HexDigit(b[0] / 16), HexDigit(b[0] % 16)] + HexText(b[1..])
  }

  /** A digest that keeps every byte: shows that injective digest functions exist. */
  function TransparentDigest(b: Bytes): Digest {
    DIGEST_PREFIX + HexText(b)
  }

  lemma {:induction false} HexTextInjective(a: Bytes, b: Bytes)
    requires HexText(a) == HexText(b)
    ensures a == b
  {
    if a != [] && b != [] {
      assert HexText(a)[0] == HexText(b)[0] && HexText(a)[1] == HexText(b)[1];
      assert HexText(a)[2..] == HexText(a[1..]) && HexText(b)[2..] == HexText(b[1..]);
      HexTextInjective(a[1..], b[1..]);
      assert a == [a[0]] + a[1..] && b == [b[0]] + b[1..];
    }
  }

  ghost predicate IsDigestFunction(h: Bytes -> Digest) {
    && (forall a, b :: h(a) == h(b) ==> a == b)
    && (forall a :: IsDigest(h(a)))
  }

  lemma TransparentDigestIsOne()
    ensures IsDigestFunction(TransparentDigest)
  {
    forall a, b | TransparentDigest(a) == TransparentDigest(b) ensures a == b {
      assert TransparentDigest(a)[|DIGEST_PREFIX|..] == HexText(a);
      assert TransparentDigest(b)[|DIGEST_PREFIX|..] == HexText(b);
      HexTextInjective(a, b);
    }
  }

  function Witness(): (h: Bytes -> Digest)
    ensures IsDigestFunction(h)
  {
    TransparentDigestIsOne();
    TransparentDigest
  }

  type DigestFunction = h: Bytes -> Digest | IsDigestFunction(h) witness Witness()

  /** Nothing is known of SHA-256 beyond the form of its digests and that they do not collide. */
  const Sha256: DigestFunction

  /** `digest_bytes` */
  function DigestBytes(b: Bytes): (d: Digest)
    ensures IsDigest(d)
  {
    Sha256(b)
  }

  lemma DigestBytesInjective(a: Bytes, b: Bytes)
    requires DigestBytes(a) == DigestBytes(b)
    ensures a == b
  {
    assert IsDigestFunction(Sha256);
  }

  /** `_object_digest`; `None` where canonicalization raises. */
  function ObjectDigest(j: Json): Option<Digest> {
    match CanonicalJson(j)
    case None => None
    case Some(b) => Some(DigestBytes(b))
  }

  /** Objects share a digest exactly when they are equal up to key insertion order. */
  lemma ObjectDigestIdentifies(a: Json, b: Json)
    requires Accepted(a) && Accepted(b) && Dictionary(a) && Dictionary(b)
    ensures ObjectDigest(a) == ObjectDigest(b) <==> JsonIdentity.SameValue(a, b)
  {
    JsonIdentity.CanonicalBytesIdentify(a, b);
    if ObjectDigest(a) == ObjectDigest(b) {
      DigestBytesInjective(CanonicalJson(a).value, CanonicalJson(b).value);
    }
  }

  /** Object literals with the same keys in the same order are equal exactly when their values are. */
  lemma SameKeysSameValues(ms: seq<Member>, ns: seq<Member>)
    requires |ms| == |ns| && JsonIdentity.SameValue(Obj(ms), Obj(ns))
    requires forall i | 0 <= i < |ms| :: ms[i].key == ns[i].key
    requires forall i, k | 0 <= i < k < |ms| :: ms[i].key != ms[k].key
    ensures forall i | 0 <= i < |ms| :: JsonIdentity.SameValue(ms[i].value, ns[i].value)
  {
    forall i | 0 <= i < |ms| ensures JsonIdentity.SameValue(ms[i].value, ns[i].value) {
      assert JsonIdentity.Find(ns, ms[i].key) == i;
    }
  }
}
