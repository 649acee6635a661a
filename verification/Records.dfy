/** Actions, result manifests and the records about them, with the JSON they are digested as. */
module Records {
  import opened Text
  import opened Json
  import opened Digests
  import JsonIdentity
  import JsonParser

  /** Instants are integers, in microseconds; a manifest spells them in decimal. */
  type Time = int

  const SECOND: Time := 1_000_000

  function Ascii(s: string): (t: Text)
    ensures |t| == |s| && forall i | 0 <= i < |s| :: t[i] == s[i] as int
  {
    seq(|s|, i requires 0 <= i < |s| => s[i] as int)
  }

  lemma AsciiText(s: string)
    requires forall i | 0 <= i < |s| :: s[i] < 128 as char
    ensures NoSurrogates(Ascii(s))
  {
  }

  function Field(name: string, value: Json): Member {
    Member(Name(Ascii(name)), value)
  }

  function TimeJson(t: Time): Json {
    Str(IntText(t))
  }

  datatype Version = ResultV0 | ResultV1 | UnsupportedVersion

  datatype Descriptor = Descriptor(name: Text, digest: Text, size: int, mediaType: Text)

  datatype Dependency = Dependency(name: Text, resultDigest: Text)

  /** `dependencies` is `None` when the manifest has no such field. */
  datatype Manifest = Manifest(
    version: Version,
    actionDigest: Text,
    artifacts: seq<Descriptor>,
    producedAt: Time,
    freshUntil: Option<Time>,
    producer: Text,
    dependencies: Option<seq<Dependency>>)

  /** The `method` object of a source validation. */
  datatype Method = Method(name: Text, version: Text, status: int, etag: Option<Text>, lastModified: Option<Text>)

  datatype Validation = Validation(
    resultDigest: Digest,
    validatedAt: Time,
    freshUntil: Time,
    producer: Text,
    means: Method)

  datatype Invalidation = Invalidation(resultDigest: Digest, invalidatedAt: Time, producer: Text, reason: Text)

  datatype Signature = Signature(keyId: Text, value: Bytes)

  datatype Receipt = Receipt(resultDigest: Text, producer: Text, environment: Json, signature: Option<Signature>)

  // ---------- validate_manifest ----------

  predicate ValidDescriptor(a: Descriptor) {
    && a.name != [] && NoSurrogates(a.name)
    && a.mediaType != [] && NoSurrogates(a.mediaType)
    && IsDigest(a.digest)
    && 0 <= a.size <= MAX_SAFE_INTEGER
  }

  predicate ValidDependency(d: Dependency) {
    d.name != [] && NoSurrogates(d.name) && IsDigest(d.resultDigest)
  }

  ghost predicate ValidArtifacts(xs: seq<Descriptor>) {
    && (forall i | 0 <= i < |xs| :: ValidDescriptor(xs[i]))
    && (forall i, k | 0 <= i < k < |xs| :: xs[i].name != xs[k].name)
  }

  /** Sorted by name without repetition, and no upstream result named twice. */
  ghost predicate ValidDependencies(ds: seq<Dependency>) {
    && (forall i | 0 <= i < |ds| :: ValidDependency(ds[i]))
    && (forall i, k | 0 <= i < k < |ds| :: Less(ds[i].name, ds[k].name))
    && (forall i, k | 0 <= i < k < |ds| :: ds[i].resultDigest != ds[k].resultDigest)
  }

  ghost predicate ValidManifest(m: Manifest) {
    && m.version != UnsupportedVersion
    && m.dependencies.Some? == (m.version == ResultV1)
    && IsDigest(m.actionDigest)
    && m.producer != [] && NoSurrogates(m.producer)
    && ValidArtifacts(m.artifacts)
    && (m.dependencies.Some? ==> ValidDependencies(m.dependencies.value))
  }

  /** `validate_manifest`: false where the source raises. */
  method ValidateManifest(m: Manifest) returns (ok: bool)
    ensures ok <==> ValidManifest(m)
  {
    if m.dependencies.Some? != (m.version == ResultV1) || m.version == UnsupportedVersion {
      return false;
    }
    if !IsDigest(m.actionDigest) || m.producer == [] || !NoSurrogates(m.producer) {
      return false;
    }
    var names: set<Text> := {};
    for i := 0 to |m.artifacts|
      invariant ValidArtifacts(m.artifacts[..i])
      invariant names == set k | 0 <= k < i :: m.artifacts[k].name
    {
      var a := m.artifacts[i];
      if !ValidDescriptor(a) || a.name in names {
        return false;
      }
      names := names + {a.name};
    }
    assert m.artifacts[..|m.artifacts|] == m.artifacts;
    if m.dependencies.Some? {
      ok := ValidateDependencies(m.dependencies.value);
    } else {
      ok := true;
    }
  }

  lemma OneMoreDependency(ds: seq<Dependency>, i: nat)
    requires i < |ds| && ValidDependencies(ds[..i]) && ValidDependency(ds[i])
    requires i > 0 ==> Less(ds[i - 1].name, ds[i].name)
    requires forall k | 0 <= k < i :: ds[k].resultDigest != ds[i].resultDigest
    ensures ValidDependencies(ds[..i + 1])
  {
    forall k | 0 <= k < i ensures Less(ds[k].name, ds[i].name) {
      if k < i - 1 {
        assert Less(ds[..i][k].name, ds[..i][i - 1].name);
        LessTransitive(ds[k].name, ds[i - 1].name, ds[i].name);
      }
    }
  }

  method ValidateDependencies(ds: seq<Dependency>) returns (ok: bool)
    ensures ok <==> ValidDependencies(ds)
  {
    var names: set<Text>, digests: set<Text> := {}, {};
    var previous: Option<Text> := None;
    for i := 0 to |ds|
      invariant ValidDependencies(ds[..i])
      invariant names == set k | 0 <= k < i :: ds[k].name
      invariant digests == set k | 0 <= k < i :: ds[k].resultDigest
      invariant previous == if i == 0 then None else Some(ds[i - 1].name)
    {
      var d := ds[i];
      if !ValidDependency(d) || d.name in names {
        if d.name in names {
          var k :| 0 <= k < i && ds[k].name == d.name;
          LessIrreflexive(d.name);
        }
        return false;
      }
      names := names + {d.name};
      if previous.Some? && !Less(previous.value, d.name) {
        return false;
      }
      previous := Some(d.name);
      if d.resultDigest in digests {
        return false;
      }
      digests := digests + {d.resultDigest};
      OneMoreDependency(ds, i);
    }
    assert ds[..|ds|] == ds;
    return true;
  }

  // ---------- the JSON of a manifest ----------

  function DescriptorJson(a: Descriptor): Json {
    Obj([Field("name", Str(a.name)), Field("digest", Str(a.digest)), Field("size", Int(a.size)),
         Field("media_type", Str(a.mediaType))])
  }

  function DependencyJson(d: Dependency): Json {
    Obj([Field("name", Str(d.name)), Field("result_digest", Str(d.resultDigest))])
  }

  function VersionText(v: Version): Text {
    match v
    case ResultV0 => Ascii("oncemesh.result/v0")
    case ResultV1 => Ascii("oncemesh.result/v1")
    case UnsupportedVersion => []
  }

  function ArtifactsJson(xs: seq<Descriptor>): Json {
    Arr(seq(|xs|, i requires 0 <= i < |xs| => DescriptorJson(xs[i])))
  }

  function ManifestFields(m: Manifest): (fields: seq<Member>)
    ensures |fields| == 6
  {
    [Field("spec_version", Str(VersionText(m.version))),
     Field("action_digest", Str(m.actionDigest)),
     Field("artifacts", ArtifactsJson(m.artifacts)),
     Field("produced_at", TimeJson(m.producedAt)),
     Field("fresh_until", if m.freshUntil.Some? then TimeJson(m.freshUntil.value) else Null),
     Field("producer", Str(m.producer))]
  }

  function DependenciesJson(ds: seq<Dependency>): Json {
    Arr(seq(|ds|, i requires 0 <= i < |ds| => DependencyJson(ds[i])))
  }

  function ManifestJson(m: Manifest): Json {
    Obj(ManifestFields(m) +
        if m.dependencies.Some? then [Field("dependencies", DependenciesJson(m.dependencies.value))] else [])
  }

  // ---------- what a manifest digest identifies ----------

  ghost predicate DistinctKeys(ms: seq<Member>) {
    forall i, k | 0 <= i < k < |ms| :: ms[i].key != ms[k].key
  }

  lemma DescriptorShape(a: Descriptor)
    requires ValidDescriptor(a)
    ensures Accepted(DescriptorJson(a)) && Dictionary(DescriptorJson(a)) && DistinctKeys(DescriptorJson(a).members)
  {
    var ms := DescriptorJson(a).members;
    DigestText(a.digest);
    assert ms[0].key.text[0] == 'n' as int && ms[1].key.text[0] == 'd' as int;
    assert ms[2].key.text[0] == 's' as int && ms[3].key.text[0] == 'm' as int;
  }

  lemma DependencyShape(d: Dependency)
    requires ValidDependency(d)
    ensures Accepted(DependencyJson(d)) && Dictionary(DependencyJson(d)) && DistinctKeys(DependencyJson(d).members)
  {
    var ms := DependencyJson(d).members;
    DigestText(d.resultDigest);
    assert ms[0].key.text[0] == 'n' as int && ms[1].key.text[0] == 'r' as int;
  }

  lemma DigestText(d: Digest)
    requires IsDigest(d)
    ensures NoSurrogates(d)
  {
    forall i | 0 <= i < |d| ensures !IsSurrogate(d[i]) {
      assert i < |DIGEST_PREFIX| ==> d[i] == DIGEST_PREFIX[i];
    }
  }

  lemma TimeText(t: Time)
    ensures NoSurrogates(IntText(t))
  {
    JsonIdentity.DecimalWithoutSurrogates(if t < 0 then -t else t);
  }

  lemma ManifestKeys(m: Manifest)
    ensures DistinctKeys(ManifestJson(m).members)
  {
    var ms := ManifestJson(m).members;
    assert |ms[0].key.text| == 12 && |ms[1].key.text| == 13 && |ms[2].key.text| == 9;
    assert |ms[3].key.text| == 11 && |ms[4].key.text| == 11 && |ms[5].key.text| == 8;
    assert ms[3].key.text[0] == 'p' as int && ms[4].key.text[0] == 'f' as int && ms[0].key.text[0] == 's' as int;
    assert |ms| == 7 ==> |ms[6].key.text| == 12 && ms[6].key.text[0] == 'd' as int;
  }

  lemma ArtifactsShape(xs: seq<Descriptor>)
    requires ValidArtifacts(xs)
    ensures Accepted(ArtifactsJson(xs)) && Dictionary(ArtifactsJson(xs))
  {
    forall i | 0 <= i < |xs| ensures Accepted(DescriptorJson(xs[i])) && Dictionary(DescriptorJson(xs[i])) {
      DescriptorShape(xs[i]);
    }
  }

  lemma DependenciesShape(ds: seq<Dependency>)
    requires ValidDependencies(ds)
    ensures Accepted(DependenciesJson(ds)) && Dictionary(DependenciesJson(ds))
  {
    forall i | 0 <= i < |ds| ensures Accepted(DependencyJson(ds[i])) && Dictionary(DependencyJson(ds[i])) {
      DependencyShape(ds[i]);
    }
  }

  lemma FieldsShape(m: Manifest)
    requires ValidManifest(m)
    ensures forall i | 0 <= i < 6 :: AcceptedMember(ManifestFields(m)[i]) && Dictionary(ManifestFields(m)[i].value)
  {
    var ms := ManifestFields(m);
    DigestText(m.actionDigest);
    TimeText(m.producedAt);
    if m.freshUntil.Some? {
      TimeText(m.freshUntil.value);
    }
    ArtifactsShape(m.artifacts);
    assert AcceptedMember(ms[0]) && AcceptedMember(ms[1]) && AcceptedMember(ms[2]);
    assert AcceptedMember(ms[3]) && AcceptedMember(ms[4]) && AcceptedMember(ms[5]);
  }

  /** A valid manifest can be canonicalized. */
  lemma ManifestShape(m: Manifest)
    requires ValidManifest(m)
    ensures Accepted(ManifestJson(m)) && Dictionary(ManifestJson(m))
  {
    var ms := ManifestJson(m).members;
    ManifestKeys(m);
    FieldsShape(m);
    assert forall i | 0 <= i < 6 :: ms[i] == ManifestFields(m)[i];
    if m.dependencies.Some? {
      DependenciesShape(m.dependencies.value);
      assert AcceptedMember(ms[6]) && ms[6].value == DependenciesJson(m.dependencies.value);
    }
  }

  ghost predicate IsManifestDigest(h: Manifest -> Digest) {
    forall m {:trigger ManifestJson(m)} :: ValidManifest(m) ==> ObjectDigest(ManifestJson(m)) == Some(h(m))
  }

  ghost function ManifestDigestWitness(): (h: Manifest -> Digest)
    ensures IsManifestDigest(h)
  {
    var h := (m: Manifest) => if ObjectDigest(ManifestJson(m)).Some? then ObjectDigest(ManifestJson(m)).value else [];
    assert IsManifestDigest(h) by {
      forall m | ValidManifest(m) ensures ObjectDigest(ManifestJson(m)) == Some(h(m)) {
        ManifestShape(m);
      }
    }
    h
  }

  /** Fixed on every valid manifest by its canonical JSON; naming it keeps proofs from unfolding that JSON. */
  type ManifestDigestFunction = h: Manifest -> Digest | IsManifestDigest(h) ghost witness ManifestDigestWitness()

  ghost const CanonicalManifestDigest: ManifestDigestFunction

  /** `manifest_digest`, for a manifest that validates. */
  ghost function ManifestDigest(m: Manifest): Digest
    requires ValidManifest(m)
  {
    CanonicalManifestDigest(m)
  }

  /** It is the digest of the manifest's canonical bytes. */
  lemma ManifestDigestIsCanonical(m: Manifest)
    requires ValidManifest(m)
    ensures ObjectDigest(ManifestJson(m)) == Some(ManifestDigest(m)) && IsDigest(ManifestDigest(m))
  {
    assert IsManifestDigest(CanonicalManifestDigest);
    ManifestShape(m);
  }

  lemma DescriptorKeys(a: Descriptor, b: Descriptor)
    ensures forall i | 0 <= i < 4 :: DescriptorJson(a).members[i].key == DescriptorJson(b).members[i].key
  {
  }

  lemma SameDescriptorPart(a: Descriptor, b: Descriptor, i: nat)
    requires ValidDescriptor(b) && JsonIdentity.SameValue(DescriptorJson(a), DescriptorJson(b)) && i < 4
    ensures JsonIdentity.SameValue(DescriptorJson(a).members[i].value, DescriptorJson(b).members[i].value)
  {
    DescriptorShape(b);
    DescriptorKeys(a, b);
    SameValueAt(DescriptorJson(a).members, DescriptorJson(b).members, i);
  }

  lemma SameDescriptors(a: Descriptor, b: Descriptor)
    requires ValidDescriptor(a) && ValidDescriptor(b)
    requires JsonIdentity.SameValue(DescriptorJson(a), DescriptorJson(b))
    ensures a == b
  {
    SameDescriptorPart(a, b, 0);
    SameDescriptorPart(a, b, 1);
    SameDescriptorPart(a, b, 2);
    SameDescriptorPart(a, b, 3);
    SameAtom(Str(a.name), Str(b.name));
    SameAtom(Str(a.digest), Str(b.digest));
    SameAtom(Int(a.size), Int(b.size));
    SameAtom(Str(a.mediaType), Str(b.mediaType));
  }

  lemma SameDependencies(a: Dependency, b: Dependency)
    requires ValidDependency(a) && ValidDependency(b)
    requires JsonIdentity.SameValue(DependencyJson(a), DependencyJson(b))
    ensures a == b
  {
    var ms, ns := DependencyJson(a).members, DependencyJson(b).members;
    DependencyShape(a);
    SameKeysSameValues(ms, ns);
    assert ms[0].value == ns[0].value && ms[1].value == ns[1].value;
  }

  lemma SameIntText(i: int, k: int)
    requires IntText(i) == IntText(k)
    ensures i == k
  {
    JsonParser.ParseInt(i, []);
    JsonParser.ParseInt(k, []);
  }

  lemma SameVersions(v: Version, w: Version)
    requires v != UnsupportedVersion && w != UnsupportedVersion && VersionText(v) == VersionText(w)
    ensures v == w
  {
    assert VersionText(ResultV0)[17] == '0' as int && VersionText(ResultV1)[17] == '1' as int;
  }

  /** A manifest digest names one manifest: valid manifests with the same digest are equal. */
  lemma ManifestDigestInjective(m: Manifest, n: Manifest)
    requires ValidManifest(m) && ValidManifest(n) && ManifestDigest(m) == ManifestDigest(n)
    ensures m == n
  {
    ManifestShape(m);
    ManifestShape(n);
    ManifestDigestIsCanonical(m);
    ManifestDigestIsCanonical(n);
    ObjectDigestIdentifies(ManifestJson(m), ManifestJson(n));
    SameManifests(m, n);
  }

  /** The keys of a manifest are the same whatever its contents. */
  lemma FieldKeys(m: Manifest, n: Manifest)
    ensures forall i | 0 <= i < 6 :: ManifestFields(m)[i].key == ManifestFields(n)[i].key
  {
    var ms, ns := ManifestFields(m), ManifestFields(n);
    assert ms[0].key == ns[0].key && ms[1].key == ns[1].key && ms[2].key == ns[2].key;
    assert ms[3].key == ns[3].key && ms[4].key == ns[4].key && ms[5].key == ns[5].key;
  }

  lemma SameValueAt(ms: seq<Member>, ns: seq<Member>, i: nat)
    requires JsonIdentity.SameValue(Obj(ms), Obj(ns)) && DistinctKeys(ns)
    requires i < |ms| && i < |ns| && ms[i].key == ns[i].key
    ensures JsonIdentity.SameValue(ms[i].value, ns[i].value)
  {
    assert JsonIdentity.Find(ns, ms[i].key) == i;
  }

  lemma SameManifests(m: Manifest, n: Manifest)
    requires ValidManifest(m) && ValidManifest(n)
    requires JsonIdentity.SameValue(ManifestJson(m), ManifestJson(n))
    ensures m == n
  {
    var ms, ns := ManifestJson(m).members, ManifestJson(n).members;
    ManifestKeys(n);
    FieldKeys(m, n);
    forall i: nat | i < 6 ensures JsonIdentity.SameValue(ms[i].value, ns[i].value) {
      assert ms[i] == ManifestFields(m)[i] && ns[i] == ManifestFields(n)[i];
      SameValueAt(ms, ns, i);
    }
    SameFields(m, n, ms, ns);
    if m.dependencies.Some? {
      SameValueAt(ms, ns, 6);
      SameDependencyLists(m.dependencies.value, n.dependencies.value, ms[6].value, ns[6].value);
    }
  }

  lemma SameFields(m: Manifest, n: Manifest, ms: seq<Member>, ns: seq<Member>)
    requires ValidManifest(m) && ValidManifest(n)
    requires ManifestFields(m) <= ms && ManifestFields(n) <= ns
    requires forall i | 0 <= i < 6 :: JsonIdentity.SameValue(ms[i].value, ns[i].value)
    ensures m.(dependencies := None) == n.(dependencies := None)
  {
    SameVersions(m.version, n.version) by { SameAtom(ms[0].value, ns[0].value); }
    SameTimes(ms, ns, m, n);
    SameArtifacts(m.artifacts, n.artifacts, ms[2].value, ns[2].value);
  }

  lemma SameTimes(ms: seq<Member>, ns: seq<Member>, m: Manifest, n: Manifest)
    requires ManifestFields(m) <= ms && ManifestFields(n) <= ns
    requires forall i | 0 <= i < 6 :: JsonIdentity.SameValue(ms[i].value, ns[i].value)
    ensures m.actionDigest == n.actionDigest && m.producer == n.producer
    ensures m.producedAt == n.producedAt && m.freshUntil == n.freshUntil
  {
    SameAtom(ms[1].value, ns[1].value);
    SameAtom(ms[3].value, ns[3].value);
    SameAtom(ms[4].value, ns[4].value);
    SameAtom(ms[5].value, ns[5].value);
    SameIntText(m.producedAt, n.producedAt);
    if m.freshUntil.Some? && n.freshUntil.Some? {
      SameIntText(m.freshUntil.value, n.freshUntil.value);
    }
  }

  lemma SameAtom(a: Json, b: Json)
    requires JsonIdentity.SameValue(a, b) && !a.Arr? && !a.Obj?
    ensures a == b
  {
  }

  lemma SameItems(a: Json, b: Json)
    requires JsonIdentity.SameValue(a, b) && a.Arr?
    ensures b.Arr? && |a.items| == |b.items|
    ensures forall i | 0 <= i < |a.items| :: JsonIdentity.SameValue(a.items[i], b.items[i])
  {
  }

  lemma SameArtifacts(xs: seq<Descriptor>, ys: seq<Descriptor>, a: Json, b: Json)
    requires ValidArtifacts(xs) && ValidArtifacts(ys) && JsonIdentity.SameValue(a, b)
    requires a == ArtifactsJson(xs) && b == ArtifactsJson(ys)
    ensures xs == ys
  {
    SameItems(a, b);
    forall i | 0 <= i < |xs| ensures xs[i] == ys[i] {
      assert a.items[i] == DescriptorJson(xs[i]) && b.items[i] == DescriptorJson(ys[i]);
      SameDescriptors(xs[i], ys[i]);
    }
  }

  lemma SameDependencyLists(xs: seq<Dependency>, ys: seq<Dependency>, a: Json, b: Json)
    requires ValidDependencies(xs) && ValidDependencies(ys) && JsonIdentity.SameValue(a, b)
    requires a == DependenciesJson(xs) && b == DependenciesJson(ys)
    ensures xs == ys
  {
    SameItems(a, b);
    forall i | 0 <= i < |xs| ensures xs[i] == ys[i] {
      assert a.items[i] == DependencyJson(xs[i]) && b.items[i] == DependencyJson(ys[i]);
      SameDependencies(xs[i], ys[i]);
    }
  }
}
