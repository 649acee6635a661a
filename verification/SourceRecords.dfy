/** Source validations and invalidations: what validates, and the canonical JSON that identifies a record. */
module SourceRecords {
  import opened Text
  import opened Json
  import opened Digests
  import opened Records
  import JsonIdentity

  predicate NonEmpty(t: Option<Text>) {
    t.Some? ==> t.value != []
  }

  /** HTTP conditional validation, with at least one validator. */
  predicate ValidMethod(m: Method) {
    && m.name == Ascii("http.conditional") && m.version == Ascii("1") && m.status == 304
    && NonEmpty(m.etag) && NonEmpty(m.lastModified)
    && (m.etag.Some? || m.lastModified.Some?)
  }

  predicate Encodable(t: Option<Text>) {
    t.Some? ==> NoSurrogates(t.value)
  }

  /** `validate_source_validation` */
  predicate ValidValidation(v: Validation) {
    && IsDigest(v.resultDigest) && v.producer != [] && v.validatedAt <= v.freshUntil && ValidMethod(v.means)
    && NoSurrogates(v.producer) && Encodable(v.means.etag) && Encodable(v.means.lastModified)
  }

  /** `validate_invalidation` */
  predicate ValidInvalidation(r: Invalidation) {
    && IsDigest(r.resultDigest) && r.producer != [] && r.reason != []
    && NoSurrogates(r.producer) && NoSurrogates(r.reason)
  }

  // ---------- the JSON of a record ----------

  function TextJson(t: Option<Text>): Json {
    if t.Some? then Str(t.value) else Null
  }

  function MethodJson(m: Method): Json {
    Obj([Field("name", Str(m.name)), Field("version", Str(m.version)), Field("status", Int(m.status)),
         Field("etag", TextJson(m.etag)), Field("last_modified", TextJson(m.lastModified))])
  }

  function ValidationJson(v: Validation): Json {
    Obj([Field("spec_version", Str(Ascii("oncemesh.validation/v0"))), Field("result_digest", Str(v.resultDigest)),
         Field("validated_at", TimeJson(v.validatedAt)), Field("fresh_until", TimeJson(v.freshUntil)),
         Field("producer", Str(v.producer)), Field("method", MethodJson(v.means))])
  }

  function InvalidationJson(r: Invalidation): Json {
    Obj([Field("spec_version", Str(Ascii("oncemesh.invalidation/v0"))), Field("result_digest", Str(r.resultDigest)),
         Field("invalidated_at", TimeJson(r.invalidatedAt)), Field("producer", Str(r.producer)),
         Field("reason", Str(r.reason))])
  }

  predicate Plain(name: string) {
    forall i | 0 <= i < |name| :: name[i] < 128 as char
  }

  lemma FieldShape(name: string, value: Json)
    requires Plain(name)
    ensures AcceptedMember(Field(name, value)) <==> Accepted(value)
  {
    AsciiText(name);
  }

  lemma MethodKeys(m: Method)
    ensures DistinctKeys(MethodJson(m).members)
  {
    var ms := MethodJson(m).members;
    assert |ms[0].key.text| == 4 && |ms[1].key.text| == 7 && |ms[2].key.text| == 6;
    assert |ms[3].key.text| == 4 && |ms[4].key.text| == 13;
    assert ms[0].key.text[0] == 'n' as int && ms[3].key.text[0] == 'e' as int;
  }

  lemma MethodShape(m: Method)
    requires ValidMethod(m)
    ensures Dictionary(MethodJson(m))
    ensures Accepted(MethodJson(m)) <==> Encodable(m.etag) && Encodable(m.lastModified)
  {
    var ms := MethodJson(m).members;
    MethodKeys(m);
    AsciiText("http.conditional");
    AsciiText("1");
    FieldShape("name", Str(m.name));
    FieldShape("version", Str(m.version));
    FieldShape("status", Int(m.status));
    FieldShape("etag", TextJson(m.etag));
    FieldShape("last_modified", TextJson(m.lastModified));
    assert AcceptedMember(ms[3]) <==> Encodable(m.etag);
    assert AcceptedMember(ms[4]) <==> Encodable(m.lastModified);
  }

  lemma SixAccepted(ms: seq<Member>)
    requires |ms| == 6 && AcceptedMember(ms[0]) && AcceptedMember(ms[1]) && AcceptedMember(ms[2]) && AcceptedMember(ms[3])
    ensures Accepted(Obj(ms)) <==> AcceptedMember(ms[4]) && AcceptedMember(ms[5])
  {
  }

  lemma FiveAccepted(ms: seq<Member>)
    requires |ms| == 5 && AcceptedMember(ms[0]) && AcceptedMember(ms[1]) && AcceptedMember(ms[2])
    ensures Accepted(Obj(ms)) <==> AcceptedMember(ms[3]) && AcceptedMember(ms[4])
  {
  }

  lemma ValidationKeys(v: Validation)
    ensures DistinctKeys(ValidationJson(v).members)
  {
    var ms := ValidationJson(v).members;
    assert |ms[0].key.text| == 12 && |ms[1].key.text| == 13 && |ms[2].key.text| == 12;
    assert |ms[3].key.text| == 11 && |ms[4].key.text| == 8 && |ms[5].key.text| == 6;
    assert ms[0].key.text[0] == 's' as int && ms[2].key.text[0] == 'v' as int;
  }

  lemma SpecVersionField(version: string)
    requires Plain(version)
    ensures AcceptedMember(Field("spec_version", Str(Ascii(version))))
  {
    AsciiText(version);
    FieldShape("spec_version", Str(Ascii(version)));
  }

  lemma ResultDigestField(d: Digest)
    requires IsDigest(d)
    ensures AcceptedMember(Field("result_digest", Str(d)))
  {
    DigestText(d);
    FieldShape("result_digest", Str(d));
  }

  lemma TimeField(name: string, t: Time)
    requires Plain(name)
    ensures AcceptedMember(Field(name, TimeJson(t)))
  {
    TimeText(t);
    FieldShape(name, TimeJson(t));
  }

  lemma ValidationHead(v: Validation)
    requires IsDigest(v.resultDigest)
    ensures AcceptedMember(ValidationJson(v).members[0]) && AcceptedMember(ValidationJson(v).members[1])
  {
    SpecVersionField("oncemesh.validation/v0");
    ResultDigestField(v.resultDigest);
  }

  lemma ValidationTimes(v: Validation)
    ensures AcceptedMember(ValidationJson(v).members[2]) && AcceptedMember(ValidationJson(v).members[3])
  {
    TimeField("validated_at", v.validatedAt);
    TimeField("fresh_until", v.freshUntil);
  }

  lemma ValidationTail(v: Validation)
    ensures AcceptedMember(ValidationJson(v).members[4]) <==> NoSurrogates(v.producer)
    ensures AcceptedMember(ValidationJson(v).members[5]) <==> Accepted(MethodJson(v.means))
  {
    FieldShape("producer", Str(v.producer));
    FieldShape("method", MethodJson(v.means));
  }

  /** Of a validation that passes the field checks, `canonical_json` refuses exactly unencodable texts. */
  lemma ValidationShape(v: Validation)
    requires IsDigest(v.resultDigest) && v.producer != [] && v.validatedAt <= v.freshUntil && ValidMethod(v.means)
    ensures Dictionary(ValidationJson(v))
    ensures Accepted(ValidationJson(v)) <==> ValidValidation(v)
  {
    var ms := ValidationJson(v).members;
    ValidationKeys(v);
    MethodShape(v.means);
    ValidationHead(v);
    ValidationTimes(v);
    ValidationTail(v);
    SixAccepted(ms);
    assert ms[4].value == Str(v.producer) && ms[5].value == MethodJson(v.means);
  }

  lemma InvalidationKeys(r: Invalidation)
    ensures DistinctKeys(InvalidationJson(r).members)
  {
    var ms := InvalidationJson(r).members;
    assert |ms[0].key.text| == 12 && |ms[1].key.text| == 13 && |ms[2].key.text| == 14;
    assert |ms[3].key.text| == 8 && |ms[4].key.text| == 6;
  }

  lemma InvalidationHead(r: Invalidation)
    requires IsDigest(r.resultDigest)
    ensures AcceptedMember(InvalidationJson(r).members[0]) && AcceptedMember(InvalidationJson(r).members[1])
  {
    SpecVersionField("oncemesh.invalidation/v0");
    ResultDigestField(r.resultDigest);
  }

  lemma InvalidationTime(r: Invalidation)
    ensures AcceptedMember(InvalidationJson(r).members[2])
  {
    TimeField("invalidated_at", r.invalidatedAt);
  }

  lemma InvalidationTail(r: Invalidation)
    ensures AcceptedMember(InvalidationJson(r).members[3]) <==> NoSurrogates(r.producer)
    ensures AcceptedMember(InvalidationJson(r).members[4]) <==> NoSurrogates(r.reason)
  {
    FieldShape("producer", Str(r.producer));
    FieldShape("reason", Str(r.reason));
  }

  /** Of an invalidation that passes the field checks, `canonical_json` refuses exactly unencodable texts. */
  lemma InvalidationShape(r: Invalidation)
    requires IsDigest(r.resultDigest) && r.producer != [] && r.reason != []
    ensures Dictionary(InvalidationJson(r))
    ensures Accepted(InvalidationJson(r)) <==> ValidInvalidation(r)
  {
    var ms := InvalidationJson(r).members;
    InvalidationKeys(r);
    InvalidationHead(r);
    InvalidationTime(r);
    InvalidationTail(r);
    FiveAccepted(ms);
  }

  // ---------- what the bytes of a record identify ----------

  /** Both objects have the key at the same place, with texts for values. */
  lemma SameTextAt(ms: seq<Member>, ns: seq<Member>, i: nat, t: Text, u: Text)
    requires JsonIdentity.SameValue(Obj(ms), Obj(ns)) && DistinctKeys(ns) && i < |ms| && i < |ns|
    requires ms[i].key == ns[i].key && ms[i].value == Str(t) && ns[i].value == Str(u)
    ensures t == u
  {
    SameValueAt(ms, ns, i);
  }

  lemma SameOptionalAt(ms: seq<Member>, ns: seq<Member>, i: nat, t: Option<Text>, u: Option<Text>)
    requires JsonIdentity.SameValue(Obj(ms), Obj(ns)) && DistinctKeys(ns) && i < |ms| && i < |ns|
    requires ms[i].key == ns[i].key && ms[i].value == TextJson(t) && ns[i].value == TextJson(u)
    ensures t == u
  {
    SameValueAt(ms, ns, i);
    SameAtom(ms[i].value, ns[i].value);
  }

  lemma SameMethods(m: Method, n: Method)
    requires ValidMethod(m) && ValidMethod(n) && JsonIdentity.SameValue(MethodJson(m), MethodJson(n))
    ensures m == n
  {
    var ms, ns := MethodJson(m).members, MethodJson(n).members;
    MethodKeys(n);
    SameOptionalAt(ms, ns, 3, m.etag, n.etag);
    SameOptionalAt(ms, ns, 4, m.lastModified, n.lastModified);
  }

  lemma SameValidationTimes(v: Validation, u: Validation)
    requires JsonIdentity.SameValue(ValidationJson(v), ValidationJson(u))
    ensures v.validatedAt == u.validatedAt && v.freshUntil == u.freshUntil
  {
    var ms, ns := ValidationJson(v).members, ValidationJson(u).members;
    ValidationKeys(u);
    SameTextAt(ms, ns, 2, IntText(v.validatedAt), IntText(u.validatedAt));
    SameTextAt(ms, ns, 3, IntText(v.freshUntil), IntText(u.freshUntil));
    SameIntText(v.validatedAt, u.validatedAt);
    SameIntText(v.freshUntil, u.freshUntil);
  }

  lemma SameValidations(v: Validation, u: Validation)
    requires ValidMethod(v.means) && ValidMethod(u.means)
    requires JsonIdentity.SameValue(ValidationJson(v), ValidationJson(u))
    ensures v == u
  {
    var ms, ns := ValidationJson(v).members, ValidationJson(u).members;
    ValidationKeys(u);
    SameValidationTimes(v, u);
    SameTextAt(ms, ns, 1, v.resultDigest, u.resultDigest);
    SameTextAt(ms, ns, 4, v.producer, u.producer);
    SameValueAt(ms, ns, 5);
    SameMethods(v.means, u.means);
  }

  /** A validation is determined by its canonical bytes. */
  lemma ValidationBytesIdentify(v: Validation, u: Validation)
    requires ValidValidation(v) && ValidValidation(u)
    ensures CanonicalJson(ValidationJson(v)) == CanonicalJson(ValidationJson(u)) <==> v == u
  {
    ValidationShape(v);
    ValidationShape(u);
    JsonIdentity.CanonicalBytesIdentify(ValidationJson(v), ValidationJson(u));
    if JsonIdentity.SameValue(ValidationJson(v), ValidationJson(u)) {
      SameValidations(v, u);
    }
  }

  lemma SameInvalidations(r: Invalidation, q: Invalidation)
    requires JsonIdentity.SameValue(InvalidationJson(r), InvalidationJson(q))
    ensures r == q
  {
    var ms, ns := InvalidationJson(r).members, InvalidationJson(q).members;
    InvalidationKeys(q);
    SameTextAt(ms, ns, 1, r.resultDigest, q.resultDigest);
    SameTextAt(ms, ns, 2, IntText(r.invalidatedAt), IntText(q.invalidatedAt));
    SameTextAt(ms, ns, 3, r.producer, q.producer);
    SameTextAt(ms, ns, 4, r.reason, q.reason);
    SameIntText(r.invalidatedAt, q.invalidatedAt);
  }

  /** An invalidation is determined by its canonical bytes. */
  lemma InvalidationBytesIdentify(r: Invalidation, q: Invalidation)
    requires ValidInvalidation(r) && ValidInvalidation(q)
    ensures CanonicalJson(InvalidationJson(r)) == CanonicalJson(InvalidationJson(q)) <==> r == q
  {
    InvalidationShape(r);
    InvalidationShape(q);
    JsonIdentity.CanonicalBytesIdentify(InvalidationJson(r), InvalidationJson(q));
    if JsonIdentity.SameValue(InvalidationJson(r), InvalidationJson(q)) {
      SameInvalidations(r, q);
    }
  }
}
