/** Availability manifests: what a peer advertises, how the list is validated, signed and verified. */
module Availability {
  import opened Text
  import opened Json
  import opened Digests
  import opened Records
  import opened Signing
  import Sorting

  datatype Operation = Operation(name: Text, version: Text)

  datatype Entry = Entry(actionDigest: Text, resultDigest: Text, operation: Operation, artifactBytes: int)

  datatype AvailabilityManifest = AvailabilityManifest(
    peer: Text,
    generatedAt: Time,
    entries: seq<Entry>,
    signature: Option<Signature>)

  /** By action, then by result. */
  predicate EntryBefore(a: Entry, b: Entry) {
    Less(a.actionDigest, b.actionDigest) || (a.actionDigest == b.actionDigest && Less(a.resultDigest, b.resultDigest))
  }

  predicate SameIdentity(a: Entry, b: Entry) {
    a.actionDigest == b.actionDigest && a.resultDigest == b.resultDigest
  }

  predicate ValidEntry(e: Entry) {
    && IsDigest(e.actionDigest) && IsDigest(e.resultDigest)
    && e.operation.name != [] && e.operation.version != [] && e.artifactBytes >= 0
  }

  // ---------- the bytes a signature covers ----------

  function OperationJson(o: Operation): Json {
    Obj([Field("name", Str(o.name)), Field("version", Str(o.version))])
  }

  function EntryJson(e: Entry): Json {
    Obj([Field("action_digest", Str(e.actionDigest)), Field("result_digest", Str(e.resultDigest)),
         Field("operation", OperationJson(e.operation)), Field("artifact_bytes", Int(e.artifactBytes))])
  }

  function EntriesJson(es: seq<Entry>): Json {
    Arr(seq(|es|, i requires 0 <= i < |es| => EntryJson(es[i])))
  }

  function UnsignedJson(a: AvailabilityManifest): Json {
    Obj([Field("spec_version", Str(Ascii("oncemesh.availability/v0"))), Field("peer_id", Str(a.peer)),
         Field("generated_at", TimeJson(a.generatedAt)),
         Field("entries", EntriesJson(a.entries)),
         Field("signature", Null)])
  }

  const AVAILABILITY_DOMAIN: Bytes := Domain("OnceMesh availability manifest v1")

  ghost predicate IsSigningInput(f: AvailabilityManifest -> Option<Bytes>) {
    forall a {:trigger UnsignedJson(a)} :: f(a) == CanonicalJson(UnsignedJson(a))
  }

  type SigningInputFunction = f: AvailabilityManifest -> Option<Bytes> | IsSigningInput(f)
    witness (a: AvailabilityManifest) => CanonicalJson(UnsignedJson(a))

  /** Canonical bytes without the signature, by a name proofs do not unfold; `None` where it raises. */
  const SigningInput: SigningInputFunction

  predicate EncodableEntry(e: Entry) {
    NoSurrogates(e.operation.name) && NoSurrogates(e.operation.version) && e.artifactBytes <= MAX_SAFE_INTEGER
  }

  lemma EntryAccepted(e: Entry)
    requires ValidEntry(e) && EncodableEntry(e)
    ensures Accepted(EntryJson(e))
  {
    DigestText(e.actionDigest);
    DigestText(e.resultDigest);
    AsciiText("action_digest");
    AsciiText("result_digest");
    AsciiText("operation");
    AsciiText("artifact_bytes");
    AsciiText("name");
    AsciiText("version");
    assert Accepted(OperationJson(e.operation));
  }

  lemma EntriesAccepted(es: seq<Entry>)
    requires forall i | 0 <= i < |es| :: ValidEntry(es[i]) && EncodableEntry(es[i])
    ensures Accepted(EntriesJson(es))
  {
    forall i | 0 <= i < |es| ensures Accepted(EntryJson(es[i])) {
      EntryAccepted(es[i]);
    }
  }

  lemma FieldAccepted(name: string, value: Json)
    requires Accepted(value) && forall i | 0 <= i < |name| :: name[i] < 128 as char
    ensures AcceptedMember(Field(name, value))
  {
    AsciiText(name);
  }

  /** Encodable texts and sums up to 2^53 - 1 can be canonicalized. */
  lemma SigningInputExists(a: AvailabilityManifest)
    requires NoSurrogates(a.peer)
    requires forall i | 0 <= i < |a.entries| :: ValidEntry(a.entries[i]) && EncodableEntry(a.entries[i])
    ensures SigningInput(a).Some?
  {
    assert IsSigningInput(SigningInput);
    AsciiText("oncemesh.availability/v0");
    TimeText(a.generatedAt);
    EntriesAccepted(a.entries);
    FieldAccepted("spec_version", Str(Ascii("oncemesh.availability/v0")));
    FieldAccepted("peer_id", Str(a.peer));
    FieldAccepted("generated_at", TimeJson(a.generatedAt));
    FieldAccepted("entries", EntriesJson(a.entries));
    FieldAccepted("signature", Null);
    assert SigningInput(a) == CanonicalJson(UnsignedJson(a));
  }

  /** A size beyond 2^53 - 1 in any one entry makes the whole manifest unsignable. */
  lemma SigningNeedsSafeSizes(a: AvailabilityManifest, i: nat)
    requires i < |a.entries| && SigningInput(a).Some?
    ensures a.entries[i].artifactBytes <= MAX_SAFE_INTEGER
  {
    assert IsSigningInput(SigningInput);
    assert SigningInput(a) == CanonicalJson(UnsignedJson(a));
    var ms := UnsignedJson(a).members;
    assert AcceptedMember(ms[3]);
    assert Accepted(ms[3].value.items[i]);
    assert ms[3].value.items[i] == EntryJson(a.entries[i]);
    var fs := EntryJson(a.entries[i]).members;
    assert AcceptedMember(fs[3]);
  }

  // ---------- validation ----------

  /** Entries are valid, unique and in canonical order, and the manifest is signed and canonical. */
  ghost predicate ValidAvailability(a: AvailabilityManifest) {
    && a.peer != []
    && (forall i | 0 <= i < |a.entries| :: ValidEntry(a.entries[i]))
    && Sorting.Ascending(a.entries, EntryBefore)
    && a.signature.Some? && ValidSignature(a.signature.value)
    && SigningInput(a).Some?
  }

  lemma EntryBeforeIsStrict()
    ensures Sorting.StrictOrder(EntryBefore)
  {
    forall x ensures !EntryBefore(x, x) {
      LessIrreflexive(x.actionDigest);
      LessIrreflexive(x.resultDigest);
    }
    forall x, y, z | EntryBefore(x, y) && EntryBefore(y, z) ensures EntryBefore(x, z) {
      if Less(x.actionDigest, y.actionDigest) && Less(y.actionDigest, z.actionDigest) {
        LessTransitive(x.actionDigest, y.actionDigest, z.actionDigest);
      } else if x.actionDigest == y.actionDigest == z.actionDigest {
        LessTransitive(x.resultDigest, y.resultDigest, z.resultDigest);
      }
    }
  }

  lemma DistinctEntriesCompare(es: seq<Entry>)
    requires forall i, j | 0 <= i < j < |es| :: !SameIdentity(es[i], es[j])
    ensures Sorting.Comparable(es, EntryBefore)
  {
    forall i, j | 0 <= i < |es| && 0 <= j < |es| && i != j ensures EntryBefore(es[i], es[j]) || EntryBefore(es[j], es[i]) {
      LessTotal(es[i].actionDigest, es[j].actionDigest);
      LessTotal(es[i].resultDigest, es[j].resultDigest);
      assert !SameIdentity(es[i], es[j]);
    }
  }

  /** Unique entries equal their sorted list exactly when they ascend. */
  lemma SortedExactlyWhenAscending(es: seq<Entry>)
    requires forall i, j | 0 <= i < j < |es| :: !SameIdentity(es[i], es[j])
    ensures es == Sorting.Sort(es, EntryBefore) <==> Sorting.Ascending(es, EntryBefore)
  {
    EntryBeforeIsStrict();
    DistinctEntriesCompare(es);
    Sorting.SortAscending(es, EntryBefore);
    if Sorting.Ascending(es, EntryBefore) {
      Sorting.SortOfAscending(es, EntryBefore);
    }
  }

  lemma AscendingDistinct(es: seq<Entry>)
    requires Sorting.Ascending(es, EntryBefore)
    ensures forall i, j | 0 <= i < j < |es| :: !SameIdentity(es[i], es[j])
  {
    forall i, j | 0 <= i < j < |es| ensures !SameIdentity(es[i], es[j]) {
      assert EntryBefore(es[i], es[j]);
      LessIrreflexive(es[i].actionDigest);
      LessIrreflexive(es[i].resultDigest);
    }
  }

  datatype Identity = Identity(actionDigest: Text, resultDigest: Text)

  function IdentityOf(e: Entry): Identity {
    Identity(e.actionDigest, e.resultDigest)
  }

  /** The loop over the entries: each valid, none seen before. */
  method ValidateEntries(es: seq<Entry>) returns (ok: bool)
    ensures ok <==> && (forall i | 0 <= i < |es| :: ValidEntry(es[i]))
                    && (forall i, j | 0 <= i < j < |es| :: !SameIdentity(es[i], es[j]))
  {
    var seen: set<Identity> := {};
    for i := 0 to |es|
      invariant forall j | 0 <= j < i :: ValidEntry(es[j])
      invariant forall j, k | 0 <= j < k < i :: !SameIdentity(es[j], es[k])
      invariant seen == set j | 0 <= j < i :: IdentityOf(es[j])
    {
      if !ValidEntry(es[i]) {
        return false;
      }
      if IdentityOf(es[i]) in seen {
        var j :| 0 <= j < i && IdentityOf(es[j]) == IdentityOf(es[i]);
        assert SameIdentity(es[j], es[i]);
        return false;
      }
      forall j | 0 <= j < i ensures !SameIdentity(es[j], es[i]) {
        assert IdentityOf(es[j]) in seen;
      }
      seen := seen + {IdentityOf(es[i])};
    }
    return true;
  }

  /** `validate_availability`: false where the source raises. */
  method ValidateAvailability(a: AvailabilityManifest) returns (ok: bool)
    ensures ok <==> ValidAvailability(a)
  {
    if a.peer == [] || a.signature.None? || !ValidSignature(a.signature.value) || SigningInput(a).None? {
      return false;
    }
    ok := ValidateEntries(a.entries);
    if ok {
      SortedExactlyWhenAscending(a.entries);
      ok := a.entries == Sorting.Sort(a.entries, EntryBefore);
    } else if Sorting.Ascending(a.entries, EntryBefore) {
      AscendingDistinct(a.entries);
    }
  }

  // ---------- signing ----------

  /** `sign_availability`; `None` where the signed manifest does not validate. */
  ghost function Sign(a: AvailabilityManifest, seed: Bytes): Option<AvailabilityManifest> {
    if SigningInput(a).None? then None
    else
      var signed := a.(signature := Some(Signature(KeyId(Ed25519.publicKey(seed)),
                                                   Ed25519.sign(seed, AVAILABILITY_DOMAIN + SigningInput(a).value))));
      if ValidAvailability(signed) then Some(signed) else None
  }

  /** `verify_availability` on a manifest that validates. */
  predicate Verify(a: AvailabilityManifest, peer: Text, publicKey: Bytes)
    requires a.signature.Some? && SigningInput(a).Some?
  {
    && a.peer == peer && |publicKey| == 32
    && a.signature.value.keyId == KeyId(publicKey)
    && Ed25519.verify(publicKey, AVAILABILITY_DOMAIN + SigningInput(a).value, a.signature.value.value)
  }

  /** The signature is not part of what it covers. */
  lemma SignatureNotCovered(a: AvailabilityManifest, b: AvailabilityManifest)
    requires a.(signature := None) == b.(signature := None)
    ensures SigningInput(a) == SigningInput(b)
  {
    assert IsSigningInput(SigningInput);
    assert UnsignedJson(a) == UnsignedJson(b);
  }

  /** What a peer signs validates and verifies under its public key. */
  lemma SignedVerifies(a: AvailabilityManifest, seed: Bytes)
    requires a.peer != [] && NoSurrogates(a.peer) && Sorting.Ascending(a.entries, EntryBefore)
    requires forall i | 0 <= i < |a.entries| :: ValidEntry(a.entries[i]) && EncodableEntry(a.entries[i])
    ensures Sign(a, seed).Some?
    ensures var signed := Sign(a, seed).value;
      ValidAvailability(signed) && Verify(signed, a.peer, Ed25519.publicKey(seed)) && signed.entries == a.entries
      && signed.generatedAt == a.generatedAt
  {
    SigningInputExists(a);
    var signed := a.(signature := Some(Signature(KeyId(Ed25519.publicKey(seed)),
                                                 Ed25519.sign(seed, AVAILABILITY_DOMAIN + SigningInput(a).value))));
    SignatureNotCovered(a, signed);
    assert IsSound(Ed25519);
  }
}
