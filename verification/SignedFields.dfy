/** What a signature covers: every field of the record signed, and no record of another kind. */
module SignedFields {
  import opened Text
  import opened Json
  import opened Digests
  import opened Records
  import opened Signing
  import opened Availability
  import opened RequestSigning
  import opened PeerCatalog
  import opened ExecutionActions
  import JsonIdentity

  // ---------- equal objects, field by field ----------

  lemma SameTextAt(ms: seq<Member>, ns: seq<Member>, i: nat, t: Text, u: Text)
    requires JsonIdentity.SameValue(Obj(ms), Obj(ns)) && DistinctKeys(ns)
    requires i < |ms| && i < |ns| && ms[i].key == ns[i].key && ms[i].value == Str(t) && ns[i].value == Str(u)
    ensures t == u
  {
    SameValueAt(ms, ns, i);
    SameAtom(Str(t), Str(u));
  }

  lemma SameTimeAt(ms: seq<Member>, ns: seq<Member>, i: nat, t: Time, u: Time)
    requires JsonIdentity.SameValue(Obj(ms), Obj(ns)) && DistinctKeys(ns)
    requires i < |ms| && i < |ns| && ms[i].key == ns[i].key && ms[i].value == TimeJson(t) && ns[i].value == TimeJson(u)
    ensures t == u
  {
    SameTextAt(ms, ns, i, IntText(t), IntText(u));
    SameIntText(t, u);
  }

  lemma MembersDictionary(ms: seq<Member>)
    requires DistinctKeys(ms) && forall i | 0 <= i < |ms| :: Dictionary(ms[i].value)
    ensures Dictionary(Obj(ms))
  {
  }

  // ---------- availability ----------

  lemma OperationDictionary(o: Operation)
    ensures Dictionary(OperationJson(o)) && DistinctLengths(OperationJson(o).members)
  {
    ObjectDictionary(OperationJson(o).members);
  }

  lemma EntryKeys(e: Entry, f: Entry)
    ensures DistinctKeys(EntryJson(e).members)
    ensures forall i | 0 <= i < 4 :: EntryJson(e).members[i].key == EntryJson(f).members[i].key
  {
    var ms, ns := EntryJson(e).members, EntryJson(f).members;
    assert ms[0].key.text[0] == 'a' as int && ms[1].key.text[0] == 'r' as int && ms[2].key.text[0] == 'o' as int;
    assert |ms[3].key.text| == 14 && |ms[0].key.text| == 13 && |ms[1].key.text| == 13 && |ms[2].key.text| == 9;
    assert ms[0].key == ns[0].key && ms[1].key == ns[1].key && ms[2].key == ns[2].key && ms[3].key == ns[3].key;
  }

  lemma EntryDictionary(e: Entry)
    ensures Dictionary(EntryJson(e))
  {
    EntryKeys(e, e);
    OperationDictionary(e.operation);
    MembersDictionary(EntryJson(e).members);
  }

  lemma SameEntries(e: Entry, f: Entry)
    requires JsonIdentity.SameValue(EntryJson(e), EntryJson(f))
    ensures e == f
  {
    var ms, ns := EntryJson(e).members, EntryJson(f).members;
    EntryKeys(e, f);
    EntryKeys(f, e);
    SameTextAt(ms, ns, 0, e.actionDigest, f.actionDigest);
    SameTextAt(ms, ns, 1, e.resultDigest, f.resultDigest);
    SameValueAt(ms, ns, 2);
    OperationDictionary(e.operation);
    SameOperation(e.operation, f.operation);
    SameValueAt(ms, ns, 3);
    SameAtom(Int(e.artifactBytes), Int(f.artifactBytes));
  }

  lemma SameEntryLists(es: seq<Entry>, fs: seq<Entry>)
    requires JsonIdentity.SameValue(EntriesJson(es), EntriesJson(fs))
    ensures es == fs
  {
    SameItems(EntriesJson(es), EntriesJson(fs));
    forall i | 0 <= i < |es| ensures es[i] == fs[i] {
      assert EntriesJson(es).items[i] == EntryJson(es[i]) && EntriesJson(fs).items[i] == EntryJson(fs[i]);
      SameEntries(es[i], fs[i]);
    }
  }

  lemma UnsignedKeys(a: AvailabilityManifest, b: AvailabilityManifest)
    ensures DistinctKeys(UnsignedJson(a).members)
    ensures forall i | 0 <= i < 5 :: UnsignedJson(a).members[i].key == UnsignedJson(b).members[i].key
  {
    var ms, ns := UnsignedJson(a).members, UnsignedJson(b).members;
    assert ms[0].key.text[0] == 's' as int && ms[1].key.text[0] == 'p' as int && ms[2].key.text[0] == 'g' as int;
    assert ms[3].key.text[0] == 'e' as int && |ms[0].key.text| == 12 && |ms[4].key.text| == 9 && |ms[1].key.text| == 7;
    assert |ms[2].key.text| == 12 && |ms[3].key.text| == 7;
    assert ms[0].key == ns[0].key && ms[1].key == ns[1].key && ms[2].key == ns[2].key;
    assert ms[3].key == ns[3].key && ms[4].key == ns[4].key;
  }

  lemma EntriesDictionary(es: seq<Entry>)
    ensures Dictionary(EntriesJson(es))
  {
    forall i | 0 <= i < |es| ensures Dictionary(EntriesJson(es).items[i]) {
      EntryDictionary(es[i]);
    }
  }

  lemma UnsignedDictionary(a: AvailabilityManifest)
    ensures Dictionary(UnsignedJson(a))
  {
    UnsignedKeys(a, a);
    EntriesDictionary(a.entries);
    MembersDictionary(UnsignedJson(a).members);
  }

  ghost predicate UnsignedMembers(ms: seq<Member>, a: AvailabilityManifest) {
    && |ms| == 5 && DistinctKeys(ms)
    && ms[1].value == Str(a.peer) && ms[2].value == TimeJson(a.generatedAt) && ms[3].value == EntriesJson(a.entries)
  }

  lemma UnsignedHasMembers(a: AvailabilityManifest)
    ensures UnsignedJson(a).Obj? && UnsignedMembers(UnsignedJson(a).members, a)
  {
    UnsignedKeys(a, a);
  }

  lemma SameUnsigned(ms: seq<Member>, ns: seq<Member>, a: AvailabilityManifest, b: AvailabilityManifest)
    requires UnsignedMembers(ms, a) && UnsignedMembers(ns, b) && forall i | 0 <= i < 5 :: ms[i].key == ns[i].key
    requires JsonIdentity.SameValue(Obj(ms), Obj(ns))
    ensures a.(signature := None) == b.(signature := None)
  {
    SameTextAt(ms, ns, 1, a.peer, b.peer);
    SameTimeAt(ms, ns, 2, a.generatedAt, b.generatedAt);
    SameValueAt(ms, ns, 3);
    SameEntryLists(a.entries, b.entries);
  }

  /** The bytes under an availability signature are the same exactly for the same peer, time and entries. */
  lemma AvailabilityBytesIdentify(a: AvailabilityManifest, b: AvailabilityManifest)
    requires CanonicalJson(UnsignedJson(a)).Some? && CanonicalJson(UnsignedJson(b)).Some?
    ensures CanonicalJson(UnsignedJson(a)) == CanonicalJson(UnsignedJson(b)) <==>
            a.peer == b.peer && a.generatedAt == b.generatedAt && a.entries == b.entries
  {
    UnsignedDictionary(a);
    UnsignedDictionary(b);
    if CanonicalJson(UnsignedJson(a)) == CanonicalJson(UnsignedJson(b)) {
      JsonIdentity.CanonicalBytesIdentify(UnsignedJson(a), UnsignedJson(b));
      UnsignedHasMembers(a);
      UnsignedHasMembers(b);
      UnsignedKeys(a, b);
      SameUnsigned(UnsignedJson(a).members, UnsignedJson(b).members, a, b);
    }
  }

  // ---------- receipts ----------

  lemma ReceiptKeys(r: Receipt, s: Receipt)
    ensures DistinctKeys(UnsignedReceiptJson(r).members)
    ensures forall i | 0 <= i < 5 :: UnsignedReceiptJson(r).members[i].key == UnsignedReceiptJson(s).members[i].key
  {
    var ms, ns := UnsignedReceiptJson(r).members, UnsignedReceiptJson(s).members;
    assert |ms[0].key.text| == 12 && |ms[1].key.text| == 13 && |ms[2].key.text| == 8;
    assert |ms[3].key.text| == 20 && |ms[4].key.text| == 9;
    assert ms[0].key == ns[0].key && ms[1].key == ns[1].key && ms[2].key == ns[2].key;
    assert ms[3].key == ns[3].key && ms[4].key == ns[4].key;
  }

  ghost predicate ReceiptMembers(ms: seq<Member>, r: Receipt) {
    && |ms| == 5 && DistinctKeys(ms)
    && ms[1].value == Str(r.resultDigest) && ms[2].value == Str(r.producer) && ms[3].value == r.environment
    && (forall i | 0 <= i < 5 && i != 3 :: Dictionary(ms[i].value) && !ms[i].value.Arr? && !ms[i].value.Obj?)
  }

  lemma ReceiptHasMembers(r: Receipt)
    ensures UnsignedReceiptJson(r).Obj? && ReceiptMembers(UnsignedReceiptJson(r).members, r)
  {
    ReceiptKeys(r, r);
  }

  lemma SameReceipts(ms: seq<Member>, ns: seq<Member>, r: Receipt, s: Receipt)
    requires ReceiptMembers(ms, r) && ReceiptMembers(ns, s) && forall i | 0 <= i < 5 :: ms[i].key == ns[i].key
    requires ms[0] == ns[0] && ms[4] == ns[4]
    ensures JsonIdentity.SameValue(Obj(ms), Obj(ns)) <==>
            && r.resultDigest == s.resultDigest && r.producer == s.producer
            && JsonIdentity.SameValue(r.environment, s.environment)
  {
    forall i: nat | i < 5 ensures JsonIdentity.Find(ns, ms[i].key) == i {
      assert ns[i].key == ms[i].key;
    }
    if JsonIdentity.SameValue(Obj(ms), Obj(ns)) {
      SameTextAt(ms, ns, 1, r.resultDigest, s.resultDigest);
      SameTextAt(ms, ns, 2, r.producer, s.producer);
      SameValueAt(ms, ns, 3);
    }
  }

  lemma ReceiptsAlike(r: Receipt, s: Receipt)
    ensures UnsignedReceiptJson(r).members[0] == UnsignedReceiptJson(s).members[0]
    ensures UnsignedReceiptJson(r).members[4] == UnsignedReceiptJson(s).members[4]
  {
  }

  /** The bytes under a receipt signature are the same exactly for the same result, producer and environment. */
  lemma ReceiptBytesIdentify(r: Receipt, s: Receipt)
    requires CanonicalJson(UnsignedReceiptJson(r)).Some? && CanonicalJson(UnsignedReceiptJson(s)).Some?
    requires Dictionary(r.environment) && Dictionary(s.environment)
    ensures CanonicalJson(UnsignedReceiptJson(r)) == CanonicalJson(UnsignedReceiptJson(s)) <==>
            && r.resultDigest == s.resultDigest && r.producer == s.producer
            && JsonIdentity.SameValue(r.environment, s.environment)
  {
    ReceiptHasMembers(r);
    ReceiptHasMembers(s);
    ReceiptKeys(r, s);
    ReceiptsAlike(r, s);
    SameReceipts(UnsignedReceiptJson(r).members, UnsignedReceiptJson(s).members, r, s);
    MembersDictionary(UnsignedReceiptJson(r).members);
    MembersDictionary(UnsignedReceiptJson(s).members);
    JsonIdentity.CanonicalBytesIdentify(UnsignedReceiptJson(r), UnsignedReceiptJson(s));
  }

  // ---------- requests ----------

  lemma RequestKeys(p: FederationRequest, q: FederationRequest)
    ensures DistinctKeys(RequestJson(p).members)
    ensures forall i | 0 <= i < 7 :: RequestJson(p).members[i].key == RequestJson(q).members[i].key
  {
    var ms, ns := RequestJson(p).members, RequestJson(q).members;
    assert |ms[0].key.text| == 12 && |ms[1].key.text| == 7 && |ms[2].key.text| == 9 && |ms[3].key.text| == 5;
    assert |ms[4].key.text| == 6 && |ms[5].key.text| == 4 && |ms[6].key.text| == 11;
    assert ms[0].key == ns[0].key && ms[1].key == ns[1].key && ms[2].key == ns[2].key && ms[3].key == ns[3].key;
    assert ms[4].key == ns[4].key && ms[5].key == ns[5].key && ms[6].key == ns[6].key;
  }

  ghost predicate RequestMembers(ms: seq<Member>, q: FederationRequest) {
    && |ms| == 7 && DistinctKeys(ms)
    && ms[1].value == Str(q.peer) && ms[2].value == TimeJson(q.timestamp) && ms[3].value == Str(q.nonce)
    && ms[4].value == Str(q.verb) && ms[5].value == Str(q.path)
  }

  lemma RequestHasMembers(q: FederationRequest)
    ensures RequestJson(q).Obj? && RequestMembers(RequestJson(q).members, q)
    ensures Dictionary(RequestJson(q))
  {
    RequestKeys(q, q);
    MembersDictionary(RequestJson(q).members);
  }

  lemma SameRequests(ms: seq<Member>, ns: seq<Member>, p: FederationRequest, q: FederationRequest)
    requires RequestMembers(ms, p) && RequestMembers(ns, q) && forall i | 0 <= i < 7 :: ms[i].key == ns[i].key
    requires JsonIdentity.SameValue(Obj(ms), Obj(ns))
    ensures p == q
  {
    SameTextAt(ms, ns, 1, p.peer, q.peer);
    SameTimeAt(ms, ns, 2, p.timestamp, q.timestamp);
    SameTextAt(ms, ns, 3, p.nonce, q.nonce);
    SameTextAt(ms, ns, 4, p.verb, q.verb);
    SameTextAt(ms, ns, 5, p.path, q.path);
  }

  /** The bytes under a request signature are the same only for the same request: peer, time, nonce, method and path. */
  lemma RequestBytesIdentify(p: FederationRequest, q: FederationRequest)
    requires CanonicalJson(RequestJson(p)).Some? && CanonicalJson(RequestJson(p)) == CanonicalJson(RequestJson(q))
    ensures p == q
  {
    RequestHasMembers(p);
    RequestHasMembers(q);
    RequestKeys(p, q);
    JsonIdentity.CanonicalBytesIdentify(RequestJson(p), RequestJson(q));
    SameRequests(RequestJson(p).members, RequestJson(q).members, p, q);
  }

  // ---------- actions ----------

  lemma ActionKeysAre(a: Action, b: Action)
    ensures DistinctKeys(ActionMembers(a))
    ensures forall i | 0 <= i < 6 :: ActionMembers(a)[i].key == ActionMembers(b)[i].key
  {
    var ms, ns := ActionMembers(a), ActionMembers(b);
    assert |ms[0].key.text| == 12 && |ms[1].key.text| == 9 && |ms[2].key.text| == 6 && |ms[3].key.text| == 8;
    assert |ms[4].key.text| == 13 && |ms[5].key.text| == 4;
    assert ms[3].key.text[0] == 'e' as int;
    assert ms[0].key == ns[0].key && ms[1].key == ns[1].key && ms[2].key == ns[2].key;
    assert ms[3].key == ns[3].key && ms[4].key == ns[4].key && ms[5].key == ns[5].key;
  }

  lemma ExecutorKeys(e: Executor, f: Executor)
    ensures DistinctKeys(ExecutorJson(e).members)
    ensures forall i | 0 <= i < 3 :: ExecutorJson(e).members[i].key == ExecutorJson(f).members[i].key
  {
    var ms, ns := ExecutorJson(e).members, ExecutorJson(f).members;
    assert |ms[0].key.text| == 4 && |ms[1].key.text| == 7 && |ms[2].key.text| == 6;
    assert ms[0].key == ns[0].key && ms[1].key == ns[1].key && ms[2].key == ns[2].key;
  }

  lemma SameExecutor(e: Executor, f: Executor)
    requires JsonIdentity.SameValue(ExecutorJson(e), ExecutorJson(f))
    ensures e.name == f.name && e.version == f.version && JsonIdentity.SameValue(e.config, f.config)
  {
    var ms, ns := ExecutorJson(e).members, ExecutorJson(f).members;
    ExecutorKeys(e, f);
    ExecutorKeys(f, e);
    SameTextAt(ms, ns, 0, e.name, f.name);
    SameTextAt(ms, ns, 1, e.version, f.version);
    SameValueAt(ms, ns, 2);
  }

  /** Actions share a digest only with the same operation, inputs, executor, output schema and vary. */
  lemma ActionIdIdentifies(a: Action, b: Action)
    requires ValidAction(a) && ValidAction(b) && ActionId(a) == ActionId(b)
    ensures a.operation == b.operation && JsonIdentity.SameValue(a.inputs, b.inputs)
    ensures a.executor.name == b.executor.name && a.executor.version == b.executor.version
    ensures JsonIdentity.SameValue(a.executor.config, b.executor.config)
    ensures a.outputSchema == b.outputSchema && JsonIdentity.SameValue(a.vary, b.vary)
  {
    var ms, ns := ActionMembers(a), ActionMembers(b);
    SameIdSameOperation(a, b);
    assert IsActionId(ActionId);
    assert ActionId(a) == ObjectDigest(JsonOf(a)) && ActionId(b) == ObjectDigest(JsonOf(b));
    ObjectDigestIdentifies(JsonOf(a), JsonOf(b));
    ActionKeysAre(a, b);
    ActionKeysAre(b, a);
    SameValueAt(ms, ns, 2);
    SameValueAt(ms, ns, 3);
    SameExecutor(a.executor, b.executor);
    SameTextAt(ms, ns, 4, a.outputSchema, b.outputSchema);
    SameValueAt(ms, ns, 5);
  }

  // ---------- kinds apart ----------

  /** No signed bytes of one kind are signed bytes of another, whatever follows the domain. */
  lemma DomainsApart(x: Bytes, y: Bytes, z: Bytes)
    ensures AVAILABILITY_DOMAIN + x != RECEIPT_DOMAIN + y
    ensures AVAILABILITY_DOMAIN + x != REQUEST_DOMAIN + z
    ensures RECEIPT_DOMAIN + y != REQUEST_DOMAIN + z
  {
    assert (AVAILABILITY_DOMAIN + x)[9] == 'a' as int;
    assert (RECEIPT_DOMAIN + y)[9] == 'r' as int;
    assert (REQUEST_DOMAIN + z)[9] == 'f' as int;
  }
}
