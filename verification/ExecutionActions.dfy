/** The action a cached value is stored under, and why distinct identities never share one. */
module ExecutionActions {
  import opened Text
  import opened Json
  import opened Digests
  import opened Records
  import JsonIdentity

  type Namespace = seq<Text>

  datatype CacheKey = CacheKey(namespace: Namespace, name: Text)

  /** What fixes a cached value: who runs and encodes it, for whom, under which key, in which epochs. */
  datatype Identity = Identity(runtime: Text, serializer: Text, partition: Text, key: CacheKey, allEpoch: nat,
                               namespaceEpoch: nat)

  function TextsJson(ts: seq<Text>): Json {
    Arr(seq(|ts|, i requires 0 <= i < |ts| => Str(ts[i])))
  }

  function InputFields(i: Identity): seq<Member> {
    [Field("runtime", Str(i.runtime)), Field("namespace", TextsJson(i.key.namespace)), Field("key", Str(i.key.name))]
  }

  function ConfigFields(i: Identity): seq<Member> {
    [Field("serializer", Str(i.serializer)), Field("global_epoch", Int(i.allEpoch)),
     Field("namespace_epoch", Int(i.namespaceEpoch))]
  }

  function NamedFields(name: string, version: string): seq<Member> {
    [Field("name", Str(Ascii(name))), Field("version", Str(Ascii(version)))]
  }

  function ExecutorFields(i: Identity): seq<Member> {
    NamedFields("oncemesh.execution-cache-bridge", "0") + [Field("config", Obj(ConfigFields(i)))]
  }

  function VaryFields(i: Identity): seq<Member> {
    [Field("authorization_partition", Str(i.partition))]
  }

  function ActionFields(i: Identity): seq<Member> {
    [Field("spec_version", Str(Ascii("oncemesh.action/v0"))),
     Field("operation", Obj(NamedFields("framework.execution-cache", "1"))),
     Field("inputs", Obj(InputFields(i))),
     Field("executor", Obj(ExecutorFields(i))),
     Field("output_schema", Str(Ascii("oncemesh.execution-cache-value/v1"))),
     Field("vary", Obj(VaryFields(i)))]
  }

  function ActionJson(i: Identity): Json {
    Obj(ActionFields(i))
  }

  // ---------- its digest ----------

  ghost predicate IsActionDigest(h: Identity -> Option<Digest>) {
    forall i {:trigger ActionJson(i)} :: ObjectDigest(ActionJson(i)) == h(i)
  }

  /** Naming the digest keeps proofs from unfolding the JSON under it. */
  type ActionDigestFunction = h: Identity -> Option<Digest> | IsActionDigest(h)
    witness (i: Identity) => ObjectDigest(ActionJson(i))

  ghost const CanonicalActionDigest: ActionDigestFunction

  /** `action_digest`; `None` where canonicalization raises. */
  ghost function ActionDigest(i: Identity): Option<Digest> {
    CanonicalActionDigest(i)
  }

  lemma ActionDigestIsCanonical(i: Identity)
    ensures ObjectDigest(ActionJson(i)) == ActionDigest(i)
    ensures ActionDigest(i).Some? <==> Accepted(ActionJson(i))
    ensures ActionDigest(i).Some? ==> IsDigest(ActionDigest(i).value)
  {
    assert IsActionDigest(CanonicalActionDigest);
  }

  // ---------- distinct identities, distinct actions ----------

  /** Keys of different lengths are different. */
  predicate DistinctLengths(ms: seq<Member>) {
    && (forall i | 0 <= i < |ms| :: ms[i].key.Name?)
    && (forall i, k | 0 <= i < k < |ms| :: |ms[i].key.text| != |ms[k].key.text|)
  }

  lemma ObjectDictionary(ms: seq<Member>)
    requires DistinctLengths(ms) && forall i | 0 <= i < |ms| :: Dictionary(ms[i].value)
    ensures Dictionary(Obj(ms))
  {
  }

  /** Equal objects with the same distinct keys in the same order. */
  ghost predicate Aligned(ms: seq<Member>, ns: seq<Member>) {
    && DistinctLengths(ms) && |ms| == |ns| && (forall k | 0 <= k < |ms| :: ms[k].key == ns[k].key)
    && JsonIdentity.SameValue(Obj(ms), Obj(ns))
  }

  lemma SameMembers(ms: seq<Member>, ns: seq<Member>, i: nat)
    requires Aligned(ms, ns) && i < |ms|
    ensures JsonIdentity.SameValue(ms[i].value, ns[i].value)
  {
    SameKeysSameValues(ms, ns);
  }

  lemma SameTextIn(ms: seq<Member>, ns: seq<Member>, i: nat, t: Text, u: Text)
    requires Aligned(ms, ns) && i < |ms| && ms[i].value == Str(t) && ns[i].value == Str(u)
    ensures t == u
  {
    SameMembers(ms, ns, i);
  }

  lemma SameIntIn(ms: seq<Member>, ns: seq<Member>, i: nat, t: int, u: int)
    requires Aligned(ms, ns) && i < |ms| && ms[i].value == Int(t) && ns[i].value == Int(u)
    ensures t == u
  {
    SameMembers(ms, ns, i);
  }

  lemma InputsShape(i: Identity)
    ensures DistinctLengths(InputFields(i)) && Dictionary(Obj(InputFields(i)))
  {
    ObjectDictionary(InputFields(i));
  }

  lemma ExecutorShape(i: Identity)
    ensures DistinctLengths(ConfigFields(i)) && DistinctLengths(ExecutorFields(i)) && Dictionary(Obj(ExecutorFields(i)))
  {
    ObjectDictionary(ConfigFields(i));
    ObjectDictionary(ExecutorFields(i));
  }

  lemma ActionShape(i: Identity)
    ensures DistinctLengths(ActionFields(i)) && Dictionary(ActionJson(i))
  {
    InputsShape(i);
    ExecutorShape(i);
    ObjectDictionary(NamedFields("framework.execution-cache", "1"));
    ObjectDictionary(VaryFields(i));
    ObjectDictionary(ActionFields(i));
  }

  lemma SameTexts(a: seq<Text>, b: seq<Text>)
    requires JsonIdentity.SameValue(TextsJson(a), TextsJson(b))
    ensures a == b
  {
    SameItems(TextsJson(a), TextsJson(b));
    forall i | 0 <= i < |a| ensures a[i] == b[i] {
      SameAtom(TextsJson(a).items[i], TextsJson(b).items[i]);
    }
  }

  lemma InputsAligned(i: Identity, k: Identity)
    requires JsonIdentity.SameValue(Obj(InputFields(i)), Obj(InputFields(k)))
    ensures Aligned(InputFields(i), InputFields(k))
  {
    InputsShape(i);
  }

  lemma SameInputs(i: Identity, k: Identity)
    requires JsonIdentity.SameValue(Obj(InputFields(i)), Obj(InputFields(k)))
    ensures i.runtime == k.runtime && i.key == k.key
  {
    var ms, ns := InputFields(i), InputFields(k);
    InputsAligned(i, k);
    SameTextIn(ms, ns, 0, i.runtime, k.runtime);
    SameMembers(ms, ns, 1);
    SameTexts(i.key.namespace, k.key.namespace);
    SameTextIn(ms, ns, 2, i.key.name, k.key.name);
  }

  lemma ConfigsAligned(i: Identity, k: Identity)
    requires JsonIdentity.SameValue(Obj(ConfigFields(i)), Obj(ConfigFields(k)))
    ensures Aligned(ConfigFields(i), ConfigFields(k))
  {
    ExecutorShape(i);
  }

  lemma SameConfigs(i: Identity, k: Identity)
    requires JsonIdentity.SameValue(Obj(ConfigFields(i)), Obj(ConfigFields(k)))
    ensures i.serializer == k.serializer && i.allEpoch == k.allEpoch && i.namespaceEpoch == k.namespaceEpoch
  {
    var ms, ns := ConfigFields(i), ConfigFields(k);
    ConfigsAligned(i, k);
    SameTextIn(ms, ns, 0, i.serializer, k.serializer);
    SameIntIn(ms, ns, 1, i.allEpoch, k.allEpoch);
    SameIntIn(ms, ns, 2, i.namespaceEpoch, k.namespaceEpoch);
  }

  lemma SameExecutors(i: Identity, k: Identity)
    requires JsonIdentity.SameValue(Obj(ExecutorFields(i)), Obj(ExecutorFields(k)))
    ensures JsonIdentity.SameValue(Obj(ConfigFields(i)), Obj(ConfigFields(k)))
  {
    ExecutorShape(i);
    SameMembers(ExecutorFields(i), ExecutorFields(k), 2);
  }

  lemma SamePartitions(i: Identity, k: Identity)
    requires JsonIdentity.SameValue(Obj(VaryFields(i)), Obj(VaryFields(k)))
    ensures i.partition == k.partition
  {
    SameTextIn(VaryFields(i), VaryFields(k), 0, i.partition, k.partition);
  }

  lemma ActionKeys(i: Identity, k: Identity, ms: seq<Member>, ns: seq<Member>)
    requires ms == ActionFields(i) && ns == ActionFields(k)
    ensures |ms| == |ns| && forall j | 0 <= j < |ms| :: ms[j].key == ns[j].key
  {
    assert ms[0].key == ns[0].key && ms[1].key == ns[1].key && ms[2].key == ns[2].key;
    assert ms[3].key == ns[3].key && ms[4].key == ns[4].key && ms[5].key == ns[5].key;
  }

  lemma ActionsAligned(i: Identity, k: Identity)
    requires JsonIdentity.SameValue(ActionJson(i), ActionJson(k))
    ensures Aligned(ActionFields(i), ActionFields(k))
  {
    ActionShape(i);
    ActionKeys(i, k, ActionFields(i), ActionFields(k));
  }

  lemma SameActionInputs(i: Identity, k: Identity)
    requires JsonIdentity.SameValue(ActionJson(i), ActionJson(k))
    ensures JsonIdentity.SameValue(Obj(InputFields(i)), Obj(InputFields(k)))
  {
    ActionsAligned(i, k);
    SameMembers(ActionFields(i), ActionFields(k), 2);
  }

  lemma SameActionConfigs(i: Identity, k: Identity)
    requires JsonIdentity.SameValue(ActionJson(i), ActionJson(k))
    ensures JsonIdentity.SameValue(Obj(ConfigFields(i)), Obj(ConfigFields(k)))
  {
    ActionsAligned(i, k);
    SameMembers(ActionFields(i), ActionFields(k), 3);
    SameExecutors(i, k);
  }

  lemma SameActionVary(i: Identity, k: Identity)
    requires JsonIdentity.SameValue(ActionJson(i), ActionJson(k))
    ensures JsonIdentity.SameValue(Obj(VaryFields(i)), Obj(VaryFields(k)))
  {
    ActionsAligned(i, k);
    SameMembers(ActionFields(i), ActionFields(k), 5);
  }

  lemma SameActions(i: Identity, k: Identity)
    requires JsonIdentity.SameValue(ActionJson(i), ActionJson(k))
    ensures i == k
  {
    SameActionInputs(i, k);
    SameInputs(i, k);
    SameActionConfigs(i, k);
    SameConfigs(i, k);
    SameActionVary(i, k);
    SamePartitions(i, k);
  }

  /** Two identities share an action digest only if they agree in every part. */
  lemma ActionDigestInjective(i: Identity, k: Identity)
    requires ActionDigest(i).Some? && ActionDigest(i) == ActionDigest(k)
    ensures i == k
  {
    ActionDigestIsCanonical(i);
    ActionDigestIsCanonical(k);
    ActionShape(i);
    ActionShape(k);
    ObjectDigestIdentifies(ActionJson(i), ActionJson(k));
    SameActions(i, k);
  }
}
