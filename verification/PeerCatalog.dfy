/** A peer's catalog of explicitly public results: publishing, withdrawing, advertising and serving them. */
module PeerCatalog {
  import opened Text
  import opened Json
  import opened Digests
  import opened Records
  import opened Stores
  import opened Evaluation
  import opened MemoryStore
  import opened Signing
  import opened LeasedCache
  import opened LeasedFiles
  import opened Availability
  import opened ExecutionActions
  import JsonIdentity
  import Puts = MemoryStore
  import Sorting

  datatype Executor = Executor(name: Text, version: Text, config: Json)

  datatype Action = Action(operation: Operation, inputs: Json, executor: Executor, outputSchema: Text, vary: Json)

  function ExecutorJson(e: Executor): Json {
    Obj([Field("name", Str(e.name)), Field("version", Str(e.version)), Field("config", e.config)])
  }

  function ActionMembers(a: Action): seq<Member> {
    [Field("spec_version", Str(Ascii("oncemesh.action/v0"))), Field("operation", OperationJson(a.operation)),
     Field("inputs", a.inputs), Field("executor", ExecutorJson(a.executor)), Field("output_schema", Str(a.outputSchema)),
     Field("vary", a.vary)]
  }

  function JsonOf(a: Action): Json {
    Obj(ActionMembers(a))
  }

  /** `validate_action` up to canonicalization: non-empty texts, and objects where objects must be. */
  predicate WellFormedAction(a: Action) {
    && a.operation.name != [] && a.operation.version != []
    && a.executor.name != [] && a.executor.version != [] && a.executor.config.Obj?
    && a.inputs.Obj? && a.vary.Obj?
    && a.outputSchema != []
  }

  ghost predicate ValidAction(a: Action) {
    WellFormedAction(a) && CanonicalJson(JsonOf(a)).Some? && Dictionary(JsonOf(a))
  }

  ghost predicate IsActionId(f: Action -> Option<Digest>) {
    forall a {:trigger JsonOf(a)} :: f(a) == ObjectDigest(JsonOf(a))
  }

  type ActionIdFunction = f: Action -> Option<Digest> | IsActionId(f) witness (a: Action) => ObjectDigest(JsonOf(a))

  /** `action_digest`, by a name proofs do not unfold. */
  const ActionId: ActionIdFunction

  lemma ValidActionHasId(a: Action)
    requires ValidAction(a)
    ensures ActionId(a).Some? && IsDigest(ActionId(a).value)
    ensures NoSurrogates(a.operation.name) && NoSurrogates(a.operation.version)
  {
    assert IsActionId(ActionId);
    assert ActionId(a) == ObjectDigest(JsonOf(a));
    var ms := ActionMembers(a);
    assert AcceptedMember(ms[1]);
    var o := OperationJson(a.operation).members;
    assert AcceptedMember(o[0]) && AcceptedMember(o[1]);
  }

  /** What `validate_action` can still refuse about an action that is a dictionary. */
  lemma ValidExactly(a: Action)
    requires Dictionary(JsonOf(a))
    ensures ValidAction(a) <==> WellFormedAction(a) && ActionId(a).Some?
  {
    assert IsActionId(ActionId);
    assert ActionId(a) == ObjectDigest(JsonOf(a));
  }

  /** Actions with the same digest have the same operation. */
  lemma SameIdSameOperation(a: Action, b: Action)
    requires ValidAction(a) && ValidAction(b) && ActionId(a) == ActionId(b)
    ensures a.operation == b.operation
  {
    assert IsActionId(ActionId);
    assert ActionId(a) == ObjectDigest(JsonOf(a)) && ActionId(b) == ObjectDigest(JsonOf(b));
    ObjectDigestIdentifies(JsonOf(a), JsonOf(b));
    SameOperations(a, b);
  }

  lemma SameOperation(o: Operation, p: Operation)
    requires JsonIdentity.SameValue(OperationJson(o), OperationJson(p))
    ensures o == p
  {
    var ms, ns := OperationJson(o).members, OperationJson(p).members;
    assert Aligned(ms, ns);
    SameTextIn(ms, ns, 0, o.name, p.name);
    SameTextIn(ms, ns, 1, o.version, p.version);
  }

  lemma SameOperations(a: Action, b: Action)
    requires JsonIdentity.SameValue(JsonOf(a), JsonOf(b)) && DistinctKeys(ActionMembers(b))
    ensures a.operation == b.operation
  {
    var ms, ns := ActionMembers(a), ActionMembers(b);
    SameValueAt(ms, ns, 1);
    assert ms[1].value == OperationJson(a.operation) && ns[1].value == OperationJson(b.operation);
    SameOperation(a.operation, b.operation);
  }

  // ---------- the catalog ----------

  datatype Publication = Publication(action: Action, manifest: Manifest, receipt: Receipt)

  /** `blobs` is the backing store's content. */
  datatype Catalog = Catalog(
    peer: Text,
    seed: Bytes,
    receiptKeys: map<Text, Bytes>,
    published: map<Digest, Publication>,
    blobs: map<Digest, Bytes>)

  /** Action, result and receipt validate, and the result is the action's. */
  ghost predicate WellFormed(p: Publication) {
    && ValidAction(p.action) && FederationResult(p.manifest) && ValidSignedReceipt(p.receipt)
    && ActionId(p.action) == Some(p.manifest.actionDigest)
  }

  /** What `publish` demands of a public result. */
  ghost predicate Publishable(c: Catalog, p: Publication) {
    && WellFormed(p)
    && p.receipt.signature.value.keyId in c.receiptKeys
    && VerifyForManifest(p.receipt, p.manifest, c.receiptKeys[p.receipt.signature.value.keyId])
    && Held(p.manifest, c.blobs)
  }

  /** Everything published passed the checks and is still backed by the store. */
  ghost predicate Honest(c: Catalog) {
    forall d | d in c.published :: Publishable(c, c.published[d]) && ManifestDigest(c.published[d].manifest) == d
  }

  /** What can happen to a catalog: its own operations, and puts into the store behind it. */
  datatype CatalogOp =
    | StorePut(op: Puts.Op)
    | PublishResult(publication: Publication, classifiedPublic: bool)
    | WithdrawResult(digest: Digest)

  ghost function Done(c: Catalog, op: CatalogOp): Catalog {
    match op
    case StorePut(put) => if put.PutBlob? then c.(blobs := c.blobs[DigestBytes(put.data) := put.data]) else c
    case PublishResult(p, classifiedPublic) =>
      if classifiedPublic && Publishable(c, p) then c.(published := c.published[ManifestDigest(p.manifest) := p]) else c
    case WithdrawResult(d) => c.(published := c.published - {d})
  }

  ghost function CatalogRun(c: Catalog, ops: seq<CatalogOp>): Catalog
    decreases |ops|
  {
    if ops == [] then c else CatalogRun(Done(c, ops[0]), ops[1..])
  }

  function TotalBytes(xs: seq<Descriptor>): int {
    if xs == [] then 0 else TotalBytes(xs[..|xs| - 1]) + xs[|xs| - 1].size
  }

  function EntryFor(d: Digest, p: Publication): Entry {
    Entry(p.manifest.actionDigest, d, p.action.operation, TotalBytes(p.manifest.artifacts))
  }

  /** `es` advertises exactly what is published. */
  ghost predicate Advertises(es: seq<Entry>, published: map<Digest, Publication>) {
    && Sorting.Ascending(es, EntryBefore)
    && (forall e | e in es :: e.resultDigest in published && e == EntryFor(e.resultDigest, published[e.resultDigest]))
    && (forall d | d in published :: EntryFor(d, published[d]) in es)
  }

  /** `found` has one entry for each of the publications under `keys`. */
  ghost predicate EntriesFor(found: seq<Entry>, published: map<Digest, Publication>, keys: set<Digest>) {
    && (forall i, j | 0 <= i < j < |found| :: found[i].resultDigest != found[j].resultDigest)
    && (forall e | e in found ::
          e.resultDigest in published && e.resultDigest in keys && e == EntryFor(e.resultDigest, published[e.resultDigest]))
    && (forall d | d in published && d in keys :: EntryFor(d, published[d]) in found)
  }

  lemma OneMoreEntry(found: seq<Entry>, published: map<Digest, Publication>, keys: set<Digest>, d: Digest)
    requires EntriesFor(found, published, keys) && d in published && d !in keys
    ensures EntriesFor(found + [EntryFor(d, published[d])], published, keys + {d})
  {
    var after := found + [EntryFor(d, published[d])];
    assert forall i | 0 <= i < |found| :: found[i] in found;
    assert after[|found|] == EntryFor(d, published[d]);
  }

  lemma SortedAdvertises(found: seq<Entry>, published: map<Digest, Publication>)
    requires EntriesFor(found, published, published.Keys)
    ensures Advertises(Sorting.Sort(found, EntryBefore), published)
  {
    EntryBeforeIsStrict();
    DistinctEntriesCompare(found);
    Sorting.SortAscending(found, EntryBefore);
    Sorting.SortElements(found, EntryBefore);
  }

  lemma AdvertisedUnique(a: seq<Entry>, b: seq<Entry>, published: map<Digest, Publication>)
    requires Advertises(a, published) && Advertises(b, published)
    ensures a == b
  {
    EntryBeforeIsStrict();
    Sorting.AscendingUnique(a, b, EntryBefore);
  }

  lemma {:induction false} EntriesExist(published: map<Digest, Publication>, keys: set<Digest>) returns (found: seq<Entry>)
    requires keys <= published.Keys
    ensures EntriesFor(found, published, keys)
    decreases |keys|
  {
    if keys == {} {
      found := [];
    } else {
      var d :| d in keys;
      var rest := EntriesExist(published, keys - {d});
      OneMoreEntry(rest, published, keys - {d}, d);
      assert keys - {d} + {d} == keys;
      found := rest + [EntryFor(d, published[d])];
    }
  }

  /** The list of everything published, by action and then by result. */
  ghost function AdvertisedList(published: map<Digest, Publication>): (es: seq<Entry>)
    ensures Advertises(es, published)
  {
    assert exists es :: Advertises(es, published) by {
      var found := EntriesExist(published, published.Keys);
      SortedAdvertises(found, published);
    }
    var es :| Advertises(es, published);
    es
  }

  /** What `availability` answers at `now`; `None` where signing raises. */
  ghost function SignedAt(c: Catalog, now: Time): Option<AvailabilityManifest> {
    Sign(AvailabilityManifest(c.peer, now, AdvertisedList(c.published), None), c.seed)
  }

  /** Artifacts by name, the last descriptor of a name winning; `None` when a blob is gone. */
  function Collect(xs: seq<Descriptor>, blobs: map<Digest, Bytes>): Option<map<Text, Bytes>> {
    if xs == [] then Some(map[])
    else
      var x := xs[|xs| - 1];
      var rest := Collect(xs[..|xs| - 1], blobs);
      if rest.None? || x.digest !in blobs then None else Some(rest.value[x.name := blobs[x.digest]])
  }

  function Served(c: Catalog, d: Digest): Option<Bundle> {
    if d !in c.published then None
    else
      var p := c.published[d];
      var artifacts := Collect(p.manifest.artifacts, c.blobs);
      if artifacts.None? then None else Some(Bundle(p.manifest, p.receipt, artifacts.value))
  }

  method SumBytes(xs: seq<Descriptor>) returns (total: int)
    ensures total == TotalBytes(xs)
  {
    total := 0;
    for i := 0 to |xs|
      invariant total == TotalBytes(xs[..i])
    {
      assert xs[..i + 1][..i] == xs[..i];
      total := total + xs[i].size;
    }
    assert xs[..|xs|] == xs;
  }

  /** One entry per publication, sorted by action and result. */
  method Advertise(published: map<Digest, Publication>) returns (es: seq<Entry>)
    ensures es == AdvertisedList(published)
  {
    var found: seq<Entry> := [];
    var rest := published.Keys;
    while rest != {}
      invariant rest <= published.Keys && EntriesFor(found, published, published.Keys - rest)
      decreases |rest|
    {
      var d :| d in rest;
      OneMoreEntry(found, published, published.Keys - rest, d);
      assert published.Keys - rest + {d} == published.Keys - (rest - {d});
      rest := rest - {d};
      var total := SumBytes(published[d].manifest.artifacts);
      found := found + [Entry(published[d].manifest.actionDigest, d, published[d].action.operation, total)];
    }
    assert published.Keys - rest == published.Keys;
    SortedAdvertises(found, published);
    es := Sorting.Sort(found, EntryBefore);
    AdvertisedUnique(es, AdvertisedList(published), published);
  }

  class PublicPeerCatalog {
    const peer: Text
    const seed: Bytes
    const receiptKeys: map<Text, Bytes>
    const store: MemoryStore
    var published: map<Digest, Publication>

    function Contents(): Catalog
      reads this, store
    {
      Catalog(peer, seed, receiptKeys, published, store.blobs)
    }

    constructor (peer: Text, seed: Bytes, receiptKeys: map<Text, Bytes>, store: MemoryStore)
      ensures Contents() == Catalog(peer, seed, receiptKeys, map[], store.blobs)
    {
      this.peer, this.seed, this.receiptKeys, this.store, published := peer, seed, receiptKeys, store, map[];
    }

    /** `None` where it raises: not classified public, or not publishable. */
    method Publish(p: Publication, classifiedPublic: bool) returns (d: Option<Digest>)
      requires Dictionary(JsonOf(p.action))
      modifies this
      ensures d.Some? <==> classifiedPublic && Publishable(Contents(), p)
      ensures d.Some? ==> ValidManifest(p.manifest) && d.value == ManifestDigest(p.manifest)
      ensures Contents() == Done(old(Contents()), PublishResult(p, classifiedPublic))
      ensures published == if d.Some? then old(published)[d.value := p] else old(published)
    {
      var wellFormed := CheckRecords(p);
      if !classifiedPublic || !wellFormed {
        return None;
      }
      var trusted := CheckReceipt(p, receiptKeys);
      if !trusted {
        return None;
      }
      var held := CheckBlobs(p.manifest);
      if !held {
        return None;
      }
      ManifestDigestIsCanonical(p.manifest);
      var digest := ObjectDigest(ManifestJson(p.manifest)).value;
      published := published[digest := p];
      return Some(digest);
    }

    static method CheckRecords(p: Publication) returns (ok: bool)
      requires Dictionary(JsonOf(p.action))
      ensures ok <==> WellFormed(p)
    {
      ValidExactly(p.action);
      if !WellFormedAction(p.action) {
        return false;
      }
      var valid := ValidateManifest(p.manifest);
      ok := valid && p.manifest.version == ResultV0 && ValidSignedReceipt(p.receipt)
            && ActionId(p.action) == Some(p.manifest.actionDigest);
    }

    static method CheckReceipt(p: Publication, keys: map<Text, Bytes>) returns (ok: bool)
      requires WellFormed(p)
      ensures ok <==> p.receipt.signature.value.keyId in keys
                      && VerifyForManifest(p.receipt, p.manifest, keys[p.receipt.signature.value.keyId])
    {
      var keyId := p.receipt.signature.value.keyId;
      ManifestDigestIsCanonical(p.manifest);
      var digest := ObjectDigest(ManifestJson(p.manifest)).value;
      ok := keyId in keys && p.receipt.resultDigest == digest && p.receipt.producer == p.manifest.producer
            && VerifyReceipt(p.receipt, keys[keyId]);
    }

    method CheckBlobs(m: Manifest) returns (held: bool)
      ensures held <==> Held(m, store.blobs)
    {
      var xs := m.artifacts;
      for i := 0 to |xs|
        invariant forall j | 0 <= j < i ::
          xs[j].digest in store.blobs && Intact(xs[j], Readable(Some(store.blobs[xs[j].digest])))
      {
        if xs[i].digest !in store.blobs || !Intact(xs[i], Readable(Some(store.blobs[xs[i].digest]))) {
          assert xs[i] in xs;
          return false;
        }
      }
      return true;
    }

    method Withdraw(d: Digest) returns (withdrawn: bool)
      modifies this
      ensures withdrawn <==> d in old(published)
      ensures Contents() == Done(old(Contents()), WithdrawResult(d))
      ensures d !in published && published == old(published) - {d}
    {
      withdrawn := d in published;
      published := published - {d};
    }

    /** `None` where signing raises. */
    method AvailabilityAt(now: Time) returns (a: Option<AvailabilityManifest>)
      ensures a == SignedAt(Contents(), now)
    {
      var entries := Advertise(published);
      var unsigned := AvailabilityManifest(peer, now, entries, None);
      var input := SigningInput(unsigned);
      if input.None? {
        return None;
      }
      var signature := Signature(KeyId(Ed25519.publicKey(seed)), Ed25519.sign(seed, AVAILABILITY_DOMAIN + input.value));
      var signed := unsigned.(signature := Some(signature));
      var ok := ValidateAvailability(signed);
      return if ok then Some(signed) else None;
    }

    method FetchBundle(d: Digest) returns (b: Option<Bundle>)
      ensures b == Served(Contents(), d)
    {
      b := Served(Contents(), d);
    }
  }

  /** Publishing keeps a catalog honest; so does withdrawing. */
  lemma PublishingKeepsHonest(c: Catalog, p: Publication)
    requires Honest(c) && Publishable(c, p)
    ensures Honest(c.(published := c.published[ManifestDigest(p.manifest) := p]))
  {
    var c' := c.(published := c.published[ManifestDigest(p.manifest) := p]);
    forall d | d in c'.published ensures Publishable(c', c'.published[d]) && ManifestDigest(c'.published[d].manifest) == d {
      if d != ManifestDigest(p.manifest) {
        assert Publishable(c, c.published[d]);
      }
    }
  }

  lemma WithdrawingKeepsHonest(c: Catalog, d: Digest)
    requires Honest(c)
    ensures Honest(c.(published := c.published - {d}))
  {
    var c' := c.(published := c.published - {d});
    forall k | k in c'.published ensures Publishable(c', c'.published[k]) && ManifestDigest(c'.published[k].manifest) == k {
      assert Publishable(c, c.published[k]);
    }
  }

  ghost predicate StoreAddressed(c: Catalog) {
    forall d | d in c.blobs :: DigestBytes(c.blobs[d]) == d
  }

  /** A put into the store takes no published blob away. */
  lemma StorePutKeepsHonest(c: Catalog, op: Puts.Op)
    requires Honest(c) && StoreAddressed(c)
    ensures Honest(Done(c, StorePut(op))) && StoreAddressed(Done(c, StorePut(op)))
  {
    var c' := Done(c, StorePut(op));
    if op.PutBlob? && DigestBytes(op.data) in c.blobs {
      DigestBytesInjective(op.data, c.blobs[DigestBytes(op.data)]);
    }
    assert forall d | d in c.blobs :: d in c'.blobs && c'.blobs[d] == c.blobs[d];
    forall d | d in c.published ensures Publishable(c', c.published[d]) {
      StillHeld(c.published[d].manifest, c.blobs, c'.blobs);
    }
  }

  lemma StillHeld(m: Manifest, blobs: map<Digest, Bytes>, after: map<Digest, Bytes>)
    requires Held(m, blobs) && forall d | d in blobs :: d in after && after[d] == blobs[d]
    ensures Held(m, after)
  {
  }

  /** Whatever happens to an honest catalog and to its store, it stays honest. */
  lemma {:induction false} RunHonest(c: Catalog, ops: seq<CatalogOp>)
    requires Honest(c) && StoreAddressed(c)
    ensures Honest(CatalogRun(c, ops)) && StoreAddressed(CatalogRun(c, ops))
    ensures CatalogRun(c, ops).(published := c.published, blobs := c.blobs) == c
    decreases |ops|
  {
    if ops != [] {
      match ops[0] {
        case StorePut(op) => StorePutKeepsHonest(c, op);
        case PublishResult(p, classifiedPublic) =>
          if classifiedPublic && Publishable(c, p) {
            PublishingKeepsHonest(c, p);
          }
        case WithdrawResult(d) => WithdrawingKeepsHonest(c, d);
      }
      RunHonest(Done(c, ops[0]), ops[1..]);
    }
  }

  lemma CollectedIntact(m: Manifest, r: Receipt, blobs: map<Digest, Bytes>)
    requires ValidManifest(m) && Held(m, blobs)
    ensures Collect(m.artifacts, blobs).Some? && IntactBundle(Bundle(m, r, Collect(m.artifacts, blobs).value))
  {
    CollectIntact(m.artifacts, blobs);
    var artifacts := Collect(m.artifacts, blobs).value;
    forall x | x in m.artifacts ensures Intact(x, Readable(Some(artifacts[x.name]))) {
      assert artifacts[x.name] == blobs[x.digest];
    }
  }

  /** An honest catalog serves an intact bundle for everything it has published. */
  lemma ServesIntact(c: Catalog, d: Digest, p: Publication)
    requires Honest(c) && d in c.published && p == c.published[d]
    ensures ValidManifest(p.manifest) && Collect(p.manifest.artifacts, c.blobs).Some?
    ensures Served(c, d) == Some(Bundle(p.manifest, p.receipt, Collect(p.manifest.artifacts, c.blobs).value))
    ensures IntactBundle(Served(c, d).value)
  {
    assert Publishable(c, p);
    CollectedIntact(p.manifest, p.receipt, c.blobs);
  }

  lemma {:induction false} CollectIntact(xs: seq<Descriptor>, blobs: map<Digest, Bytes>)
    requires forall i, j | 0 <= i < j < |xs| :: xs[i].name != xs[j].name
    requires forall x | x in xs :: x.digest in blobs
    ensures Collect(xs, blobs).Some?
    ensures var r := Collect(xs, blobs).value;
      r.Keys == (set x | x in xs :: x.name) && forall x | x in xs :: r[x.name] == blobs[x.digest]
    decreases |xs|
  {
    if xs != [] {
      var front, last := xs[..|xs| - 1], xs[|xs| - 1];
      assert last in xs && xs == front + [last];
      CollectIntact(front, blobs);
      var rest := Collect(front, blobs).value;
      assert Collect(xs, blobs) == Some(rest[last.name := blobs[last.digest]]);
      forall x | x in xs ensures Collect(xs, blobs).value[x.name] == blobs[x.digest] {
        if x in front {
          var i :| 0 <= i < |front| && front[i] == x;
          assert xs[i].name != xs[|xs| - 1].name;
        }
      }
    }
  }

  // ---------- what publishing and withdrawing do ----------

  /** What is withdrawn is neither served nor advertised; everything else is as before. */
  lemma WithdrawnIsGone(c: Catalog, d: Digest)
    ensures var after := Done(c, WithdrawResult(d));
      && after.published.Keys == c.published.Keys - {d}
      && Served(after, d) == None
      && (forall e | e in AdvertisedList(after.published) :: e.resultDigest != d)
      && (forall k | k != d :: Served(after, k) == Served(c, k))
      && (forall k | k != d && k in c.published :: EntryFor(k, c.published[k]) in AdvertisedList(after.published))
  {
    var after := Done(c, WithdrawResult(d));
    forall k | k != d && k in c.published ensures EntryFor(k, c.published[k]) in AdvertisedList(after.published) {
      assert k in after.published && after.published[k] == c.published[k];
    }
  }

  /** What is published is served with every artifact's bytes, and advertised with its action, operation and size. */
  lemma PublishedIsServed(c: Catalog, p: Publication)
    requires Publishable(c, p)
    ensures var after, d := Done(c, PublishResult(p, true)), ManifestDigest(p.manifest);
      && Served(after, d).Some?
      && Served(after, d).value.manifest == p.manifest && Served(after, d).value.receipt == p.receipt
      && IntactBundle(Served(after, d).value)
      && Entry(p.manifest.actionDigest, d, p.action.operation, TotalBytes(p.manifest.artifacts))
           in AdvertisedList(after.published)
      && (forall k | k != d :: Served(after, k) == Served(c, k))
  {
    var after, d := Done(c, PublishResult(p, true)), ManifestDigest(p.manifest);
    CollectedIntact(p.manifest, p.receipt, c.blobs);
    assert d in after.published && after.published[d] == p;
  }

  /** What is not classified public, or does not check out, is not published. */
  lemma UnpublishableIsNot(c: Catalog, p: Publication, classifiedPublic: bool)
    requires !classifiedPublic || !Publishable(c, p)
    ensures Done(c, PublishResult(p, classifiedPublic)) == c
  {
  }
}
