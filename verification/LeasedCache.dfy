/** The in-memory federation cache: imported bundles under leases, and garbage collection. */
module LeasedCache {
  import opened Text
  import opened Digests
  import opened Records
  import opened MemoryStore
  import opened Stores
  import opened Evaluation

  datatype Bundle = Bundle(manifest: Manifest, receipt: Receipt, artifacts: map<Text, Bytes>)

  datatype Cache = Cache(
    blobs: map<Digest, Bytes>,
    results: map<Digest, seq<Manifest>>,
    receipts: map<Digest, seq<Receipt>>,
    leases: map<Digest, Time>)

  const EMPTY_CACHE := Cache(map[], map[], map[], map[])

  /** Named artifacts for exactly the manifest's descriptors. */
  predicate NamesMatch(b: Bundle) {
    b.artifacts.Keys == set x | x in b.manifest.artifacts :: x.name
  }

  /** Every artifact has the size and digest its descriptor says. */
  predicate ArtifactsIntact(b: Bundle)
    requires NamesMatch(b)
  {
    forall x | x in b.manifest.artifacts :: Intact(x, Readable(Some(b.artifacts[x.name])))
  }

  /** What the import gate lets through. */
  ghost predicate IntactBundle(b: Bundle) {
    ValidManifest(b.manifest) && NamesMatch(b) && ArtifactsIntact(b)
  }

  function WithBlobs(blobs: map<Digest, Bytes>, xs: seq<Descriptor>, artifacts: map<Text, Bytes>): map<Digest, Bytes>
    requires forall x | x in xs :: x.name in artifacts
  {
    if xs == [] then blobs
    else
      var last := |xs| - 1;
      assert xs[last] in xs;
      WithBlobs(blobs, xs[..last], artifacts)[xs[last].digest := artifacts[xs[last].name]]
  }

  /** `import_bundle` does not raise: the manifest validates and every artifact is there. */
  ghost predicate Complete(b: Bundle) {
    ValidManifest(b.manifest) && forall x | x in b.manifest.artifacts :: x.name in b.artifacts
  }

  /** `import_bundle`; nothing else is checked here. */
  ghost function Imported(s: Cache, b: Bundle, until: Time): Cache
    requires Complete(b)
  {
    var d := ManifestDigest(b.manifest);
    Cache(
      WithBlobs(s.blobs, b.manifest.artifacts, b.artifacts),
      Appended(s.results, b.manifest.actionDigest, b.manifest),
      Appended(s.receipts, d, b.receipt),
      s.leases[d := until])
  }

  ghost predicate IsImport(f: (Cache, Bundle, Time) -> Cache) {
    forall s, b, until {:trigger Imported(s, b, until)} :: Complete(b) ==> f(s, b, until) == Imported(s, b, until)
  }

  type ImportFunction = f: (Cache, Bundle, Time) -> Cache | IsImport(f)
    ghost witness (s: Cache, b: Bundle, until: Time) => if Complete(b) then Imported(s, b, until) else s

  /** `Imported`, by a name that proofs do not unfold. */
  ghost const AfterImport: ImportFunction

  lemma AfterImportIsImported(s: Cache, b: Bundle, until: Time)
    requires Complete(b)
    ensures AfterImport(s, b, until) == Imported(s, b, until)
  {
    assert IsImport(AfterImport);
  }

  function ExpiredLeases(leases: map<Digest, Time>, now: Time): set<Digest> {
    set d | d in leases && leases[d] <= now
  }

  ghost predicate AllValid(results: map<Digest, seq<Manifest>>) {
    forall a, m | a in results && m in results[a] :: ValidManifest(m)
  }

  ghost function Kept(ms: seq<Manifest>, expired: set<Digest>): (r: seq<Manifest>)
    requires forall m | m in ms :: ValidManifest(m)
    ensures forall m :: m in r <==> m in ms && ManifestDigest(m) !in expired
    ensures expired == {} ==> r == ms
  {
    if ms == [] then []
    else
      var last := ms[|ms| - 1];
      var rest := Kept(ms[..|ms| - 1], expired);
      assert ms == ms[..|ms| - 1] + [last];
      if ManifestDigest(last) in expired then rest else rest + [last]
  }

  ghost function KeptResults(results: map<Digest, seq<Manifest>>, expired: set<Digest>): map<Digest, seq<Manifest>>
    requires AllValid(results)
  {
    map a | a in results && Kept(results[a], expired) != [] :: Kept(results[a], expired)
  }

  /** The blobs that listed manifests refer to. */
  function LiveBlobs(results: map<Digest, seq<Manifest>>): set<Digest> {
    set a, m, x | a in results && m in results[a] && x in m.artifacts :: x.digest
  }

  function Restricted(blobs: map<Digest, Bytes>, live: set<Digest>): map<Digest, Bytes> {
    map d | d in blobs && d in live :: blobs[d]
  }

  ghost function Pruned(s: Cache, now: Time): Cache
    requires AllValid(s.results)
  {
    var expired := ExpiredLeases(s.leases, now);
    if expired == {} then s
    else
      var results := KeptResults(s.results, expired);
      Cache(Restricted(s.blobs, LiveBlobs(results)), results, s.receipts - expired, s.leases - expired)
  }

  /** `manifest_digest(item) not in expired`, item by item. */
  method Filter(ms: seq<Manifest>, expired: set<Digest>) returns (r: seq<Manifest>)
    requires forall m | m in ms :: ValidManifest(m)
    ensures r == Kept(ms, expired)
  {
    r := [];
    for i := 0 to |ms|
      invariant r == Kept(ms[..i], expired)
    {
      assert ms[i] in ms && ms[..i + 1][..i] == ms[..i];
      ManifestDigestIsCanonical(ms[i]);
      if ObjectDigest(ManifestJson(ms[i])).value !in expired {
        r := r + [ms[i]];
      }
    }
    assert ms[..|ms|] == ms;
  }

  method FilterResults(results: map<Digest, seq<Manifest>>, expired: set<Digest>) returns (r: map<Digest, seq<Manifest>>)
    requires AllValid(results)
    ensures r == KeptResults(results, expired)
  {
    r := map[];
    var rest := results.Keys;
    while rest != {}
      invariant rest <= results.Keys
      invariant r == map a | a in results && a !in rest && Kept(results[a], expired) != [] :: Kept(results[a], expired)
      decreases |rest|
    {
      var a :| a in rest;
      rest := rest - {a};
      var retained := Filter(results[a], expired);
      if retained != [] {
        r := r[a := retained];
      }
    }
  }

  class FederationCacheStore {
    var blobs: map<Digest, Bytes>
    var results: map<Digest, seq<Manifest>>
    var receipts: map<Digest, seq<Receipt>>
    var leases: map<Digest, Time>

    function Contents(): Cache
      reads this
    {
      Cache(blobs, results, receipts, leases)
    }

    constructor ()
      ensures Contents() == EMPTY_CACHE
    {
      blobs, results, receipts, leases := map[], map[], map[], map[];
    }

    /** The loop of `import_bundle` that puts the blobs. */
    method AddBlobs(xs: seq<Descriptor>, artifacts: map<Text, Bytes>)
      requires forall x | x in xs :: x.name in artifacts
      modifies this`blobs
      ensures blobs == WithBlobs(old(blobs), xs, artifacts)
    {
      for i := 0 to |xs|
        invariant forall x | x in xs[..i] :: x.name in artifacts
        invariant blobs == WithBlobs(old(blobs), xs[..i], artifacts)
      {
        assert xs[i] in xs && xs[..i + 1][..i] == xs[..i];
        blobs := blobs[xs[i].digest := artifacts[xs[i].name]];
      }
      assert xs[..|xs|] == xs;
    }

    method ImportBundle(b: Bundle, until: Time)
      requires Complete(b)
      modifies this
      ensures Contents() == AfterImport(old(Contents()), b, until)
    {
      AfterImportIsImported(Contents(), b, until);
      ManifestDigestIsCanonical(b.manifest);
      var d := ObjectDigest(ManifestJson(b.manifest)).value;
      AddBlobs(b.manifest.artifacts, b.artifacts);
      results := Appended(results, b.manifest.actionDigest, b.manifest);
      receipts := Appended(receipts, d, b.receipt);
      leases := leases[d := until];
    }

    method Prune(now: Time) returns (count: nat)
      requires AllValid(results)
      modifies this
      ensures Contents() == Pruned(old(Contents()), now)
      ensures count == |ExpiredLeases(old(leases), now)|
    {
      var expired := ExpiredLeases(leases, now);
      if expired == {} {
        return 0;
      }
      results := FilterResults(results, expired);
      leases := leases - expired;
      receipts := receipts - expired;
      blobs := Restricted(blobs, LiveBlobs(results));
      return |expired|;
    }

    /** Reads prune first; newest first. */
    method Candidates(requested: Digest, now: Time) returns (r: seq<Manifest>)
      requires AllValid(results)
      modifies this
      ensures Contents() == Pruned(old(Contents()), now)
      ensures r == Reversed(Listed(results, requested))
    {
      var _ := Prune(now);
      r := Reversed(Listed(results, requested));
    }

    method GetBlob(d: Digest, now: Time) returns (r: Option<Bytes>)
      requires AllValid(results)
      modifies this
      ensures Contents() == Pruned(old(Contents()), now)
      ensures r == Lookup(blobs, d)
    {
      var _ := Prune(now);
      r := Lookup(blobs, d);
    }
  }

  // ---------- what every reachable state keeps ----------

  ghost predicate Held(m: Manifest, blobs: map<Digest, Bytes>) {
    forall x | x in m.artifacts :: x.digest in blobs && Intact(x, Readable(Some(blobs[x.digest])))
  }

  predicate IsListed(results: map<Digest, seq<Manifest>>, m: Manifest) {
    m.actionDigest in results && m in results[m.actionDigest]
  }

  /** Manifests validate and stand under their own action. */
  ghost predicate WellListed(results: map<Digest, seq<Manifest>>) {
    AllValid(results) && forall a | a in results :: results[a] != [] && forall m | m in results[a] :: m.actionDigest == a
  }

  ghost predicate EntriesLeased(results: map<Digest, seq<Manifest>>, leases: map<Digest, Time>)
    requires AllValid(results)
  {
    && (forall m | IsListed(results, m) :: ManifestDigest(m) in leases)
    && (forall d | d in leases :: exists m :: IsListed(results, m) && ManifestDigest(m) == d)
  }

  ghost predicate EntriesHeld(results: map<Digest, seq<Manifest>>, blobs: map<Digest, Bytes>) {
    forall m | IsListed(results, m) :: Held(m, blobs)
  }

  /** Entries are leased and have all their artifacts; nothing else is kept. */
  ghost predicate Whole(s: Cache) {
    && WellListed(s.results)
    && EntriesLeased(s.results, s.leases)
    && EntriesHeld(s.results, s.blobs)
    && s.blobs.Keys == LiveBlobs(s.results)
    && s.receipts.Keys == s.leases.Keys
  }

  lemma ListedIn(results: map<Digest, seq<Manifest>>, a: Digest, m: Manifest)
    requires a in results && m in results[a] && m.actionDigest == a
    ensures IsListed(results, m)
  {
  }

  /** Every blob stands under its own digest. */
  lemma BlobsAddressed(s: Cache, d: Digest)
    requires Whole(s) && d in s.blobs
    ensures DigestBytes(s.blobs[d]) == d
  {
    assert d in LiveBlobs(s.results);
    var a, m, x :| a in s.results && m in s.results[a] && x in m.artifacts && x.digest == d;
    ListedIn(s.results, a, m);
  }

  lemma {:induction false} WithBlobsKeeps(blobs: map<Digest, Bytes>, xs: seq<Descriptor>, artifacts: map<Text, Bytes>)
    requires forall x | x in xs :: x.name in artifacts && Intact(x, Readable(Some(artifacts[x.name])))
    requires forall d | d in blobs :: DigestBytes(blobs[d]) == d
    ensures var after := WithBlobs(blobs, xs, artifacts);
      && (forall d | d in after :: DigestBytes(after[d]) == d)
      && after.Keys == blobs.Keys + (set x | x in xs :: x.digest)
      && (forall d | d in blobs :: after[d] == blobs[d])
      && (forall x | x in xs :: Intact(x, Readable(Some(after[x.digest]))))
    decreases |xs|
  {
    if xs != [] {
      var last := xs[|xs| - 1];
      assert last in xs && xs == xs[..|xs| - 1] + [last];
      WithBlobsKeeps(blobs, xs[..|xs| - 1], artifacts);
      var before := WithBlobs(blobs, xs[..|xs| - 1], artifacts);
      if last.digest in before {
        DigestBytesInjective(before[last.digest], artifacts[last.name]);
      }
      forall x | x in xs ensures Intact(x, Readable(Some(WithBlobs(blobs, xs, artifacts)[x.digest]))) {
        if x.digest == last.digest && x in xs[..|xs| - 1] {
          DigestBytesInjective(artifacts[x.name], artifacts[last.name]);
        }
      }
    }
  }

  lemma AppendedListing(results: map<Digest, seq<Manifest>>, m: Manifest)
    ensures forall n :: IsListed(Appended(results, m.actionDigest, m), n) <==> IsListed(results, n) || n == m
    ensures LiveBlobs(Appended(results, m.actionDigest, m)) == LiveBlobs(results) + (set x | x in m.artifacts :: x.digest)
  {
    var after := Appended(results, m.actionDigest, m);
    assert after[m.actionDigest] == Listed(results, m.actionDigest) + [m];
    assert m in after[m.actionDigest];
    forall d | d in LiveBlobs(results) ensures d in LiveBlobs(after) {
      var a, n, x :| a in results && n in results[a] && x in n.artifacts && x.digest == d;
      assert n in after[a];
    }
  }

  lemma ImportListing(results: map<Digest, seq<Manifest>>, m: Manifest)
    requires WellListed(results) && ValidManifest(m)
    ensures WellListed(Appended(results, m.actionDigest, m))
  {
    var after := Appended(results, m.actionDigest, m);
    forall a | a in after ensures after[a] != [] && forall n | n in after[a] :: ValidManifest(n) && n.actionDigest == a {
      assert forall n | n in after[a] :: n in Listed(results, a) || (n == m && a == m.actionDigest);
    }
  }

  lemma ImportLeases(results: map<Digest, seq<Manifest>>, leases: map<Digest, Time>, m: Manifest, until: Time)
    requires WellListed(results) && ValidManifest(m) && EntriesLeased(results, leases)
    requires WellListed(Appended(results, m.actionDigest, m))
    ensures EntriesLeased(Appended(results, m.actionDigest, m), leases[ManifestDigest(m) := until])
  {
    var after := Appended(results, m.actionDigest, m);
    AppendedListing(results, m);
    var leases' := leases[ManifestDigest(m) := until];
    forall d | d in leases' ensures exists n :: IsListed(after, n) && ManifestDigest(n) == d {
      if d == ManifestDigest(m) {
        assert IsListed(after, m);
      } else {
        var n :| IsListed(results, n) && ManifestDigest(n) == d;
        assert IsListed(after, n);
      }
    }
  }

  lemma AllAddressed(s: Cache)
    requires Whole(s)
    ensures forall d | d in s.blobs :: DigestBytes(s.blobs[d]) == d
  {
    forall d | d in s.blobs ensures DigestBytes(s.blobs[d]) == d {
      BlobsAddressed(s, d);
    }
  }

  lemma HeldWithMore(results: map<Digest, seq<Manifest>>, blobs: map<Digest, Bytes>, m: Manifest, after: map<Digest, Bytes>)
    requires EntriesHeld(results, blobs) && forall d | d in blobs :: d in after && after[d] == blobs[d]
    requires Held(m, after)
    ensures EntriesHeld(Appended(results, m.actionDigest, m), after)
  {
    AppendedListing(results, m);
    forall n | IsListed(results, n) ensures Held(n, after) {
      assert Held(n, blobs);
    }
  }

  lemma ImportBlobs(s: Cache, b: Bundle, after: map<Digest, Bytes>)
    requires Whole(s) && IntactBundle(b) && after == WithBlobs(s.blobs, b.manifest.artifacts, b.artifacts)
    ensures EntriesHeld(Appended(s.results, b.manifest.actionDigest, b.manifest), after)
    ensures after.Keys == LiveBlobs(Appended(s.results, b.manifest.actionDigest, b.manifest))
  {
    AllAddressed(s);
    WithBlobsKeeps(s.blobs, b.manifest.artifacts, b.artifacts);
    HeldWithMore(s.results, s.blobs, b.manifest, after);
    AppendedListing(s.results, b.manifest);
  }

  /** Importing an intact bundle keeps the cache whole. */
  lemma ImportKeeps(s: Cache, b: Bundle, until: Time)
    requires Whole(s) && IntactBundle(b)
    ensures Complete(b) && Whole(AfterImport(s, b, until))
  {
    AfterImportIsImported(s, b, until);
    ImportListing(s.results, b.manifest);
    ImportLeases(s.results, s.leases, b.manifest, until);
    ImportBlobs(s, b, WithBlobs(s.blobs, b.manifest.artifacts, b.artifacts));
  }

  // ---------- pruning ----------

  function LaterLeases(leases: map<Digest, Time>, now: Time): map<Digest, Time> {
    map d | d in leases && leases[d] > now :: leases[d]
  }

  /** What pruning keeps: entries with later leases, in order, their receipts, and the blobs they refer to. */
  ghost predicate KeepsExactly(s: Cache, now: Time, s': Cache)
    requires AllValid(s.results)
  {
    && s'.leases == LaterLeases(s.leases, now)
    && s'.receipts == (map d | d in s.receipts && d in s'.leases :: s.receipts[d])
    && s'.results == KeptResults(s.results, ExpiredLeases(s.leases, now))
    && s'.blobs == Restricted(s.blobs, LiveBlobs(s'.results))
    && LiveBlobs(s'.results) <= s.blobs.Keys
  }

  lemma KeptListing(results: map<Digest, seq<Manifest>>, expired: set<Digest>, m: Manifest)
    requires AllValid(results)
    ensures IsListed(KeptResults(results, expired), m) <==>
            IsListed(results, m) && ManifestDigest(m) !in expired
  {
    if IsListed(KeptResults(results, expired), m) || IsListed(results, m) {
      assert m.actionDigest in results;
      assert m in Kept(results[m.actionDigest], expired) <==> m in results[m.actionDigest] && ManifestDigest(m) !in expired;
    }
  }

  lemma LiveInKept(s: Cache, expired: set<Digest>)
    requires Whole(s)
    ensures LiveBlobs(KeptResults(s.results, expired)) <= s.blobs.Keys
    ensures expired == {} ==> KeptResults(s.results, expired) == s.results
  {
    var kept := KeptResults(s.results, expired);
    forall d | d in LiveBlobs(kept) ensures d in s.blobs {
      var a, m: Manifest, x: Descriptor :| a in kept && m in kept[a] && x in m.artifacts && x.digest == d;
      assert m in s.results[a];
    }
  }

  lemma LeasesSplit<V>(leases: map<Digest, Time>, records: map<Digest, V>, now: Time)
    requires records.Keys == leases.Keys
    ensures leases - ExpiredLeases(leases, now) == LaterLeases(leases, now)
    ensures records - ExpiredLeases(leases, now) == map d | d in records && d in LaterLeases(leases, now) :: records[d]
  {
  }

  lemma NothingRemoved<K, V>(m: map<K, V>, none: set<K>)
    requires none == {}
    ensures m - none == m
  {
  }

  lemma AllLive(blobs: map<Digest, Bytes>, live: set<Digest>)
    requires blobs.Keys == live
    ensures Restricted(blobs, live) == blobs
  {
  }

  lemma PruneNothing(s: Cache, now: Time)
    requires Whole(s) && ExpiredLeases(s.leases, now) == {}
    ensures KeepsExactly(s, now, s)
  {
    var none := ExpiredLeases(s.leases, now);
    LiveInKept(s, none);
    LeasesSplit(s.leases, s.receipts, now);
    NothingRemoved(s.leases, none);
    NothingRemoved(s.receipts, none);
    AllLive(s.blobs, LiveBlobs(s.results));
  }

  /** `prune` keeps exactly what it should. */
  lemma PruneExact(s: Cache, now: Time)
    requires Whole(s)
    ensures KeepsExactly(s, now, Pruned(s, now))
  {
    if ExpiredLeases(s.leases, now) == {} {
      PruneNothing(s, now);
    } else {
      LiveInKept(s, ExpiredLeases(s.leases, now));
      LeasesSplit(s.leases, s.receipts, now);
    }
  }

  lemma KeptWellListed(results: map<Digest, seq<Manifest>>, expired: set<Digest>)
    requires WellListed(results)
    ensures WellListed(KeptResults(results, expired))
  {
    var kept := KeptResults(results, expired);
    forall a | a in kept ensures kept[a] != [] && forall m | m in kept[a] :: ValidManifest(m) && m.actionDigest == a {
      assert kept[a] == Kept(results[a], expired);
    }
  }

  lemma KeptLeased(s: Cache, now: Time, s': Cache)
    requires Whole(s) && KeepsExactly(s, now, s') && WellListed(s'.results)
    ensures EntriesLeased(s'.results, s'.leases)
  {
    var expired := ExpiredLeases(s.leases, now);
    forall m | IsListed(s'.results, m) ensures ManifestDigest(m) in s'.leases {
      KeptListing(s.results, expired, m);
    }
    forall d | d in s'.leases ensures exists m :: IsListed(s'.results, m) && ManifestDigest(m) == d {
      var m :| IsListed(s.results, m) && ManifestDigest(m) == d;
      KeptListing(s.results, expired, m);
    }
  }

  lemma KeptHeld(s: Cache, now: Time, s': Cache)
    requires Whole(s) && KeepsExactly(s, now, s')
    ensures EntriesHeld(s'.results, s'.blobs)
  {
    forall m | IsListed(s'.results, m) ensures Held(m, s'.blobs) {
      KeptListing(s.results, ExpiredLeases(s.leases, now), m);
      assert Held(m, s.blobs);
      forall x | x in m.artifacts ensures x.digest in LiveBlobs(s'.results) {
      }
    }
  }

  lemma KeptWhole(s: Cache, now: Time, s': Cache)
    requires Whole(s) && KeepsExactly(s, now, s')
    ensures Whole(s')
  {
    KeptWellListed(s.results, ExpiredLeases(s.leases, now));
    KeptLeased(s, now, s');
    KeptHeld(s, now, s');
  }

  lemma PruneKeeps(s: Cache, now: Time)
    requires Whole(s)
    ensures Whole(Pruned(s, now))
  {
    PruneExact(s, now);
    KeptWhole(s, now, Pruned(s, now));
  }

  /** Pruning again at the same or an earlier time changes nothing. */
  lemma PruneIdempotent(s: Cache, now: Time, earlier: Time)
    requires Whole(s) && earlier <= now
    ensures AllValid(Pruned(s, now).results) && Pruned(Pruned(s, now), earlier) == Pruned(s, now)
  {
    PruneExact(s, now);
    PruneKeeps(s, now);
    assert ExpiredLeases(Pruned(s, now).leases, earlier) == {};
  }

  // ---------- runs ----------

  datatype Op = Import(bundle: Bundle, until: Time) | PruneAt(now: Time)

  /** Reads are prunes at the clock's time; the gate imports only intact bundles. */
  ghost predicate Gated(ops: seq<Op>) {
    forall i | 0 <= i < |ops| && ops[i].Import? :: IntactBundle(ops[i].bundle)
  }

  /** In every reachable state each listed entry is leased and has all its artifact blobs intact. */
  ghost function After(ops: seq<Op>, n: nat): (s: Cache)
    requires n <= |ops| && Gated(ops)
    ensures Whole(s)
  {
    if n == 0 then EMPTY_CACHE
    else
      var s := After(ops, n - 1);
      match ops[n - 1]
      case Import(b, until) => ImportKeeps(s, b, until); AfterImport(s, b, until)
      case PruneAt(now) => PruneKeeps(s, now); Pruned(s, now)
  }

  // ---------- how long it stays ----------

  ghost predicate GatedOp(op: Op) {
    op.Import? ==> IntactBundle(op.bundle)
  }

  ghost function OneOn(s: Cache, op: Op): (r: Cache)
    requires Whole(s) && GatedOp(op)
    ensures Whole(r)
  {
    match op
    case Import(b, until) => ImportKeeps(s, b, until); AfterImport(s, b, until)
    case PruneAt(now) => PruneKeeps(s, now); Pruned(s, now)
  }

  /** The cache after further imports and prunes. */
  ghost function Onward(s: Cache, ops: seq<Op>): (r: Cache)
    requires Whole(s) && forall i | 0 <= i < |ops| :: GatedOp(ops[i])
    ensures Whole(r)
    decreases |ops|
  {
    if ops == [] then s else OneOn(Onward(s, ops[..|ops| - 1]), ops[|ops| - 1])
  }

  /** The result is listed for its action with a receipt, a lease to `until` at least, and every artifact's bytes. */
  ghost predicate Stands(s: Cache, b: Bundle, until: Time)
    requires ValidManifest(b.manifest)
  {
    var d := ManifestDigest(b.manifest);
    && b.manifest.actionDigest in s.results && b.manifest in s.results[b.manifest.actionDigest]
    && d in s.receipts && b.receipt in s.receipts[d]
    && d in s.leases && s.leases[d] >= until
    && (forall x | x in b.manifest.artifacts ::
          x.name in b.artifacts && x.digest in s.blobs && s.blobs[x.digest] == b.artifacts[x.name])
  }

  /** A prune before `until`, or an import that does not end the result's lease earlier. */
  ghost predicate Spares(op: Op, d: Digest, until: Time)
    requires GatedOp(op)
  {
    match op
    case Import(b, u) => ManifestDigest(b.manifest) == d ==> u >= until
    case PruneAt(now) => now < until
  }

  lemma PruneSpares(s: Cache, now: Time, b: Bundle, until: Time)
    requires Whole(s) && ValidManifest(b.manifest) && Stands(s, b, until) && now < until
    ensures Stands(Pruned(s, now), b, until)
  {
    PruneExact(s, now);
    var kept := Pruned(s, now);
    KeptListing(s.results, ExpiredLeases(s.leases, now), b.manifest);
    assert IsListed(kept.results, b.manifest);
    assert forall x | x in b.manifest.artifacts :: x.digest in LiveBlobs(kept.results);
  }

  lemma ImportSpares(s: Cache, more: Bundle, u: Time, b: Bundle, until: Time)
    requires Whole(s) && IntactBundle(more) && ValidManifest(b.manifest) && Stands(s, b, until)
    requires ManifestDigest(more.manifest) == ManifestDigest(b.manifest) ==> u >= until
    ensures Stands(AfterImport(s, more, u), b, until)
  {
    AfterImportIsImported(s, more, u);
    BlobsSpared(s, more, b.manifest, b.artifacts);
    ListingSpared(s.results, more.manifest, b.manifest);
  }

  lemma BlobsSpared(s: Cache, more: Bundle, m: Manifest, artifacts: map<Text, Bytes>)
    requires Whole(s) && IntactBundle(more)
    requires forall x | x in m.artifacts ::
               x.name in artifacts && x.digest in s.blobs && s.blobs[x.digest] == artifacts[x.name]
    ensures var after := WithBlobs(s.blobs, more.manifest.artifacts, more.artifacts);
      forall x | x in m.artifacts :: x.digest in after && after[x.digest] == artifacts[x.name]
  {
    AllAddressed(s);
    WithBlobsKeeps(s.blobs, more.manifest.artifacts, more.artifacts);
  }

  lemma ListingSpared(results: map<Digest, seq<Manifest>>, more: Manifest, m: Manifest)
    requires IsListed(results, m)
    ensures IsListed(Appended(results, more.actionDigest, more), m)
  {
    AppendedListing(results, more);
  }

  lemma BlobsTaken(s: Cache, b: Bundle)
    requires Whole(s) && IntactBundle(b)
    ensures var after := WithBlobs(s.blobs, b.manifest.artifacts, b.artifacts);
      forall x | x in b.manifest.artifacts :: x.digest in after && after[x.digest] == b.artifacts[x.name]
  {
    AllAddressed(s);
    WithBlobsKeeps(s.blobs, b.manifest.artifacts, b.artifacts);
    var after := WithBlobs(s.blobs, b.manifest.artifacts, b.artifacts);
    forall x | x in b.manifest.artifacts ensures after[x.digest] == b.artifacts[x.name] {
      DigestBytesInjective(after[x.digest], b.artifacts[x.name]);
    }
  }

  lemma ImportStands(s: Cache, b: Bundle, until: Time)
    requires Whole(s) && IntactBundle(b)
    ensures Stands(AfterImport(s, b, until), b, until)
  {
    AfterImportIsImported(s, b, until);
    BlobsTaken(s, b);
    AppendedListing(s.results, b.manifest);
    assert IsListed(Appended(s.results, b.manifest.actionDigest, b.manifest), b.manifest);
  }

  lemma OneSpares(s: Cache, op: Op, b: Bundle, until: Time)
    requires Whole(s) && GatedOp(op) && ValidManifest(b.manifest) && Stands(s, b, until)
    requires Spares(op, ManifestDigest(b.manifest), until)
    ensures Stands(OneOn(s, op), b, until)
  {
    match op
    case Import(more, u) => ImportSpares(s, more, u, b, until);
    case PruneAt(now) => PruneSpares(s, now, b, until);
  }

  lemma {:induction false} StandingOutlives(s: Cache, ops: seq<Op>, b: Bundle, until: Time)
    requires Whole(s) && ValidManifest(b.manifest) && Stands(s, b, until)
    requires forall i | 0 <= i < |ops| :: GatedOp(ops[i]) && Spares(ops[i], ManifestDigest(b.manifest), until)
    ensures Stands(Onward(s, ops), b, until)
    decreases |ops|
  {
    if ops != [] {
      StandingOutlives(s, ops[..|ops| - 1], b, until);
      OneSpares(Onward(s, ops[..|ops| - 1]), ops[|ops| - 1], b, until);
    }
  }

  /** What was imported outlives every run of imports and prunes that stays before the end of its lease. */
  lemma ImportOutlives(s: Cache, b: Bundle, until: Time, ops: seq<Op>)
    requires Whole(s) && IntactBundle(b)
    requires forall i | 0 <= i < |ops| :: GatedOp(ops[i]) && Spares(ops[i], ManifestDigest(b.manifest), until)
    ensures Whole(AfterImport(s, b, until)) && Stands(Onward(AfterImport(s, b, until), ops), b, until)
  {
    ImportKeeps(s, b, until);
    ImportStands(s, b, until);
    StandingOutlives(AfterImport(s, b, until), ops, b, until);
  }

  /** And not the first prune from then on. */
  lemma LeaseEnds(s: Cache, b: Bundle, until: Time, now: Time)
    requires Whole(s) && IntactBundle(b) && until <= now
    ensures Whole(AfterImport(s, b, until))
    ensures var gone := Pruned(AfterImport(s, b, until), now);
      && ManifestDigest(b.manifest) !in gone.leases && ManifestDigest(b.manifest) !in gone.receipts
      && (b.manifest.actionDigest in gone.results ==> b.manifest !in gone.results[b.manifest.actionDigest])
  {
    ImportKeeps(s, b, until);
    AfterImportIsImported(s, b, until);
    var after := AfterImport(s, b, until);
    PruneExact(after, now);
    KeptListing(after.results, ExpiredLeases(after.leases, now), b.manifest);
  }
}
