/** Over every run of bridges on one store and one epoch registry, a read returns the latest unexpired write. */
module ExecutionCacheRuns {
  import opened Text
  import opened Json
  import opened Digests
  import opened Records
  import opened Stores
  import opened Evaluation
  import opened Admissibility
  import opened Search
  import opened MemoryStore
  import opened Publishing
  import opened ExecutionActions
  import opened ExecutionValue
  import opened ExecutionCache
  import Sorting
  import Utf8

  // ---------- what a read should return, said about the log alone ----------

  /** The write puts something in the store: it lives, and its manifest validates. */
  predicate Storable(e: Event)
    requires e.Set?
  {
    && Lives(e.ttl)
    && e.config.producer != [] && NoSurrogates(e.config.producer)
    && |Pack(e.value).value| <= MAX_SAFE_INTEGER
  }

  predicate Unexpired(e: Event, now: Time)
    requires e.Set?
  {
    e.ttl.Some? ==> e.now + e.ttl.value * SECOND >= now
  }

  /** The latest unexpired write of exactly this key by this configuration, unless a clear covers it. */
  function Latest(log: seq<Event>, n: nat, c: Config, key: CacheKey, now: Time): Option<Value>
    requires n <= |log|
  {
    if n == 0 then None
    else
      match log[n - 1]
      case ClearAll => None
      case ClearNamespaces(ns) =>
        if key.namespace in ns[..FirstInvalid(ns)] then None else Latest(log, n - 1, c, key, now)
      case Set(config, key', value, _, _) =>
        if config == c && key' == key && Storable(log[n - 1]) && Unexpired(log[n - 1], now) then Some(value)
        else Latest(log, n - 1, c, key, now)
  }

  /** A write of this key by this configuration that can be stored, lives, and has not expired. */
  predicate Writes(e: Event, c: Config, key: CacheKey, now: Time) {
    && e.Set? && e.config == c && e.key == key
    && (e.ttl.Some? ==> e.ttl.value > 0 && e.now + e.ttl.value * 1_000_000 >= now)
    && c.producer != [] && (forall x | x in c.producer :: x < 0xD800 || 0xDFFF < x)
    && 4 + |Utf8.Encode(e.value.typeTag)| + |e.value.payload| <= 9007199254740991
  }

  predicate NoEmptyPart(n: Namespace) {
    forall part | part in n :: part != []
  }

  /** A clear of everything, or one that lists the namespace before any namespace with an empty part. */
  ghost predicate Clears(e: Event, space: Namespace) {
    || e.ClearAll?
    || (e.ClearNamespaces? && exists i: nat :: ListsValidly(e.namespaces, space, i))
  }

  predicate ListsValidly(ns: seq<Namespace>, space: Namespace, i: nat) {
    i < |ns| && ns[i] == space && forall h | 0 <= h <= i :: NoEmptyPart(ns[h])
  }

  /** Event `k` is the last of the first `n` that writes or clears the key, and it writes `v`. */
  ghost predicate LastWrites(log: seq<Event>, n: nat, k: nat, c: Config, key: CacheKey, now: Time, v: Value)
    requires n <= |log|
  {
    && k < n && Writes(log[k], c, key, now) && log[k].value == v
    && forall j | k < j < n :: !Writes(log[j], c, key, now) && !Clears(log[j], key.namespace)
  }

  lemma WritesMeans(e: Event, c: Config, key: CacheKey, now: Time)
    ensures Writes(e, c, key, now) <==> e.Set? && e.config == c && e.key == key && Storable(e) && Unexpired(e, now)
  {
    if e.Set? {
      assert |Pack(e.value).value| == 4 + |Utf8.Encode(e.value.typeTag)| + |e.value.payload|;
      assert NoSurrogates(e.config.producer) <==> forall x | x in e.config.producer :: x < 0xD800 || 0xDFFF < x by {
        assert forall i | 0 <= i < |e.config.producer| :: e.config.producer[i] in e.config.producer;
      }
    }
  }

  lemma NamespaceMeans(n: Namespace)
    ensures ValidNamespace(n) <==> NoEmptyPart(n)
  {
    assert forall i | 0 <= i < |n| :: n[i] in n;
  }

  lemma ReachedMeans(ns: seq<Namespace>, space: Namespace, i: nat)
    requires i < |ns| && ns[i] == space
    ensures ListsValidly(ns, space, i) <==> i < FirstInvalid(ns)
  {
    if i < FirstInvalid(ns) {
      forall h | 0 <= h <= i ensures NoEmptyPart(ns[h]) {
        NamespaceMeans(ns[h]);
      }
    } else {
      NamespaceMeans(ns[FirstInvalid(ns)]);
    }
  }

  lemma ClearsMeans(ns: seq<Namespace>, space: Namespace)
    ensures Clears(ClearNamespaces(ns), space) <==> space in ns[..FirstInvalid(ns)]
  {
    if space in ns[..FirstInvalid(ns)] {
      var i: nat :| i < FirstInvalid(ns) && ns[i] == space;
      ReachedMeans(ns, space, i);
    }
    if i: nat :| ListsValidly(ns, space, i) {
      ReachedMeans(ns, space, i);
      assert ns[..FirstInvalid(ns)][i] == space;
    }
  }

  lemma LastEarlier(log: seq<Event>, n: nat, k: nat, c: Config, key: CacheKey, now: Time, v: Value)
    requires 0 < n <= |log| && !Writes(log[n - 1], c, key, now)
    ensures LastWrites(log, n, k, c, key, now, v) <==>
            !Clears(log[n - 1], key.namespace) && LastWrites(log, n - 1, k, c, key, now, v)
  {
  }

  lemma LastHere(log: seq<Event>, n: nat, k: nat, c: Config, key: CacheKey, now: Time, v: Value)
    requires 0 < n <= |log| && Writes(log[n - 1], c, key, now)
    ensures LastWrites(log, n, k, c, key, now, v) <==> k == n - 1 && log[k].value == v
  {
  }

  lemma LatestNext(log: seq<Event>, n: nat, c: Config, key: CacheKey, now: Time)
    requires 0 < n <= |log|
    ensures Latest(log, n, c, key, now) ==
            if Writes(log[n - 1], c, key, now) then Some(log[n - 1].value)
            else if Clears(log[n - 1], key.namespace) then None
            else Latest(log, n - 1, c, key, now)
  {
    WritesMeans(log[n - 1], c, key, now);
    if log[n - 1].ClearNamespaces? {
      ClearsMeans(log[n - 1].namespaces, key.namespace);
    }
  }

  ghost predicate HasLast(log: seq<Event>, n: nat, c: Config, key: CacheKey, now: Time, v: Value)
    requires n <= |log|
  {
    exists k: nat :: LastWrites(log, n, k, c, key, now, v)
  }

  lemma HasLastNext(log: seq<Event>, n: nat, before: nat, c: Config, key: CacheKey, now: Time, v: Value)
    requires 0 < n <= |log| && before == n - 1
    ensures HasLast(log, n, c, key, now, v) <==>
            if Writes(log[before], c, key, now) then log[before].value == v
            else !Clears(log[before], key.namespace) && HasLast(log, before, c, key, now, v)
  {
    if Writes(log[before], c, key, now) {
      LastHere(log, n, before, c, key, now, v);
      if k: nat :| LastWrites(log, n, k, c, key, now, v) {
        LastHere(log, n, k, c, key, now, v);
      }
    } else {
      if k: nat :| LastWrites(log, n, k, c, key, now, v) {
        LastEarlier(log, n, k, c, key, now, v);
      }
      if k: nat :| LastWrites(log, before, k, c, key, now, v) {
        LastEarlier(log, n, k, c, key, now, v);
      }
    }
  }

  /** The latest write, said of the whole log at once. */
  lemma {:induction false} LatestMeans(log: seq<Event>, n: nat, c: Config, key: CacheKey, now: Time, v: Value)
    requires n <= |log|
    ensures Latest(log, n, c, key, now) == Some(v) <==> exists k: nat :: LastWrites(log, n, k, c, key, now, v)
  {
    assert HasLast(log, n, c, key, now, v) <==> exists k: nat :: LastWrites(log, n, k, c, key, now, v);
    if n > 0 {
      LatestMeans(log, n - 1, c, key, now, v);
      LatestNext(log, n, c, key, now);
      HasLastNext(log, n, n - 1, c, key, now, v);
    }
  }

  // ---------- the candidates an identity has ----------

  ghost function At(log: seq<Event>, n: nat): System
    requires n <= |log|
  {
    StepAll(EMPTY_SYSTEM, log, n)
  }

  /** Event `n` publishes under identity `i`. */
  ghost predicate Publishes(log: seq<Event>, n: nat, i: Identity)
    requires n < |log|
  {
    log[n].Set? && Storable(log[n]) && IdentityOf(log[n].config, log[n].key, At(log, n).epochs) == i
  }

  ghost function Candidates(log: seq<Event>, n: nat, i: Identity, d: Digest): seq<Manifest>
    requires n <= |log|
  {
    if n == 0 then []
    else Candidates(log, n - 1, i, d) + if Publishes(log, n - 1, i) then [ManifestOf(log[n - 1], d)] else []
  }

  lemma OneArtifact(v: EncodedValue)
    ensures Sorting.Sort([ArtifactOf(v)], NameLess) == [ArtifactOf(v)]
    ensures ArtifactMap([ArtifactOf(v)]) == map[VALUE := Pack(v).value]
  {
    var a := ArtifactOf(v);
    assert Sorting.Sort([a][1..], NameLess) == [];
    assert [a][..0] == [];
  }

  lemma ManifestValid(e: Event, d: Digest)
    requires e.Set? && Lives(e.ttl) && IsDigest(d)
    ensures ManifestOf(e, d).artifacts == DescriptorsOf([ArtifactOf(e.value)])
    ensures ValidManifest(ManifestOf(e, d)) <==> Storable(e)
  {
    OneArtifact(e.value);
    var a := DescriptorOf(ArtifactOf(e.value));
    var m := ManifestOf(e, d);
    assert m.artifacts == [a];
    assert NoSurrogates(VALUE) && NoSurrogates(VALUE_MEDIA_TYPE);
    assert ValidDescriptor(a) <==> |Pack(e.value).value| <= MAX_SAFE_INTEGER;
    assert ValidArtifacts([a]) <==> ValidDescriptor([a][0]);
  }

  /** The store holds the packed value. */
  predicate Stored(s: State, v: EncodedValue) {
    var data := Pack(v).value;
    DigestBytes(data) in s.blobs && s.blobs[DigestBytes(data)] == data
  }

  /** Nothing but results and blobs is ever put. */
  ghost predicate Plain(s: State) {
    Addressed(s) && s.validations == map[] && s.invalidations == map[]
  }

  lemma StepStores(s: System, e: Event, i: Identity, d: Digest)
    requires Plain(s.store) && ActionDigest(i) == Some(d)
    ensures Plain(Step(s, e).store) && Grown(s.store, Step(s, e).store)
    ensures Listed(Step(s, e).store.results, d) == Listed(s.store.results, d) +
            if e.Set? && Storable(e) && IdentityOf(e.config, e.key, s.epochs) == i then [ManifestOf(e, d)] else []
    ensures e.Set? && Storable(e) && ActionDigest(IdentityOf(e.config, e.key, s.epochs)).Some? ==>
              Stored(Step(s, e).store, e.value)
  {
    if e.Set? && Lives(e.ttl) {
      var k := IdentityOf(e.config, e.key, s.epochs);
      ActionDigestIsCanonical(k);
      if ActionDigest(k).None? {
        ApplyGrows(s.store, Op.PutBlob(Pack(e.value).value));
      } else {
        var m := ManifestOf(e, ActionDigest(k).value);
        if ActionDigest(k) == ActionDigest(i) {
          ActionDigestInjective(k, i);
        }
        ManifestValid(e, ActionDigest(k).value);
        PublishLeaves(s.store, [ArtifactOf(e.value)], m);
        assert ArtifactOf(e.value) in [ArtifactOf(e.value)];
        RunGrows(s.store, PublishOps([ArtifactOf(e.value)], m));
      }
    } else {
      GrownReflexive(s.store);
    }
  }

  lemma GrownReflexive(s: State)
    ensures Grown(s, s)
  {
  }

  lemma StoresAt(log: seq<Event>, n: nat, i: Identity, d: Digest)
    requires 0 < n <= |log| && Plain(At(log, n - 1).store) && ActionDigest(i) == Some(d)
    ensures Plain(At(log, n).store) && Grown(At(log, n - 1).store, At(log, n).store)
    ensures Listed(At(log, n).store.results, d) == Listed(At(log, n - 1).store.results, d) +
            if Publishes(log, n - 1, i) then [ManifestOf(log[n - 1], d)] else []
    ensures Publishes(log, n - 1, i) ==> Stored(At(log, n).store, log[n - 1].value)
  {
    NextIsStep(At(log, n - 1), log[n - 1]);
    StepStores(At(log, n - 1), log[n - 1], i, d);
  }

  lemma {:induction false} StoredCandidates(log: seq<Event>, n: nat, i: Identity, d: Digest)
    requires n <= |log| && ActionDigest(i) == Some(d)
    ensures Plain(At(log, n).store) && Listed(At(log, n).store.results, d) == Candidates(log, n, i, d)
  {
    if n > 0 {
      StoredCandidates(log, n - 1, i, d);
      StoresAt(log, n, i, d);
    }
  }

  /** The artifacts of every candidate under `i` are held. */
  ghost predicate AllHeld(log: seq<Event>, n: nat, i: Identity, s: State)
    requires n <= |log|
  {
    forall k: nat | k < n && Publishes(log, k, i) :: Stored(s, log[k].value)
  }

  lemma {:induction false} CandidatesHeld(log: seq<Event>, n: nat, i: Identity, d: Digest)
    requires n <= |log| && ActionDigest(i) == Some(d)
    ensures AllHeld(log, n, i, At(log, n).store)
  {
    if n > 0 {
      StoredCandidates(log, n - 1, i, d);
      CandidatesHeld(log, n - 1, i, d);
      StoresAt(log, n, i, d);
      HeldNext(log, n, i, At(log, n - 1).store, At(log, n).store);
    }
  }

  lemma HeldNext(log: seq<Event>, n: nat, i: Identity, a: State, b: State)
    requires 0 < n <= |log| && AllHeld(log, n - 1, i, a) && Grown(a, b)
    requires Publishes(log, n - 1, i) ==> Stored(b, log[n - 1].value)
    ensures AllHeld(log, n, i, b)
  {
    forall k: nat | k < n && Publishes(log, k, i) ensures Stored(b, log[k].value) {
      if k < n - 1 {
        assert Stored(a, log[k].value);
      }
    }
  }

  // ---------- the search through them ----------

  lemma CandidateVerdict(name: Text, s: State, producer: Text, now: Time, e: Event, d: Digest)
    requires Plain(s) && e.Set? && Storable(e) && IsDigest(d) && Stored(s, e.value)
    ensures var v := VerdictOn(Alone(name, s, ReadPolicy(producer, now)), d, ManifestOf(e, d), 0, false);
      if e.config.producer == producer && Unexpired(e, now) then
        v.Accepted? && v.artifacts == map[VALUE := Pack(e.value).value]
      else v.Rejected?
  {
    var m, policy := ManifestOf(e, d), ReadPolicy(producer, now);
    ManifestValid(e, d);
    OneArtifact(e.value);
    if e.config.producer == producer && Unexpired(e, now) {
      StandaloneVerdict(name, s, policy, m, [ArtifactOf(e.value)]);
    } else {
      UnusableVerdict(name, s, policy, m);
    }
  }

  /** Untrusted or expired, with nothing recorded about it. */
  lemma UnusableVerdict(name: Text, s: State, policy: Policy, m: Manifest)
    requires Plain(s) && ValidManifest(m) && m.version == ResultV0 && !policy.requireLineage
    requires !Policy.Trusts(policy.trustedProducers, m.producer)
             || (m.freshUntil.Some? && m.freshUntil.value < policy.now)
    ensures VerdictOn(Alone(name, s, policy), m.actionDigest, m, 0, false).Rejected?
  {
    var w := Alone(name, s, policy);
    NotInvalidated(name, s, policy, m, false);
    assert w.stores[0] == View(name, s);
    assert w.stores[0].validations(ManifestDigest(m)) == Readable([]);
    var own := Examine(w, m, 0, true, false);
    assert own.Rejected?;
    assert Evaluate(w, m.actionDigest, m, 0, {}, 0, 0, false, true).0 == own;
  }

  /** The first element only matters until the search has passed it. */
  lemma {:induction false} SearchPast(w: World, requested: Digest, m: Manifest, ms: seq<Manifest>, j: nat)
    requires |w.stores| == 1 && j <= |ms|
    ensures SearchStore(w, requested, false, 0, [m] + ms, j + 1) == SearchStore(w, requested, false, 0, ms, j)
    decreases |ms| - j
  {
    if j < |ms| {
      assert ([m] + ms)[j + 1] == ms[j];
      SearchPast(w, requested, m, ms, j + 1);
    }
  }

  /** The newest usable candidate under `i`. */
  ghost function Scan(log: seq<Event>, n: nat, i: Identity, producer: Text, now: Time): Option<Value>
    requires n <= |log|
  {
    if n == 0 then None
    else if Publishes(log, n - 1, i) && log[n - 1].config.producer == producer && Unexpired(log[n - 1], now) then
      Some(log[n - 1].value)
    else Scan(log, n - 1, i, producer, now)
  }

  lemma HitDecodes(e: Event, d: Digest, o: Outcome)
    requires e.Set? && Storable(e) && IsDigest(d)
    requires o.Hit? && o.manifest == ManifestOf(e, d) && o.artifacts == map[VALUE := Pack(e.value).value]
    ensures Decoded(o) == Some(e.value)
  {
    ManifestValid(e, d);
    assert o.manifest.artifacts[0] == DescriptorOf(ArtifactOf(e.value));
    UnpackPack(e.value);
  }

  lemma NewestCandidate(name: Text, s: State, producer: Text, now: Time, e: Event, d: Digest, older: seq<Manifest>)
    requires Plain(s) && e.Set? && Storable(e) && IsDigest(d) && Stored(s, e.value)
    ensures var w := Alone(name, s, ReadPolicy(producer, now));
      Decoded(SearchStore(w, d, false, 0, Reversed(older + [ManifestOf(e, d)]), 0)) ==
      if e.config.producer == producer && Unexpired(e, now) then Some(e.value)
      else Decoded(SearchStore(w, d, false, 0, Reversed(older), 0))
  {
    CandidateVerdict(name, s, producer, now, e, d);
    NewestDecodes(Alone(name, s, ReadPolicy(producer, now)), d, ManifestOf(e, d), older);
    if e.config.producer == producer && Unexpired(e, now) {
      var v := VerdictOn(Alone(name, s, ReadPolicy(producer, now)), d, ManifestOf(e, d), 0, false);
      HitDecodes(e, d, Hit(0, ManifestOf(e, d), v.artifacts, v.validation, []));
    }
  }

  lemma NewestDecodes(w: World, d: Digest, m: Manifest, older: seq<Manifest>)
    requires |w.stores| == 1 && !VerdictOn(w, d, m, 0, false).Raised?
    ensures var v := VerdictOn(w, d, m, 0, false);
      Decoded(SearchStore(w, d, false, 0, Reversed(older + [m]), 0)) ==
      if v.Accepted? then Decoded(Hit(0, m, v.artifacts, v.validation, []))
      else Decoded(SearchStore(w, d, false, 0, Reversed(older), 0))
  {
    assert Reversed(older + [m]) == [m] + Reversed(older);
    SearchPast(w, d, m, Reversed(older), 0);
    var v := VerdictOn(w, d, m, 0, false);
    if v.Rejected? {
      DecodedAfter([TurnedDown(w.stores[0].name, v.reason)], SearchStore(w, d, false, 0, Reversed(older), 0));
    }
  }

  lemma DecodedAfter(rejections: seq<Rejection>, o: Outcome)
    ensures Decoded(After(rejections, o)) == Decoded(o)
  {
  }

  lemma {:induction false} SearchScans(name: Text, s: State, log: seq<Event>, n: nat, i: Identity, d: Digest,
                                       producer: Text, now: Time)
    requires n <= |log| && IsDigest(d) && Plain(s) && AllHeld(log, n, i, s)
    ensures Decoded(SearchStore(Alone(name, s, ReadPolicy(producer, now)), d, false, 0,
                                Reversed(Candidates(log, n, i, d)), 0)) == Scan(log, n, i, producer, now)
  {
    var w := Alone(name, s, ReadPolicy(producer, now));
    if n > 0 {
      SearchScans(name, s, log, n - 1, i, d, producer, now);
      if Publishes(log, n - 1, i) {
        NewestCandidate(name, s, producer, now, log[n - 1], d, Candidates(log, n - 1, i, d));
      } else {
        assert Candidates(log, n, i, d) == Candidates(log, n - 1, i, d);
      }
    } else {
      assert Reversed<Manifest>([]) == [];
      assert SearchFrom(w, d, false, 1) == Miss([]);
    }
  }

  // ---------- epochs separate what a clear covers ----------

  lemma EpochsAdvance(log: seq<Event>, n: nat, space: Namespace)
    requires 0 < n <= |log|
    ensures At(log, n - 1).epochs.all <= At(log, n).epochs.all
    ensures NamespaceEpoch(At(log, n - 1).epochs, space) <= NamespaceEpoch(At(log, n).epochs, space)
    ensures log[n - 1].ClearAll? ==> At(log, n - 1).epochs.all < At(log, n).epochs.all
    ensures log[n - 1].ClearNamespaces? ==>
      var reached := log[n - 1].namespaces[..FirstInvalid(log[n - 1].namespaces)];
      if space in reached then
        NamespaceEpoch(At(log, n - 1).epochs, space) < NamespaceEpoch(At(log, n).epochs, space)
      else
        At(log, n).epochs.all == At(log, n - 1).epochs.all
        && NamespaceEpoch(At(log, n).epochs, space) == NamespaceEpoch(At(log, n - 1).epochs, space)
  {
    NextIsStep(At(log, n - 1), log[n - 1]);
    if log[n - 1].ClearNamespaces? {
      RotationMovesExactly(At(log, n - 1).epochs, log[n - 1].namespaces, FirstInvalid(log[n - 1].namespaces), space);
    }
  }

  /** Nothing was published under an identity whose epochs are still to come. */
  lemma {:induction false} NothingAhead(log: seq<Event>, n: nat, i: Identity, producer: Text, now: Time)
    requires n <= |log|
    requires i.allEpoch > At(log, n).epochs.all
             || i.namespaceEpoch > NamespaceEpoch(At(log, n).epochs, i.key.namespace)
    ensures Scan(log, n, i, producer, now) == None
  {
    if n > 0 {
      EpochsAdvance(log, n, i.key.namespace);
      NothingAhead(log, n - 1, i, producer, now);
    }
  }

  /** A write is found under the key's identity exactly when it is of the key, by the configuration. */
  lemma SetScanned(log: seq<Event>, n: nat, c: Config, key: CacheKey, now: Time)
    requires 0 < n <= |log| && log[n - 1].Set?
    requires Scan(log, n - 1, IdentityOf(c, key, At(log, n - 1).epochs), c.producer, now) == Latest(log, n - 1, c, key, now)
    ensures Scan(log, n, IdentityOf(c, key, At(log, n).epochs), c.producer, now) == Latest(log, n, c, key, now)
  {
    NextIsStep(At(log, n - 1), log[n - 1]);
    var epochs := At(log, n - 1).epochs;
    assert At(log, n).epochs == epochs;
    var e := log[n - 1];
    assert IdentityOf(e.config, e.key, epochs) == IdentityOf(c, key, epochs) && e.config.producer == c.producer
      <==> e.config == c && e.key == key;
  }

  lemma {:induction false} ScanIsLatest(log: seq<Event>, n: nat, c: Config, key: CacheKey, now: Time)
    requires n <= |log|
    ensures Scan(log, n, IdentityOf(c, key, At(log, n).epochs), c.producer, now) == Latest(log, n, c, key, now)
  {
    if n > 0 {
      var i := IdentityOf(c, key, At(log, n).epochs);
      EpochsAdvance(log, n, key.namespace);
      match log[n - 1]
      case ClearAll => NothingAhead(log, n - 1, i, c.producer, now);
      case ClearNamespaces(ns) =>
        if key.namespace in ns[..FirstInvalid(ns)] {
          NothingAhead(log, n - 1, i, c.producer, now);
        } else {
          ScanIsLatest(log, n - 1, c, key, now);
        }
      case Set(config, key', _, _, _) =>
        ScanIsLatest(log, n - 1, c, key, now);
        SetScanned(log, n, c, key, now);
    }
  }

  // ---------- the main results ----------

  /**
   Over every run, an enabled read returns the latest unexpired write of exactly that key, runtime, serializer,
   partition and producer that no later clear covers.
   */
  lemma ReadReturnsLatestWrite(name: Text, log: seq<Event>, n: nat, c: Config, key: CacheKey, now: Time)
    requires n <= |log| && ActionDigest(IdentityOf(c, key, At(log, n).epochs)).Some?
    ensures Got(name, At(log, n), c, key, now) == Latest(log, n, c, key, now)
  {
    var s := At(log, n);
    var i := IdentityOf(c, key, s.epochs);
    var d := ActionDigest(i).value;
    ActionDigestIsCanonical(i);
    StoredCandidates(log, n, i, d);
    CandidatesHeld(log, n, i, d);
    SearchScans(name, s.store, log, n, i, d, c.producer, now);
    ScanIsLatest(log, n, c, key, now);
    SearchBegins(name, s.store, ReadPolicy(c.producer, now), d);
  }

  lemma SearchBegins(name: Text, s: State, policy: Policy, d: Digest)
    ensures Reused(Alone(name, s, policy), d) ==
            SearchStore(Alone(name, s, policy), d, false, 0, Reversed(Listed(s.results, d)), 0)
  {
    assert CandidatesOf(Alone(name, s, policy), d, 0) == Readable(Reversed(Listed(s.results, d)));
  }

  predicate Covers(e: Event, n: Namespace) {
    e.ClearAll? || (e.ClearNamespaces? && n in e.namespaces[..FirstInvalid(e.namespaces)])
  }

  lemma {:induction false} LatestAfterClear(log: seq<Event>, k: nat, n: nat, c: Config, key: CacheKey, now: Time)
    requires k < n <= |log| && Covers(log[k], key.namespace)
    ensures Latest(log, n, c, key, now) == Latest(log[k + 1..], n - k - 1, c, key, now)
  {
    if n > k + 1 {
      LatestAfterClear(log, k, n - 1, c, key, now);
      assert log[k + 1..][n - k - 2] == log[n - 1];
    }
  }

  /** Nothing written before a covering clear is ever read again: only the log after it matters. */
  lemma ClearedForGood(name: Text, log: seq<Event>, k: nat, n: nat, c: Config, key: CacheKey, now: Time)
    requires k < n <= |log| && Covers(log[k], key.namespace)
    requires ActionDigest(IdentityOf(c, key, At(log, n).epochs)).Some?
    ensures Got(name, At(log, n), c, key, now) == Latest(log[k + 1..], n - k - 1, c, key, now)
  {
    ReadReturnsLatestWrite(name, log, n, c, key, now);
    LatestAfterClear(log, k, n, c, key, now);
  }

  /** A clear of listed namespaces leaves every other key as it was. */
  lemma OthersUnchanged(name: Text, log: seq<Event>, n: nat, ns: seq<Namespace>, c: Config, key: CacheKey, now: Time)
    requires n < |log| && log[n] == ClearNamespaces(ns) && key.namespace !in ns[..FirstInvalid(ns)]
    requires ActionDigest(IdentityOf(c, key, At(log, n).epochs)).Some?
    ensures IdentityOf(c, key, At(log, n + 1).epochs) == IdentityOf(c, key, At(log, n).epochs)
    ensures Got(name, At(log, n + 1), c, key, now) == Got(name, At(log, n), c, key, now)
  {
    EpochsAdvance(log, n + 1, key.namespace);
    ReadReturnsLatestWrite(name, log, n, c, key, now);
    ReadReturnsLatestWrite(name, log, n + 1, c, key, now);
  }
}
