/** Lookups over the files: the same results are admissible and hit as over the memory store after the same run. */
module FilesystemAdmission {
  import opened Text
  import opened Digests
  import opened Records
  import opened Stores
  import opened Evaluation
  import opened Lineage
  import opened Admissibility
  import opened Search
  import opened MemoryStore
  import opened FilesystemStore

  // ---------- admissibility looks at records as sets ----------

  ghost predicate SameElements<V(!new)>(a: Read<seq<V>>, b: Read<seq<V>>) {
    a.Readable? == b.Readable? && (a.Readable? ==> forall v :: v in a.value <==> v in b.value)
  }

  /** The stores give the same results and blobs, and the same records and candidates in some order. */
  ghost predicate Alike(a: Store, b: Store) {
    && a.result.Some? && b.result.Some? && (forall d :: a.result.value(d) == b.result.value(d))
    && (forall d :: a.blob(d) == b.blob(d))
    && (forall d :: SameElements(a.candidates(d), b.candidates(d)))
    && (forall d :: SameElements(a.validations(d), b.validations(d)))
    && a.invalidations.Some? && b.invalidations.Some?
    && (forall d :: SameElements(a.invalidations.value(d), b.invalidations.value(d)))
  }

  lemma LocateAlike(a: Store, b: Store, d: Digest)
    requires Alike(a, b)
    ensures Locate([a], d) == Locate([b], d)
  {
    assert Answers(a, d) <==> Answers(b, d);
    assert FirstAnswer([a], d) == FirstAnswer([b], d);
  }

  lemma {:induction false} UnfoldsAlike(a: Store, b: Store, policy: Policy, t: Tree)
    requires Alike(a, b) && Unfolds(World([a], policy), t)
    ensures Unfolds(World([b], policy), t)
    decreases t
  {
    forall i | 0 <= i < |t.upstream|
      ensures Locate([b], Dependencies(t.manifest)[i].resultDigest) == Found(t.upstream[i].manifest, t.upstream[i].store)
      ensures Unfolds(World([b], policy), t.upstream[i])
    {
      LocateAlike(a, b, Dependencies(t.manifest)[i].resultDigest);
      UnfoldsAlike(a, b, policy, t.upstream[i]);
    }
  }

  lemma SoundAlike(a: Store, b: Store, policy: Policy, m: Manifest, root: bool, ignoreFreshness: bool)
    requires Alike(a, b) && ValidManifest(m) && Sound(World([a], policy), m, 0, root, ignoreFreshness)
    ensures Sound(World([b], policy), m, 0, root, ignoreFreshness)
  {
    var d := ManifestDigest(m);
    assert SameElements(a.invalidations.value(d), b.invalidations.value(d));
    assert SameElements(a.validations(d), b.validations(d));
    forall x | x in m.artifacts ensures Intact(x, b.blob(x.digest)) {
      assert Intact(x, a.blob(x.digest));
    }
  }

  lemma {:induction false} AllSoundAlike(a: Store, b: Store, policy: Policy, t: Tree, root: bool, ignoreFreshness: bool)
    requires Alike(a, b) && Unfolds(World([a], policy), t) && Unfolds(World([b], policy), t)
    requires AllSound(World([a], policy), t, root, ignoreFreshness)
    ensures AllSound(World([b], policy), t, root, ignoreFreshness)
    decreases t
  {
    SoundAlike(a, b, policy, t.manifest, root, ignoreFreshness);
    forall i | 0 <= i < |t.upstream| ensures AllSound(World([b], policy), t.upstream[i], false, false) {
      AllSoundAlike(a, b, policy, t.upstream[i], false, false);
    }
  }

  lemma AdmissibleAlike(a: Store, b: Store, policy: Policy, m: Manifest, ignoreFreshness: bool)
    requires Alike(a, b) && Admissible(World([a], policy), m, 0, ignoreFreshness)
    ensures Admissible(World([b], policy), m, 0, ignoreFreshness)
  {
    var t :| Certifies(World([a], policy), t, m, 0, ignoreFreshness);
    UnfoldsAlike(a, b, policy, t);
    AllSoundAlike(a, b, policy, t, true, ignoreFreshness);
    assert Certifies(World([b], policy), t, m, 0, ignoreFreshness);
  }

  lemma UsableAlike(a: Store, b: Store, policy: Policy, requested: Digest, ignoreFreshness: bool, k: nat, i: nat)
    returns (j: nat)
    requires Alike(a, b) && Usable(World([a], policy), requested, ignoreFreshness, k, i)
    ensures Usable(World([b], policy), requested, ignoreFreshness, 0, j)
  {
    var m := CandidateAt(World([a], policy), requested, k, i);
    assert SameElements(a.candidates(requested), b.candidates(requested));
    var ms := b.candidates(requested).value;
    assert m in ms;
    j :| 0 <= j < |ms| && ms[j] == m;
    AdmissibleAlike(a, b, policy, m, ignoreFreshness);
  }

  lemma HitAlike(a: Store, b: Store, policy: Policy, requested: Digest, ignoreFreshness: bool)
    requires Alike(a, b) && BlobsReadable(World([a], policy)) && BlobsReadable(World([b], policy))
    requires SearchFrom(World([a], policy), requested, ignoreFreshness, 0).Hit?
    ensures SearchFrom(World([b], policy), requested, ignoreFreshness, 0).Hit?
  {
    HitExactlyWhenUsable(World([a], policy), requested, ignoreFreshness);
    HitExactlyWhenUsable(World([b], policy), requested, ignoreFreshness);
    var k: nat, i: nat :| Usable(World([a], policy), requested, ignoreFreshness, k, i);
    var j := UsableAlike(a, b, policy, requested, ignoreFreshness, k, i);
  }

  lemma AlikeSymmetric(a: Store, b: Store)
    requires Alike(a, b)
    ensures Alike(b, a)
  {
  }

  // ---------- the files ----------

  /** The store's readers give what the files say, lists in any order. */
  ghost predicate ReadsFiles(f: Store, disk: Disk) {
    && (forall d :: f.blob(d) == Readable(Lookup(disk.blobs, d)))
    && f.result.Some?
    && (forall d :: f.result.value(d).Readable? && ReadsResult(disk.results, d, f.result.value(d).value))
    && (forall a :: f.candidates(a).Readable?
                    && forall m :: m in f.candidates(a).value <==> ListsCandidate(disk.actions, a, m))
    && (forall d :: f.validations(d).Readable?
                    && forall v :: v in f.validations(d).value <==> ListsRecord(disk.validations, d, v, HoldsValidation))
    && f.invalidations.Some?
    && (forall d :: f.invalidations.value(d).Readable?
                    && forall r :: r in f.invalidations.value(d).value
                              <==> ListsRecord(disk.invalidations, d, r, HoldsInvalidation))
  }

  lemma OneResult(results: map<Digest, Bytes>, d: Digest, a: Option<Manifest>, b: Option<Manifest>)
    requires ReadsResult(results, d, a) && ReadsResult(results, d, b)
    ensures a == b
  {
    if a.Some? && b.Some? {
      ManifestDigestInjective(a.value, b.value);
    }
  }

  lemma ViewElements(name: Text, s: State, d: Digest)
    ensures forall m :: m in View(name, s).candidates(d).value <==> m in Listed(s.results, d)
    ensures forall v :: v in View(name, s).validations(d).value <==> v in Listed(s.validations, d)
    ensures forall r :: r in View(name, s).invalidations.value(d).value <==> r in Listed(s.invalidations, d)
  {
    ReversedElements(Listed(s.results, d));
    ReversedElements(Listed(s.validations, d));
    ReversedElements(Listed(s.invalidations, d));
  }

  lemma FilesAlike(f: Store, disk: Disk, name: Text, s: State)
    requires ReadsFiles(f, disk) && StandsFor(disk, s)
    ensures Alike(f, View(name, s))
  {
    var v := View(name, s);
    forall d
      ensures f.result.value(d) == v.result.value(d) && f.blob(d) == v.blob(d)
      ensures SameElements(f.candidates(d), v.candidates(d)) && SameElements(f.validations(d), v.validations(d))
      ensures SameElements(f.invalidations.value(d), v.invalidations.value(d))
    {
      OneResult(disk.results, d, f.result.value(d).value, Lookup(s.byDigest, d));
      ViewElements(name, s, d);
    }
  }

  /**
   After any run from an empty directory, the files admit exactly the results the memory store admits after the same
   run, whatever order their lists come in.
   */
  lemma FilesAdmitAlike(f: Store, name: Text, ops: seq<Op>, policy: Policy, m: Manifest, ignoreFreshness: bool)
    requires ReadsFiles(f, DiskRun(EMPTY_DISK, ops))
    ensures Admissible(World([f], policy), m, 0, ignoreFreshness)
       <==> Admissible(Alone(name, Run(EMPTY, ops), policy), m, 0, ignoreFreshness)
  {
    var v := View(name, Run(EMPTY, ops));
    RunsInStep(ops);
    FilesAlike(f, DiskRun(EMPTY_DISK, ops), name, Run(EMPTY, ops));
    AlikeSymmetric(f, v);
    if Admissible(World([f], policy), m, 0, ignoreFreshness) {
      AdmissibleAlike(f, v, policy, m, ignoreFreshness);
    }
    if Admissible(World([v], policy), m, 0, ignoreFreshness) {
      AdmissibleAlike(v, f, policy, m, ignoreFreshness);
    }
  }

  /** A lookup over the files hits exactly when it hits over the memory store. */
  lemma FilesHitAlike(f: Store, name: Text, ops: seq<Op>, policy: Policy, requested: Digest, ignoreFreshness: bool)
    requires ReadsFiles(f, DiskRun(EMPTY_DISK, ops))
    ensures SearchFrom(World([f], policy), requested, ignoreFreshness, 0).Hit?
       <==> SearchFrom(Alone(name, Run(EMPTY, ops), policy), requested, ignoreFreshness, 0).Hit?
  {
    var v := View(name, Run(EMPTY, ops));
    RunsInStep(ops);
    FilesAlike(f, DiskRun(EMPTY_DISK, ops), name, Run(EMPTY, ops));
    AlikeSymmetric(f, v);
    if SearchFrom(World([f], policy), requested, ignoreFreshness, 0).Hit? {
      HitAlike(f, v, policy, requested, ignoreFreshness);
    }
    if SearchFrom(World([v], policy), requested, ignoreFreshness, 0).Hit? {
      HitAlike(v, f, policy, requested, ignoreFreshness);
    }
  }
}
