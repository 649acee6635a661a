/** Publishing an invalidation rejects exactly the candidates whose unfolding holds the invalidated result. */
module Invalidating {
  import opened Text
  import opened Digests
  import opened Records
  import opened Stores
  import opened Evaluation
  import opened Lineage
  import opened Admissibility

  /** The store after `put_invalidation`: the new record is read first; an unreadable directory stays so. */
  ghost function Recorded(s: Store, r: Invalidation): Store
    requires s.invalidations.Some?
  {
    var before := s.invalidations.value;
    s.(invalidations := Some((d: Digest) =>
      if d == r.resultDigest && before(d).Readable? then Readable([r] + before(d).value) else before(d)))
  }

  ghost function After(w: World, k: nat, r: Invalidation): World
    requires k < |w.stores| && w.stores[k].invalidations.Some?
  {
    w.(stores := w.stores[k := Recorded(w.stores[k], r)])
  }

  /** Somewhere in the unfolding stands the result `d`, supplied by store `k`. */
  ghost predicate Contains(w: World, t: Tree, k: nat, d: Digest)
    requires Unfolds(w, t)
  {
    || (t.store == k && ManifestDigest(t.manifest) == d)
    || exists i | 0 <= i < |t.upstream| :: Contains(w, t.upstream[i], k, d)
  }

  lemma SameAnswers(a: seq<Store>, b: seq<Store>, d: Digest)
    requires |a| == |b| && forall j | 0 <= j < |a| :: a[j].result == b[j].result
    ensures Locate(a, d) == Locate(b, d)
  {
    var i, j := FirstAnswer(a, d), FirstAnswer(b, d);
    assert i < |a| ==> Answers(b[i], d);
    assert j < |b| ==> Answers(a[j], d);
    assert i == j;
  }

  lemma {:induction false} SameUnfoldings(w: World, w': World, t: Tree)
    requires |w.stores| == |w'.stores| && forall j | 0 <= j < |w.stores| :: w.stores[j].result == w'.stores[j].result
    requires Unfolds(w, t)
    ensures Unfolds(w', t)
    decreases t
  {
    forall i | 0 <= i < |t.upstream|
      ensures Locate(w'.stores, Dependencies(t.manifest)[i].resultDigest) ==
              Locate(w.stores, Dependencies(t.manifest)[i].resultDigest)
      ensures Unfolds(w', t.upstream[i])
    {
      SameAnswers(w.stores, w'.stores, Dependencies(t.manifest)[i].resultDigest);
      SameUnfoldings(w, w', t.upstream[i]);
    }
  }

  /** One manifest after the record: as sound as before, unless it is the invalidated one. */
  lemma SoundAfter(w: World, k: nat, r: Invalidation, m: Manifest, j: nat, root: bool, ignoreFreshness: bool)
    requires k < |w.stores| && w.stores[k].invalidations.Some? && j < |w.stores| && ValidManifest(m)
    ensures var hit := w.policy.Effective(r) && j == k && ManifestDigest(m) == r.resultDigest;
      Sound(After(w, k, r), m, j, root, ignoreFreshness) <==> Sound(w, m, j, root, ignoreFreshness) && !hit
  {
    var s, s', d := w.stores[j], After(w, k, r).stores[j], ManifestDigest(m);
    if j == k && d == r.resultDigest && s.invalidations.value(d).Readable? {
      assert s'.invalidations.value(d).value == [r] + s.invalidations.value(d).value;
    }
  }

  lemma {:induction false} AllSoundAfter(w: World, k: nat, r: Invalidation, t: Tree, root: bool, ignoreFreshness: bool)
    requires k < |w.stores| && w.stores[k].invalidations.Some? && Unfolds(w, t) && Unfolds(After(w, k, r), t)
    ensures AllSound(After(w, k, r), t, root, ignoreFreshness)
       <==> AllSound(w, t, root, ignoreFreshness) && !(w.policy.Effective(r) && Contains(w, t, k, r.resultDigest))
    decreases t
  {
    SoundAfter(w, k, r, t.manifest, t.store, root, ignoreFreshness);
    forall i | 0 <= i < |t.upstream|
      ensures AllSound(After(w, k, r), t.upstream[i], false, false)
         <==> AllSound(w, t.upstream[i], false, false) &&
              !(w.policy.Effective(r) && Contains(w, t.upstream[i], k, r.resultDigest))
    {
      AllSoundAfter(w, k, r, t.upstream[i], false, false);
    }
  }

  lemma CertifiesAfter(w: World, k: nat, r: Invalidation, t: Tree, m: Manifest, j: nat, ignoreFreshness: bool)
    requires k < |w.stores| && w.stores[k].invalidations.Some?
    ensures Certifies(After(w, k, r), t, m, j, ignoreFreshness)
       <==> Certifies(w, t, m, j, ignoreFreshness) && !(w.policy.Effective(r) && Contains(w, t, k, r.resultDigest))
  {
    if Unfolds(w, t) {
      SameUnfoldings(w, After(w, k, r), t);
    }
    if Unfolds(After(w, k, r), t) {
      SameUnfoldings(After(w, k, r), w, t);
      AllSoundAfter(w, k, r, t, true, ignoreFreshness);
    }
  }

  /**
   An invalidation of a result, dated by now and by a producer the policy trusts for that, in the store that supplies the
   result, rejects exactly the candidates whose unfolding contains it: they become rejected and every other candidate
   keeps its standing. The producers trusted are those named for invalidations, else those trusted at all, else anyone.
   */
  lemma InvalidationRejectsExactlyDependents(w: World, k: nat, r: Invalidation, m: Manifest, j: nat,
                                             ignoreFreshness: bool)
    requires k < |w.stores| && w.stores[k].invalidations.Some? && r.invalidatedAt <= w.policy.now
    requires w.policy.trustedInvalidationProducers.Some? ==> r.producer in w.policy.trustedInvalidationProducers.value
    requires w.policy.trustedInvalidationProducers.None? && w.policy.trustedProducers.Some? ==>
               r.producer in w.policy.trustedProducers.value
    ensures Admissible(After(w, k, r), m, j, ignoreFreshness)
       <==> exists t :: Certifies(w, t, m, j, ignoreFreshness) && !Contains(w, t, k, r.resultDigest)
    ensures forall t :: Certifies(w, t, m, j, ignoreFreshness) && Contains(w, t, k, r.resultDigest)
                   ==> !Admissible(After(w, k, r), m, j, ignoreFreshness)
  {
    var w' := After(w, k, r);
    if Admissible(w', m, j, ignoreFreshness) {
      var t :| Certifies(w', t, m, j, ignoreFreshness);
      CertifiesAfter(w, k, r, t, m, j, ignoreFreshness);
      forall t' | Certifies(w, t', m, j, ignoreFreshness) ensures t' == t {
        UnfoldingUnique(w, t, t');
      }
    }
    if t :| Certifies(w, t, m, j, ignoreFreshness) && !Contains(w, t, k, r.resultDigest) {
      CertifiesAfter(w, k, r, t, m, j, ignoreFreshness);
    }
  }

  /** A record dated later than now, or by a producer the policy does not trust for that, changes no candidate's standing. */
  lemma IneffectiveInvalidationChangesNothing(w: World, k: nat, r: Invalidation, m: Manifest, j: nat,
                                              ignoreFreshness: bool)
    requires k < |w.stores| && w.stores[k].invalidations.Some?
    requires || r.invalidatedAt > w.policy.now
             || (&& w.policy.trustedInvalidationProducers.Some?
                 && r.producer !in w.policy.trustedInvalidationProducers.value)
             || (&& w.policy.trustedInvalidationProducers.None? && w.policy.trustedProducers.Some?
                 && r.producer !in w.policy.trustedProducers.value)
    ensures Admissible(After(w, k, r), m, j, ignoreFreshness) <==> Admissible(w, m, j, ignoreFreshness)
  {
    forall t ensures Certifies(After(w, k, r), t, m, j, ignoreFreshness) <==> Certifies(w, t, m, j, ignoreFreshness) {
      CertifiesAfter(w, k, r, t, m, j, ignoreFreshness);
    }
  }

  // ---------- candidates that avoid the result ----------

  /**
   Within `n` levels of dependencies stands the result `d`, supplied by store `k`. Unlike `Contains` this asks for
   no complete unfolding: dependencies may be missing, invalid or cyclic.
   */
  ghost predicate Reaches(w: World, m: Manifest, j: nat, k: nat, d: Digest, n: nat)
    decreases n, 0
  {
    && ValidManifest(m)
    && (|| (j == k && ManifestDigest(m) == d)
        || (n > 0 && exists i | 0 <= i < |Dependencies(m)| :: ReachesBelow(w, Dependencies(m)[i].resultDigest, k, d, n - 1)))
  }

  ghost predicate ReachesBelow(w: World, upstream: Digest, k: nat, d: Digest, n: nat)
    decreases n, 1
  {
    var found := Locate(w.stores, upstream);
    found.Found? && Reaches(w, found.manifest, found.store, k, d, n)
  }

  /** The dependency that leads to the result. */
  lemma WayToResult(w: World, m: Manifest, j: nat, k: nat, d: Digest, n: nat) returns (i: nat, found: Location)
    requires Reaches(w, m, j, k, d, n) && (j != k || ManifestDigest(m) != d)
    ensures n > 0 && i < |Dependencies(m)| && found == Locate(w.stores, Dependencies(m)[i].resultDigest)
    ensures found.Found? && Reaches(w, found.manifest, found.store, k, d, n - 1)
  {
    i :| 0 <= i < |Dependencies(m)| && ReachesBelow(w, Dependencies(m)[i].resultDigest, k, d, n - 1);
    found := Locate(w.stores, Dependencies(m)[i].resultDigest);
  }

  lemma UnfoldsAt(w: World, t: Tree, i: nat)
    requires Unfolds(w, t) && i < |t.upstream|
    ensures i < |Dependencies(t.manifest)| && Unfolds(w, t.upstream[i])
    ensures Locate(w.stores, Dependencies(t.manifest)[i].resultDigest) ==
            Found(t.upstream[i].manifest, t.upstream[i].store)
  {
  }

  lemma {:induction false} ReachedIsContained(w: World, t: Tree, k: nat, d: Digest, n: nat)
    requires Unfolds(w, t) && Reaches(w, t.manifest, t.store, k, d, n)
    ensures Contains(w, t, k, d)
    decreases n
  {
    if t.store != k || ManifestDigest(t.manifest) != d {
      var i, found := WayToResult(w, t.manifest, t.store, k, d, n);
      UnfoldsAt(w, t, i);
      ReachedIsContained(w, t.upstream[i], k, d, n - 1);
    }
  }

  /** The record is read for no other manifest, and not from another store. */
  lemma OthersExaminedAlike(w: World, k: nat, r: Invalidation, m: Manifest, j: nat, root: bool, ignoreFreshness: bool)
    requires k < |w.stores| && w.stores[k].invalidations.Some? && j < |w.stores| && ValidManifest(m)
    requires !(j == k && ManifestDigest(m) == r.resultDigest)
    ensures Examine(After(w, k, r), m, j, root, ignoreFreshness) == Examine(w, m, j, root, ignoreFreshness)
  {
    assert InvalidationsOf(After(w, k, r).stores[j], ManifestDigest(m)) == InvalidationsOf(w.stores[j], ManifestDigest(m));
  }

  lemma {:induction false} UnreachedEvaluatedAlike(w: World, k: nat, r: Invalidation, requested: Text, m: Manifest, j: nat,
                                                   active: set<Digest>, edges: nat, depth: nat, n: int,
                                                   ignoreFreshness: bool, cycles: bool)
    requires k < |w.stores| && w.stores[k].invalidations.Some? && j < |w.stores|
    requires depth + n == w.policy.maxDepth && -1 <= n && (0 <= n ==> !Reaches(w, m, j, k, r.resultDigest, n))
    ensures Evaluate(After(w, k, r), requested, m, j, active, edges, depth, ignoreFreshness, cycles) ==
            Evaluate(w, requested, m, j, active, edges, depth, ignoreFreshness, cycles)
    decreases w.policy.maxDepth + 1 - depth, 2, 0
  {
    if ValidManifest(m) && depth <= w.policy.maxDepth {
      OthersExaminedAlike(w, k, r, m, j, depth == 0, ignoreFreshness);
      UnreachedFromAlike(w, k, r, m, 0, active + {ManifestDigest(m)}, edges, depth, cycles);
    }
  }

  /** No dependency of `m` leads to the result within the levels that are left. */
  ghost predicate NoneReaches(w: World, m: Manifest, k: nat, d: Digest, depth: nat)
    requires depth <= w.policy.maxDepth
  {
    depth < w.policy.maxDepth ==>
      forall i | 0 <= i < |Dependencies(m)| ::
        !ReachesBelow(w, Dependencies(m)[i].resultDigest, k, d, w.policy.maxDepth - depth - 1)
  }

  lemma {:induction false} UnreachedFromAlike(w: World, k: nat, r: Invalidation, m: Manifest, i: nat, active: set<Digest>,
                                              edges: nat, depth: nat, cycles: bool)
    requires k < |w.stores| && w.stores[k].invalidations.Some? && i <= |Dependencies(m)| && depth <= w.policy.maxDepth
    requires NoneReaches(w, m, k, r.resultDigest, depth)
    ensures EvaluateFrom(After(w, k, r), m, i, active, edges, depth, cycles) ==
            EvaluateFrom(w, m, i, active, edges, depth, cycles)
    decreases w.policy.maxDepth + 1 - depth, 1, |Dependencies(m)| - i
  {
    if i < |Dependencies(m)| {
      var d := Dependencies(m)[i].resultDigest;
      UnreachedUpstreamAlike(w, k, r, d, active, edges, depth, cycles);
      var (failure, edges') := EvaluateUpstream(w, d, active, edges, depth, cycles);
      if failure.None? {
        UnreachedFromAlike(w, k, r, m, i + 1, active, edges', depth, cycles);
      }
    }
  }

  lemma {:induction false} UnreachedUpstreamAlike(w: World, k: nat, r: Invalidation, d: Digest, active: set<Digest>,
                                                  edges: nat, depth: nat, cycles: bool)
    requires k < |w.stores| && w.stores[k].invalidations.Some? && depth <= w.policy.maxDepth
    requires depth < w.policy.maxDepth ==> !ReachesBelow(w, d, k, r.resultDigest, w.policy.maxDepth - depth - 1)
    ensures EvaluateUpstream(After(w, k, r), d, active, edges, depth, cycles) ==
            EvaluateUpstream(w, d, active, edges, depth, cycles)
    decreases w.policy.maxDepth + 1 - depth, 0, 0
  {
    SameAnswers(w.stores, After(w, k, r).stores, d);
    var found := Locate(w.stores, d);
    if found.Found? {
      UnreachedEvaluatedAlike(w, k, r, found.manifest.actionDigest, found.manifest, found.store, active, edges + 1,
                              depth + 1, w.policy.maxDepth - depth - 1, false, cycles);
    }
    UpstreamAlike(w, After(w, k, r), d, active, edges, depth, cycles);
  }

  /** The same result is located and gets the same evaluation: the edge has the same outcome. */
  lemma UpstreamAlike(w: World, w': World, d: Digest, active: set<Digest>, edges: nat, depth: nat, cycles: bool)
    requires w.policy == w'.policy && |w.stores| == |w'.stores| && depth <= w.policy.maxDepth
    requires Locate(w.stores, d) == Locate(w'.stores, d)
    requires var found := Locate(w.stores, d);
      found.Found? ==>
        var (m, k) := (found.manifest, found.store);
        Evaluate(w, m.actionDigest, m, k, active, edges + 1, depth + 1, false, cycles) ==
        Evaluate(w', m.actionDigest, m, k, active, edges + 1, depth + 1, false, cycles)
    ensures EvaluateUpstream(w, d, active, edges, depth, cycles) == EvaluateUpstream(w', d, active, edges, depth, cycles)
  {
  }

  /**
   Whoever does not reach the result within the depth bound keeps its whole verdict, accepted or not: artifacts,
   validation and reason. The record may be trusted and effective or not.
   */
  lemma UnreachedVerdictKept(w: World, k: nat, r: Invalidation, requested: Text, m: Manifest, j: nat, ignoreFreshness: bool)
    requires k < |w.stores| && w.stores[k].invalidations.Some? && j < |w.stores|
    requires !Reaches(w, m, j, k, r.resultDigest, w.policy.maxDepth)
    ensures VerdictOn(After(w, k, r), requested, m, j, ignoreFreshness) == VerdictOn(w, requested, m, j, ignoreFreshness)
  {
    UnreachedEvaluatedAlike(w, k, r, requested, m, j, {}, 0, 0, w.policy.maxDepth, ignoreFreshness, true);
  }

  /** A candidate whose complete unfolding avoids the result keeps its whole verdict, whatever that verdict is. */
  lemma IndependentVerdictKept(w: World, k: nat, r: Invalidation, requested: Text, t: Tree, ignoreFreshness: bool)
    requires k < |w.stores| && w.stores[k].invalidations.Some?
    requires Unfolds(w, t) && !Contains(w, t, k, r.resultDigest)
    ensures VerdictOn(After(w, k, r), requested, t.manifest, t.store, ignoreFreshness) ==
            VerdictOn(w, requested, t.manifest, t.store, ignoreFreshness)
  {
    if Reaches(w, t.manifest, t.store, k, r.resultDigest, w.policy.maxDepth) {
      ReachedIsContained(w, t, k, r.resultDigest, w.policy.maxDepth);
    }
    UnreachedVerdictKept(w, k, r, requested, t.manifest, t.store, ignoreFreshness);
  }
}
