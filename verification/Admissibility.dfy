/** The traversal and the unfolding agree; what time, invalidation and the cycle check can change. */
module Admissibility {
  import opened Text
  import opened Digests
  import opened Records
  import opened Stores
  import opened Evaluation
  import opened Lineage

  /** The verdict of a fresh traversal on candidate `m` of store `k`. */
  ghost function VerdictOn(w: World, requested: Text, m: Manifest, k: nat, ignoreFreshness: bool): Verdict
    requires k < |w.stores|
  {
    Evaluate(w, requested, m, k, {}, 0, 0, ignoreFreshness, true).0
  }

  // ---------- unfoldings ----------

  /** What hangs below a manifest does not depend on where the manifest was found. */
  lemma {:induction false} SameManifestSameUpstream(w: World, a: Tree, b: Tree)
    requires Unfolds(w, a) && Unfolds(w, b) && a.manifest == b.manifest
    ensures a.upstream == b.upstream
    decreases a
  {
    forall i | 0 <= i < |a.upstream| ensures a.upstream[i] == b.upstream[i] {
      SameManifestSameUpstream(w, a.upstream[i], b.upstream[i]);
    }
  }

  /** A candidate has at most one complete unfolding. */
  lemma UnfoldingUnique(w: World, a: Tree, b: Tree)
    requires Unfolds(w, a) && Unfolds(w, b) && a.manifest == b.manifest && a.store == b.store
    ensures a == b
  {
    SameManifestSameUpstream(w, a, b);
  }

  lemma {:induction false} SubtreeIsSmaller(t: Tree, i: nat, k: nat)
    requires k <= i < |t.upstream|
    ensures Edges(t.upstream[i]) < EdgesFrom(t, k)
    decreases i - k
  {
    if k < i {
      SubtreeIsSmaller(t, i, k + 1);
    }
  }

  lemma SameEdges(a: Tree, b: Tree)
    requires a.upstream == b.upstream
    ensures Edges(a) == Edges(b)
  {
    EdgesOfList(a, 0);
    EdgesOfList(b, 0);
    assert a.upstream[0..] == a.upstream;
    assert b.upstream[0..] == b.upstream;
  }

  /** Digests above a tree all belong to larger unfoldings. */
  ghost predicate OnlyLarger(w: World, t: Tree, above: set<Digest>) {
    forall u {:trigger Unfolds(w, u)} :: Unfolds(w, u) && ManifestDigest(u.manifest) in above ==> Edges(u) > Edges(t)
  }

  /**
   A finite unfolding never meets a digest below itself: equal digests are equal manifests, equal manifests
   unfold alike, and a tree is larger than its subtrees.
   */
  lemma {:induction false} FiniteUnfoldingNeverRepeats(w: World, t: Tree, above: set<Digest>)
    requires Unfolds(w, t) && OnlyLarger(w, t, above)
    ensures NoRepeats(w, t, above)
    decreases t
  {
    var d := ManifestDigest(t.manifest);
    forall i | 0 <= i < |t.upstream| ensures NoRepeats(w, t.upstream[i], above + {d}) {
      SubtreeIsSmaller(t, i, 0);
      forall u {:trigger Unfolds(w, u)} | Unfolds(w, u) && ManifestDigest(u.manifest) in above + {d}
        ensures Edges(u) > Edges(t.upstream[i])
      {
        if ManifestDigest(u.manifest) == d {
          ManifestDigestInjective(u.manifest, t.manifest);
          SameManifestSameUpstream(w, u, t);
          SameEdges(u, t);
        }
      }
      FiniteUnfoldingNeverRepeats(w, t.upstream[i], above + {d});
    }
  }

  // ---------- the exact characterization ----------

  /**
   A candidate is accepted exactly when it answers the request and its dependency unfolding is a finite tree of
   sound manifests within the depth and edge bounds. The cycle check adds nothing to that.
   */
  lemma AcceptedExactlyWhenAdmissible(w: World, requested: Text, m: Manifest, k: nat, ignoreFreshness: bool, cycles: bool)
    requires k < |w.stores|
    ensures Evaluate(w, requested, m, k, {}, 0, 0, ignoreFreshness, cycles).0.Accepted?
       <==> m.actionDigest == requested && Admissible(w, m, k, ignoreFreshness)
  {
    if Evaluate(w, requested, m, k, {}, 0, 0, ignoreFreshness, cycles).0.Accepted? {
      var t := AcceptedIsCertified(w, requested, m, k, {}, 0, 0, w.policy.maxDepth, true, ignoreFreshness, cycles);
      assert Certifies(w, t, m, k, ignoreFreshness);
    }
    if m.actionDigest == requested && Admissible(w, m, k, ignoreFreshness) {
      var t :| Certifies(w, t, m, k, ignoreFreshness);
      CertificateGivesVerdict(w, t, m, k, ignoreFreshness, cycles);
    }
  }

  /** A certified candidate is accepted with its own artifacts, at the price of its edges, repeating no digest. */
  lemma CertificateGivesVerdict(w: World, t: Tree, m: Manifest, k: nat, ignoreFreshness: bool, cycles: bool)
    requires k < |w.stores| && Certifies(w, t, m, k, ignoreFreshness)
    ensures NoRepeats(w, t, {})
    ensures var r := Evaluate(w, m.actionDigest, m, k, {}, 0, 0, ignoreFreshness, cycles);
      r.0 == Examine(w, m, k, true, ignoreFreshness) && r.0.Accepted? && r.1 == Edges(t)
  {
    FiniteUnfoldingNeverRepeats(w, t, {});
    CertifiedIsAccepted(w, t, {}, 0, 0, w.policy.maxDepth, true, ignoreFreshness, cycles);
  }

  /** Without the cycle check every verdict is the same, except that a reported cycle gets another reason. */
  lemma CycleCheckChangesOnlyTheReason(w: World, requested: Text, m: Manifest, k: nat, ignoreFreshness: bool)
    requires k < |w.stores|
    ensures var checked := VerdictOn(w, requested, m, k, ignoreFreshness);
      var unchecked := Evaluate(w, requested, m, k, {}, 0, 0, ignoreFreshness, false).0;
      checked == unchecked || (checked == Rejected(DependencyCycle) && !unchecked.Accepted?)
  {
    UncheckedAgrees(w, requested, m, k, {}, 0, 0, ignoreFreshness);
    AcceptedExactlyWhenAdmissible(w, requested, m, k, ignoreFreshness, true);
    AcceptedExactlyWhenAdmissible(w, requested, m, k, ignoreFreshness, false);
  }

  lemma {:induction false} UncheckedAgrees(w: World, requested: Text, m: Manifest, k: nat, active: set<Digest>,
                                           edges: nat, depth: nat, ignoreFreshness: bool)
    requires k < |w.stores| && depth <= w.policy.maxDepth + 1
    ensures var checked := Evaluate(w, requested, m, k, active, edges, depth, ignoreFreshness, true);
      checked == Evaluate(w, requested, m, k, active, edges, depth, ignoreFreshness, false) ||
      checked.0 == Rejected(DependencyCycle)
    decreases w.policy.maxDepth + 1 - depth, 2, 0
  {
    if ValidManifest(m) && depth <= w.policy.maxDepth {
      UncheckedFromAgrees(w, m, 0, active + {ManifestDigest(m)}, edges, depth);
    }
  }

  lemma {:induction false} UncheckedFromAgrees(w: World, m: Manifest, i: nat, active: set<Digest>, edges: nat, depth: nat)
    requires i <= |Dependencies(m)| && depth <= w.policy.maxDepth
    ensures var checked := EvaluateFrom(w, m, i, active, edges, depth, true);
      checked == EvaluateFrom(w, m, i, active, edges, depth, false) || checked.0 == Some(Rejected(DependencyCycle))
    decreases w.policy.maxDepth + 1 - depth, 1, |Dependencies(m)| - i
  {
    if i < |Dependencies(m)| {
      var d := Dependencies(m)[i].resultDigest;
      UncheckedUpstreamAgrees(w, d, active, edges, depth);
      var (failure, edges') := EvaluateUpstream(w, d, active, edges, depth, true);
      if failure.None? {
        UncheckedFromAgrees(w, m, i + 1, active, edges', depth);
      }
    }
  }

  lemma {:induction false} UncheckedUpstreamAgrees(w: World, d: Digest, active: set<Digest>, edges: nat, depth: nat)
    requires depth <= w.policy.maxDepth
    ensures var checked := EvaluateUpstream(w, d, active, edges, depth, true);
      checked == EvaluateUpstream(w, d, active, edges, depth, false) || checked.0 == Some(Rejected(DependencyCycle))
    decreases w.policy.maxDepth + 1 - depth, 0, 0
  {
    var found := Locate(w.stores, d);
    if found.Found? {
      UncheckedAgrees(w, found.manifest.actionDigest, found.manifest, found.store, active, edges + 1, depth + 1, false);
    }
  }

  // ---------- what depth and edges measure ----------

  /** A way down the tree: at each level the position of a dependency. */
  ghost predicate IsPath(t: Tree, path: seq<nat>)
    decreases |path|
  {
    path != [] ==> path[0] < |t.upstream| && IsPath(t.upstream[path[0]], path[1..])
  }

  /** The depth bound is a bound on every way down. */
  lemma {:induction false} DepthMeans(t: Tree, n: int)
    ensures DepthAtMost(t, n) <==> forall path: seq<nat> | IsPath(t, path) :: |path| <= n
    decreases t
  {
    forall i: nat | i < |t.upstream|
      ensures DepthAtMost(t.upstream[i], n - 1) <==> forall path: seq<nat> | IsPath(t.upstream[i], path) :: |path| <= n - 1
    {
      DepthMeans(t.upstream[i], n - 1);
    }
    assert IsPath(t, []);
    if forall path: seq<nat> | IsPath(t, path) :: |path| <= n {
      forall i: nat, path: seq<nat> | i < |t.upstream| && IsPath(t.upstream[i], path) ensures |path| <= n - 1 {
        assert ([i] + path)[1..] == path && IsPath(t, [i] + path);
      }
    }
  }

  /** The edge count is the number of ways down that take at least one edge: a shared dependency counts on each way. */
  lemma {:induction false} EdgesMeans(t: Tree, i: nat) returns (paths: set<seq<nat>>)
    requires i <= |t.upstream|
    ensures forall path: seq<nat> :: path in paths <==> path != [] && path[0] >= i && IsPath(t, path)
    ensures |paths| == EdgesFrom(t, i)
    decreases t, |t.upstream| - i
  {
    if i == |t.upstream| {
      paths := {};
    } else {
      var below := EdgesMeans(t.upstream[i], 0);
      var later := EdgesMeans(t, i + 1);
      var through := PathsThrough(t, i, below);
      assert through !! later;
      paths := through + later;
    }
  }

  lemma PathsThrough(t: Tree, i: nat, below: set<seq<nat>>) returns (paths: set<seq<nat>>)
    requires i < |t.upstream|
    requires forall path: seq<nat> :: path in below <==> path != [] && IsPath(t.upstream[i], path)
    ensures forall path: seq<nat> :: path in paths <==> path != [] && path[0] == i && IsPath(t, path)
    ensures |paths| == 1 + |below|
  {
    var longer := set path | path in below :: [i] + path;
    PrefixedSize(i, below, longer);
    assert [i] !in longer;
    paths := {[i]} + longer;
    forall path: seq<nat> | path in paths ensures path != [] && path[0] == i && IsPath(t, path) {
      assert IsPath(t.upstream[i], []) && [i][1..] == [];
      if path in longer {
        var rest :| rest in below && path == [i] + rest;
        assert path[1..] == rest;
      }
    }
    forall path: seq<nat> | path != [] && path[0] == i && IsPath(t, path) ensures path in paths {
      var rest := path[1..];
      assert path == [i] + rest;
      if rest != [] {
        assert rest in below && [i] + rest in longer;
      } else {
        assert path == [i];
      }
    }
  }

  lemma {:induction false} PrefixedSize(i: nat, s: set<seq<nat>>, prefixed: set<seq<nat>>)
    requires prefixed == set path | path in s :: [i] + path
    ensures |prefixed| == |s|
    decreases s
  {
    if path :| path in s {
      var rest := s - {path};
      var shorter := set q | q in rest :: [i] + q;
      PrefixedSize(i, rest, shorter);
      forall q | q in rest ensures [i] + q != [i] + path {
        assert ([i] + q)[1..] == q && ([i] + path)[1..] == path;
      }
      assert prefixed == shorter + {[i] + path};
    }
  }

  // ---------- read errors ----------

  /** No blob read fails. */
  ghost predicate BlobsReadable(w: World) {
    forall k, d | 0 <= k < |w.stores| :: w.stores[k].blob(d).Readable?
  }

  lemma {:induction false} LoadNeverRaises(xs: seq<Descriptor>, blob: Digest -> Read<Option<Bytes>>, loaded: map<Text, Bytes>)
    requires forall d :: blob(d).Readable?
    ensures !Load(xs, blob, loaded).Raised?
  {
    if xs != [] && Intact(xs[0], blob(xs[0].digest)) {
      LoadNeverRaises(xs[1..], blob, loaded[xs[0].name := blob(xs[0].digest).value.value]);
    }
  }

  /** Where blob reads succeed, no evaluation ends in a read error. */
  lemma {:induction false} EvaluationNeverRaises(w: World, requested: Text, m: Manifest, k: nat, active: set<Digest>,
                                                 edges: nat, depth: nat, ignoreFreshness: bool)
    requires BlobsReadable(w) && k < |w.stores| && depth <= w.policy.maxDepth + 1
    ensures !Evaluate(w, requested, m, k, active, edges, depth, ignoreFreshness, true).0.Raised?
    decreases w.policy.maxDepth + 1 - depth, 2, 0
  {
    if ValidManifest(m) && depth <= w.policy.maxDepth {
      LoadNeverRaises(m.artifacts, w.stores[k].blob, map[]);
      FromNeverRaises(w, m, 0, active + {ManifestDigest(m)}, edges, depth);
    }
  }

  lemma {:induction false} FromNeverRaises(w: World, m: Manifest, i: nat, active: set<Digest>, edges: nat, depth: nat)
    requires BlobsReadable(w) && i <= |Dependencies(m)| && depth <= w.policy.maxDepth
    ensures EvaluateFrom(w, m, i, active, edges, depth, true).0 != Some(Raised)
    decreases w.policy.maxDepth + 1 - depth, 1, |Dependencies(m)| - i
  {
    if i < |Dependencies(m)| {
      var d := Dependencies(m)[i].resultDigest;
      var found := Locate(w.stores, d);
      if found.Found? {
        EvaluationNeverRaises(w, found.manifest.actionDigest, found.manifest, found.store, active, edges + 1, depth + 1,
                              false);
      }
      FromNeverRaises(w, m, i + 1, active, EvaluateUpstream(w, d, active, edges, depth, true).1, depth);
    }
  }

  // ---------- time ----------

  ghost function At(w: World, now: Time): World {
    w.(policy := w.policy.(now := now))
  }

  lemma {:induction false} SoundEarlier(w: World, t: Tree, root: bool, ignoreFreshness: bool, now: Time)
    requires now <= w.policy.now && Unfolds(w, t) && AllSound(w, t, root, ignoreFreshness)
    ensures Unfolds(At(w, now), t) && AllSound(At(w, now), t, root, ignoreFreshness)
    decreases t
  {
    forall i | 0 <= i < |t.upstream|
      ensures Unfolds(At(w, now), t.upstream[i]) && AllSound(At(w, now), t.upstream[i], false, false)
    {
      SoundEarlier(w, t.upstream[i], false, false, now);
    }
    ManifestSoundEarlier(w, t.manifest, t.store, root, ignoreFreshness, now);
  }

  lemma ManifestSoundEarlier(w: World, m: Manifest, k: nat, root: bool, ignoreFreshness: bool, now: Time)
    requires now <= w.policy.now && k < |w.stores| && ValidManifest(m) && Sound(w, m, k, root, ignoreFreshness)
    ensures Sound(At(w, now), m, k, root, ignoreFreshness)
  {
    var s, d := w.stores[k], ManifestDigest(m);
    assert forall v :: w.policy.Extends(v) ==> At(w, now).policy.Extends(v);
    assert forall r :: At(w, now).policy.Effective(r) ==> w.policy.Effective(r);
  }

  /** With the stores fixed, whatever is admissible at one time was admissible at every earlier time. */
  lemma AdmissibleEarlier(w: World, m: Manifest, k: nat, ignoreFreshness: bool, now: Time)
    requires now <= w.policy.now && Admissible(w, m, k, ignoreFreshness)
    ensures Admissible(At(w, now), m, k, ignoreFreshness)
  {
    var t :| Certifies(w, t, m, k, ignoreFreshness);
    SoundEarlier(w, t, true, ignoreFreshness, now);
    assert Certifies(At(w, now), t, m, k, ignoreFreshness);
  }
}
