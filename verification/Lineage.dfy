/**
 Which candidates are admissible, said without the traversal: a candidate is accepted exactly when its complete
 dependency unfolding is a finite tree of sound manifests within the policy's depth and edge bounds.
 */
module Lineage {
  import opened Text
  import opened Digests
  import opened Records
  import opened Stores
  import opened Evaluation

  /** A dependency unfolding: a manifest, the store that supplied it, and one subtree per dependency. */
  datatype Tree = Tree(manifest: Manifest, store: nat, upstream: seq<Tree>)

  /** Every dependency is located, and its subtree unfolds what was located. */
  ghost predicate Unfolds(w: World, t: Tree) {
    && t.store < |w.stores|
    && ValidManifest(t.manifest)
    && |t.upstream| == |Dependencies(t.manifest)|
    && forall i | 0 <= i < |t.upstream| ::
         && Locate(w.stores, Dependencies(t.manifest)[i].resultDigest) == Found(t.upstream[i].manifest, t.upstream[i].store)
         && Unfolds(w, t.upstream[i])
  }

  ghost predicate UninvalidatedIn(s: Store, d: Digest, policy: Policy, required: bool) {
    if s.invalidations.None? then !required
    else
      && s.invalidations.value(d).Readable?
      && forall r | r in s.invalidations.value(d).value :: !policy.Effective(r)
  }

  ghost predicate FreshIn(s: Store, m: Manifest, policy: Policy)
    requires ValidManifest(m)
  {
    || (m.freshUntil.Some? && m.freshUntil.value >= policy.now)
    || (&& s.validations(ManifestDigest(m)).Readable?
        && ((exists v | v in s.validations(ManifestDigest(m)).value :: policy.Extends(v))
            || (m.freshUntil.None? && policy.permitNoExpiry)))
  }

  /** One manifest is acceptable on its own: lineage form, trust, invalidation, freshness, artifacts. */
  ghost predicate Sound(w: World, m: Manifest, k: nat, root: bool, ignoreFreshness: bool)
    requires k < |w.stores| && ValidManifest(m)
  {
    var s := w.stores[k];
    && (w.policy.requireLineage ==> m.version == ResultV1)
    && Policy.Trusts(w.policy.trustedProducers, m.producer)
    && UninvalidatedIn(s, ManifestDigest(m), w.policy, m.version == ResultV1 || !root)
    && (ignoreFreshness || FreshIn(s, m, w.policy))
    && (forall a | a in m.artifacts :: Intact(a, s.blob(a.digest)))
  }

  /** Only the root may be excused from freshness. */
  ghost predicate AllSound(w: World, t: Tree, root: bool, ignoreFreshness: bool)
    requires Unfolds(w, t)
  {
    && Sound(w, t.manifest, t.store, root, ignoreFreshness)
    && forall i | 0 <= i < |t.upstream| :: AllSound(w, t.upstream[i], false, false)
  }

  ghost predicate DepthAtMost(t: Tree, n: int) {
    0 <= n && forall i | 0 <= i < |t.upstream| :: DepthAtMost(t.upstream[i], n - 1)
  }

  /** Edges of the tree unfolding: a shared dependency counts once for every path to it. */
  function Edges(t: Tree): nat {
    EdgesFrom(t, 0)
  }

  function EdgesFrom(t: Tree, i: nat): nat
    requires i <= |t.upstream|
    decreases t, |t.upstream| - i
  {
    if i == |t.upstream| then 0 else 1 + EdgesFrom(t.upstream[i], 0) + EdgesFrom(t, i + 1)
  }

  /** No digest occurs below itself, nor below one of `above`. */
  ghost predicate NoRepeats(w: World, t: Tree, above: set<Digest>)
    requires Unfolds(w, t)
  {
    && ManifestDigest(t.manifest) !in above
    && forall i | 0 <= i < |t.upstream| :: NoRepeats(w, t.upstream[i], above + {ManifestDigest(t.manifest)})
  }

  /** The tree shows that candidate `m` of store `k` is admissible. */
  ghost predicate Certifies(w: World, t: Tree, m: Manifest, k: nat, ignoreFreshness: bool) {
    && t.manifest == m && t.store == k
    && Unfolds(w, t)
    && AllSound(w, t, true, ignoreFreshness)
    && DepthAtMost(t, w.policy.maxDepth)
    && Edges(t) <= w.policy.maxCount
  }

  ghost predicate Admissible(w: World, m: Manifest, k: nat, ignoreFreshness: bool) {
    exists t :: Certifies(w, t, m, k, ignoreFreshness)
  }

  // ---------- one manifest ----------

  lemma {:induction false} LoadAccepts(xs: seq<Descriptor>, blob: Digest -> Read<Option<Bytes>>, loaded: map<Text, Bytes>)
    ensures Load(xs, blob, loaded).Accepted? <==> forall a | a in xs :: Intact(a, blob(a.digest))
  {
    if xs != [] {
      assert forall a :: a in xs <==> a == xs[0] || a in xs[1..];
      if Intact(xs[0], blob(xs[0].digest)) {
        LoadAccepts(xs[1..], blob, loaded[xs[0].name := blob(xs[0].digest).value.value]);
      }
    }
  }

  lemma ExamineAccepts(w: World, m: Manifest, k: nat, root: bool, ignoreFreshness: bool)
    requires k < |w.stores| && ValidManifest(m)
    ensures Examine(w, m, k, root, ignoreFreshness).Accepted? && (w.policy.requireLineage ==> m.version == ResultV1)
       <==> Sound(w, m, k, root, ignoreFreshness)
  {
    var s, d := w.stores[k], ManifestDigest(m);
    LoadAccepts(m.artifacts, s.blob, map[]);
    if s.invalidations.Some? && s.invalidations.value(d).Readable? {
      var rs := s.invalidations.value(d).value;
      assert (exists i | 0 <= i < |rs| :: w.policy.Effective(rs[i])) <==> (exists r | r in rs :: w.policy.Effective(r));
    }
    if s.validations(d).Readable? {
      var vs := s.validations(d).value;
      assert FirstExtension(vs, w.policy).Some? <==> exists v | v in vs :: w.policy.Extends(v);
    }
  }

  /** A tree the traversal gets through from where it stands. */
  ghost predicate Passable(w: World, t: Tree, n: int, root: bool, ignoreFreshness: bool) {
    Unfolds(w, t) && AllSound(w, t, root, ignoreFreshness) && DepthAtMost(t, n)
  }

  ghost predicate Unseen(w: World, t: Tree, active: set<Digest>, cycles: bool) {
    Unfolds(w, t) && (cycles ==> NoRepeats(w, t, active))
  }

  /** Below a dependency named `d` hangs a passable tree. */
  ghost predicate Upstream(w: World, d: Digest, t: Tree, n: int) {
    Locate(w.stores, d) == Found(t.manifest, t.store) && Passable(w, t, n, false, false)
  }

  lemma PassableParts(w: World, t: Tree, n: int, below: int, root: bool, ignoreFreshness: bool)
    requires Passable(w, t, n, root, ignoreFreshness) && below == n - 1
    ensures t.store < |w.stores| && ValidManifest(t.manifest) && |t.upstream| == |Dependencies(t.manifest)|
    ensures 0 <= n && Sound(w, t.manifest, t.store, root, ignoreFreshness)
    ensures forall i | 0 <= i < |t.upstream| ::
              Upstream(w, Dependencies(t.manifest)[i].resultDigest, t.upstream[i], below)
  {
  }

  lemma PassableWhole(w: World, t: Tree, n: int, below: int, root: bool, ignoreFreshness: bool)
    requires below == n - 1
    requires t.store < |w.stores| && ValidManifest(t.manifest) && |t.upstream| == |Dependencies(t.manifest)|
    requires 0 <= n && Sound(w, t.manifest, t.store, root, ignoreFreshness)
    requires forall i | 0 <= i < |t.upstream| ::
               Upstream(w, Dependencies(t.manifest)[i].resultDigest, t.upstream[i], below)
    ensures Passable(w, t, n, root, ignoreFreshness)
  {
  }

  // ---------- certificates are accepted ----------

  /** A passable tree within the remaining bounds is accepted, and costs exactly its edges. */
  lemma {:induction false} CertifiedIsAccepted(w: World, t: Tree, active: set<Digest>, edges: nat, depth: nat, n: nat,
                                               root: bool, ignoreFreshness: bool, cycles: bool)
    requires (root <==> depth == 0) && depth + n == w.policy.maxDepth
    requires Passable(w, t, n, root, ignoreFreshness) && Unseen(w, t, active, cycles)
    requires edges + Edges(t) <= w.policy.maxCount
    ensures var r := Evaluate(w, t.manifest.actionDigest, t.manifest, t.store, active, edges, depth, ignoreFreshness,
                              cycles);
      r.0 == Examine(w, t.manifest, t.store, root, ignoreFreshness) && r.1 == edges + Edges(t)
    ensures Examine(w, t.manifest, t.store, root, ignoreFreshness).Accepted?
    decreases t, 2, 0
  {
    PassableParts(w, t, n, n - 1, root, ignoreFreshness);
    ExamineAccepts(w, t.manifest, t.store, root, ignoreFreshness);
    CertifiedFrom(w, t, 0, active + {ManifestDigest(t.manifest)}, edges, depth, n - 1, cycles);
  }

  /** Every dependency of the tree's manifest hangs a passable, unseen tree. */
  ghost predicate AllUpstream(w: World, t: Tree, active: set<Digest>, below: int, cycles: bool) {
    && |t.upstream| == |Dependencies(t.manifest)|
    && forall j | 0 <= j < |t.upstream| ::
         && Upstream(w, Dependencies(t.manifest)[j].resultDigest, t.upstream[j], below)
         && Unseen(w, t.upstream[j], active, cycles)
  }

  lemma UpstreamPart(w: World, t: Tree, i: nat, active: set<Digest>, below: int, cycles: bool)
    requires AllUpstream(w, t, active, below, cycles) && i < |t.upstream|
    ensures i < |Dependencies(t.manifest)|
    ensures Upstream(w, Dependencies(t.manifest)[i].resultDigest, t.upstream[i], below)
    ensures Unseen(w, t.upstream[i], active, cycles)
    ensures EdgesFrom(t, i) == 1 + Edges(t.upstream[i]) + EdgesFrom(t, i + 1)
  {
  }

  lemma NoMoreUpstream(w: World, t: Tree, i: nat, active: set<Digest>, edges: nat, depth: nat, below: int, cycles: bool)
    requires AllUpstream(w, t, active, below, cycles) && i == |t.upstream| && depth <= w.policy.maxDepth
    ensures EvaluateFrom(w, t.manifest, i, active, edges, depth, cycles).0.None?
    ensures EvaluateFrom(w, t.manifest, i, active, edges, depth, cycles).1 == edges && EdgesFrom(t, i) == 0
  {
  }

  lemma {:induction false} CertifiedFrom(w: World, t: Tree, i: nat, active: set<Digest>, edges: nat, depth: nat,
                                         below: int, cycles: bool)
    requires AllUpstream(w, t, active, below, cycles) && i <= |t.upstream| == |Dependencies(t.manifest)|
    requires depth + 1 + below == w.policy.maxDepth && -1 <= below && edges + EdgesFrom(t, i) <= w.policy.maxCount
    ensures EvaluateFrom(w, t.manifest, i, active, edges, depth, cycles).0.None?
    ensures EvaluateFrom(w, t.manifest, i, active, edges, depth, cycles).1 == edges + EdgesFrom(t, i)
    decreases t, 1, |t.upstream| - i
  {
    if i < |t.upstream| {
      UpstreamPart(w, t, i, active, below, cycles);
      var after := CertifiedUpstream(w, Dependencies(t.manifest)[i].resultDigest, t.upstream[i], active, edges, depth, below,
                                     cycles);
      FromStep(w, t.manifest, i, active, edges, depth, cycles, after);
      CertifiedFrom(w, t, i + 1, active, after, depth, below, cycles);
    } else {
      NoMoreUpstream(w, t, i, active, edges, depth, below, cycles);
    }
  }

  lemma {:induction false} CertifiedUpstream(w: World, d: Digest, u: Tree, active: set<Digest>, edges: nat, depth: nat,
                                             n: int, cycles: bool)
    returns (after: nat)
    requires depth + 1 + n == w.policy.maxDepth && Upstream(w, d, u, n) && Unseen(w, u, active, cycles)
    requires edges + 1 + Edges(u) <= w.policy.maxCount
    ensures EvaluateUpstream(w, d, active, edges, depth, cycles).0.None?
    ensures EvaluateUpstream(w, d, active, edges, depth, cycles).1 == after == edges + 1 + Edges(u)
    decreases u, 3, 0
  {
    after := edges + 1 + Edges(u);
    PassableParts(w, u, n, n - 1, false, false);
    CertifiedIsAccepted(w, u, active, edges + 1, depth + 1, n, false, false, cycles);
    UpstreamStep(w, d, active, edges, depth, cycles, u.manifest, u.store);
  }

  lemma UpstreamStep(w: World, d: Digest, active: set<Digest>, edges: nat, depth: nat, cycles: bool, m: Manifest, k: nat)
    requires k < |w.stores| && depth <= w.policy.maxDepth && edges + 1 <= w.policy.maxCount
    requires Locate(w.stores, d) == Found(m, k)
    requires Evaluate(w, m.actionDigest, m, k, active, edges + 1, depth + 1, false, cycles).0.Accepted?
    ensures EvaluateUpstream(w, d, active, edges, depth, cycles).0.None?
    ensures EvaluateUpstream(w, d, active, edges, depth, cycles).1 ==
      Evaluate(w, m.actionDigest, m, k, active, edges + 1, depth + 1, false, cycles).1
  {
  }

  lemma FromStep(w: World, m: Manifest, i: nat, active: set<Digest>, edges: nat, depth: nat, cycles: bool, edges': nat)
    requires i < |Dependencies(m)| && depth <= w.policy.maxDepth
    requires EvaluateUpstream(w, Dependencies(m)[i].resultDigest, active, edges, depth, cycles).0.None?
    requires EvaluateUpstream(w, Dependencies(m)[i].resultDigest, active, edges, depth, cycles).1 == edges'
    ensures EvaluateFrom(w, m, i, active, edges, depth, cycles).0 ==
      EvaluateFrom(w, m, i + 1, active, edges', depth, cycles).0
    ensures EvaluateFrom(w, m, i, active, edges, depth, cycles).1 ==
      EvaluateFrom(w, m, i + 1, active, edges', depth, cycles).1
  {
  }

  // ---------- what is accepted has a certificate ----------

  /** Acceptance builds the unfolding that justifies it. */
  lemma {:induction false} AcceptedIsCertified(w: World, requested: Text, m: Manifest, k: nat, active: set<Digest>,
                                               edges: nat, depth: nat, n: int, root: bool, ignoreFreshness: bool,
                                               cycles: bool)
    returns (t: Tree)
    requires k < |w.stores| && (root <==> depth == 0) && depth + n == w.policy.maxDepth && -1 <= n
    requires edges <= w.policy.maxCount
    requires Evaluate(w, requested, m, k, active, edges, depth, ignoreFreshness, cycles).0.Accepted?
    ensures m.actionDigest == requested && 0 <= n
    ensures t.manifest == m && t.store == k && Passable(w, t, n, root, ignoreFreshness)
    ensures Evaluate(w, requested, m, k, active, edges, depth, ignoreFreshness, cycles).1 == edges + Edges(t)
    ensures edges + Edges(t) <= w.policy.maxCount
    decreases n + 1, 1, 0
  {
    ExamineAccepts(w, m, k, root, ignoreFreshness);
    var upstream := AcceptedFrom(w, m, 0, active + {ManifestDigest(m)}, edges, depth, n - 1, cycles);
    t := Tree(m, k, upstream);
    EdgesOfTree(t);
    TreeOfList(w, t, n, n - 1, root, ignoreFreshness);
  }

  lemma TreeOfList(w: World, t: Tree, n: int, below: int, root: bool, ignoreFreshness: bool)
    requires t.store < |w.stores| && ValidManifest(t.manifest) && 0 <= n && below == n - 1
    requires Sound(w, t.manifest, t.store, root, ignoreFreshness) && UpstreamList(w, t.manifest, 0, t.upstream, below)
    ensures Passable(w, t, n, root, ignoreFreshness)
  {
    UpstreamEverywhere(w, t.manifest, t.upstream, below);
    PassableWhole(w, t, n, below, root, ignoreFreshness);
  }

  lemma EdgesOfTree(t: Tree)
    ensures Edges(t) == EdgeSum(t.upstream)
  {
    EdgesOfList(t, 0);
    assert t.upstream[0..] == t.upstream;
  }

  /** Trees for the dependencies of `m` from position `i` on. */
  ghost predicate UpstreamList(w: World, m: Manifest, i: nat, ts: seq<Tree>, n: int)
    decreases |ts|
  {
    && i + |ts| == |Dependencies(m)|
    && (ts != [] ==> Upstream(w, Dependencies(m)[i].resultDigest, ts[0], n) && UpstreamList(w, m, i + 1, ts[1..], n))
  }

  lemma {:induction false} UpstreamAt(w: World, m: Manifest, i: nat, ts: seq<Tree>, n: int, j: nat)
    requires UpstreamList(w, m, i, ts, n) && j < |ts|
    ensures Upstream(w, Dependencies(m)[i + j].resultDigest, ts[j], n)
    decreases j
  {
    if j > 0 {
      UpstreamAt(w, m, i + 1, ts[1..], n, j - 1);
      assert ts[1..][j - 1] == ts[j] && i + 1 + (j - 1) == i + j;
    }
  }

  lemma UpstreamEverywhere(w: World, m: Manifest, ts: seq<Tree>, n: int)
    requires UpstreamList(w, m, 0, ts, n)
    ensures forall j | 0 <= j < |ts| :: Upstream(w, Dependencies(m)[j].resultDigest, ts[j], n)
  {
    forall j | 0 <= j < |ts| ensures Upstream(w, Dependencies(m)[j].resultDigest, ts[j], n) {
      UpstreamAt(w, m, 0, ts, n, j);
    }
  }

  function EdgeSum(ts: seq<Tree>): nat {
    if ts == [] then 0 else 1 + Edges(ts[0]) + EdgeSum(ts[1..])
  }

  lemma {:induction false} EdgesOfList(t: Tree, i: nat)
    requires i <= |t.upstream|
    ensures EdgesFrom(t, i) == EdgeSum(t.upstream[i..])
    decreases |t.upstream| - i
  {
    if i < |t.upstream| {
      EdgesOfList(t, i + 1);
      assert t.upstream[i..][1..] == t.upstream[i + 1..];
    }
  }

  lemma {:induction false} AcceptedFrom(w: World, m: Manifest, i: nat, active: set<Digest>, edges: nat,
                                        depth: nat, below: int, cycles: bool)
    returns (ts: seq<Tree>)
    requires i <= |Dependencies(m)| && depth + 1 + below == w.policy.maxDepth && -1 <= below
    requires edges <= w.policy.maxCount && EvaluateFrom(w, m, i, active, edges, depth, cycles).0.None?
    ensures UpstreamList(w, m, i, ts, below)
    ensures EvaluateFrom(w, m, i, active, edges, depth, cycles).1 == edges + EdgeSum(ts)
    ensures edges + EdgeSum(ts) <= w.policy.maxCount
    decreases below + 2, 0, |Dependencies(m)| - i
  {
    if i == |Dependencies(m)| {
      ts := [];
    } else {
      var u, after := AcceptedUpstream(w, Dependencies(m)[i].resultDigest, active, edges, depth, below, cycles);
      FromStep(w, m, i, active, edges, depth, cycles, after);
      var rest := AcceptedFrom(w, m, i + 1, active, after, depth, below, cycles);
      ts := [u] + rest;
      ListGrows(w, m, i, u, rest, below);
    }
  }

  lemma ListGrows(w: World, m: Manifest, i: nat, u: Tree, rest: seq<Tree>, below: int)
    requires i < |Dependencies(m)| && Upstream(w, Dependencies(m)[i].resultDigest, u, below)
    requires UpstreamList(w, m, i + 1, rest, below)
    ensures UpstreamList(w, m, i, [u] + rest, below) && EdgeSum([u] + rest) == 1 + Edges(u) + EdgeSum(rest)
  {
    assert ([u] + rest)[1..] == rest;
  }

  lemma {:induction false} AcceptedUpstream(w: World, d: Digest, active: set<Digest>, edges: nat, depth: nat, n: int,
                                            cycles: bool)
    returns (u: Tree, after: nat)
    requires depth + 1 + n == w.policy.maxDepth && -1 <= n && edges <= w.policy.maxCount
    requires EvaluateUpstream(w, d, active, edges, depth, cycles).0.None?
    ensures Upstream(w, d, u, n) && after == edges + 1 + Edges(u) <= w.policy.maxCount
    ensures EvaluateUpstream(w, d, active, edges, depth, cycles).1 == after
    decreases n + 1, 2, 0
  {
    var found := Located(w, d, active, edges, depth, cycles);
    u := AcceptedIsCertified(w, found.manifest.actionDigest, found.manifest, found.store, active, edges + 1, depth + 1,
                             n, false, false, cycles);
    after := edges + 1 + Edges(u);
  }

  lemma Located(w: World, d: Digest, active: set<Digest>, edges: nat, depth: nat, cycles: bool) returns (found: Location)
    requires depth <= w.policy.maxDepth && EvaluateUpstream(w, d, active, edges, depth, cycles).0.None?
    ensures edges + 1 <= w.policy.maxCount && found == Locate(w.stores, d) && found.Found?
    ensures var r := Evaluate(w, found.manifest.actionDigest, found.manifest, found.store, active, edges + 1, depth + 1,
                              false, cycles);
      r.0.Accepted? && EvaluateUpstream(w, d, active, edges, depth, cycles).1 == r.1
  {
    found := Locate(w.stores, d);
  }
}
