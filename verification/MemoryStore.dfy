/** `MemoryStore`: append-only state, and what its runs can do to a lookup. */
module MemoryStore {
  import opened Text
  import opened Digests
  import opened Records
  import opened SourceRecords
  import opened Stores
  import opened Evaluation
  import opened Lineage
  import opened Admissibility
  import opened Search
  import Invalidating

  datatype State = State(
    blobs: map<Digest, Bytes>,
    results: map<Digest, seq<Manifest>>,
    byDigest: map<Digest, Manifest>,
    validations: map<Digest, seq<Validation>>,
    invalidations: map<Digest, seq<Invalidation>>,
    receipts: map<Digest, seq<Receipt>>)

  const EMPTY := State(map[], map[], map[], map[], map[], map[])

  function Listed<V>(lists: map<Digest, seq<V>>, d: Digest): seq<V> {
    if d in lists then lists[d] else []
  }

  function Appended<V>(lists: map<Digest, seq<V>>, d: Digest, v: V): map<Digest, seq<V>> {
    lists[d := Listed(lists, d) + [v]]
  }

  /** `list(reversed(...))` */
  function Reversed<V>(xs: seq<V>): (r: seq<V>)
    ensures |r| == |xs| && forall i | 0 <= i < |xs| :: r[i] == xs[|xs| - 1 - i]
  {
    seq(|xs|, i requires 0 <= i < |xs| => xs[|xs| - 1 - i])
  }

  function Lookup<V>(m: map<Digest, V>, d: Digest): Option<V> {
    if d in m then Some(m[d]) else None
  }

  /** The publications a store accepts; an operation whose record does not validate raises and changes nothing. */
  datatype Op =
    | PutBlob(data: Bytes)
    | PutResult(manifest: Manifest)
    | PutValidation(validation: Validation)
    | PutInvalidation(invalidation: Invalidation)
    | PutReceipt(receipt: Receipt)

  ghost function Apply(s: State, op: Op): State {
    match op
    case PutBlob(data) => s.(blobs := s.blobs[DigestBytes(data) := data])
    case PutResult(m) =>
      if ValidManifest(m) then
        s.(byDigest := s.byDigest[ManifestDigest(m) := m], results := Appended(s.results, m.actionDigest, m))
      else s
    case PutValidation(v) =>
      if ValidValidation(v) then s.(validations := Appended(s.validations, v.resultDigest, v)) else s
    case PutInvalidation(r) =>
      if ValidInvalidation(r) then s.(invalidations := Appended(s.invalidations, r.resultDigest, r)) else s
    case PutReceipt(r) => s.(receipts := Appended(s.receipts, r.resultDigest, r))
  }

  ghost function Run(s: State, ops: seq<Op>): State
    decreases |ops|
  {
    if ops == [] then s else Run(Apply(s, ops[0]), ops[1..])
  }

  /** What lookups see of the store: newest records first, and nothing is ever unreadable. */
  function View(name: Text, s: State): Store {
    Store(
      name,
      d => Readable(Reversed(Listed(s.results, d))),
      Some(d => Readable(Lookup(s.byDigest, d))),
      d => Readable(Reversed(Listed(s.validations, d))),
      Some(d => Readable(Reversed(Listed(s.invalidations, d)))),
      d => Readable(Lookup(s.blobs, d)))
  }

  class MemoryStore {
    const name: Text
    var blobs: map<Digest, Bytes>
    var results: map<Digest, seq<Manifest>>
    var byDigest: map<Digest, Manifest>
    var validations: map<Digest, seq<Validation>>
    var invalidations: map<Digest, seq<Invalidation>>
    var receipts: map<Digest, seq<Receipt>>

    function Contents(): State
      reads this
    {
      State(blobs, results, byDigest, validations, invalidations, receipts)
    }

    constructor (name: Text)
      ensures this.name == name && Contents() == EMPTY
    {
      this.name := name;
      blobs, results, byDigest := map[], map[], map[];
      validations, invalidations, receipts := map[], map[], map[];
    }

    method PutBlob(data: Bytes) returns (d: Digest)
      modifies this
      ensures d == DigestBytes(data) && Contents() == Apply(old(Contents()), Op.PutBlob(data))
    {
      d := DigestBytes(data);
      blobs := blobs[d := data];
    }

    method PutResult(m: Manifest) returns (ok: bool)
      modifies this
      ensures ok == ValidManifest(m) && Contents() == Apply(old(Contents()), Op.PutResult(m))
    {
      ok := ValidateManifest(m);
      if ok {
        ManifestDigestIsCanonical(m);
        var d := ObjectDigest(ManifestJson(m)).value;
        byDigest := byDigest[d := m];
        results := Appended(results, m.actionDigest, m);
      }
    }

    method PutValidation(v: Validation) returns (ok: bool)
      modifies this
      ensures ok == ValidValidation(v) && Contents() == Apply(old(Contents()), Op.PutValidation(v))
    {
      ok := ValidValidation(v);
      if ok {
        validations := Appended(validations, v.resultDigest, v);
      }
    }

    method PutInvalidation(r: Invalidation) returns (ok: bool)
      modifies this
      ensures ok == ValidInvalidation(r) && Contents() == Apply(old(Contents()), Op.PutInvalidation(r))
    {
      ok := ValidInvalidation(r);
      if ok {
        invalidations := Appended(invalidations, r.resultDigest, r);
      }
    }

    method PutReceipt(r: Receipt)
      modifies this
      ensures Contents() == Apply(old(Contents()), Op.PutReceipt(r))
    {
      receipts := Appended(receipts, r.resultDigest, r);
    }
  }

  // ---------- runs ----------

  /** Every entry stands under the digest of its content. */
  ghost predicate Addressed(s: State) {
    && (forall d | d in s.blobs :: DigestBytes(s.blobs[d]) == d)
    && (forall d | d in s.byDigest :: ValidManifest(s.byDigest[d]) && ManifestDigest(s.byDigest[d]) == d)
  }

  /** `b` still has all that `a` had. */
  ghost predicate Grown(a: State, b: State) {
    && (forall d | d in a.blobs :: d in b.blobs && b.blobs[d] == a.blobs[d])
    && (forall d | d in a.byDigest :: d in b.byDigest && b.byDigest[d] == a.byDigest[d])
    && (forall d, m | m in Listed(a.results, d) :: m in Listed(b.results, d))
    && (forall d, v | v in Listed(a.validations, d) :: v in Listed(b.validations, d))
    && (forall d, r | r in Listed(a.invalidations, d) :: r in Listed(b.invalidations, d))
  }

  lemma AppendedKeeps<V>(lists: map<Digest, seq<V>>, d: Digest, v: V)
    ensures forall e, x | x in Listed(lists, e) :: x in Listed(Appended(lists, d, v), e)
    ensures forall e, x | x in Listed(Appended(lists, d, v), e) :: x in Listed(lists, e) || (e == d && x == v)
    ensures v in Listed(Appended(lists, d, v), d)
  {
    var after := Appended(lists, d, v);
    assert Listed(after, d) == Listed(lists, d) + [v];
    forall e | e != d ensures Listed(after, e) == Listed(lists, e) {
    }
  }

  lemma BlobGrows(s: State, data: Bytes)
    requires Addressed(s)
    ensures Addressed(Apply(s, Op.PutBlob(data))) && Grown(s, Apply(s, Op.PutBlob(data)))
  {
    if DigestBytes(data) in s.blobs {
      DigestBytesInjective(data, s.blobs[DigestBytes(data)]);
    }
  }

  lemma ResultGrows(s: State, m: Manifest)
    requires Addressed(s)
    ensures Addressed(Apply(s, Op.PutResult(m))) && Grown(s, Apply(s, Op.PutResult(m)))
  {
    AppendedKeeps(s.results, m.actionDigest, m);
    if ValidManifest(m) && ManifestDigest(m) in s.byDigest {
      ManifestDigestInjective(m, s.byDigest[ManifestDigest(m)]);
    }
  }

  lemma ValidationGrows(s: State, v: Validation)
    requires Addressed(s)
    ensures Addressed(Apply(s, Op.PutValidation(v))) && Grown(s, Apply(s, Op.PutValidation(v)))
  {
    AppendedKeeps(s.validations, v.resultDigest, v);
  }

  lemma InvalidationGrows(s: State, r: Invalidation)
    requires Addressed(s)
    ensures Addressed(Apply(s, Op.PutInvalidation(r))) && Grown(s, Apply(s, Op.PutInvalidation(r)))
  {
    AppendedKeeps(s.invalidations, r.resultDigest, r);
  }

  /** A put keeps every entry under its digest and takes nothing away. */
  lemma ApplyGrows(s: State, op: Op)
    requires Addressed(s)
    ensures Addressed(Apply(s, op)) && Grown(s, Apply(s, op))
  {
    match op
    case PutBlob(data) => BlobGrows(s, data);
    case PutResult(m) => ResultGrows(s, m);
    case PutValidation(v) => ValidationGrows(s, v);
    case PutInvalidation(r) => InvalidationGrows(s, r);
    case PutReceipt(r) => assert Apply(s, op) == s.(receipts := Appended(s.receipts, r.resultDigest, r));
  }

  lemma {:induction false} RunGrows(s: State, ops: seq<Op>)
    requires Addressed(s)
    ensures Addressed(Run(s, ops)) && Grown(s, Run(s, ops))
    decreases |ops|
  {
    if ops != [] {
      ApplyGrows(s, ops[0]);
      RunGrows(Apply(s, ops[0]), ops[1..]);
    }
  }

  /** The invalidations of `d` after a run: those there before and those the run put. */
  ghost predicate Recorded(s: State, ops: seq<Op>, d: Digest, r: Invalidation) {
    r in Listed(s.invalidations, d) || (d == r.resultDigest && ValidInvalidation(r) && Op.PutInvalidation(r) in ops)
  }

  lemma ApplyRecords(s: State, op: Op, d: Digest, r: Invalidation)
    ensures r in Listed(Apply(s, op).invalidations, d) <==> Recorded(s, [op], d, r)
  {
    if op.PutInvalidation? {
      AppendedKeeps(s.invalidations, op.invalidation.resultDigest, op.invalidation);
    }
  }

  lemma {:induction false} RunRecords(s: State, ops: seq<Op>, d: Digest, r: Invalidation)
    ensures r in Listed(Run(s, ops).invalidations, d) <==> Recorded(s, ops, d, r)
    decreases |ops|
  {
    if ops != [] {
      ApplyRecords(s, ops[0], d, r);
      RunRecords(Apply(s, ops[0]), ops[1..], d, r);
      assert Op.PutInvalidation(r) in ops <==> Op.PutInvalidation(r) == ops[0] || Op.PutInvalidation(r) in ops[1..];
    }
  }

  // ---------- what is put is read, newest first ----------

  lemma ReversedAppend<V>(xs: seq<V>, v: V)
    ensures Reversed(xs + [v]) == [v] + Reversed(xs)
  {
  }

  /** A blob is read under its digest; nothing else reads differently. */
  lemma BlobIsRead(name: Text, s: State, data: Bytes)
    ensures var before, after := View(name, s), View(name, Apply(s, Op.PutBlob(data)));
      && after.blob(DigestBytes(data)) == Readable(Some(data))
      && (forall d | d != DigestBytes(data) :: after.blob(d) == before.blob(d))
      && after.candidates == before.candidates && after.result == before.result
      && after.validations == before.validations && after.invalidations == before.invalidations
  {
  }

  /** A valid result is read under its digest and heads its action's candidates; one that is not valid changes nothing. */
  lemma ResultIsRead(name: Text, s: State, m: Manifest)
    ensures var before, after := View(name, s), View(name, Apply(s, Op.PutResult(m)));
      && (ValidManifest(m) ==>
            && after.result.Some? && before.result.Some?
            && after.result.value(ManifestDigest(m)) == Readable(Some(m))
            && (forall d | d != ManifestDigest(m) :: after.result.value(d) == before.result.value(d))
            && after.candidates(m.actionDigest) == Readable([m] + before.candidates(m.actionDigest).value)
            && (forall a | a != m.actionDigest :: after.candidates(a) == before.candidates(a)))
      && (!ValidManifest(m) ==> after == before)
  {
    ReversedAppend(Listed(s.results, m.actionDigest), m);
  }

  /** A valid validation is the first one read for its result. */
  lemma ValidationIsRead(name: Text, s: State, v: Validation)
    ensures var before, after := View(name, s), View(name, Apply(s, Op.PutValidation(v)));
      && (ValidValidation(v) ==>
            && after.validations(v.resultDigest) == Readable([v] + before.validations(v.resultDigest).value)
            && (forall d | d != v.resultDigest :: after.validations(d) == before.validations(d)))
      && (!ValidValidation(v) ==> after == before)
  {
    ReversedAppend(Listed(s.validations, v.resultDigest), v);
  }

  /** A valid invalidation is the first one read for its result. */
  lemma InvalidationIsRead(name: Text, s: State, r: Invalidation)
    ensures var before, after := View(name, s), View(name, Apply(s, Op.PutInvalidation(r)));
      && (ValidInvalidation(r) ==>
            && after.invalidations.Some? && before.invalidations.Some?
            && after.invalidations.value(r.resultDigest) == Readable([r] + before.invalidations.value(r.resultDigest).value)
            && (forall d | d != r.resultDigest :: after.invalidations.value(d) == before.invalidations.value(d)))
      && (!ValidInvalidation(r) ==> after == before)
  {
    ReversedAppend(Listed(s.invalidations, r.resultDigest), r);
  }

  // ---------- lookups over one store ----------

  ghost function Alone(name: Text, s: State, policy: Policy): World {
    World([View(name, s)], policy)
  }

  lemma LocateAlone(name: Text, s: State, d: Digest)
    requires Addressed(s)
    ensures Locate([View(name, s)], d) == if d in s.byDigest then Found(s.byDigest[d], 0) else NotFound(DependencyMissing)
  {
    var store := View(name, s);
    assert Answers(store, d) <==> d in s.byDigest;
    assert FirstAnswer([store], d) == if d in s.byDigest then 0 else 1;
  }

  lemma {:induction false} UnfoldsInGrown(name: Text, a: State, b: State, policy: Policy, t: Tree)
    requires Addressed(a) && Addressed(b) && Grown(a, b) && Unfolds(Alone(name, a, policy), t)
    ensures Unfolds(Alone(name, b, policy), t)
    decreases t
  {
    forall i | 0 <= i < |t.upstream|
      ensures Locate([View(name, b)], Dependencies(t.manifest)[i].resultDigest) ==
              Locate([View(name, a)], Dependencies(t.manifest)[i].resultDigest)
      ensures Unfolds(Alone(name, b, policy), t.upstream[i])
    {
      var d := Dependencies(t.manifest)[i].resultDigest;
      LocateAlone(name, a, d);
      LocateAlone(name, b, d);
      UnfoldsInGrown(name, a, b, policy, t.upstream[i]);
    }
  }

  lemma ReversedElements<V>(xs: seq<V>)
    ensures forall x :: x in Reversed(xs) <==> x in xs
  {
    forall x | x in xs ensures x in Reversed(xs) {
      var i :| 0 <= i < |xs| && xs[i] == x;
      assert Reversed(xs)[|xs| - 1 - i] == x;
    }
  }

  /** Some effective record in `s` invalidates the manifest. */
  ghost predicate Struck(s: State, policy: Policy, m: Manifest)
    requires ValidManifest(m)
  {
    exists r | r in Listed(s.invalidations, ManifestDigest(m)) :: policy.Effective(r)
  }

  lemma UninvalidatedExactly(name: Text, s: State, policy: Policy, m: Manifest, required: bool)
    requires ValidManifest(m)
    ensures UninvalidatedIn(View(name, s), ManifestDigest(m), policy, required) <==> !Struck(s, policy, m)
  {
    ReversedElements(Listed(s.invalidations, ManifestDigest(m)));
  }

  lemma FreshInGrown(name: Text, a: State, b: State, policy: Policy, m: Manifest)
    requires Grown(a, b) && ValidManifest(m) && FreshIn(View(name, a), m, policy)
    ensures FreshIn(View(name, b), m, policy)
  {
    var before, after := View(name, a).validations(ManifestDigest(m)), View(name, b).validations(ManifestDigest(m));
    ReversedElements(Listed(a.validations, ManifestDigest(m)));
    ReversedElements(Listed(b.validations, ManifestDigest(m)));
    if v :| v in before.value && policy.Extends(v) {
      assert v in after.value;
    }
  }

  lemma IntactInGrown(name: Text, a: State, b: State, x: Descriptor)
    requires Grown(a, b) && Intact(x, View(name, a).blob(x.digest))
    ensures Intact(x, View(name, b).blob(x.digest))
  {
  }

  lemma SoundInGrown(name: Text, a: State, b: State, policy: Policy, m: Manifest, root: bool, ignoreFreshness: bool)
    requires Grown(a, b) && ValidManifest(m) && Sound(Alone(name, a, policy), m, 0, root, ignoreFreshness)
    ensures Sound(Alone(name, b, policy), m, 0, root, ignoreFreshness) <==> !Struck(b, policy, m)
  {
    assert Alone(name, a, policy).stores[0] == View(name, a) && Alone(name, b, policy).stores[0] == View(name, b);
    UninvalidatedExactly(name, b, policy, m, m.version == ResultV1 || !root);
    if !ignoreFreshness {
      FreshInGrown(name, a, b, policy, m);
    }
    forall x | x in m.artifacts ensures Intact(x, View(name, b).blob(x.digest)) {
      IntactInGrown(name, a, b, x);
    }
  }

  /** An effective record in `s` invalidates some result of the unfolding. */
  ghost predicate StruckWithin(name: Text, s: State, policy: Policy, t: Tree)
    requires Unfolds(Alone(name, s, policy), t)
  {
    Struck(s, policy, t.manifest) || exists i | 0 <= i < |t.upstream| :: StruckWithin(name, s, policy, t.upstream[i])
  }

  lemma {:induction false} AllSoundInGrown(name: Text, a: State, b: State, policy: Policy, t: Tree, root: bool,
                                           ignoreFreshness: bool)
    requires Grown(a, b) && Unfolds(Alone(name, a, policy), t) && Unfolds(Alone(name, b, policy), t)
    requires AllSound(Alone(name, a, policy), t, root, ignoreFreshness)
    ensures AllSound(Alone(name, b, policy), t, root, ignoreFreshness) <==> !StruckWithin(name, b, policy, t)
    decreases t
  {
    SoundInGrown(name, a, b, policy, t.manifest, root, ignoreFreshness);
    forall i | 0 <= i < |t.upstream|
      ensures AllSound(Alone(name, b, policy), t.upstream[i], false, false)
         <==> !StruckWithin(name, b, policy, t.upstream[i])
    {
      AllSoundInGrown(name, a, b, policy, t.upstream[i], false, false);
    }
  }

  /** The run records a valid invalidation the policy heeds. */
  ghost predicate Heeded(ops: seq<Op>, policy: Policy, r: Invalidation) {
    Op.PutInvalidation(r) in ops && ValidInvalidation(r) && policy.Effective(r)
  }

  ghost predicate HitByRun(name: Text, s: State, ops: seq<Op>, policy: Policy, t: Tree)
    requires Unfolds(Alone(name, s, policy), t)
  {
    exists r | Heeded(ops, policy, r) :: Invalidating.Contains(Alone(name, s, policy), t, 0, r.resultDigest)
  }

  lemma StruckAfterRun(s: State, ops: seq<Op>, policy: Policy, m: Manifest)
    requires ValidManifest(m)
    ensures Struck(Run(s, ops), policy, m)
       <==> Struck(s, policy, m) || exists r | Heeded(ops, policy, r) :: r.resultDigest == ManifestDigest(m)
  {
    forall r ensures r in Listed(Run(s, ops).invalidations, ManifestDigest(m)) <==> Recorded(s, ops, ManifestDigest(m), r) {
      RunRecords(s, ops, ManifestDigest(m), r);
    }
    if r :| Heeded(ops, policy, r) && r.resultDigest == ManifestDigest(m) {
      assert Recorded(s, ops, ManifestDigest(m), r);
    }
  }

  lemma {:induction false} StruckWithinAfterRun(name: Text, s: State, ops: seq<Op>, policy: Policy, t: Tree)
    requires Unfolds(Alone(name, s, policy), t) && Unfolds(Alone(name, Run(s, ops), policy), t)
    ensures StruckWithin(name, Run(s, ops), policy, t)
       <==> StruckWithin(name, s, policy, t) || HitByRun(name, s, ops, policy, t)
    decreases t
  {
    var w := Alone(name, s, policy);
    StruckAfterRun(s, ops, policy, t.manifest);
    forall i | 0 <= i < |t.upstream|
      ensures StruckWithin(name, Run(s, ops), policy, t.upstream[i])
         <==> StruckWithin(name, s, policy, t.upstream[i]) || HitByRun(name, s, ops, policy, t.upstream[i])
    {
      StruckWithinAfterRun(name, s, ops, policy, t.upstream[i]);
    }
    forall r | Heeded(ops, policy, r)
      ensures Invalidating.Contains(w, t, 0, r.resultDigest)
         <==> r.resultDigest == ManifestDigest(t.manifest)
              || exists i | 0 <= i < |t.upstream| :: Invalidating.Contains(w, t.upstream[i], 0, r.resultDigest)
    {
      assert t.store == 0;
    }
  }

  /**
   Over every run of one store, a candidate accepted before it stays accepted at the same policy exactly unless
   the run recorded a trusted, effective invalidation of some result in its unfolding.
   */
  lemma RunRejectsExactlyInvalidated(name: Text, s: State, ops: seq<Op>, policy: Policy, t: Tree, m: Manifest,
                                     ignoreFreshness: bool)
    requires Addressed(s) && Certifies(Alone(name, s, policy), t, m, 0, ignoreFreshness)
    ensures Admissible(Alone(name, Run(s, ops), policy), m, 0, ignoreFreshness)
       <==> !HitByRun(name, s, ops, policy, t)
  {
    var s' := Run(s, ops);
    var w, w' := Alone(name, s, policy), Alone(name, s', policy);
    RunGrows(s, ops);
    UnfoldsInGrown(name, s, s', policy, t);
    AllSoundInGrown(name, s, s', policy, t, true, ignoreFreshness);
    AllSoundInGrown(name, s, s, policy, t, true, ignoreFreshness);
    StruckWithinAfterRun(name, s, ops, policy, t);
    if Admissible(w', m, 0, ignoreFreshness) {
      var t' :| Certifies(w', t', m, 0, ignoreFreshness);
      UnfoldingUnique(w', t, t');
    } else {
      assert !Certifies(w', t, m, 0, ignoreFreshness);
    }
  }

  // ---------- hits over runs ----------

  /** The store has an admissible result of the action. */
  ghost predicate SomeUsable(name: Text, s: State, policy: Policy, requested: Digest, ignoreFreshness: bool) {
    exists m | m in Listed(s.results, requested) ::
      m.actionDigest == requested && Admissible(Alone(name, s, policy), m, 0, ignoreFreshness)
  }

  lemma UsableIsListed(name: Text, s: State, policy: Policy, requested: Digest, ignoreFreshness: bool, k: nat, i: nat)
    requires Usable(Alone(name, s, policy), requested, ignoreFreshness, k, i)
    ensures SomeUsable(name, s, policy, requested, ignoreFreshness)
  {
    var m := CandidateAt(Alone(name, s, policy), requested, k, i);
    ReversedElements(Listed(s.results, requested));
    assert m in Reversed(Listed(s.results, requested));
  }

  lemma ListedIsUsable(name: Text, s: State, policy: Policy, requested: Digest, ignoreFreshness: bool) returns (i: nat)
    requires SomeUsable(name, s, policy, requested, ignoreFreshness)
    ensures Usable(Alone(name, s, policy), requested, ignoreFreshness, 0, i)
  {
    var ms := Reversed(Listed(s.results, requested));
    ReversedElements(Listed(s.results, requested));
    var m :| m in ms && m.actionDigest == requested && Admissible(Alone(name, s, policy), m, 0, ignoreFreshness);
    i :| 0 <= i < |ms| && ms[i] == m;
  }

  /** The store holds an admissible result of the action exactly when a lookup hits. */
  lemma HitExactlyWhenSomeUsable(name: Text, s: State, policy: Policy, requested: Digest, ignoreFreshness: bool)
    ensures SearchFrom(Alone(name, s, policy), requested, ignoreFreshness, 0).Hit?
       <==> SomeUsable(name, s, policy, requested, ignoreFreshness)
  {
    HitExactlyWhenUsable(Alone(name, s, policy), requested, ignoreFreshness);
    if k: nat, i: nat :| Usable(Alone(name, s, policy), requested, ignoreFreshness, k, i) {
      UsableIsListed(name, s, policy, requested, ignoreFreshness, k, i);
    }
    if SomeUsable(name, s, policy, requested, ignoreFreshness) {
      var _ := ListedIsUsable(name, s, policy, requested, ignoreFreshness);
    }
  }

  /**
   A `reuse` hit stays a hit over every run that does not record a trusted, effective invalidation of a result in
   the hit's unfolding; in particular over every run that only adds blobs, results, validations and receipts.
   */
  lemma HitsSurviveRuns(name: Text, s: State, ops: seq<Op>, policy: Policy, requested: Digest)
    requires Addressed(s) && Reused(Alone(name, s, policy), requested).Hit?
    requires forall t | Certifies(Alone(name, s, policy), t, Reused(Alone(name, s, policy), requested).manifest, 0, false) ::
               !HitByRun(name, s, ops, policy, t)
    ensures Reused(Alone(name, Run(s, ops), policy), requested).Hit?
  {
    var w := Alone(name, s, policy);
    var m := Reused(w, requested).manifest;
    SearchFindsFirst(w, requested, false, 0);
    ReversedElements(Listed(s.results, requested));
    assert m in CandidatesOf(w, requested, 0).value;
    var t :| Certifies(w, t, m, 0, false);
    RunRejectsExactlyInvalidated(name, s, ops, policy, t, m, false);
    RunGrows(s, ops);
    HitExactlyWhenSomeUsable(name, Run(s, ops), policy, requested, false);
  }

  ghost predicate OnlyAdds(ops: seq<Op>) {
    forall op | op in ops :: !op.PutInvalidation?
  }

  lemma AddingKeepsHits(name: Text, s: State, ops: seq<Op>, policy: Policy, requested: Digest)
    requires Addressed(s) && OnlyAdds(ops) && Reused(Alone(name, s, policy), requested).Hit?
    ensures Reused(Alone(name, Run(s, ops), policy), requested).Hit?
  {
    assert forall r :: !Heeded(ops, policy, r);
    HitsSurviveRuns(name, s, ops, policy, requested);
  }
}
