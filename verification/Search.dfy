/** `reuse` and `candidate_for_revalidation` as searches: the first candidate accepted, in store order. */
module Search {
  import opened Text
  import opened Digests
  import opened Records
  import opened Stores
  import opened Lineage
  import opened Admissibility

  datatype Rejection = TierUnreadable(tier: Text) | TurnedDown(tier: Text, reason: Reason)

  /** `store` is the position of the tier that supplied the hit. */
  datatype Outcome =
    | Hit(store: nat, manifest: Manifest, artifacts: map<Text, Bytes>, validation: Option<Validation>,
          rejections: seq<Rejection>)
    | Miss(rejections: seq<Rejection>)
    | LookupRaised

  function After(earlier: seq<Rejection>, o: Outcome): Outcome {
    match o
    case Hit(_, _, _, _, later) => o.(rejections := earlier + later)
    case Miss(later) => Miss(earlier + later)
    case LookupRaised => LookupRaised
  }

  function CandidatesOf(w: World, requested: Digest, k: nat): Read<seq<Manifest>>
    requires k < |w.stores|
  {
    w.stores[k].candidates(requested)
  }

  /** The search over the stores from `k` on. */
  ghost function SearchFrom(w: World, requested: Digest, ignoreFreshness: bool, k: nat): Outcome
    requires k <= |w.stores|
    decreases |w.stores| - k, 1, 0
  {
    if k == |w.stores| then Miss([])
    else
      match CandidatesOf(w, requested, k)
      case Unreadable => After([TierUnreadable(w.stores[k].name)], SearchFrom(w, requested, ignoreFreshness, k + 1))
      case Readable(ms) => SearchStore(w, requested, ignoreFreshness, k, ms, 0)
  }

  /** The search over the candidates of store `k` from position `i` on, then over the remaining stores. */
  ghost function SearchStore(w: World, requested: Digest, ignoreFreshness: bool, k: nat, ms: seq<Manifest>, i: nat): Outcome
    requires k < |w.stores| && i <= |ms|
    decreases |w.stores| - k, 0, |ms| - i
  {
    if i == |ms| then SearchFrom(w, requested, ignoreFreshness, k + 1)
    else
      match VerdictOn(w, requested, ms[i], k, ignoreFreshness)
      case Accepted(artifacts, validation) => Hit(k, ms[i], artifacts, validation, [])
      case Rejected(reason) =>
        After([TurnedDown(w.stores[k].name, reason)], SearchStore(w, requested, ignoreFreshness, k, ms, i + 1))
      case Raised => LookupRaised
  }

  /** `reuse` */
  ghost function Reused(w: World, requested: Digest): Outcome {
    SearchFrom(w, requested, false, 0)
  }

  /** `candidate_for_revalidation` */
  ghost function RevalidationCandidate(w: World, requested: Digest): Outcome {
    SearchFrom(w, requested, true, 0)
  }

  // ---------- what a search finds ----------

  ghost predicate IsCandidate(w: World, requested: Digest, k: nat, i: nat) {
    k < |w.stores| && CandidatesOf(w, requested, k).Readable? && i < |CandidatesOf(w, requested, k).value|
  }

  function CandidateAt(w: World, requested: Digest, k: nat, i: nat): Manifest
    requires k < |w.stores| && CandidatesOf(w, requested, k).Readable? && i < |CandidatesOf(w, requested, k).value|
  {
    CandidatesOf(w, requested, k).value[i]
  }

  /** The candidate at store `k`, position `i`, answers the request and is admissible. */
  ghost predicate Usable(w: World, requested: Digest, ignoreFreshness: bool, k: nat, i: nat) {
    && IsCandidate(w, requested, k, i)
    && CandidateAt(w, requested, k, i).actionDigest == requested
    && Admissible(w, CandidateAt(w, requested, k, i), k, ignoreFreshness)
  }

  predicate Before(k: nat, i: nat, k': nat, i': nat) {
    k < k' || (k == k' && i < i')
  }

  /**
   What a search of the positions from (k, i) on means. A hit is the first usable candidate, with exactly the
   verdict that candidate gets; a miss means there is none.
   */
  ghost predicate FindsFirst(w: World, requested: Digest, ignoreFreshness: bool, k: nat, i: nat, o: Outcome) {
    match o
    case Hit(j, m, artifacts, validation, _) =>
      exists p: nat ::
        && Usable(w, requested, ignoreFreshness, j, p) && !Before(j, p, k, i)
        && CandidateAt(w, requested, j, p) == m
        && VerdictOn(w, requested, m, j, ignoreFreshness) == Accepted(artifacts, validation)
        && (forall k': nat, i': nat :: !Before(k', i', k, i) && Before(k', i', j, p)
              ==> !Usable(w, requested, ignoreFreshness, k', i'))
    case Miss(_) =>
      forall k': nat, i': nat :: !Before(k', i', k, i) ==> !Usable(w, requested, ignoreFreshness, k', i')
    case LookupRaised => true
  }

  lemma {:induction false} SearchFindsFirst(w: World, requested: Digest, ignoreFreshness: bool, k: nat)
    requires k <= |w.stores|
    ensures FindsFirst(w, requested, ignoreFreshness, k, 0, SearchFrom(w, requested, ignoreFreshness, k))
    decreases |w.stores| - k, 1, 0
  {
    if k < |w.stores| {
      match CandidatesOf(w, requested, k)
      case Unreadable =>
        SearchFindsFirst(w, requested, ignoreFreshness, k + 1);
        SkipTo(w, requested, ignoreFreshness, k, 0, k + 1, 0, SearchFrom(w, requested, ignoreFreshness, k + 1),
               [TierUnreadable(w.stores[k].name)]);
      case Readable(ms) => StoreSearchFindsFirst(w, requested, ignoreFreshness, k, ms, 0);
    }
  }

  lemma {:induction false} StoreSearchFindsFirst(w: World, requested: Digest, ignoreFreshness: bool, k: nat,
                                                 ms: seq<Manifest>, i: nat)
    requires k < |w.stores| && i <= |ms| && CandidatesOf(w, requested, k) == Readable(ms)
    ensures FindsFirst(w, requested, ignoreFreshness, k, i, SearchStore(w, requested, ignoreFreshness, k, ms, i))
    decreases |w.stores| - k, 0, |ms| - i
  {
    if i == |ms| {
      SearchFindsFirst(w, requested, ignoreFreshness, k + 1);
      StoreDone(w, requested, ignoreFreshness, k, ms, SearchFrom(w, requested, ignoreFreshness, k + 1));
    } else {
      match VerdictOn(w, requested, ms[i], k, ignoreFreshness)
      case Accepted(artifacts, validation) => HitHere(w, requested, ignoreFreshness, k, i, artifacts, validation);
      case Rejected(reason) =>
        StoreSearchFindsFirst(w, requested, ignoreFreshness, k, ms, i + 1);
        NotHere(w, requested, ignoreFreshness, k, i, SearchStore(w, requested, ignoreFreshness, k, ms, i + 1),
                [TurnedDown(w.stores[k].name, reason)]);
      case Raised =>
    }
  }

  /** Past a store's last candidate the search goes on with the next store. */
  lemma StoreDone(w: World, requested: Digest, ignoreFreshness: bool, k: nat, ms: seq<Manifest>, o: Outcome)
    requires k < |w.stores| && CandidatesOf(w, requested, k) == Readable(ms)
    requires FindsFirst(w, requested, ignoreFreshness, k + 1, 0, o)
    ensures FindsFirst(w, requested, ignoreFreshness, k, |ms|, o)
  {
    SkipTo(w, requested, ignoreFreshness, k, |ms|, k + 1, 0, o, []);
  }

  /** Past a candidate that is not accepted, and so not usable, the search goes on with the next one. */
  lemma NotHere(w: World, requested: Digest, ignoreFreshness: bool, k: nat, i: nat, o: Outcome, skipped: seq<Rejection>)
    requires IsCandidate(w, requested, k, i) && FindsFirst(w, requested, ignoreFreshness, k, i + 1, o)
    requires !VerdictOn(w, requested, CandidateAt(w, requested, k, i), k, ignoreFreshness).Accepted?
    ensures FindsFirst(w, requested, ignoreFreshness, k, i, After(skipped, o))
  {
    AcceptedExactlyWhenAdmissible(w, requested, CandidateAt(w, requested, k, i), k, ignoreFreshness, true);
    assert !Usable(w, requested, ignoreFreshness, k, i);
    SkipTo(w, requested, ignoreFreshness, k, i, k, i + 1, o, skipped);
  }

  /** An accepted candidate at the first position searched. */
  lemma HitHere(w: World, requested: Digest, ignoreFreshness: bool, k: nat, i: nat, artifacts: map<Text, Bytes>,
                validation: Option<Validation>)
    requires IsCandidate(w, requested, k, i)
    requires VerdictOn(w, requested, CandidateAt(w, requested, k, i), k, ignoreFreshness) == Accepted(artifacts, validation)
    ensures FindsFirst(w, requested, ignoreFreshness, k, i,
                       Hit(k, CandidateAt(w, requested, k, i), artifacts, validation, []))
  {
    AcceptedExactlyWhenAdmissible(w, requested, CandidateAt(w, requested, k, i), k, ignoreFreshness, true);
    assert Usable(w, requested, ignoreFreshness, k, i);
  }

  /** Positions without a usable candidate can be passed over. */
  lemma SkipTo(w: World, requested: Digest, ignoreFreshness: bool, k: nat, i: nat, k': nat, i': nat, o: Outcome,
               skipped: seq<Rejection>)
    requires FindsFirst(w, requested, ignoreFreshness, k', i', o) && !Before(k', i', k, i)
    requires forall a: nat, b: nat :: !Before(a, b, k, i) && Before(a, b, k', i') ==>
               !Usable(w, requested, ignoreFreshness, a, b)
    ensures FindsFirst(w, requested, ignoreFreshness, k, i, o)
    ensures FindsFirst(w, requested, ignoreFreshness, k, i, After(skipped, o))
  {
    if o.Hit? {
      var p: nat :| Usable(w, requested, ignoreFreshness, o.store, p) && !Before(o.store, p, k', i') &&
        CandidateAt(w, requested, o.store, p) == o.manifest &&
        (forall a: nat, b: nat :: !Before(a, b, k', i') && Before(a, b, o.store, p) ==>
           !Usable(w, requested, ignoreFreshness, a, b));
      assert !Before(o.store, p, k, i);
    }
  }

  // ---------- hits ----------

  lemma {:induction false} SearchNeverRaises(w: World, requested: Digest, ignoreFreshness: bool, k: nat)
    requires BlobsReadable(w) && k <= |w.stores|
    ensures !SearchFrom(w, requested, ignoreFreshness, k).LookupRaised?
    decreases |w.stores| - k, 1, 0
  {
    if k < |w.stores| {
      match CandidatesOf(w, requested, k)
      case Unreadable => SearchNeverRaises(w, requested, ignoreFreshness, k + 1);
      case Readable(ms) => StoreSearchNeverRaises(w, requested, ignoreFreshness, k, ms, 0);
    }
  }

  lemma {:induction false} StoreSearchNeverRaises(w: World, requested: Digest, ignoreFreshness: bool, k: nat,
                                                  ms: seq<Manifest>, i: nat)
    requires BlobsReadable(w) && k < |w.stores| && i <= |ms|
    ensures !SearchStore(w, requested, ignoreFreshness, k, ms, i).LookupRaised?
    decreases |w.stores| - k, 0, |ms| - i
  {
    if i == |ms| {
      SearchNeverRaises(w, requested, ignoreFreshness, k + 1);
    } else {
      EvaluationNeverRaises(w, requested, ms[i], k, {}, 0, 0, ignoreFreshness);
      StoreSearchNeverRaises(w, requested, ignoreFreshness, k, ms, i + 1);
    }
  }

  /** Where blob reads succeed, a lookup hits exactly when some store lists an admissible candidate. */
  lemma HitExactlyWhenUsable(w: World, requested: Digest, ignoreFreshness: bool)
    requires BlobsReadable(w)
    ensures SearchFrom(w, requested, ignoreFreshness, 0).Hit?
       <==> exists k: nat, i: nat :: Usable(w, requested, ignoreFreshness, k, i)
  {
    SearchNeverRaises(w, requested, ignoreFreshness, 0);
    SearchFindsFirst(w, requested, ignoreFreshness, 0);
    if k: nat, i: nat :| Usable(w, requested, ignoreFreshness, k, i) {
      assert !Before(k, i, 0, 0);
    }
  }
}
