# OnceMesh, verified

A Dafny model of the parts of OnceMesh that decide when a stored result may stand in for a computation, and of the
mutable behaviour it layers over immutable, content-addressed objects. Each module follows one part of the program.

- **Identity.** `Text`, `Utf8`, `Sorting`, `Json`, `JsonParser`, `JsonIdentity` model canonical JSON down to code points
  and prove that its bytes identify values. Keys sort by code point, as the code does, not by UTF-16 unit as in section
  3.2.3 of RFC 8785. `CanonicalText` says what the text and bytes are, character by character. `Digests`, `Records` and
  `SourceRecords` carry that to action, manifest and record digests; `Validity` spells out what each record must satisfy.
- **Admission.** `Stores`, `Evaluation` and `Cache` model the lookup: a recursive traversal with a shared set of active
  digests and a cumulative edge counter. `Lineage` and `Admissibility` say, without the traversal, what it accepts, and
  `Reasons` when each reason, validation and rejection is given. `Invalidating`, `Search`, `MemoryStore`,
  `FilesystemStore`, `FilesystemAdmission` and `Publishing` prove what invalidation, time, store histories and
  publication do to it.
- **Stale-while-revalidate.** `StaleWhileRevalidate` models the branch that recomputes freshness on its own;
  `StaleServing` says exactly when it serves and why it executes.
- **Mutable maps on immutable stores.** `ExecutionValue`, `ExecutionActions`, `ExecutionCache` and `ExecutionCacheRuns`
  model clear epochs; `ActiveKeyIndex`, `FilesystemIndex`, `FilesystemActiveKeys`, `SqliteActiveKeys` and
  `IndexAgreement` the three indexes; `IndexedCache` and `IndexedAdapter` concurrent writers, crashes and readers.
- **Federation.** `Signing`, `SignedFields`, `Availability`, `PeerCatalog`, `LeasedCache`, `LeasedFiles`, `PeerImport`,
  `FederatedImport` and `OversizedResult` model signatures, leased caches and the import gate; `RequestSigning`,
  `RequestAuthentication` and `RateLimiting` signed requests and the two time windows; `SingleFlight` the background
  revalidator.

The classes and methods follow the source's own loops and updates; each is tied to a specification function, and the
main results are theorems about those functions over every input, every run or every interleaving.

What is taken as given: SHA-256 is an unknown injective function into digest texts, Ed25519 an unknown scheme in which
what a seed signs its public key verifies; clocks, publication ids and executor answers are parameters; locks exclude one
another and file replacement and SQLite transactions are atomic; clock readings do not decrease in lock order; a refused
executor submission never runs; publication ids are not used twice; bridges publish to the store they read.

Three results qualify what a reader might expect of the code.

- Adding to an honest catalog one result whose artifact sizes sum past 2^53 - 1 makes every import from that peer fail,
  since the whole availability manifest can then not be canonicalized. `PeerImport.AdvertisesExactlyWhenSafe` gives the
  exact condition and `OversizedResult.OneResultSilencesPeer` such a publication.
- A rotation of several namespaces that meets an invalid one raises after the earlier ones have moved, so a failed
  `clear` has already cleared a prefix. `ExecutionCache.RotationUnchangedExactly` gives the exact condition and
  `ExecutionCache.FailedRotationMoves` such a list.
- The stale-while-revalidate branch looks its tier up by name, so with two stores of one name a `fresh_hit` need not be
  what `reuse` hits. `StaleWhileRevalidate.FreshHitIsReuseExactly` gives the exact condition and
  `StaleWhileRevalidate.TwinsDisagree` such stores.

## Model

| member | source | states |
|---|---|---|
| `Cache.EffectiveInvalidated` | src/oncemesh/cache.py:155-179 | the loop over the store's records finds a failure exactly when the reader is missing and required, the read failed, or some record is trusted and already effective |
| `Reasons.EffectiveMeans` | src/oncemesh/cache.py:155-179 | who may revoke: a record counts exactly when it is dated by now and its producer is in the invalidation trust set where one is given, and otherwise in the producer trust set where that one is |
| `Reasons.ExtendsMeans` | src/oncemesh/cache.py:256-276 | who may extend: a validation counts exactly when it has not ended and its producer is in the validation trust set where one is given, and otherwise in the producer trust set where that one is |
| `Reasons.InvalidationAnswer` | src/oncemesh/cache.py:155-179 | each of the three invalidation reasons exactly when: no reader and one required, a failed read, a record that revokes by the policy's own fields |
| `Cache.LocateResult` | src/oncemesh/cache.py:182-211 | an exact result is the answer of the first store that answers at all: read errors and missing readers are passed over, an invalid or mismatched answer ends the search |
| `Evaluation.Locate` | src/oncemesh/cache.py:182-211 | a located result validates, has the requested digest and comes from a store of the lookup; every other outcome is a dependency reason |
| `Reasons.LocateAnswer` | src/oncemesh/cache.py:182-211 | each outcome of locating exactly when: the first store to answer decides between found, invalid and mismatched; with no answer a failed read comes before missing readers, and those before a missing result |
| `Stores.Reason.Propagated` | src/oncemesh/cache.py:305-323 | a dependency's reason is prefixed once and never twice |
| `Cache.SelectFreshness` | src/oncemesh/cache.py:256-276 | own freshness, else the first trusted validation still fresh, else the reason the manifest is stale |
| `Reasons.FreshnessAnswer` | src/oncemesh/cache.py:256-276 | each freshness answer exactly when: a hit reports a validation exactly when the manifest is not fresh alone, and then the first trusted one that has not ended |
| `Cache.LoadArtifacts` | src/oncemesh/cache.py:282-290 | artifacts in descriptor order up to the first missing or damaged one; a blob read error is raised, not turned into a rejection |
| `Reasons.LoadAnswer` | src/oncemesh/cache.py:282-290 | the first artifact that cannot be used decides: a failed read is raised, a missing one and one of another size or digest have their own reasons |
| `Reasons.LoadedBytes` | src/oncemesh/cache.py:282-290 | what is loaded is, under every descriptor's name and no other, exactly the bytes the store gives for its digest |
| `Cache.EvaluateCandidate` | src/oncemesh/cache.py:214-324 | computes the specified verdict and edge count, gives `active` back as it found it on every path, and never makes more recursive calls than the edge bound allows |
| `Cache.EvaluateDependencies` | src/oncemesh/cache.py:292-323 | the dependency loop with the shared edge counter: verdict, counter, restored `active`, bounded calls |
| `Reasons.EvaluateAnswer` | src/oncemesh/cache.py:225-237 | the checks before a manifest's own, in order, and the reason each gives |
| `Reasons.ExamineAnswer` | src/oncemesh/cache.py:238-290 | a manifest's own checks, in order: producer, invalidation, freshness, artifacts, and the reason each gives |
| `Reasons.UpstreamAnswer` | src/oncemesh/cache.py:292-323 | one dependency edge: the count first, then what cannot be located, then the upstream's own reason, prefixed exactly when it is not about a dependency already |
| `Evaluation.Evaluate` | src/oncemesh/cache.py:214-324 | the edge counter only grows, passes the bound by at most the one edge that exceeds it, and stays within it on acceptance |
| `Lineage.LoadAccepts` | src/oncemesh/cache.py:282-290 | loading succeeds exactly when every artifact is present with its size and digest |
| `Lineage.ExamineAccepts` | src/oncemesh/cache.py:238-290 | the checks on one manifest pass exactly when it is trusted, uninvalidated in its own store, fresh or excused, intact, and of lineage form where required |
| `Reasons.SoundMeans` | src/oncemesh/cache.py:238-290 | a sound manifest by the policy's and the records' own fields: lineage form, producer, no revoking record, fresh, extended or excused, every artifact of its size and digest |
| `Lineage.CertifiedIsAccepted` | src/oncemesh/cache.py:214-324 | a complete unfolding of sound manifests within the bounds is accepted and costs exactly its edges, diamonds counted twice |
| `Lineage.AcceptedIsCertified` | src/oncemesh/cache.py:214-324 | acceptance anywhere in the traversal yields the complete unfolding that justifies it, with its exact edge count |
| `Admissibility.AcceptedExactlyWhenAdmissible` | src/oncemesh/cache.py:214-324 | a candidate is accepted if and only if it answers the request and its dependency unfolding is a finite tree of sound manifests within the depth and edge bounds |
| `Admissibility.DepthMeans` | src/oncemesh/cache.py:233-235 | the depth bound bounds the length of every way down the unfolding |
| `Admissibility.EdgesMeans` | src/oncemesh/cache.py:292-304 | the edge count is the number of ways down that take an edge: a shared dependency counts once on each way to it |
| `Admissibility.UnfoldingUnique` | src/oncemesh/cache.py:292-304 | a candidate has at most one complete unfolding |
| `Admissibility.FiniteUnfoldingNeverRepeats` | src/oncemesh/cache.py:236-237 | a finite unfolding never repeats a digest on a path |
| `Admissibility.CertificateGivesVerdict` | src/oncemesh/cache.py:214-324 | an admissible candidate gets exactly its own artifacts and validation as verdict, at the price of its edges |
| `Admissibility.CycleCheckChangesOnlyTheReason` | src/oncemesh/cache.py:233-237 | dropping the cycle check changes no acceptance: the depth bound already rejects every cyclic unfolding, only the reason differs |
| `Admissibility.AdmissibleEarlier` | src/oncemesh/cache.py:248-276 | with the stores fixed, acceptance is antitone in `now` |
| `Invalidating.InvalidationRejectsExactlyDependents` | src/oncemesh/cache.py:155-179 | a record dated by now, by a producer the policy names for that or else trusts, in the supplying store rejects exactly the candidates whose unfolding contains the result |
| `Invalidating.UnreachedVerdictKept` | src/oncemesh/cache.py:155-179 | a candidate that does not reach the result within the depth bound, complete unfolding or not, keeps its whole verdict: artifacts, validation and the reason of a rejection included |
| `Invalidating.IndependentVerdictKept` | src/oncemesh/cache.py:155-179 | every candidate whose unfolding avoids the result keeps its verdict, accepted or rejected, for whatever request and whether the record is effective or not |
| `Invalidating.IneffectiveInvalidationChangesNothing` | src/oncemesh/cache.py:155-179 | a record dated later than now, or by any other producer, changes no candidate's standing |
| `Cache.Reuse` | src/oncemesh/cache.py:327-364 | the search hits the first usable candidate in store order with that candidate's own verdict, and misses only when there is none |
| `Cache.CandidateForRevalidation` | src/oncemesh/cache.py:367-402 | the same search with the root excused from freshness |
| `Search.SearchFindsFirst` | src/oncemesh/cache.py:338-364 | a hit is the first admissible candidate, a miss means none is admissible |
| `Reasons.HitPromises` | src/oncemesh/cache.py:338-364 | everything a `reuse` hit promises, in the fields of what was looked at: listed for the action by the store it names, trusted, not revoked, fresh, with exactly the store's bytes and the validation it rests on |
| `Reasons.RejectionsInOrder` | src/oncemesh/cache.py:338-364 | the rejections are, in order, the unreadable stores and the candidates passed by with the reason of each; a miss lists all, a hit those before it |
| `Admissibility.EvaluationNeverRaises` | src/oncemesh/cache.py:282-290 | where blob reads succeed, as in a memory store, no evaluation ends in a read error |
| `Search.HitExactlyWhenUsable` | src/oncemesh/cache.py:338-364 | where blob reads succeed, a lookup hits exactly when some store lists an admissible candidate of the action |
| `SourceRecords.ValidationShape` | src/oncemesh/canonical.py:175-205 | a validation that passes the field checks is refused by `canonical_json` exactly when a text is not encodable |
| `SourceRecords.InvalidationShape` | src/oncemesh/canonical.py:208-224 | an invalidation that passes the field checks is refused by `canonical_json` exactly when a text is not encodable |
| `SourceRecords.ValidationBytesIdentify` | src/oncemesh/canonical.py:175-205 | two valid validations have the same canonical bytes if and only if they are equal |
| `SourceRecords.InvalidationBytesIdentify` | src/oncemesh/canonical.py:208-224 | two valid invalidations have the same canonical bytes if and only if they are equal |
| `MemoryStore.MemoryStore.PutBlob` | src/oncemesh/store.py:71-75 | a blob is stored under its digest and nothing else changes |
| `MemoryStore.MemoryStore.PutResult` | src/oncemesh/store.py:82-87 | a valid manifest is stored under its digest and appended to its action; an invalid one changes nothing |
| `MemoryStore.MemoryStore.PutValidation` | src/oncemesh/store.py:98-101 | a valid validation is appended to its result; an invalid one changes nothing |
| `MemoryStore.MemoryStore.PutInvalidation` | src/oncemesh/store.py:107-110 | a valid invalidation is appended to its result; an invalid one changes nothing |
| `MemoryStore.BlobIsRead` | src/oncemesh/store.py:71-80 | a blob put is read back under its digest, and no other read changes |
| `MemoryStore.ResultIsRead` | src/oncemesh/store.py:82-96 | a valid result put is read under its digest and heads its action's candidates; an invalid one changes no read |
| `MemoryStore.ValidationIsRead` | src/oncemesh/store.py:98-105 | a valid validation put is the first read for its result; an invalid one changes no read |
| `MemoryStore.InvalidationIsRead` | src/oncemesh/store.py:107-114 | a valid invalidation put is the first read for its result; an invalid one changes no read |
| `MemoryStore.RunGrows` | src/oncemesh/store.py:58-123 | over every run, entries stay under their digests and nothing is taken away or altered |
| `MemoryStore.RunRecords` | src/oncemesh/store.py:107-114 | the invalidations after a run are exactly those before it and the valid ones it put |
| `MemoryStore.RunRejectsExactlyInvalidated` | src/oncemesh/cache.py:155-179 | over every run of one store, an accepted candidate stays accepted if and only if the run put no trusted, effective invalidation of a result in its unfolding |
| `MemoryStore.HitExactlyWhenSomeUsable` | src/oncemesh/cache.py:338-364 | a lookup over one store hits exactly when that store lists an admissible result of the action |
| `MemoryStore.HitsSurviveRuns` | src/oncemesh/cache.py:327-364 | a reuse hit survives every run without an invalidation that strikes its unfolding |
| `MemoryStore.AddingKeepsHits` | src/oncemesh/store.py:71-123 | adding blobs, results, validations and receipts never turns a hit into a miss |
| `FilesystemStore.FilesystemStore.PutResult` | src/oncemesh/store.py:206-212 | both files are written once, result before action; every disk in between, as after a crash, has only files that hold what their names say |
| `FilesystemStore.FilesystemStore.PutBlob` | src/oncemesh/store.py:192-195 | a blob file is written once and never replaced |
| `FilesystemStore.FilesystemStore.PutValidation` | src/oncemesh/store.py:242-246 | a valid validation gets one file, named by its digest under its result; an invalid one changes nothing |
| `FilesystemStore.FilesystemStore.PutInvalidation` | src/oncemesh/store.py:264-268 | a valid invalidation gets one file, named by its digest under its result; an invalid one changes nothing |
| `FilesystemStore.HoldsCanonical` | src/oncemesh/store.py:206-212 | a result file read back under its digest holds exactly the manifest's canonical JSON |
| `FilesystemStore.RunsInStep` | src/oncemesh/store.py:172-283 | over every run from an empty directory the files are in order and answer as the memory store does after the same run, up to order and repetition |
| `FilesystemAdmission.FilesAdmitAlike` | src/oncemesh/store.py:172-283 | after any run from an empty directory the files admit exactly the results the memory store admits after the same run |
| `FilesystemAdmission.FilesHitAlike` | src/oncemesh/store.py:172-283 | a lookup over the files hits exactly when it hits over the memory store |
| `Publishing.PublishResult` | src/oncemesh/cache.py:55-89 | the manifest stored and returned carries exactly the given dependencies, ascending by name, exactly the given artifacts' names, digests, sizes and types, and the given action, producer and times; the store changes by exactly those puts, and by the blobs alone where the action has no digest |
| `Publishing.DescriptorsAscend` | src/oncemesh/cache.py:67-72 | the published descriptors ascend by name |
| `Publishing.PublishInvalidation` | src/oncemesh/cache.py:128-152 | stores and returns exactly the record of its arguments, or nothing where it does not validate |
| `Publishing.PublishLeaves` | src/oncemesh/cache.py:55-89 | afterwards every artifact is held, the manifest is listed last for its action, and validations and invalidations are untouched |
| `Publishing.PublishedIsReused` | src/oncemesh/cache.py:55-89 | publish then look up: a trusted, fresh, uninvalidated result whose upstreams, if any, are admissible within the bounds is hit first with exactly the published artifacts |
| `Publishing.PublishedBytes` | src/oncemesh/cache.py:55-89 | the artifacts that come back are, under each given name and no other, the given bytes |
| `Publishing.PublishedFallsWithUpstream` | src/oncemesh/cache.py:128-152 | over every run that records a revocation of a named dependency, dated by now and by a producer the policy names for that or else trusts, the result that names it is inadmissible |
| `Publishing.RevokedUpstreamReason` | src/oncemesh/cache.py:305-323 | when the revoked upstream is the first dependency and all else is well, the reason is `dependency_invalidated` |
| `JsonParser.ParsePrinted` | src/oncemesh/canonical.py:47-57 | parsing the text of any accepted value gives that value and consumes exactly that text |
| `JsonIdentity.ParseCanonical` | src/oncemesh/canonical.py:22-57 | `canonical_json` has a left inverse on every accepted value: it parses back to the value with sorted keys |
| `JsonIdentity.CanonicalBytesIdentify` | src/oncemesh/canonical.py:22-57 | canonical bytes are equal if and only if the values are equal up to key insertion order |
| `JsonIdentity.CanonicalIsStable` | src/oncemesh/canonical.py:47-57 | canonicalizing the sorted value gives the same bytes again |
| `CanonicalText.SortedAscends` | src/oncemesh/canonical.py:51-56 | canonicalization puts the keys of every object, at every depth, in ascending order of their code points |
| `CanonicalText.KeyBytesAscend` | src/oncemesh/canonical.py:51-57 | and so do the UTF-8 bytes of those keys |
| `CanonicalText.AcceptedMeans` | src/oncemesh/canonical.py:22-44 | exactly what is refused: integers beyond 2^53 - 1, lone surrogates, keys that are not strings, and other types, at every depth |
| `CanonicalText.ValueTextMeans` | src/oncemesh/canonical.py:49-56 | the text of every kind of value in code points: literals, quotes, brackets, braces, a colon after each key, commas between, no spaces |
| `CanonicalText.CharTextMeans` | src/oncemesh/canonical.py:49-56 | the escapes, character by character; everything else stands for itself |
| `CanonicalText.DecimalMeans` | src/oncemesh/canonical.py:49-56 | integers are digits without a leading zero that stand for the number |
| `CanonicalText.EncodedCharMeans` | src/oncemesh/canonical.py:57 | the length of each UTF-8 sequence, its continuation bytes, and the number its payload makes up |
| `Text.LessMeans` | src/oncemesh/canonical.py:54 | string order said without recursion: where two strings part, the one that ends there or has the smaller code point is less |
| `Json.SortedAccepted` | src/oncemesh/canonical.py:22-44 | sorting keys at every depth leaves an accepted value accepted |
| `Utf8.DecodeEncode` | src/oncemesh/canonical.py:57 | UTF-8 decoding inverts encoding on text without surrogates |
| `Utf8.EncodeDecode` | src/oncemesh/execution_cache.py:200-203 | strict decoding accepts only bytes that encoding produces |
| `Utf8.EncodingPreservesOrder` | src/oncemesh/integrations/index.py:547-560 | byte order of UTF-8 is code-point order, so BINARY collation sorts as Python does |
| `Sorting.SortIgnoresOrder` | src/oncemesh/canonical.py:51-56 | sorting distinct keys gives one outcome whatever order they arrive in |
| `Digests.ObjectDigestIdentifies` | src/oncemesh/canonical.py:60-65 | objects share a digest if and only if they are equal up to key order, given that SHA-256 does not collide |
| `Records.ValidateManifest` | src/oncemesh/canonical.py:115-172 | the loops accept exactly the manifests with distinct artifact names and with dependencies ascending by name and naming no result twice |
| `Validity.ManifestMeans` | src/oncemesh/canonical.py:115-172 | a manifest validates exactly when all of this holds of its fields: version, digests, producer, artifacts with distinct names and safe sizes, dependencies ascending and distinct exactly for lineage |
| `Validity.ValidationMeans` | src/oncemesh/canonical.py:175-205 | a validation validates exactly when it is a 304 answer to a conditional request with an entity tag or modification time, and ends no earlier than it begins |
| `Validity.InvalidationMeans` | src/oncemesh/canonical.py:208-224 | an invalidation validates exactly when its digest is one and producer and reason are encodable and not empty |
| `Records.ValidateDependencies` | src/oncemesh/canonical.py:152-172 | the dependency loop with its running sets and previous name accepts exactly the ascending, digest-distinct lists |
| `Records.ManifestDigestIsCanonical` | src/oncemesh/canonical.py:232-234 | a valid manifest can always be canonicalized and its digest is the digest of those bytes |
| `Records.ManifestDigestInjective` | src/oncemesh/canonical.py:232-234 | a manifest digest names one manifest: every field, order of artifacts included, is determined by it |
| `StaleWhileRevalidate.FindLatestTrustedFreshness` | src/oncemesh/runtime.py:97-118 | the scan returns the latest of the manifest's own boundary and the trusted validations in the store of that name |
| `StaleWhileRevalidate.LatestIsMaximum` | src/oncemesh/runtime.py:97-118 | that boundary is a maximum: attained, and exceeded by no trusted validation |
| `StaleWhileRevalidate.ServeOrExecute` | src/oncemesh/runtime.py:446-561 | the branch's cascade of checks reaches the specified decision |
| `StaleWhileRevalidate.BoundaryMeansFresh` | src/oncemesh/runtime.py:97-118 | with unique store names the branch's own freshness rule agrees with the lookup's |
| `StaleWhileRevalidate.FreshHitIsReuseExactly` | src/oncemesh/runtime.py:446-561 | whatever the store names, a `fresh_hit` is the hit `reuse` gives if and only if the candidate is fresh in the store that supplied it |
| `StaleWhileRevalidate.TwinsDisagree` | src/oncemesh/runtime.py:97-118 | two stores of one name on which the branch answers `fresh_hit` and `reuse` misses |
| `StaleWhileRevalidate.FreshHitIsReuse` | src/oncemesh/runtime.py:446-561 | with unique store names a `fresh_hit` is the hit `reuse` gives: same manifest, store and artifacts |
| `StaleWhileRevalidate.NoCandidateNoReuse` | src/oncemesh/cache.py:327-402 | if `candidate_for_revalidation` misses then `reuse` misses |
| `StaleWhileRevalidate.IgnoringFreshnessIsWeaker` | src/oncemesh/cache.py:367-402 | excusing the root from freshness never loses an acceptance |
| `StaleWhileRevalidate.StaleOnlyWithinWindow` | src/oncemesh/runtime.py:446-561 | whatever the store names, stale bytes are served only when 0 < now - latest trusted boundary <= the stale window, from an allowed tier, for a trusted refresher; with unique names the candidate is then stale in its own store |
| `StaleServing.ServeStaleExactly` | src/oncemesh/runtime.py:446-561 | with `b` the latest of the manifest's own boundary and those of trusted validations in the first store of the supplier's name, stale bytes are served if and only if the tier is allowed, b < now <= b + max_stale_seconds, and there are a validator, a producer trusted for both, a coordinator that does not refuse and a store to publish to; the flag is exactly whether it scheduled or coalesced; and a `fresh_hit` if and only if the tier is allowed and now <= b |
| `StaleServing.CauseOfExecution` | src/oncemesh/runtime.py:471-545 | past the boundary, each cause of execution exactly when it is the first thing missing |
| `StaleServing.NoBoundaryExecutes` | src/oncemesh/runtime.py:471-480 | with no boundary at all nothing is served |
| `StaleServing.NoCandidateExecutes` | src/oncemesh/runtime.py:446-470 | without a candidate nothing is served |
| `StaleServing.UnreadableExecutes` | src/oncemesh/runtime.py:97-118 | nor when its validations cannot be read |
| `ExecutionValue.UnpackPack` | src/oncemesh/execution_cache.py:180-204 | unpacking inverts packing for every valid tag and payload |
| `ExecutionValue.PackUnpack` | src/oncemesh/execution_cache.py:180-204 | what unpacks packs back to the same bytes |
| `ExecutionValue.AcceptsExactlyPacked` | src/oncemesh/execution_cache.py:194-204 | unpacking accepts exactly the byte strings packing produces |
| `ExecutionValue.PackMeans` | src/oncemesh/execution_cache.py:180-192 | the envelope byte by byte: two zero bytes and the tag's length, high byte first, its UTF-8 form of at most 1024 bytes without NUL, the payload |
| `ExecutionActions.ActionDigestInjective` | src/oncemesh/execution_cache.py:248-269 | two cached values share an action only if runtime, serializer, partition, namespace, key and both epochs agree |
| `ExecutionCache.MemoryEpochRegistry.RotateNamespaces` | src/oncemesh/execution_cache.py:78-82 | rotation bumps the listed namespaces up to the first invalid one, at which it raises |
| `ExecutionCache.RotationMovesExactly` | src/oncemesh/execution_cache.py:78-82 | exactly the namespaces reached move, and forward; the global epoch stays |
| `ExecutionCache.RotationUnchangedExactly` | src/oncemesh/execution_cache.py:78-82 | a rotation leaves the epochs as they were if and only if its first namespace is invalid or it has none |
| `ExecutionCache.FailedRotationMoves` | src/oncemesh/execution_cache.py:78-82 | a namespace with an empty part after a valid one: the rotation raises and the valid one has moved |
| `ExecutionCache.ExecutionCacheBridge.Get` | src/oncemesh/execution_cache.py:271-300 | disabled reads are empty; a key that cannot be canonicalized raises; otherwise the result holds exactly the keys whose lookup decodes |
| `ExecutionCache.DecodedMeans` | src/oncemesh/execution_cache.py:284-299 | a hit reads as a value exactly when its one artifact is named and typed as a bridge publishes it and is that value's envelope |
| `ExecutionCache.ExecutionCacheBridge.Set` | src/oncemesh/execution_cache.py:302-323 | the pairs are published in order up to and including the first that raises; disabled writes do nothing |
| `ExecutionCache.ExecutionCacheBridge.Clear` | src/oncemesh/execution_cache.py:325-329 | a clear rotates epochs and touches no stored object |
| `ExecutionCacheRuns.StoredCandidates` | src/oncemesh/execution_cache.py:302-323 | after any run the store lists for an identity exactly the manifests of the writes made under it, in order |
| `ExecutionCacheRuns.ReadReturnsLatestWrite` | src/oncemesh/execution_cache.py:248-329 | over every run of bridges sharing a store and a registry, a read returns the latest unexpired write of exactly that key and configuration that no later clear covers, or nothing |
| `ExecutionCacheRuns.LatestMeans` | src/oncemesh/execution_cache.py:248-329 | that latest write said of the whole log at once: the last position that writes or clears the key, living, storable and unexpired to the microsecond, with no later clear of everything or of its namespace ahead of any namespace with an empty part |
| `ExecutionCacheRuns.ClearedForGood` | src/oncemesh/execution_cache.py:325-329 | after a covering clear only the log after it matters: nothing written before it is ever read again |
| `ExecutionCacheRuns.OthersUnchanged` | src/oncemesh/execution_cache.py:325-329 | clearing listed namespaces leaves every other key's identity and value unchanged |
| `ActiveKeyIndex.MemoryActiveKeyIndex.PublishAndActivate` | src/oncemesh/integrations/index.py:97-110 | the entry becomes active under the next generation and the new publication id, or stays as it was when the publisher raises |
| `ActiveKeyIndex.MemoryActiveKeyIndex.PreparePut` | src/oncemesh/integrations/index.py:80-87 | an active entry moves to the next generation, inactive and without publication id |
| `ActiveKeyIndex.MemoryActiveKeyIndex.Delete` | src/oncemesh/integrations/index.py:112-119 | an active entry is retired to the next generation; an inactive one is left alone; it answers whether the key was active, which it is not afterwards |
| `ActiveKeyIndex.ClearEntries` | src/oncemesh/integrations/index.py:127-145 | the loop retires exactly the active entries covered and counts them |
| `ActiveKeyIndex.ListActive` | src/oncemesh/integrations/index.py:121-125 | the listing is ascending and holds exactly the active keys of the namespace |
| `ActiveKeyIndex.RetiredIsInactive` | src/oncemesh/integrations/index.py:80-145 | right after a delete, a put's preparation or a covering clear the key has no active revision, and if it had one its entry is the next generation, inactive and without publication id |
| `ActiveKeyIndex.PublishedIsActive` | src/oncemesh/integrations/index.py:97-110 | right after a publication the key is active under it, in the next generation if it was active before; a raising publisher changes nothing |
| `ActiveKeyIndex.OthersKept` | src/oncemesh/integrations/index.py:80-145 | every operation leaves the keys it does not cover exactly as they were |
| `ActiveKeyIndex.AnswersCount` | src/oncemesh/integrations/index.py:112-145 | a delete answers whether, and a clear how many, keys were active before and are not after |
| `ActiveKeyIndex.RetiredStaysInactive` | src/oncemesh/integrations/index.py:80-145 | in every run a retired key has no active revision until it is published or activated again |
| `ActiveKeyIndex.RunWellFormed` | src/oncemesh/integrations/index.py:80-145 | in every run inactive entries carry no publication id |
| `ActiveKeyIndex.GenerationNeverDecreases` | src/oncemesh/integrations/index.py:80-145 | in every run a key's generation never decreases |
| `ActiveKeyIndex.NeverActiveAgain` | src/oncemesh/integrations/index.py:80-145 | a revision once overwritten, deleted, cleared or prepared over is never active again, and later active periods have greater generations |
| `FilesystemIndex.FileRoundTrip` | src/oncemesh/integrations/index.py:160-217 | `_read` inverts `_write` for every entry map with generations up to 2^53 - 1 |
| `FilesystemIndex.Version1Reads` | src/oncemesh/integrations/index.py:160-197 | a version 1 file reads as the same map with no publication ids |
| `FilesystemIndex.WrittenExactlyWhenEncodable` | src/oncemesh/integrations/index.py:199-217 | writing succeeds if and only if every text is encodable and no generation exceeds 2^53 - 1 |
| `FilesystemIndex.SortedListUnique` | src/oncemesh/integrations/index.py:199-206 | the order of entries in the file is determined by the map |
| `FilesystemIndex.WrittenInOrder` | src/oncemesh/integrations/index.py:199-206 | the entries of a written file ascend by namespace and then by name |
| `FilesystemIndex.NamespaceLessMeans` | src/oncemesh/integrations/index.py:199-206 | namespaces compare as tuples: at the first part where they differ, by code point, or the shorter is less |
| `FilesystemIndex.ItemMeans` | src/oncemesh/integrations/index.py:167-196 | one entry is read exactly from non-empty texts, a generation that is not negative, a truth value and a publication id of 32 hexadecimal digits or null |
| `FilesystemIndex.ItemsMean` | src/oncemesh/integrations/index.py:167-197 | a list of entries is read exactly when every entry is, under distinct keys, and as exactly those entries |
| `FilesystemActiveKeys.FilesystemActiveKeyIndex.Mutate` | src/oncemesh/integrations/index.py:219-313 | read, operate, rewrite: the file changes as a whole or, where reading or writing raises, not at all |
| `FilesystemActiveKeys.FilesystemActiveKeyIndex.PublishAndActivate` | src/oncemesh/integrations/index.py:262-277 | the file is rewritten only after the publisher has returned |
| `FilesystemActiveKeys.FileStepRefines` | src/oncemesh/integrations/index.py:219-313 | a valid operation answers as the map does and leaves a file that reads as the new map |
| `SqliteActiveKeys.NamespaceTextInjective` | src/oncemesh/integrations/index.py:337-343 | distinct namespaces have distinct canonical texts |
| `SqliteActiveKeys.SqlStepRefines` | src/oncemesh/integrations/index.py:403-589 | every transaction answers as the map does, row counts included, and leaves a table standing for the new map |
| `SqliteActiveKeys.SQLiteActiveKeyIndex.ActiveKeys` | src/oncemesh/integrations/index.py:547-560 | the query lists exactly the active rows of the namespace in byte order |
| `SqliteActiveKeys.RowListing` | src/oncemesh/integrations/index.py:547-560 | that list is the map's own code-point-ordered listing |
| `SqliteActiveKeys.SQLiteActiveKeyIndex.ImportFilesystem` | src/oncemesh/integrations/index.py:591-618 | importing into an empty table, or replacing, carries over the whole map and its size; otherwise nothing changes |
| `IndexAgreement.AnswersAgree` | src/oncemesh/integrations/index.py:55-589 | from any agreeing start the memory, file and SQLite forms give the same answer to every operation of every valid sequence |
| `IndexAgreement.FreshIndexesAgree` | src/oncemesh/integrations/index.py:55-589 | started with no file, an empty table and an empty map, all three answer alike and hold the same entries at every point of every valid sequence of up to 2^53 - 1 operations |
| `IndexAgreement.QueriesAgree` | src/oncemesh/integrations/index.py:226-313 | at every point of such a run they report the same entries and list the same keys in the same order |
| `IndexedCache.CoreKeyInjective` | src/oncemesh/integrations/index.py:636-648 | different keys or revisions are never published under the same core key |
| `IndexedCache.StepKeeps` | src/oncemesh/integrations/index.py:508-532 | every step of every writer, reader, crash, delete, clear and foreign bridge keeps index, readers and publication history consistent |
| `IndexedCache.FetchReturnsCommitted` | src/oncemesh/integrations/index.py:665-672 | in every interleaving, other bridges writing and clearing on the same store and epochs included, a reader fetches exactly the value committed for the revision it read, until that value expires or an epoch clear covers it, then nothing |
| `IndexedCache.ReadReturnsCurrent` | src/oncemesh/integrations/index.py:665-672 | an uninterrupted get returns the value committed for the current revision or nothing: never an orphaned, overwritten or deleted one |
| `IndexedCache.CommittedForGood` | src/oncemesh/integrations/index.py:262-277 | what a revision was committed for never changes |
| `IndexedCache.PutIsRead` | src/oncemesh/integrations/index.py:650-672 | a put that is not interrupted and does not raise is what a get then gives, until its time to live has passed |
| `IndexedCache.RetiredReadsNothing` | src/oncemesh/integrations/index.py:665-691 | after a delete or a covering clear, and while no writer has locked the key again, a get gives nothing whatever else happens |
| `IndexedCache.CrashIsUnseen` | src/oncemesh/integrations/index.py:650-663 | a writer that crashes between publishing and committing is never seen: every key reads as before |
| `IndexedAdapter.IndexedRuntimeCacheAdapter.Put` | src/oncemesh/integrations/index.py:650-663 | publishes under the next revision and commits the index exactly when publishing did not raise |
| `IndexedAdapter.IndexedRuntimeCacheAdapter.Get` | src/oncemesh/integrations/index.py:665-672 | the active revision's value, or nothing |
| `IndexedAdapter.IndexedRuntimeCacheAdapter.GetAll` | src/oncemesh/integrations/index.py:674-681 | exactly the active keys that have a value, each with the value get gives it |
| `IndexedAdapter.PutIsLockPublishCommit` | src/oncemesh/integrations/index.py:650-663 | an uninterrupted put is the machine's lock, publish and commit |
| `IndexedAdapter.PutThenGet` | src/oncemesh/integrations/index.py:650-672 | what was put is what a get then gives, until its time to live has passed |
| `IndexedAdapter.RetiredThenGet` | src/oncemesh/integrations/index.py:665-691 | a key that was deleted, or whose namespace or everything was cleared, gives nothing |
| `IndexedAdapter.OthersThenGet` | src/oncemesh/integrations/index.py:665-691 | operations on other keys change nothing a get gives |
| `IndexedAdapter.IndexedRuntimeCacheAdapter.Delete` | src/oncemesh/integrations/index.py:683-685 | the key is not active afterwards, the answer is whether it was, and every other entry is as before |
| `IndexedAdapter.IndexedRuntimeCacheAdapter.Clear` | src/oncemesh/integrations/index.py:687-691 | no covered key is active afterwards, and the answer counts those retired |
| `LeasedCache.FederationCacheStore.ImportBundle` | src/oncemesh/federation.py:324-330 | blobs, result, receipt and lease are added and nothing else changes |
| `LeasedCache.FederationCacheStore.Prune` | src/oncemesh/federation.py:332-356 | the loops compute the pruned state and count the ended leases |
| `LeasedCache.ImportKeeps` | src/oncemesh/federation.py:324-330 | importing an intact bundle keeps every entry leased, complete and backed by intact blobs, and no blob unreferenced |
| `LeasedCache.PruneExact` | src/oncemesh/federation.py:332-356 | pruning leaves exactly the entries with later leases, their receipts, and exactly the blobs they refer to |
| `LeasedCache.PruneIdempotent` | src/oncemesh/federation.py:332-356 | pruning again at the same or an earlier time changes nothing |
| `LeasedCache.ImportOutlives` | src/oncemesh/federation.py:324-356 | what was imported stays listed, with its receipt and every artifact's bytes, through every run of further imports and prunes before the end of its lease |
| `LeasedCache.LeaseEnds` | src/oncemesh/federation.py:332-356 | and the first prune from the end of its lease on takes it, its receipt and its lease away |
| `LeasedCache.After` | src/oncemesh/federation.py:310-386 | in every reachable state each listed entry is leased and has all its artifact blobs intact |
| `LeasedFiles.FilesystemFederationCacheStore.ImportBundle` | src/oncemesh/federation.py:472-507 | blobs before the entry: on every disk a crash can leave, each listed entry has its blobs intact; a refused bundle adds no entry |
| `LeasedFiles.FilesystemFederationCacheStore.Prune` | src/oncemesh/federation.py:509-531 | entries before blobs: every intermediate disk is sound and the final one is exactly the pruned disk |
| `LeasedFiles.PrunedDiskExact` | src/oncemesh/federation.py:509-531 | the pruned disk has exactly the later-leased entries and exactly their blobs |
| `LeasedFiles.PrunedDiskIdempotent` | src/oncemesh/federation.py:509-531 | pruning the pruned disk changes nothing |
| `Availability.ValidateAvailability` | src/oncemesh/federation.py:68-114 | accepts exactly the signed, canonical manifests with valid entries, unique and in canonical order |
| `Availability.SortedExactlyWhenAscending` | src/oncemesh/federation.py:85-103 | unique entries equal their sorted list exactly when they ascend |
| `Availability.SignedVerifies` | src/oncemesh/federation.py:117-155 | what a peer signs validates and verifies under its public key |
| `Availability.SigningNeedsSafeSizes` | src/oncemesh/federation.py:117-121 | one entry larger than 2^53 - 1 makes the whole manifest unsignable |
| `SignedFields.AvailabilityBytesIdentify` | src/oncemesh/federation.py:117-121 | the bytes under an availability signature are the same if and only if peer, time and every entry are |
| `SignedFields.ReceiptBytesIdentify` | src/oncemesh/receipt.py:61-65 | the bytes under a receipt signature are the same if and only if result, producer and environment are |
| `SignedFields.RequestBytesIdentify` | src/oncemesh/federation_http.py:95-97 | the bytes under a request signature are the same only for the same peer, time, nonce, method and path |
| `SignedFields.ActionIdIdentifies` | src/oncemesh/canonical.py:93-112 | actions share a digest only with the same operation, inputs, executor, output schema and vary |
| `SignedFields.DomainsApart` | src/oncemesh/federation.py:28 | no signed bytes of one kind are signed bytes of another: the three signing domains differ whatever follows them |
| `PeerCatalog.PublicPeerCatalog.Publish` | src/oncemesh/federation.py:189-214 | accepts exactly public results whose action, receipt and artifacts check out, and records them under their digest |
| `PeerCatalog.PublicPeerCatalog.AvailabilityAt` | src/oncemesh/federation.py:219-235 | advertises each publication once, sorted, with its total size, signed |
| `PeerCatalog.PublicPeerCatalog.Withdraw` | src/oncemesh/federation.py:216-217 | removes the one publication and says whether it was there |
| `PeerCatalog.PublishingKeepsHonest` | src/oncemesh/federation.py:189-214 | publishing what passed the checks keeps the catalog honest |
| `PeerCatalog.RunHonest` | src/oncemesh/federation.py:189-217 | every sequence of store puts, publications and withdrawals leaves an honest catalog honest |
| `PeerCatalog.ServesIntact` | src/oncemesh/federation.py:237-248 | an honest catalog serves an intact bundle for everything it has published |
| `Validity.PublishableMeans` | src/oncemesh/federation.py:189-214 | what may be published, field by field: the action's own plain result, a receipt that Ed25519 verifies over its own canonical bytes under the configured key of its id, and every blob of its size and digest |
| `PeerCatalog.PublishedIsServed` | src/oncemesh/federation.py:189-248 | a published result is served with its bytes and advertised with its action, operation and size; everything else is served as before |
| `PeerCatalog.WithdrawnIsGone` | src/oncemesh/federation.py:216-248 | a withdrawn result is neither served nor advertised; everything else is as before |
| `PeerImport.CheckArtifacts` | src/oncemesh/federation.py:643-657 | the loop with its running total lets through exactly intact artifacts within the limits that add up to the advertised size; otherwise the first that fails gives the outcome |
| `FederatedImport.ImportFromPeer` | src/oncemesh/federation.py:595-663 | a reported import rests on an entry of an availability that Ed25519 verifies over its canonical bytes under the configured key, and on a bundle whose receipt it verifies likewise; it puts exactly that bundle in the destination, leased to now + retention; otherwise the destination stays as it was and the outcome is the first check that fails, or the exception of the peer's own fetch |
| `FederatedImport.TrustedMeans` | src/oncemesh/federation.py:607-618 | an availability is trusted exactly when it is the configured peer's, signed by the configured key over its own canonical bytes, in order, short enough and timely |
| `FederatedImport.ManifestAdmittedMeans` | src/oncemesh/federation.py:630-645 | a bundle's manifest is admitted exactly when it is the advertised one, by a trusted producer, with a receipt for it that Ed25519 verifies under the configured key of its id |
| `FederatedImport.ArtifactsAdmittedMeans` | src/oncemesh/federation.py:646-659 | its artifacts are admitted exactly when they are the described ones, none too large, and add up to the advertised size |
| `FederatedImport.ImportedProves` | src/oncemesh/federation.py:595-664 | every reported import proves all of that, of the first entry of the action, for an allowed operation within the transfer limit |
| `FederatedImport.ProvedIsImported` | src/oncemesh/federation.py:595-664 | conversely, all of that is enough |
| `FederatedImport.ForgedAvailabilityRefused` | src/oncemesh/federation.py:605-618 | an availability that is not so signed is refused without asking for a bundle, as `availability_untrusted` when it is otherwise well formed |
| `FederatedImport.ForgedBundleRefused` | src/oncemesh/federation.py:630-661 | a bundle whose receipt is not so signed, or that is not the advertised one, is refused, as `receipt_invalid` when only the signature is wrong |
| `PeerImport.CheckAvailability` | src/oncemesh/federation.py:605-618 | the checks of the availability in order, and which outcome each gives |
| `PeerImport.CheckManifest` | src/oncemesh/federation.py:630-645 | the checks of the manifest and receipt in order, and which outcome each gives |
| `PeerImport.PassedIsIntact` | src/oncemesh/federation.py:626-660 | what passes is intact and its bytes equal the advertised size, within both limits |
| `PeerImport.ImportChanges` | src/oncemesh/federation.py:660-663 | a reported import always changes the destination |
| `PeerImport.AdvertisesExactlyWhenSafe` | src/oncemesh/federation.py:219-235 | an honest peer can advertise at all if and only if every published result adds up to at most 2^53 - 1 bytes |
| `PeerImport.HonestImportExactly` | src/oncemesh/federation.py:595-663 | importing from an honest catalog succeeds exactly under a permitting configuration, with the least-digest manifest advertised for the action |
| `PeerImport.ReachableImportExactly` | src/oncemesh/federation.py:595-663 | the same of every catalog there can be: whatever has happened to it since it was empty |
| `OversizedResult.OneResultSilencesPeer` | src/oncemesh/federation.py:219-235 | for any honest catalog that trusts a producer, one accepted publication by that producer leaves it unable to advertise anything |
| `OversizedResult.SilencedCatalogExists` | src/oncemesh/federation.py:219-235 | such a catalog: two steps from an empty one, honest, and unable to sign |
| `PeerCatalog.SameIdSameOperation` | src/oncemesh/canonical.py:93-112 | actions with the same digest have the same operation |
| `RequestSigning.SignedRequestVerifies` | src/oncemesh/federation_http.py:97-130 | what a seed signs over a valid request verifies under its public key |
| `RequestSigning.VerifiedMeans` | src/oncemesh/federation_http.py:73-130 | a request is verified exactly when every header occurs once, the peer is configured, and Ed25519 verifies the signature over the domain and the request's own canonical bytes under the peer's configured key |
| `RequestAuthentication.FederationRequestAuthenticator.AuthenticatePeer` | src/oncemesh/federation_http.py:180-221 | a peer is returned only for a request signed as configured, and then exactly when it is timely, its nonce is not remembered beyond now, and fewer nonces than the capacity are; expired nonces are dropped first, and an unverified request changes nothing |
| `RequestAuthentication.SignedIsAccepted` | src/oncemesh/federation_http.py:180-221 | a configured requester's own timely request with a new nonce is accepted while there is room |
| `RequestAuthentication.RememberMeans` | src/oncemesh/federation_http.py:204-219 | what is remembered afterwards: the live nonces as they were and, exactly on acceptance, the new one until now + max_age; an untimely request changes nothing |
| `RequestAuthentication.MemoryBounded` | src/oncemesh/federation_http.py:210-217 | nonce memory never exceeds its capacity |
| `RequestAuthentication.AcceptancesApart` | src/oncemesh/federation_http.py:205-217 | two acceptances of one (peer, nonce) are at least max_age apart |
| `RequestAuthentication.EarlierStampAcceptedOnce` | src/oncemesh/federation_http.py:203-217 | a request stamped strictly before its first acceptance is accepted once |
| `RequestAuthentication.AcceptedAtMost` | src/oncemesh/federation_http.py:203-217 | any request is accepted at most 1 + floor((max_age + skew) / max_age) times |
| `RequestAuthentication.WindowBounded` | src/oncemesh/federation_http.py:210-217 | any half-open max_age window holds at most max_remembered_nonces acceptances |
| `RateLimiting.FederationRequestRateLimiter.AllowRequest` | src/oncemesh/federation_http.py:244-254 | the popping loop leaves the peer's times after the boundary, plus the new one when allowed |
| `RateLimiting.DequeExact` | src/oncemesh/federation_http.py:244-254 | after each call the peer's deque is sorted and holds exactly its allowed times in (now - window, now] |
| `RateLimiting.RefusedExactlyWhenFull` | src/oncemesh/federation_http.py:244-254 | a call is refused if and only if the window ending now already holds the maximum |
| `RateLimiting.RefusedExactlyByCount` | src/oncemesh/federation_http.py:244-254 | a call is refused if and only if the peer's calls allowed less than a window ago number the maximum; one exactly a window old no longer counts |
| `RateLimiting.EveryWindowBounded` | src/oncemesh/federation_http.py:244-254 | every window over the whole run holds at most the maximum for each peer |
| `RateLimiting.PeersIndependent` | src/oncemesh/federation_http.py:244-254 | a peer's answers are those of the run with everyone else's calls left out |
| `SingleFlight.SingleFlightRevalidator.Claim` | src/oncemesh/revalidation.py:35-39 | the first critical section is the machine's submit step: a key is claimed exactly when it was not in flight |
| `SingleFlight.SingleFlightRevalidator.Submit` | src/oncemesh/revalidation.py:35-56 | an uninterrupted submit is the machine's claim, then acceptance and return, or refusal and release |
| `SingleFlight.SingleFlightRevalidator.EndJob` | src/oncemesh/revalidation.py:41-47 | the end of a job, failed or not, is the machine's finish step |
| `SingleFlight.SingleFlightRevalidator.IsIdle` | src/oncemesh/revalidation.py:58-60 | nothing is in flight exactly when no submission is live |
| `SingleFlight.OneJobPerKey` | src/oncemesh/revalidation.py:35-56 | in every interleaving each key has at most one outstanding job |
| `SingleFlight.TrueSubmitsAccounted` | src/oncemesh/revalidation.py:35-56 | true submits are the finished and the outstanding jobs, but for calls still returning |
| `SingleFlight.CoalescedExactlyWhenHeld` | src/oncemesh/revalidation.py:35-39 | a submit answers false if and only if an earlier submission still holds its key |
| `SingleFlight.IdleMeansNothingOutstanding` | src/oncemesh/revalidation.py:58-60 | nothing in flight means no job outstanding and none on its way to the executor |
| `SingleFlight.EndingReleasesKey` | src/oncemesh/revalidation.py:41-56 | success, failure and refusal all release the key |
| `SingleFlight.SubmissionAdvances` | src/oncemesh/revalidation.py:35-56 | a claimed submission is taken, runs and ends in that order and holds its key throughout; its call returns once |

## Left out

- Cryptography and encodings: SHA-256, HMAC, Ed25519 and base64 are library calls, kept as unknown functions; the number
  of hexadecimal digits in a digest is left open, because an injective digest of all byte strings needs them all.
- Timestamps are integers in microseconds and their text is decimal; parsing and formatting of RFC 3339 text is not
  modelled, so malformed timestamps do not occur.
- Shape checks on dictionaries read from outside (unknown or missing fields, wrong types) are done by typing, except for
  the index file, whose reader is modelled field by field.
- JSON the program never writes (white space, floats, escapes beyond its own) is not read by the parser of the model.
- SQLite, WAL, `flock`, temporary files and directory removal: only atomic commit, replacement and mutual exclusion.
- Chronological order of `FilesystemStore.candidates`, which sorts timestamps as text; nothing is claimed about it. Its
  receipt files follow the same write-once scheme and are not modelled: no lookup reads them.
- MemoryStore.MemoryStore.PutReceipt: `validate_receipt` is left out there, because no lookup reads receipts; the catalog
  and the import gate check the ones they use.
- `FilesystemEpochRegistry`: the memory registry stands for both; the file form checks all namespaces before it rotates any,
  so a `clear` that raises there is an event the log does not have.
- Index read errors other than an unreadable file, and lock timeouts.
- Adapter codecs: values are the encoded ones, so a stored null that reads as a miss does not arise.
- `federation_http.py` from line 257 on, the parsing of header texts, HTTP clients and servers, TLS, DNS checks, document extraction, metrics, status
  pages, the command line, the organization pilot and framework adapters: foreign libraries, presentation or thin
  translation.
- Policy and key-registry parsing: policies are taken as validated.
- `revalidate_http_candidate` and the execution it drives: effects and outside calls around the modelled decisions.
- StaleWhileRevalidate.ServeOrExecute: decoding the candidate's metadata, extracting the output and the coordinator's
  work are outside calls; what they would answer is given by the caller.
- FederatedImport.ImportFromPeer: a `ValueError` or `TypeError` from the peer's `availability` is its missing answer; any other
  exception there ends the call before anything is looked at and is not modelled.
- Cache.EvaluateCandidate: the store's answers are functions of the digest, so two reads of one digest within a lookup
  agree; a store changing under a running lookup is not modelled.
- SingleFlight.TrueSubmitsAccounted: a submission the executor has taken counts as returned only when its call returns,
  because its job can end first; the equation names those calls.
