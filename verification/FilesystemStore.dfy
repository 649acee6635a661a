/** `FilesystemStore`: write-once files named by digest, and the memory store they stand for, crashes included. */
module FilesystemStore {
  import opened Text
  import opened Json
  import opened Digests
  import opened Records
  import opened SourceRecords
  import opened MemoryStore

  datatype ActionPath = ActionPath(action: Digest, result: Digest)

  /** A record about a result, named by the record's own digest. */
  datatype RecordPath = RecordPath(result: Digest, record: Digest)

  /** One blob file per digest, one result file per digest, one file per action and result, and one per record. */
  datatype Disk = Disk(
    blobs: map<Digest, Bytes>,
    results: map<Digest, Bytes>,
    actions: map<ActionPath, Bytes>,
    validations: map<RecordPath, Bytes>,
    invalidations: map<RecordPath, Bytes>)

  const EMPTY_DISK := Disk(map[], map[], map[], map[], map[])

  /** `_atomic_write`: an existing file is left alone. */
  function WriteOnce<K>(files: map<K, Bytes>, path: K, data: Bytes): map<K, Bytes> {
    if path in files then files else files[path := data]
  }

  /** The file holds the manifest: its bytes digest to the manifest's digest. */
  ghost predicate HoldsManifest(b: Bytes, m: Manifest) {
    ValidManifest(m) && DigestBytes(b) == ManifestDigest(m)
  }

  /** Those bytes are exactly its canonical JSON. */
  lemma HoldsCanonical(b: Bytes, m: Manifest)
    requires ValidManifest(m)
    ensures HoldsManifest(b, m) <==> CanonicalJson(ManifestJson(m)) == Some(b)
  {
    ManifestDigestIsCanonical(m);
    if HoldsManifest(b, m) {
      DigestBytesInjective(b, CanonicalJson(ManifestJson(m)).value);
    }
  }

  /** The canonical file of a valid manifest. */
  ghost function Encoded(m: Manifest): (b: Bytes)
    requires ValidManifest(m)
    ensures HoldsManifest(b, m)
  {
    ManifestDigestIsCanonical(m);
    CanonicalJson(ManifestJson(m)).value
  }

  method EncodeManifest(m: Manifest) returns (b: Bytes)
    requires ValidManifest(m)
    ensures b == Encoded(m)
  {
    ManifestDigestIsCanonical(m);
    b := CanonicalJson(ManifestJson(m)).value;
  }

  /** The file holds the record: its bytes are the record's canonical JSON. */
  predicate HoldsValidation(b: Bytes, v: Validation) {
    ValidValidation(v) && CanonicalJson(ValidationJson(v)) == Some(b)
  }

  predicate HoldsInvalidation(b: Bytes, r: Invalidation) {
    ValidInvalidation(r) && CanonicalJson(InvalidationJson(r)) == Some(b)
  }

  function EncodedValidation(v: Validation): (b: Bytes)
    requires ValidValidation(v)
    ensures HoldsValidation(b, v)
  {
    ValidationShape(v);
    CanonicalJson(ValidationJson(v)).value
  }

  function EncodedInvalidation(r: Invalidation): (b: Bytes)
    requires ValidInvalidation(r)
    ensures HoldsInvalidation(b, r)
  {
    InvalidationShape(r);
    CanonicalJson(InvalidationJson(r)).value
  }

  /** A file holds one record only, and a record has one file. */
  ghost predicate OneToOne<R(!new)>(holds: (Bytes, R) -> bool) {
    && (forall b, r, q :: holds(b, r) && holds(b, q) ==> r == q)
    && (forall b, c, r :: holds(b, r) && holds(c, r) ==> b == c)
  }

  lemma RecordsOneToOne()
    ensures OneToOne(HoldsValidation) && OneToOne(HoldsInvalidation)
  {
    forall b, v, u | HoldsValidation(b, v) && HoldsValidation(b, u) ensures v == u {
      ValidationBytesIdentify(v, u);
    }
    forall b, r, q | HoldsInvalidation(b, r) && HoldsInvalidation(b, q) ensures r == q {
      InvalidationBytesIdentify(r, q);
    }
  }

  // ---------- what every disk keeps ----------

  ghost predicate IsResultFile(d: Digest, b: Bytes) {
    exists m :: HoldsManifest(b, m) && ManifestDigest(m) == d
  }

  ghost predicate IsActionFile(p: ActionPath, b: Bytes) {
    exists m :: HoldsManifest(b, m) && ManifestDigest(m) == p.result && m.actionDigest == p.action
  }

  /** Every record file is named by its digest and holds a record about the result it is filed under. */
  ghost predicate FiledRecords<R(!new)>(files: map<RecordPath, Bytes>, holds: (Bytes, R) -> bool, about: R -> Digest) {
    forall p | p in files :: DigestBytes(files[p]) == p.record && exists r :: holds(files[p], r) && about(r) == p.result
  }

  function ValidationAbout(v: Validation): Digest {
    v.resultDigest
  }

  function InvalidationAbout(r: Invalidation): Digest {
    r.resultDigest
  }

  ghost predicate FiledBlobs(blobs: map<Digest, Bytes>) {
    forall d | d in blobs :: DigestBytes(blobs[d]) == d
  }

  /** Every file holds what its name says, so no read ever fails; an action lists only results that are there. */
  ghost predicate Filed(disk: Disk) {
    && FiledBlobs(disk.blobs)
    && (forall d | d in disk.results :: IsResultFile(d, disk.results[d]))
    && (forall p | p in disk.actions :: IsActionFile(p, disk.actions[p]) && p.result in disk.results)
    && FiledRecords(disk.validations, HoldsValidation, ValidationAbout)
    && FiledRecords(disk.invalidations, HoldsInvalidation, InvalidationAbout)
  }

  function PathOf(about: Digest, b: Bytes): RecordPath {
    RecordPath(about, DigestBytes(b))
  }

  function AfterValidation(disk: Disk, v: Validation): Disk
    requires ValidValidation(v)
  {
    var b := EncodedValidation(v);
    disk.(validations := WriteOnce(disk.validations, PathOf(v.resultDigest, b), b))
  }

  function AfterInvalidation(disk: Disk, r: Invalidation): Disk
    requires ValidInvalidation(r)
  {
    var b := EncodedInvalidation(r);
    disk.(invalidations := WriteOnce(disk.invalidations, PathOf(r.resultDigest, b), b))
  }

  lemma RecordFiled<R(!new)>(files: map<RecordPath, Bytes>, holds: (Bytes, R) -> bool, about: R -> Digest, r: R, b: Bytes)
    requires FiledRecords(files, holds, about) && holds(b, r)
    ensures FiledRecords(WriteOnce(files, PathOf(about(r), b), b), holds, about)
  {
  }

  function AfterBlob(disk: Disk, data: Bytes): Disk {
    disk.(blobs := WriteOnce(disk.blobs, DigestBytes(data), data))
  }

  ghost function AfterResultFile(disk: Disk, m: Manifest): Disk
    requires ValidManifest(m)
  {
    disk.(results := WriteOnce(disk.results, ManifestDigest(m), Encoded(m)))
  }

  ghost function AfterActionFile(disk: Disk, m: Manifest): Disk
    requires ValidManifest(m)
  {
    disk.(actions := WriteOnce(disk.actions, ActionPath(m.actionDigest, ManifestDigest(m)), Encoded(m)))
  }

  lemma BlobFiled(disk: Disk, data: Bytes)
    requires Filed(disk)
    ensures Filed(AfterBlob(disk, data))
  {
  }

  lemma ResultFiled(disk: Disk, m: Manifest)
    requires Filed(disk) && ValidManifest(m)
    ensures Filed(AfterResultFile(disk, m)) && ManifestDigest(m) in AfterResultFile(disk, m).results
  {
    assert IsResultFile(ManifestDigest(m), Encoded(m));
  }

  lemma ActionFiled(disk: Disk, m: Manifest)
    requires Filed(disk) && ValidManifest(m) && ManifestDigest(m) in disk.results
    ensures Filed(AfterActionFile(disk, m))
  {
    assert IsActionFile(ActionPath(m.actionDigest, ManifestDigest(m)), Encoded(m));
  }

  lemma ValidationFiled(disk: Disk, v: Validation)
    requires Filed(disk) && ValidValidation(v)
    ensures Filed(AfterValidation(disk, v))
  {
    RecordFiled(disk.validations, HoldsValidation, ValidationAbout, v, EncodedValidation(v));
  }

  lemma InvalidationFiled(disk: Disk, r: Invalidation)
    requires Filed(disk) && ValidInvalidation(r)
    ensures Filed(AfterInvalidation(disk, r))
  {
    RecordFiled(disk.invalidations, HoldsInvalidation, InvalidationAbout, r, EncodedInvalidation(r));
  }

  class FilesystemStore {
    var disk: Disk
    /** Every disk there has been, one after each file write. */
    ghost var history: seq<Disk>

    constructor ()
      ensures disk == EMPTY_DISK && history == [disk] && FiledHistory()
    {
      disk := EMPTY_DISK;
      history := [EMPTY_DISK];
    }

    /** Whenever the process stops, the files it leaves are in order. */
    ghost predicate FiledHistory()
      reads this
    {
      disk in history && forall d | d in history :: Filed(d)
    }

    method PutBlob(data: Bytes) returns (d: Digest)
      requires FiledHistory()
      modifies this
      ensures d == DigestBytes(data) && disk == AfterBlob(old(disk), data)
      ensures FiledHistory() && old(history) <= history
    {
      BlobFiled(disk, data);
      d := DigestBytes(data);
      disk := disk.(blobs := WriteOnce(disk.blobs, d, data));
      history := history + [disk];
    }

    method WriteResultFile(m: Manifest, encoded: Bytes)
      requires FiledHistory() && ValidManifest(m) && encoded == Encoded(m)
      modifies this
      ensures disk == AfterResultFile(old(disk), m) && FiledHistory() && old(history) <= history
    {
      ResultFiled(disk, m);
      disk := disk.(results := WriteOnce(disk.results, DigestBytes(encoded), encoded));
      history := history + [disk];
    }

    method WriteActionFile(m: Manifest, encoded: Bytes)
      requires FiledHistory() && ValidManifest(m) && encoded == Encoded(m) && ManifestDigest(m) in disk.results
      modifies this
      ensures disk == AfterActionFile(old(disk), m) && FiledHistory() && old(history) <= history
    {
      ActionFiled(disk, m);
      disk := disk.(actions := WriteOnce(disk.actions, ActionPath(m.actionDigest, DigestBytes(encoded)), encoded));
      history := history + [disk];
    }

    /** The result file, then the action file; a crash can come between. */
    method PutResult(m: Manifest) returns (ok: bool)
      requires FiledHistory()
      modifies this
      ensures ok <==> ValidManifest(m)
      ensures disk == if ok then AfterActionFile(AfterResultFile(old(disk), m), m) else old(disk)
      ensures FiledHistory() && old(history) <= history
    {
      ok := ValidateManifest(m);
      if ok {
        var encoded := EncodeManifest(m);
        WriteResultFile(m, encoded);
        WriteActionFile(m, encoded);
      }
    }

    method PutValidation(v: Validation) returns (ok: bool)
      requires FiledHistory()
      modifies this
      ensures ok <==> ValidValidation(v)
      ensures disk == if ok then AfterValidation(old(disk), v) else old(disk)
      ensures FiledHistory() && old(history) <= history
    {
      ok := ValidValidation(v);
      if ok {
        ValidationFiled(disk, v);
        var encoded := EncodedValidation(v);
        disk := disk.(validations := WriteOnce(disk.validations, PathOf(v.resultDigest, encoded), encoded));
        history := history + [disk];
      }
    }

    method PutInvalidation(r: Invalidation) returns (ok: bool)
      requires FiledHistory()
      modifies this
      ensures ok <==> ValidInvalidation(r)
      ensures disk == if ok then AfterInvalidation(old(disk), r) else old(disk)
      ensures FiledHistory() && old(history) <= history
    {
      ok := ValidInvalidation(r);
      if ok {
        InvalidationFiled(disk, r);
        var encoded := EncodedInvalidation(r);
        disk := disk.(invalidations := WriteOnce(disk.invalidations, PathOf(r.resultDigest, encoded), encoded));
        history := history + [disk];
      }
    }
  }

  // ---------- the memory store it stands for ----------

  /** `result`: absent, or read and checked against its name. */
  ghost predicate ReadsResult(results: map<Digest, Bytes>, d: Digest, r: Option<Manifest>) {
    match r
    case None => d !in results
    case Some(m) => d in results && HoldsManifest(results[d], m) && ManifestDigest(m) == d
  }

  /** `candidates` lists the manifest; in which order is not claimed. */
  ghost predicate ListsCandidate(actions: map<ActionPath, Bytes>, action: Digest, m: Manifest) {
    && ValidManifest(m) && ActionPath(action, ManifestDigest(m)) in actions
    && HoldsManifest(actions[ActionPath(action, ManifestDigest(m))], m)
  }

  ghost predicate SameResults(results: map<Digest, Bytes>, byDigest: map<Digest, Manifest>) {
    forall d :: ReadsResult(results, d, Lookup(byDigest, d))
  }

  ghost predicate SameCandidates(actions: map<ActionPath, Bytes>, lists: map<Digest, seq<Manifest>>) {
    forall a, m :: m in Listed(lists, a) <==> ListsCandidate(actions, a, m)
  }

  /** `validations` or `invalidations` of a result lists the record; in which order is not claimed. */
  ghost predicate ListsRecord<R(!new)>(files: map<RecordPath, Bytes>, d: Digest, r: R, holds: (Bytes, R) -> bool) {
    exists b :: holds(b, r) && PathOf(d, b) in files && files[PathOf(d, b)] == b
  }

  ghost predicate SameRecords<R(!new)>(files: map<RecordPath, Bytes>, lists: map<Digest, seq<R>>, holds: (Bytes, R) -> bool) {
    forall d, r :: r in Listed(lists, d) <==> ListsRecord(files, d, r, holds)
  }

  /** The files answer as the store does, up to order and repetition: a record put twice is one file. */
  ghost predicate StandsFor(disk: Disk, s: State) {
    && disk.blobs == s.blobs && SameResults(disk.results, s.byDigest) && SameCandidates(disk.actions, s.results)
    && SameRecords(disk.validations, s.validations, HoldsValidation)
    && SameRecords(disk.invalidations, s.invalidations, HoldsInvalidation)
  }

  lemma RecordsInStep<R(!new)>(files: map<RecordPath, Bytes>, lists: map<Digest, seq<R>>, holds: (Bytes, R) -> bool,
                               about: R -> Digest, r: R, b: Bytes, after: map<RecordPath, Bytes>)
    requires OneToOne(holds) && FiledRecords(files, holds, about) && SameRecords(files, lists, holds)
    requires holds(b, r) && after == WriteOnce(files, PathOf(about(r), b), b)
    ensures SameRecords(after, Appended(lists, about(r), r), holds)
  {
    AppendedKeeps(lists, about(r), r);
    WrittenRecord(files, holds, about, r, b);
    forall d, q ensures q in Listed(Appended(lists, about(r), r), d) <==> ListsRecord(after, d, q, holds) {
      assert q in Listed(lists, d) <==> ListsRecord(files, d, q, holds);
      if ListsRecord(after, d, q, holds) {
        var c :| holds(c, q) && PathOf(d, c) in after && after[PathOf(d, c)] == c;
        if PathOf(d, c) !in files {
          DigestBytesInjective(b, c);
        }
      }
    }
  }

  lemma WrittenRecord<R(!new)>(files: map<RecordPath, Bytes>, holds: (Bytes, R) -> bool, about: R -> Digest, r: R, b: Bytes)
    requires FiledRecords(files, holds, about) && holds(b, r)
    ensures var after := WriteOnce(files, PathOf(about(r), b), b);
      && ListsRecord(after, about(r), r, holds)
      && forall d, q :: ListsRecord(files, d, q, holds) ==> ListsRecord(after, d, q, holds)
  {
    var p := PathOf(about(r), b);
    var after := WriteOnce(files, p, b);
    if p in files {
      DigestBytesInjective(files[p], b);
    }
    assert after[p] == b;
    forall d, q | ListsRecord(files, d, q, holds) ensures ListsRecord(after, d, q, holds) {
      var c :| holds(c, q) && PathOf(d, c) in files && files[PathOf(d, c)] == c;
      assert PathOf(d, c) in after && after[PathOf(d, c)] == c;
    }
  }

  lemma SameBlobs(blobs: map<Digest, Bytes>, data: Bytes)
    requires FiledBlobs(blobs)
    ensures WriteOnce(blobs, DigestBytes(data), data) == blobs[DigestBytes(data) := data]
  {
    if DigestBytes(data) in blobs {
      DigestBytesInjective(data, blobs[DigestBytes(data)]);
    }
  }

  lemma ResultsInStep(results: map<Digest, Bytes>, byDigest: map<Digest, Manifest>, m: Manifest, b: Bytes,
                      after: map<Digest, Bytes>)
    requires SameResults(results, byDigest) && HoldsManifest(b, m) && after == WriteOnce(results, ManifestDigest(m), b)
    ensures SameResults(after, byDigest[ManifestDigest(m) := m])
  {
    var digest := ManifestDigest(m);
    var byDigest' := byDigest[digest := m];
    forall d ensures ReadsResult(after, d, Lookup(byDigest', d)) {
      assert ReadsResult(results, d, Lookup(byDigest, d));
      if d == digest && d in results {
        assert HoldsManifest(results[d], byDigest[d]);
      }
    }
  }

  lemma CandidatesInStep(actions: map<ActionPath, Bytes>, lists: map<Digest, seq<Manifest>>, m: Manifest, b: Bytes,
                         after: map<ActionPath, Bytes>)
    requires SameCandidates(actions, lists) && HoldsManifest(b, m)
    requires after == WriteOnce(actions, ActionPath(m.actionDigest, ManifestDigest(m)), b)
    requires forall p | p in actions :: IsActionFile(p, actions[p])
    ensures SameCandidates(after, Appended(lists, m.actionDigest, m))
  {
    AppendedKeeps(lists, m.actionDigest, m);
    forall a, n ensures n in Listed(Appended(lists, m.actionDigest, m), a) <==> ListsCandidate(after, a, n) {
      assert n in Listed(lists, a) <==> ListsCandidate(actions, a, n);
      if n == m && a == m.actionDigest {
        AlreadyThere(actions, m);
      } else if ValidManifest(n) && ManifestDigest(n) == ManifestDigest(m) {
        ManifestDigestInjective(n, m);
      }
    }
  }

  lemma AlreadyThere(actions: map<ActionPath, Bytes>, m: Manifest)
    requires ValidManifest(m) && forall p | p in actions :: IsActionFile(p, actions[p])
    ensures var p := ActionPath(m.actionDigest, ManifestDigest(m)); p in actions ==> HoldsManifest(actions[p], m)
  {
  }

  ghost function DiskStep(disk: Disk, op: Op): Disk {
    match op
    case PutBlob(data) => AfterBlob(disk, data)
    case PutResult(m) => if ValidManifest(m) then AfterActionFile(AfterResultFile(disk, m), m) else disk
    case PutValidation(v) => if ValidValidation(v) then AfterValidation(disk, v) else disk
    case PutInvalidation(r) => if ValidInvalidation(r) then AfterInvalidation(disk, r) else disk
    case PutReceipt(_) => disk
  }

  lemma ResultInStep(disk: Disk, s: State, m: Manifest)
    requires Filed(disk) && StandsFor(disk, s) && ValidManifest(m)
    ensures Filed(DiskStep(disk, Op.PutResult(m))) && StandsFor(DiskStep(disk, Op.PutResult(m)), Apply(s, Op.PutResult(m)))
  {
    ResultFiled(disk, m);
    ActionFiled(AfterResultFile(disk, m), m);
    ResultsInStep(disk.results, s.byDigest, m, Encoded(m), AfterResultFile(disk, m).results);
    CandidatesInStep(disk.actions, s.results, m, Encoded(m), AfterActionFile(disk, m).actions);
  }

  lemma ValidationInStep(disk: Disk, s: State, v: Validation)
    requires Filed(disk) && StandsFor(disk, s) && ValidValidation(v)
    ensures Filed(AfterValidation(disk, v)) && StandsFor(AfterValidation(disk, v), Apply(s, Op.PutValidation(v)))
  {
    RecordsOneToOne();
    ValidationFiled(disk, v);
    RecordsInStep(disk.validations, s.validations, HoldsValidation, ValidationAbout, v, EncodedValidation(v),
                  AfterValidation(disk, v).validations);
  }

  lemma InvalidationInStep(disk: Disk, s: State, r: Invalidation)
    requires Filed(disk) && StandsFor(disk, s) && ValidInvalidation(r)
    ensures Filed(AfterInvalidation(disk, r)) && StandsFor(AfterInvalidation(disk, r), Apply(s, Op.PutInvalidation(r)))
  {
    RecordsOneToOne();
    InvalidationFiled(disk, r);
    RecordsInStep(disk.invalidations, s.invalidations, HoldsInvalidation, InvalidationAbout, r, EncodedInvalidation(r),
                  AfterInvalidation(disk, r).invalidations);
  }

  lemma StepInStep(disk: Disk, s: State, op: Op)
    requires Filed(disk) && StandsFor(disk, s)
    ensures Filed(DiskStep(disk, op)) && StandsFor(DiskStep(disk, op), Apply(s, op))
  {
    match op
    case PutBlob(data) =>
      BlobFiled(disk, data);
      SameBlobs(disk.blobs, data);
    case PutResult(m) =>
      if ValidManifest(m) {
        ResultInStep(disk, s, m);
      }
    case PutValidation(v) =>
      if ValidValidation(v) {
        ValidationInStep(disk, s, v);
      }
    case PutInvalidation(r) =>
      if ValidInvalidation(r) {
        InvalidationInStep(disk, s, r);
      }
    case PutReceipt(_) =>
  }

  ghost function DiskRun(disk: Disk, ops: seq<Op>): Disk
    decreases |ops|
  {
    if ops == [] then disk else DiskRun(DiskStep(disk, ops[0]), ops[1..])
  }

  /** Files and store stay in step over every run that starts with them in step. */
  lemma {:induction false} StaysInStep(disk: Disk, s: State, ops: seq<Op>)
    requires Filed(disk) && StandsFor(disk, s)
    ensures Filed(DiskRun(disk, ops)) && StandsFor(DiskRun(disk, ops), Run(s, ops))
    decreases |ops|
  {
    if ops != [] {
      StepInStep(disk, s, ops[0]);
      StaysInStep(DiskStep(disk, ops[0]), Apply(s, ops[0]), ops[1..]);
    }
  }

  /**
   Over every run from an empty directory the files are in order and answer as the memory store does after the same
   run, up to order and repetition.
   */
  lemma RunsInStep(ops: seq<Op>)
    ensures Filed(DiskRun(EMPTY_DISK, ops)) && StandsFor(DiskRun(EMPTY_DISK, ops), Run(EMPTY, ops))
  {
    StaysInStep(EMPTY_DISK, EMPTY, ops);
  }
}
