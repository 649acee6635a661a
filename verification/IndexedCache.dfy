/**
 A mutable key/value cache over immutable results: a value is published under a revision no one has used, and only
 then does the index commit to that revision. Writers may crash at any point; readers take no part in the lock.
 */
module IndexedCache {
  import opened Text
  import opened Json
  import opened Digests
  import opened Records
  import opened ExecutionActions
  import opened ExecutionValue
  import opened ExecutionCache
  import opened ExecutionCacheRuns
  import A = ActiveKeyIndex
  import JsonIdentity

  type Entries = A.Entries
  type Revision = A.Revision

  // ---------- the key a revision is published under ----------

  function RevisionFields(name: Text, r: Revision): seq<Member> {
    [Field("native_key", Str(name)), Field("generation", Int(r.generation))]
      + if r.publication.Some? then [Field("publication_id", Str(r.publication.value))] else []
  }

  function RevisionJson(name: Text, r: Revision): Json {
    Obj(RevisionFields(name, r))
  }

  ghost predicate IsCoreName(f: (Text, Revision) -> Option<Digest>) {
    forall n, r {:trigger RevisionJson(n, r)} :: f(n, r) == ObjectDigest(RevisionJson(n, r))
  }

  type CoreNameFunction = f: (Text, Revision) -> Option<Digest> | IsCoreName(f)
    witness (n: Text, r: Revision) => ObjectDigest(RevisionJson(n, r))

  /** The opaque name of a revision, by a name proofs do not unfold. */
  const CoreName: CoreNameFunction

  /** `_core_key`; `None` where canonicalization raises. */
  function CoreKey(k: CacheKey, r: Revision): Option<CacheKey> {
    var name := CoreName(k.name, r);
    if name.None? then None else Some(CacheKey(k.namespace, name.value))
  }

  lemma RevisionShape(name: Text, r: Revision)
    ensures DistinctKeys(RevisionFields(name, r)) && Dictionary(RevisionJson(name, r))
  {
    var ms := RevisionFields(name, r);
    assert ms[0].key.text[0] == 'n' as int && ms[1].key.text[0] == 'g' as int;
    assert |ms[0].key.text| == 10 && |ms[1].key.text| == 10;
    assert |ms| == 3 ==> |ms[2].key.text| == 14;
  }

  lemma SameRevisions(m: Text, n: Text, r: Revision, s: Revision)
    requires JsonIdentity.SameValue(RevisionJson(m, r), RevisionJson(n, s))
    ensures m == n && r == s
  {
    var ms, ns := RevisionFields(m, r), RevisionFields(n, s);
    RevisionShape(n, s);
    assert ms[0].key == ns[0].key && ms[1].key == ns[1].key;
    SameValueAt(ms, ns, 0);
    SameValueAt(ms, ns, 1);
    SameAtom(ms[0].value, ns[0].value);
    SameAtom(ms[1].value, ns[1].value);
    SamePublications(m, n, r, s);
  }

  lemma SamePublications(m: Text, n: Text, r: Revision, s: Revision)
    requires JsonIdentity.SameValue(RevisionJson(m, r), RevisionJson(n, s))
    ensures r.publication == s.publication
  {
    if r.publication.Some? && s.publication.Some? {
      var ms, ns := RevisionFields(m, r), RevisionFields(n, s);
      RevisionShape(n, s);
      SameValueAt(ms, ns, 2);
      SameAtom(ms[2].value, ns[2].value);
    } else if r.publication.Some? != s.publication.Some? {
      PublicationShows(m, n, r, s);
    }
  }

  lemma PublicationShows(m: Text, n: Text, r: Revision, s: Revision)
    requires r.publication.Some? != s.publication.Some?
    ensures !JsonIdentity.SameValue(RevisionJson(m, r), RevisionJson(n, s))
  {
    var ms, ns := RevisionFields(m, r), RevisionFields(n, s);
    if r.publication.Some? {
      assert |ms[2].key.text| == 14;
      assert JsonIdentity.Find(ns, ms[2].key) == |ns|;
    } else {
      assert |ns[2].key.text| == 14;
      assert JsonIdentity.Find(ms, ns[2].key) == |ms|;
    }
  }

  /** Different keys or different revisions are never published under the same key. */
  lemma CoreKeyInjective(k: CacheKey, r: Revision, k': CacheKey, r': Revision)
    requires CoreKey(k, r).Some? && CoreKey(k, r) == CoreKey(k', r')
    ensures k == k' && r == r'
  {
    assert IsCoreName(CoreName);
    var a, b := RevisionJson(k.name, r), RevisionJson(k'.name, r');
    assert ObjectDigest(a) == CoreName(k.name, r) && ObjectDigest(b) == CoreName(k'.name, r');
    RevisionShape(k.name, r);
    RevisionShape(k'.name, r');
    ObjectDigestIdentifies(a, b);
    SameRevisions(k.name, k'.name, r, r');
  }

  // ---------- the concurrent machine ----------

  /** A write and where it stands in the log. */
  datatype Commitment = Commitment(write: Event, at: nat)

  /** The writer that holds the index lock; `write` is what it has published. */
  datatype Pending = Pending(key: CacheKey, revision: Revision, value: EncodedValue, ttl: Option<int>,
                             write: Option<Commitment>)

  /** What a reader took from the index. */
  datatype Reading = Reading(key: CacheKey, revision: Revision)

  /**
   The log holds the events of all bridges on the store and the epoch registry. `committed` is history: the write each
   revision was committed for.
   */
  datatype Machine = Machine(
    index: Entries,
    log: seq<Event>,
    holder: Option<Pending>,
    used: set<Text>,
    readers: map<nat, Reading>,
    committed: map<Reading, Commitment>)

  const INITIAL := Machine(map[], [], None, {}, map[], map[])

  datatype Action =
    | Lock(key: CacheKey, value: EncodedValue, ttl: Option<int>, id: Text)
    | Publish(now: Time)
    | Commit
    | Crash
    | Delete(key: CacheKey)
    | Clear(namespace: Option<Namespace>)
    | ReadRevision(reader: nat, key: CacheKey)
    | Foreign(event: Event)

  function WriteOf(c: Config, p: Pending, core: CacheKey, now: Time): Event {
    Event.Set(c, core, p.value, p.ttl, now)
  }

  /** The event is no write by this configuration under publication `id`. */
  ghost predicate Avoids(c: Config, e: Event, id: Text) {
    e.Set? && e.config == c ==> forall k, g: nat :: CoreKey(k, A.Revision(g, Some(id))) != Some(e.key)
  }

  /** The publication, if any, that the event writes under: another adapter of this configuration. */
  ghost function IdsOf(c: Config, e: Event): set<Text> {
    if id :| !Avoids(c, e, id) then {id} else {}
  }

  /**
   A step that cannot be taken leaves everything as it is. A foreign event is a write or a clear by any other bridge;
   publication ids are not used twice, so it writes under none that has been used here.
   */
  ghost function Do(c: Config, m: Machine, a: Action): Machine {
    match a
    case Lock(k, value, ttl, id) =>
      if m.holder.Some? || id in m.used || !Lives(ttl) then m
      else
        m.(holder := Some(Pending(k, A.Revision(A.NextGeneration(m.index, k), Some(id)), value, ttl, None)),
           used := m.used + {id})
    case Publish(now) =>
      if m.holder.None? || m.holder.value.write.Some? then m
      else
        var p := m.holder.value;
        var core := CoreKey(p.key, p.revision);
        if core.None? then m.(holder := None)
        else
          var write := WriteOf(c, p, core.value, now);
          m.(log := m.log + [write],
             holder := if Raises(At(m.log, |m.log|), write) then None
                       else Some(p.(write := Some(Commitment(write, |m.log|)))))
    case Commit =>
      if m.holder.None? || m.holder.value.write.None? then m
      else
        var p := m.holder.value;
        m.(index := m.index[p.key := A.Entry(p.revision.generation, true, p.revision.publication)],
           committed := m.committed[Reading(p.key, p.revision) := p.write.value],
           holder := None)
    case Crash => m.(holder := None)
    case Delete(k) => if m.holder.Some? then m else m.(index := A.Perform(m.index, A.Delete(k)))
    case Clear(n) => if m.holder.Some? then m else m.(index := A.Perform(m.index, A.ClearOp(n)))
    case ReadRevision(reader, k) =>
      var r := A.ActiveRevision(m.index, k);
      m.(readers := if r.Some? then m.readers[reader := Reading(k, r.value)] else m.readers - {reader})
    case Foreign(e) =>
      if exists id | id in m.used :: !Avoids(c, e, id) then m
      else m.(log := m.log + [e], used := m.used + IdsOf(c, e))
  }

  ghost predicate IsDo(f: (Config, Machine, Action) -> Machine) {
    forall c, m, a {:trigger Do(c, m, a)} :: f(c, m, a) == Do(c, m, a)
  }

  type DoFunction = f: (Config, Machine, Action) -> Machine | IsDo(f) ghost witness Do

  /** `Do`, by a name that proofs about long runs do not unfold. */
  ghost const Taken: DoFunction

  lemma TakenIsDo(c: Config, m: Machine, a: Action)
    ensures Taken(c, m, a) == Do(c, m, a)
  {
    assert IsDo(Taken);
  }

  ghost function Runs(c: Config, actions: seq<Action>, n: nat): Machine
    requires n <= |actions|
  {
    if n == 0 then INITIAL else Taken(c, Runs(c, actions, n - 1), actions[n - 1])
  }

  /** What fetching a revision gives at `now`; nothing where it raises. */
  ghost function Fetched(name: Text, c: Config, m: Machine, r: Reading, now: Time): Option<Value> {
    var core := CoreKey(r.key, r.revision);
    if core.None? || ActionDigest(IdentityOf(c, core.value, At(m.log, |m.log|).epochs)).None? then None
    else Got(name, At(m.log, |m.log|), c, core.value, now)
  }

  /** `get` without interruption: the revision the index has now, fetched. */
  ghost function Read(name: Text, c: Config, m: Machine, k: CacheKey, now: Time): Option<Value> {
    var r := A.ActiveRevision(m.index, k);
    if r.None? then None else Fetched(name, c, m, Reading(k, r.value), now)
  }

  // ---------- what every step keeps ----------

  /** No write was ever made under publication `id`. */
  ghost predicate Unwritten(log: seq<Event>, c: Config, id: Text) {
    forall i | 0 <= i < |log| :: Avoids(c, log[i], id)
  }

  /** Of this configuration only the event at `at` writes its key. */
  ghost predicate SoleWrite(log: seq<Event>, c: Config, at: nat) {
    && at < |log| && log[at].Set? && log[at].config == c
    && forall j | 0 <= j < |log| && j != at && log[j].Set? && log[j].config == c :: log[j].key != log[at].key
  }

  /** The write stands in the log, was readable when made, and is the only one of its key. */
  ghost predicate Written(log: seq<Event>, c: Config, r: Reading, w: Commitment) {
    && SoleWrite(log, c, w.at) && log[w.at] == w.write && Storable(w.write)
    && r.revision.publication.Some? && CoreKey(r.key, r.revision) == Some(w.write.key)
    && ActionDigest(IdentityOf(c, w.write.key, At(log, w.at).epochs)).Some?
  }

  ghost predicate PendingFits(c: Config, log: seq<Event>, committed: map<Reading, Commitment>, used: set<Text>, p: Pending) {
    && p.revision.publication.Some? && p.revision.publication.value in used && Lives(p.ttl)
    && (forall r | r in committed :: r.revision.publication != p.revision.publication)
    && (if p.write.None? then Unwritten(log, c, p.revision.publication.value)
        else Written(log, c, Reading(p.key, p.revision), p.write.value))
  }

  ghost predicate HolderFits(c: Config, log: seq<Event>, committed: map<Reading, Commitment>, used: set<Text>,
                             holder: Option<Pending>) {
    holder.Some? ==> PendingFits(c, log, committed, used, holder.value)
  }

  ghost predicate UnusedUnwritten(c: Config, log: seq<Event>, used: set<Text>) {
    forall id | id !in used :: Unwritten(log, c, id)
  }

  ghost predicate CommittedWritten(c: Config, log: seq<Event>, committed: map<Reading, Commitment>, used: set<Text>) {
    forall r | r in committed :: Written(log, c, r, committed[r]) && r.revision.publication.value in used
  }

  ghost predicate ReadersCommitted(readers: map<nat, Reading>, committed: map<Reading, Commitment>) {
    forall i | i in readers :: readers[i] in committed
  }

  ghost predicate ActiveCommitted(index: Entries, committed: map<Reading, Commitment>) {
    forall k | k in index && index[k].active :: Reading(k, A.Revision(index[k].generation, index[k].publication)) in committed
  }

  ghost predicate Consistent(c: Config, m: Machine) {
    && UnusedUnwritten(c, m.log, m.used)
    && CommittedWritten(c, m.log, m.committed, m.used)
    && HolderFits(c, m.log, m.committed, m.used, m.holder)
    && ActiveCommitted(m.index, m.committed)
    && ReadersCommitted(m.readers, m.committed)
  }

  lemma {:induction false} AtPrefix(log: seq<Event>, e: Event, n: nat)
    requires n <= |log|
    ensures At(log + [e], n) == At(log, n)
  {
    if n > 0 {
      AtPrefix(log, e, n - 1);
      assert (log + [e])[n - 1] == log[n - 1];
    }
  }

  /** An event under another publication leaves a write the only one of its key. */
  lemma WrittenStays(log: seq<Event>, c: Config, r: Reading, w: Commitment, e: Event)
    requires Written(log, c, r, w) && Avoids(c, e, r.revision.publication.value)
    ensures Written(log + [e], c, r, w)
  {
    AtPrefix(log, e, w.at);
    assert r.revision == A.Revision(r.revision.generation, Some(r.revision.publication.value));
    assert forall j | 0 <= j < |log| :: (log + [e])[j] == log[j];
  }

  lemma UnwrittenStays(log: seq<Event>, c: Config, id: Text, e: Event)
    requires Unwritten(log, c, id) && Avoids(c, e, id)
    ensures Unwritten(log + [e], c, id)
  {
  }

  /** A write under one publication is a write under no other. */
  lemma OneId(c: Config, e: Event, id: Text, other: Text)
    requires !Avoids(c, e, id) && id != other
    ensures Avoids(c, e, other)
  {
    var k, g: nat :| CoreKey(k, A.Revision(g, Some(id))) == Some(e.key);
    forall k', g': nat ensures CoreKey(k', A.Revision(g', Some(other))) != Some(e.key) {
      if CoreKey(k', A.Revision(g', Some(other))) == Some(e.key) {
        CoreKeyInjective(k, A.Revision(g, Some(id)), k', A.Revision(g', Some(other)));
      }
    }
  }

  lemma OwnWriteAvoids(c: Config, p: Pending, write: Event, id: Text)
    requires p.revision.publication.Some? && p.revision.publication != Some(id)
    requires write.Set? && write.config == c && CoreKey(p.key, p.revision) == Some(write.key)
    ensures Avoids(c, write, id)
  {
    assert p.revision == A.Revision(p.revision.generation, Some(p.revision.publication.value));
    OneId(c, write, p.revision.publication.value, id);
  }

  lemma IdsOfIsAll(c: Config, e: Event, id: Text)
    requires id !in IdsOf(c, e)
    ensures Avoids(c, e, id)
  {
    if !Avoids(c, e, id) {
      var ids := IdsOf(c, e);
      var other :| other in ids;
      OneId(c, e, other, id);
    }
  }

  /** One more event, under no publication of a committed write: what was committed is still written. */
  lemma CommittedStays(c: Config, log: seq<Event>, committed: map<Reading, Commitment>, used: set<Text>, e: Event,
                       used': set<Text>)
    requires CommittedWritten(c, log, committed, used) && used <= used'
    requires forall r | r in committed :: Avoids(c, e, r.revision.publication.value)
    ensures CommittedWritten(c, log + [e], committed, used')
  {
    forall r | r in committed ensures Written(log + [e], c, r, committed[r]) {
      WrittenStays(log, c, r, committed[r], e);
    }
  }

  lemma UnusedStays(c: Config, log: seq<Event>, used: set<Text>, e: Event, used': set<Text>)
    requires UnusedUnwritten(c, log, used) && used <= used' && forall id | id !in used' :: Avoids(c, e, id)
    ensures UnusedUnwritten(c, log + [e], used')
  {
    forall id | id !in used' ensures Unwritten(log + [e], c, id) {
      UnwrittenStays(log, c, id, e);
    }
  }

  /** The first write under a publication that nobody used is the only one of its key. */
  lemma FirstWrite(log: seq<Event>, c: Config, p: Pending, write: Event)
    requires p.revision.publication.Some? && Unwritten(log, c, p.revision.publication.value)
    requires Lives(p.ttl) && write.Set? && write.config == c && write.ttl == p.ttl
    requires CoreKey(p.key, p.revision) == Some(write.key) && !Raises(At(log, |log|), write)
    ensures Written(log + [write], c, Reading(p.key, p.revision), Commitment(write, |log|))
  {
    var i := IdentityOf(c, write.key, At(log, |log|).epochs);
    AtPrefix(log, write, |log|);
    ActionDigestIsCanonical(i);
    ManifestValid(write, ActionDigest(i).value);
    forall j | 0 <= j < |log| && log[j].Set? && log[j].config == c ensures log[j].key != write.key {
      assert Avoids(c, log[j], p.revision.publication.value);
      assert p.revision == A.Revision(p.revision.generation, Some(p.revision.publication.value));
    }
  }

  /** The holder's own write goes into the log; the holder is gone if it raised. */
  lemma OwnWriteKeeps(c: Config, m: Machine, p: Pending, write: Event, holder: Option<Pending>)
    requires Consistent(c, m) && m.holder == Some(p) && p.write.None?
    requires write.Set? && write.config == c && CoreKey(p.key, p.revision) == Some(write.key)
    requires HolderFits(c, m.log + [write], m.committed, m.used, holder)
    ensures Consistent(c, m.(log := m.log + [write], holder := holder))
  {
    forall id | Some(id) != p.revision.publication ensures Avoids(c, write, id) {
      OwnWriteAvoids(c, p, write, id);
    }
    UnusedStays(c, m.log, m.used, write, m.used);
    CommittedStays(c, m.log, m.committed, m.used, write, m.used);
  }

  lemma PublishKeeps(c: Config, m: Machine, now: Time)
    requires Consistent(c, m)
    ensures Consistent(c, Do(c, m, Publish(now)))
  {
    if m.holder.Some? && m.holder.value.write.None? && CoreKey(m.holder.value.key, m.holder.value.revision).Some? {
      var p := m.holder.value;
      var write := WriteOf(c, p, CoreKey(p.key, p.revision).value, now);
      if Raises(At(m.log, |m.log|), write) {
        OwnWriteKeeps(c, m, p, write, None);
      } else {
        FirstWrite(m.log, c, p, write);
        OwnWriteKeeps(c, m, p, write, Some(p.(write := Some(Commitment(write, |m.log|)))));
      }
    }
  }

  /** The writer holding the lock is not disturbed by what other bridges do. */
  lemma HolderUndisturbed(c: Config, log: seq<Event>, committed: map<Reading, Commitment>, used: set<Text>,
                          holder: Option<Pending>, e: Event, used': set<Text>)
    requires HolderFits(c, log, committed, used, holder) && used <= used' && forall id | id in used :: Avoids(c, e, id)
    ensures HolderFits(c, log + [e], committed, used', holder)
  {
    if holder.Some? {
      var p := holder.value;
      if p.write.None? {
        UnwrittenStays(log, c, p.revision.publication.value, e);
      } else {
        WrittenStays(log, c, Reading(p.key, p.revision), p.write.value, e);
      }
    }
  }

  lemma ForeignKeeps(c: Config, m: Machine, e: Event)
    requires Consistent(c, m)
    ensures Consistent(c, Do(c, m, Foreign(e)))
  {
    if forall id | id in m.used :: Avoids(c, e, id) {
      var used' := m.used + IdsOf(c, e);
      forall id | id !in used' ensures Avoids(c, e, id) {
        IdsOfIsAll(c, e, id);
      }
      UnusedStays(c, m.log, m.used, e, used');
      CommittedStays(c, m.log, m.committed, m.used, e, used');
      HolderUndisturbed(c, m.log, m.committed, m.used, m.holder, e, used');
    }
  }

  lemma MoreCommitted(index: Entries, readers: map<nat, Reading>, committed: map<Reading, Commitment>, r: Reading,
                      w: Commitment)
    requires ActiveCommitted(index, committed) && ReadersCommitted(readers, committed)
    ensures ActiveCommitted(index, committed[r := w]) && ReadersCommitted(readers, committed[r := w])
    ensures ActiveCommitted(index[r.key := A.Entry(r.revision.generation, true, r.revision.publication)], committed[r := w])
  {
  }

  lemma CommitKeeps(c: Config, m: Machine)
    requires Consistent(c, m)
    ensures Consistent(c, Do(c, m, Commit))
  {
    if m.holder.Some? && m.holder.value.write.Some? {
      var p := m.holder.value;
      MoreCommitted(m.index, m.readers, m.committed, Reading(p.key, p.revision), p.write.value);
    }
  }

  lemma RetiringKeeps(index: Entries, committed: map<Reading, Commitment>, op: A.Op)
    requires ActiveCommitted(index, committed) && (op.Delete? || op.ClearNamespace? || op.ClearAll?)
    ensures ActiveCommitted(A.Perform(index, op), committed)
  {
    var index' := A.Perform(index, op);
    forall k | k in index' && index'[k].active ensures k in index && index'[k] == index[k] {
    }
  }

  lemma LockKeeps(c: Config, m: Machine, k: CacheKey, value: EncodedValue, ttl: Option<int>, id: Text)
    requires Consistent(c, m)
    ensures Consistent(c, Do(c, m, Lock(k, value, ttl, id)))
  {
  }

  lemma ReadKeeps(c: Config, m: Machine, reader: nat, k: CacheKey)
    requires Consistent(c, m)
    ensures Consistent(c, Do(c, m, ReadRevision(reader, k)))
  {
    var readers := Do(c, m, ReadRevision(reader, k)).readers;
    assert ReadersCommitted(readers, m.committed);
  }

  /** Every step keeps index, readers and history consistent. */
  lemma StepKeeps(c: Config, m: Machine, a: Action)
    requires Consistent(c, m)
    ensures Consistent(c, Do(c, m, a))
  {
    match a
    case Lock(k, value, ttl, id) => LockKeeps(c, m, k, value, ttl, id);
    case Publish(now) => PublishKeeps(c, m, now);
    case Commit => CommitKeeps(c, m);
    case Delete(k) => RetiringKeeps(m.index, m.committed, A.Delete(k));
    case Clear(n) => RetiringKeeps(m.index, m.committed, A.ClearOp(n));
    case ReadRevision(reader, k) => ReadKeeps(c, m, reader, k);
    case Foreign(e) => ForeignKeeps(c, m, e);
    case Crash =>
  }

  lemma {:induction false} RunsConsistent(c: Config, actions: seq<Action>, n: nat)
    requires n <= |actions|
    ensures Consistent(c, Runs(c, actions, n))
  {
    if n > 0 {
      RunsConsistent(c, actions, n - 1);
      TakenIsDo(c, Runs(c, actions, n - 1), actions[n - 1]);
      StepKeeps(c, Runs(c, actions, n - 1), actions[n - 1]);
    }
  }

  // ---------- the main results ----------

  /** An epoch clear of the namespace comes after position `at`. */
  ghost predicate ClearedSince(log: seq<Event>, at: nat, n: nat, space: Namespace)
    requires n <= |log|
  {
    exists j | at < j < n :: Covers(log[j], space)
  }

  lemma LatestStep(log: seq<Event>, n: nat, c: Config, key: CacheKey, now: Time)
    requires 0 < n <= |log|
    ensures Latest(log, n, c, key, now) ==
            if Covers(log[n - 1], key.namespace) then None
            else if log[n - 1].Set? && log[n - 1].config == c && log[n - 1].key == key
                    && Storable(log[n - 1]) && Unexpired(log[n - 1], now) then Some(log[n - 1].value)
            else Latest(log, n - 1, c, key, now)
  {
  }

  lemma ClearedStep(log: seq<Event>, at: nat, n: nat, space: Namespace)
    requires at + 1 < n <= |log|
    ensures ClearedSince(log, at, n, space) <==> ClearedSince(log, at, n - 1, space) || Covers(log[n - 1], space)
  {
  }

  /** With one write of its key, a read gives that write while it is unexpired and no clear covers it. */
  lemma {:induction false} LatestIsSoleWrite(log: seq<Event>, c: Config, at: nat, n: nat, now: Time)
    requires n <= |log| && SoleWrite(log, c, at) && Storable(log[at])
    ensures Latest(log, n, c, log[at].key, now) ==
            if at < n && Unexpired(log[at], now) && !ClearedSince(log, at, n, log[at].key.namespace) then
              Some(log[at].value)
            else None
  {
    if n > 0 {
      LatestIsSoleWrite(log, c, at, n - 1, now);
      LatestStep(log, n, c, log[at].key, now);
      if at + 1 < n {
        ClearedStep(log, at, n, log[at].key.namespace);
      }
    }
  }

  /** Epochs stay put while no clear covers the namespace. */
  lemma {:induction false} EpochsStay(log: seq<Event>, at: nat, n: nat, c: Config, key: CacheKey)
    requires at < n <= |log| && log[at].Set? && !ClearedSince(log, at, n, key.namespace)
    ensures IdentityOf(c, key, At(log, n).epochs) == IdentityOf(c, key, At(log, at).epochs)
  {
    if n > at + 1 {
      assert !Covers(log[n - 1], key.namespace);
      EpochsStay(log, at, n - 1, c, key);
    }
    EpochsStayNext(log, n, c, key);
  }

  lemma EpochsStayNext(log: seq<Event>, n: nat, c: Config, key: CacheKey)
    requires 0 < n <= |log| && !Covers(log[n - 1], key.namespace)
    ensures IdentityOf(c, key, At(log, n).epochs) == IdentityOf(c, key, At(log, n - 1).epochs)
  {
    NextIsStep(At(log, n - 1), log[n - 1]);
    EpochsAdvance(log, n, key.namespace);
  }

  /** What is left of a committed write: its value until it expires or an epoch clear of its namespace follows it. */
  ghost function Standing(m: Machine, r: Reading, now: Time): Option<Value>
    requires r in m.committed && m.committed[r].write.Set?
  {
    var w := m.committed[r];
    if Unexpired(w.write, now) && !ClearedSince(m.log, w.at, |m.log|, r.key.namespace) then Some(w.write.value) else None
  }

  lemma FetchedIsWritten(name: Text, c: Config, m: Machine, r: Reading, now: Time)
    requires CommittedWritten(c, m.log, m.committed, m.used) && r in m.committed
    ensures m.committed[r].write.Set? && Fetched(name, c, m, r, now) == Standing(m, r, now)
  {
    var w := m.committed[r];
    assert Written(m.log, c, r, w);
    LatestIsSoleWrite(m.log, c, w.at, |m.log|, now);
    if !ClearedSince(m.log, w.at, |m.log|, r.key.namespace) {
      EpochsStay(m.log, w.at, |m.log|, c, w.write.key);
    }
    if ActionDigest(IdentityOf(c, w.write.key, At(m.log, |m.log|).epochs)).Some? {
      ReadReturnsLatestWrite(name, m.log, |m.log|, c, w.write.key, now);
    }
  }

  /**
   In every interleaving of writers, crashes, deletes, clears, readers and other bridges: what a reader fetches, at any
   later time, is exactly the value committed for the revision it read, until that value's time to live has passed or
   an epoch clear covers it; then it is nothing.
   */
  lemma FetchReturnsCommitted(name: Text, c: Config, actions: seq<Action>, n: nat, reader: nat, now: Time)
    requires n <= |actions| && reader in Runs(c, actions, n).readers
    ensures var m := Runs(c, actions, n);
      && m.readers[reader] in m.committed && m.committed[m.readers[reader]].write.Set?
      && Fetched(name, c, m, m.readers[reader], now) == Standing(m, m.readers[reader], now)
  {
    RunsConsistent(c, actions, n);
    FetchedIsWritten(name, c, Runs(c, actions, n), Runs(c, actions, n).readers[reader], now);
  }

  /**
   An uninterrupted `get` returns the value committed for the revision the index has, or nothing: never an
   orphaned, overwritten or deleted value, even when the committed one has expired.
   */
  lemma ReadReturnsCurrent(name: Text, c: Config, actions: seq<Action>, n: nat, k: CacheKey, now: Time)
    requires n <= |actions|
    ensures var m := Runs(c, actions, n);
      match A.ActiveRevision(m.index, k)
      case None => Read(name, c, m, k, now) == None
      case Some(r) =>
        && Reading(k, r) in m.committed && m.committed[Reading(k, r)].write.Set?
        && Read(name, c, m, k, now) == Standing(m, Reading(k, r), now)
  {
    RunsConsistent(c, actions, n);
    var m := Runs(c, actions, n);
    if A.ActiveRevision(m.index, k).Some? {
      FetchedIsWritten(name, c, m, Reading(k, A.ActiveRevision(m.index, k).value), now);
    }
  }

  lemma OnlyCommitCommits(c: Config, m: Machine, a: Action)
    requires !a.Commit?
    ensures Do(c, m, a).committed == m.committed
  {
  }

  /** The holder's publication is not one that was committed before. */
  ghost predicate HolderIsNew(m: Machine) {
    m.holder.Some? ==> forall r | r in m.committed :: r.revision.publication != m.holder.value.revision.publication
  }

  lemma CommitIsNew(c: Config, m: Machine, r: Reading)
    requires HolderIsNew(m) && r in m.committed
    ensures r in Do(c, m, Commit).committed && Do(c, m, Commit).committed[r] == m.committed[r]
  {
  }

  lemma HolderAlwaysNew(c: Config, actions: seq<Action>, n: nat)
    requires n <= |actions|
    ensures HolderIsNew(Runs(c, actions, n))
  {
    RunsConsistent(c, actions, n);
  }

  /** The commitment of `r` in `m`, if it has one. */
  function Committed(m: Machine, r: Reading): Option<Commitment> {
    if r in m.committed then Some(m.committed[r]) else None
  }

  lemma StepKeepsCommitted(c: Config, m: Machine, a: Action, r: Reading, w: Commitment)
    requires HolderIsNew(m) && Committed(m, r) == Some(w)
    ensures Committed(Do(c, m, a), r) == Some(w)
  {
    if a.Commit? {
      CommitIsNew(c, m, r);
    } else {
      OnlyCommitCommits(c, m, a);
    }
  }

  lemma CommittedNext(c: Config, actions: seq<Action>, n: nat, r: Reading, w: Commitment)
    requires n < |actions| && Committed(Runs(c, actions, n), r) == Some(w)
    ensures Committed(Runs(c, actions, n + 1), r) == Some(w)
  {
    HolderAlwaysNew(c, actions, n);
    TakenIsDo(c, Runs(c, actions, n), actions[n]);
    StepKeepsCommitted(c, Runs(c, actions, n), actions[n], r, w);
  }

  /** A revision is committed once: later steps never change what it was committed for. */
  lemma {:induction false} CommittedForGood(c: Config, actions: seq<Action>, i: nat, n: nat, r: Reading, w: Commitment)
    requires i <= n <= |actions| && Committed(Runs(c, actions, i), r) == Some(w)
    ensures Committed(Runs(c, actions, n), r) == Some(w)
  {
    if i < n {
      CommittedForGood(c, actions, i, n - 1, r, w);
      CommittedNext(c, actions, n - 1, r, w);
    }
  }

  // ---------- put, delete and crash, as readers see them ----------

  /** The key has no active revision, and no writer is on its way to give it one. */
  ghost predicate Gone(m: Machine, k: CacheKey) {
    (k !in m.index || !m.index[k].active) && (m.holder.Some? ==> m.holder.value.key != k)
  }

  lemma StaysGone(c: Config, m: Machine, a: Action, k: CacheKey)
    requires Gone(m, k) && (a.Lock? ==> a.key != k)
    ensures Gone(Do(c, m, a), k)
  {
    if a.Commit? && m.holder.Some? && m.holder.value.write.Some? {
      assert m.holder.value.key != k;
    }
  }

  lemma RetiringMakesGone(c: Config, m: Machine, a: Action, k: CacheKey)
    requires a == Action.Delete(k) || a == Action.Clear(None) || a == Action.Clear(Some(k.namespace))
    requires m.holder == None
    ensures Gone(Do(c, m, a), k)
  {
    A.RetiredIsInactive(m.index, if a.Delete? then A.Op.Delete(k) else A.ClearOp(a.namespace), k);
  }

  /**
   After a delete of the key, or a clear that covers it, and while no writer has locked it again, a get gives nothing,
   whatever else happens.
   */
  lemma {:induction false} RetiredReadsNothing(name: Text, c: Config, actions: seq<Action>, i: nat, n: nat, k: CacheKey,
                                               now: Time)
    requires i < n <= |actions| && Runs(c, actions, i).holder == None
    requires || actions[i] == Action.Delete(k) || actions[i] == Action.Clear(None)
             || actions[i] == Action.Clear(Some(k.namespace))
    requires forall j | i < j < n && actions[j].Lock? :: actions[j].key != k
    ensures Gone(Runs(c, actions, n), k)
    ensures A.ActiveRevision(Runs(c, actions, n).index, k) == None && Read(name, c, Runs(c, actions, n), k, now) == None
    decreases n
  {
    TakenIsDo(c, Runs(c, actions, n - 1), actions[n - 1]);
    if n == i + 1 {
      RetiringMakesGone(c, Runs(c, actions, i), actions[i], k);
    } else {
      RetiredReadsNothing(name, c, actions, i, n - 1, k, now);
      StaysGone(c, Runs(c, actions, n - 1), actions[n - 1], k);
    }
  }

  /** The machine after the lock is taken for a put and its value is published. */
  ghost function PublishedBy(c: Config, m: Machine, k: CacheKey, value: EncodedValue, ttl: Option<int>, id: Text, now: Time)
    : Machine
  {
    Do(c, Do(c, m, Lock(k, value, ttl, id)), Publish(now))
  }

  /** The writer's own write, published under the revision it locked; without `write` it raised or was never made. */
  ghost predicate Wrote(m: Machine, m': Machine, k: CacheKey, value: EncodedValue, ttl: Option<int>, id: Text, now: Time) {
    && m' == m.(log := m'.log, holder := m'.holder, used := m.used + {id})
    && (m'.log == m.log || exists e: Event :: e.Set? && m'.log == m.log + [e])
    && (m'.holder.Some? ==>
          var p := m'.holder.value;
          && p.key == k && p.revision == A.Revision(A.NextGeneration(m.index, k), Some(id)) && p.write.Some?
          && p.write.value.at == |m.log| && m'.log == m.log + [p.write.value.write]
          && p.write.value.write.Set? && p.write.value.write.value == value
          && p.write.value.write.ttl == ttl && p.write.value.write.now == now)
  }

  lemma PublishWrites(c: Config, m: Machine, p: Pending, now: Time, m': Machine)
    requires m.holder == Some(p) && p.write == None && m' == Do(c, m, Publish(now))
    ensures m' == m.(log := m'.log, holder := m'.holder)
    ensures m'.log == m.log || exists e: Event :: e.Set? && m'.log == m.log + [e]
    ensures m'.holder.Some? ==>
      && m'.holder.value == p.(write := m'.holder.value.write) && m'.holder.value.write.Some?
      && var w := m'.holder.value.write.value;
         && w.at == |m.log| && m'.log == m.log + [w.write]
         && w.write.Set? && w.write.value == p.value && w.write.ttl == p.ttl && w.write.now == now
  {
    var core := CoreKey(p.key, p.revision);
    if core.Some? {
      var write := WriteOf(c, p, core.value, now);
      assert m'.log == m.log + [write] && write.Set?;
    }
  }

  lemma PublishingWrites(c: Config, m: Machine, k: CacheKey, value: EncodedValue, ttl: Option<int>, id: Text, now: Time)
    requires m.holder == None && id !in m.used && Lives(ttl)
    ensures Wrote(m, PublishedBy(c, m, k, value, ttl, id, now), k, value, ttl, id, now)
  {
    var locked := Do(c, m, Lock(k, value, ttl, id));
    var p := Pending(k, A.Revision(A.NextGeneration(m.index, k), Some(id)), value, ttl, None);
    assert locked == m.(holder := Some(p), used := m.used + {id});
    PublishWrites(c, locked, p, now, PublishedBy(c, m, k, value, ttl, id, now));
  }

  lemma PublishingKeeps(c: Config, m: Machine, k: CacheKey, value: EncodedValue, ttl: Option<int>, id: Text, now: Time)
    requires Consistent(c, m)
    ensures Consistent(c, PublishedBy(c, m, k, value, ttl, id, now))
  {
    LockKeeps(c, m, k, value, ttl, id);
    PublishKeeps(c, Do(c, m, Lock(k, value, ttl, id)), now);
  }

  lemma CommitShape(c: Config, m: Machine, p: Pending)
    requires m.holder == Some(p) && p.write.Some? && p.revision.publication.Some?
    ensures var m', r := Do(c, m, Commit), Reading(p.key, p.revision);
      && m'.log == m.log && m'.committed == m.committed[r := p.write.value]
      && A.ActiveRevision(m'.index, p.key) == Some(p.revision)
  {
  }

  /** A put that is not interrupted and does not raise is what gets then give, until its time to live has passed. */
  lemma PutIsRead(name: Text, c: Config, m: Machine, k: CacheKey, value: EncodedValue, ttl: Option<int>, id: Text, now: Time,
                  later: Time)
    requires Consistent(c, m) && m.holder == None && id !in m.used && Lives(ttl)
    requires PublishedBy(c, m, k, value, ttl, id, now).holder.Some?
    ensures var m' := Do(c, PublishedBy(c, m, k, value, ttl, id, now), Commit);
      Read(name, c, m', k, later) == if ttl.Some? && later > now + ttl.value * 1_000_000 then None else Some(value)
  {
    var published := PublishedBy(c, m, k, value, ttl, id, now);
    PublishingWrites(c, m, k, value, ttl, id, now);
    PublishingKeeps(c, m, k, value, ttl, id, now);
    CommitKeeps(c, published);
    CommitShape(c, published, published.holder.value);
    CommittedIsRead(name, c, Do(c, published, Commit), k, published.holder.value.revision,
                    published.holder.value.write.value, value, ttl, now, later);
  }

  lemma CommittedIsRead(name: Text, c: Config, m: Machine, k: CacheKey, revision: Revision, w: Commitment,
                        value: EncodedValue, ttl: Option<int>, now: Time, later: Time)
    requires Consistent(c, m) && A.ActiveRevision(m.index, k) == Some(revision)
    requires Committed(m, Reading(k, revision)) == Some(w) && w.at + 1 == |m.log|
    requires w.write.Set? && w.write.value == value && w.write.ttl == ttl && w.write.now == now
    ensures Read(name, c, m, k, later) == if ttl.Some? && later > now + ttl.value * 1_000_000 then None else Some(value)
  {
    FetchedIsWritten(name, c, m, Reading(k, revision), later);
  }

  /** A put that crashes between publishing and committing is never seen: every key reads as before. */
  lemma CrashIsUnseen(name: Text, c: Config, m: Machine, k: CacheKey, value: EncodedValue, ttl: Option<int>, id: Text,
                      now: Time, j: CacheKey, later: Time)
    requires Consistent(c, m) && m.holder == None && id !in m.used && Lives(ttl)
    ensures Read(name, c, Do(c, PublishedBy(c, m, k, value, ttl, id, now), Crash), j, later) == Read(name, c, m, j, later)
  {
    var published := PublishedBy(c, m, k, value, ttl, id, now);
    PublishingWrites(c, m, k, value, ttl, id, now);
    PublishingKeeps(c, m, k, value, ttl, id, now);
    UncommittedIsUnseen(name, c, m, published, published.(holder := None), j, later);
  }

  lemma UncommittedIsUnseen(name: Text, c: Config, m: Machine, published: Machine, m': Machine, j: CacheKey, later: Time)
    requires Consistent(c, m) && Consistent(c, published) && m' == published.(holder := None)
    requires published.index == m.index && published.committed == m.committed
    requires published.log == m.log || exists e: Event :: e.Set? && published.log == m.log + [e]
    ensures Read(name, c, m', j, later) == Read(name, c, m, j, later)
  {
    var r := A.ActiveRevision(m.index, j);
    if r.Some? {
      FetchedIsWritten(name, c, m, Reading(j, r.value), later);
      FetchedIsWritten(name, c, published, Reading(j, r.value), later);
      StandsAlike(m, published, Reading(j, r.value), later);
    }
  }

  lemma StandsAlike(m: Machine, m': Machine, r: Reading, now: Time)
    requires r in m.committed && m'.committed == m.committed && m.committed[r].write.Set? && m.committed[r].at < |m.log|
    requires m'.log == m.log || exists e: Event :: e.Set? && m'.log == m.log + [e]
    ensures Standing(m, r, now) == Standing(m', r, now)
  {
    var at, space := m.committed[r].at, r.key.namespace;
    assert |m'.log| <= |m.log| + 1 && m.log <= m'.log && (|m'.log| > |m.log| ==> m'.log[|m.log|].Set?);
    assert ClearedSince(m.log, at, |m.log|, space) <==> ClearedSince(m'.log, at, |m'.log|, space);
  }
}
