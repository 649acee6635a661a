/** The adapter's own methods, over an in-memory index and an execution cache bridge. */
module IndexedAdapter {
  import opened Text
  import opened Records
  import opened ExecutionActions
  import opened ExecutionValue
  import opened ExecutionCache
  import opened IndexedCache
  import opened ExecutionCacheRuns
  import A = ActiveKeyIndex

  /** What `get` answers for the index entries and the shared system; no answer where it raises. */
  ghost function ReadKey(name: Text, s: System, c: Config, es: A.Entries, k: CacheKey, now: Time): Option<Option<Value>> {
    var r := A.ActiveRevision(es, k);
    if r.None? then Some(None)
    else
      var core := CoreKey(k, r.value);
      if core.None? || ActionDigest(IdentityOf(c, core.value, s.epochs)).None? then None
      else Some(Got(name, s, c, core.value, now))
  }

  /** The event with which `put` publishes the next revision of the key. */
  ghost function PutEvent(c: Config, es: A.Entries, k: CacheKey, id: Text, value: EncodedValue, ttl: Option<int>,
                          now: Time): Option<Event> {
    var core := CoreKey(k, A.Revision(A.NextGeneration(es, k), Some(id)));
    if core.None? then None else Some(Event.Set(c, core.value, value, ttl, now))
  }

  lemma OnePair(before: System, e: Event, done: nat, ok: bool, after: System)
    requires Performed(before, [e], done, ok, after) && (ok ==> done == 1)
    ensures after == Step(before, e) && (ok <==> !Raises(before, e))
  {
    NextIsStep(before, e);
    assert StepAll(before, [e], 1) == Next(StepAll(before, [e], 0), e);
    assert RaisesAt(before, [e], 0) <==> Raises(before, e);
  }

  class IndexedRuntimeCacheAdapter {
    const bridge: ExecutionCacheBridge
    const index: A.MemoryActiveKeyIndex

    constructor (bridge: ExecutionCacheBridge, index: A.MemoryActiveKeyIndex)
      ensures this.bridge == bridge && this.index == index
    {
      this.bridge, this.index := bridge, index;
    }

    /** `id` is the fresh publication id; not `ok` where the publisher raised and the index stayed as it was. */
    method Put(k: CacheKey, value: EncodedValue, ttl: Option<int>, id: Text, now: Time) returns (ok: bool)
      modifies bridge.store, index
      ensures !bridge.enabled || !Lives(ttl) ==>
        ok && index.entries == old(index.entries) && bridge.Contents() == old(bridge.Contents())
      ensures bridge.enabled && Lives(ttl) ==>
        var e := PutEvent(bridge.config, old(index.entries), k, id, value, ttl, now);
        && (ok <==> e.Some? && !Raises(old(bridge.Contents()), e.value))
        && index.entries == A.Perform(old(index.entries), A.Op.Publish(k, id, ok))
        && bridge.Contents() == if e.Some? then Step(old(bridge.Contents()), e.value) else old(bridge.Contents())
    {
      if !bridge.enabled || (ttl.Some? && ttl.value <= 0) {
        return true;
      }
      var core := CoreKey(k, A.Revision(A.NextGeneration(index.entries, k), Some(id)));
      ok := core.Some?;
      if ok {
        ghost var before := bridge.Contents();
        ghost var done: nat;
        var items := [ExecutionCache.Item(core.value, value, ttl)];
        ok, done := bridge.Set(items, now);
        var e := Event.Set(bridge.config, core.value, value, ttl, now);
        assert SetEvents(bridge.config, items, now) == [e];
        OnePair(before, e, done, ok, bridge.Contents());
      }
      var _ := index.PublishAndActivate(k, id, ok);
    }

    method Get(k: CacheKey, now: Time) returns (r: Option<Option<Value>>)
      ensures bridge.enabled ==> r == ReadKey(bridge.store.name, bridge.Contents(), bridge.config, index.entries, k, now)
      ensures !bridge.enabled && r.Some? ==> r.value == None
      ensures k !in index.entries || !index.entries[k].active ==> r == Some(None)
    {
      var revision := index.ActiveRevisionOf(k);
      if revision.None? {
        return Some(None);
      }
      var core := CoreKey(k, revision.value);
      if core.None? {
        return None;
      }
      var values := bridge.Get([core.value], now);
      if values.None? {
        assert exists key | key in [core.value] ::
            ActionDigest(IdentityOf(bridge.config, key, bridge.Contents().epochs)).None?;
        return None;
      }
      assert core.value in [core.value];
      return Some(if core.value in values.value then Some(values.value[core.value]) else None);
    }

    ghost function ReadName(n: Namespace, t: Text, now: Time): Option<Option<Value>>
      reads bridge.store, bridge.epochs, index
    {
      ReadKey(bridge.store.name, bridge.Contents(), bridge.config, index.entries, CacheKey(n, t), now)
    }

    /** Exactly the keys with a value, each with the value `get` gives it. */
    method GetAll(n: Namespace, now: Time) returns (values: Option<map<Text, Value>>)
      ensures bridge.enabled && values.None? ==> exists t :: ReadName(n, t, now) == None
      ensures bridge.enabled && values.Some? ==> forall t ::
        ReadName(n, t, now) == Some(if t in values.value then Some(values.value[t]) else None)
      ensures !bridge.enabled && values.Some? ==> values.value == map[]
    {
      var names := index.ActiveKeys(n);
      var found: map<Text, Value> := map[];
      for i := 0 to |names|
        invariant bridge.enabled ==> forall t | t in names[..i] ::
          ReadName(n, t, now) == Some(if t in found then Some(found[t]) else None)
        invariant forall t | t in found :: t in names[..i]
        invariant !bridge.enabled ==> found == map[]
      {
        var value := Get(CacheKey(n, names[i]), now);
        if value.None? {
          assert bridge.enabled ==> ReadName(n, names[i], now) == None;
          return None;
        }
        assert forall t :: t in names[..i + 1] <==> t in names[..i] || t == names[i];
        if value.value.Some? {
          found := found[names[i] := value.value.value];
        }
      }
      assert names[..|names|] == names;
      return Some(found);
    }

    method Delete(k: CacheKey) returns (deleted: bool)
      modifies index
      ensures index.entries == A.Perform(old(index.entries), A.Op.Delete(k))
      ensures deleted <==> k in old(index.entries) && old(index.entries)[k].active
      ensures k !in index.entries || !index.entries[k].active
      ensures forall j | j != k ::
        (j in index.entries <==> j in old(index.entries)) && (j in index.entries ==> index.entries[j] == old(index.entries)[j])
    {
      deleted := index.Delete(k);
    }

    method Clear(namespace: Option<Namespace>) returns (changed: nat)
      modifies index
      ensures index.entries == A.Perform(old(index.entries), A.ClearOp(namespace))
      ensures A.Cleared(changed) == A.Result(old(index.entries), A.ClearOp(namespace))
      ensures forall j | j in index.entries && (namespace.None? || j.namespace == namespace.value) :: !index.entries[j].active
    {
      changed := index.Clear(namespace);
    }
  }

  /** An uninterrupted `put` is the machine's lock, publish and commit, and has the effect `Put` promises. */
  lemma PutIsLockPublishCommit(c: Config, m: Machine, k: CacheKey, value: EncodedValue, ttl: Option<int>, id: Text,
                               now: Time)
    requires m.holder.None? && id !in m.used && Lives(ttl)
    ensures var e := PutEvent(c, m.index, k, id, value, ttl, now);
      var ok := e.Some? && !Raises(At(m.log, |m.log|), e.value);
      var m' := Do(c, Do(c, Do(c, m, Lock(k, value, ttl, id)), Publish(now)), Commit);
      && m'.index == A.Perform(m.index, A.Op.Publish(k, id, ok))
      && m'.log == m.log + (if e.Some? then [e.value] else [])
      && m'.holder == None && m'.readers == m.readers
  {
    var locked := Do(c, m, Lock(k, value, ttl, id));
    var published := Do(c, locked, Publish(now));
    assert locked.log == m.log && locked.index == m.index;
    assert published.index == m.index;
  }

  // ---------- put, delete and clear, then get ----------

  /** What was put is what a get then gives, until its time to live has passed. */
  lemma PutThenGet(name: Text, log: seq<Event>, c: Config, es: A.Entries, k: CacheKey, id: Text, value: EncodedValue,
                   ttl: Option<int>, now: Time, later: Time)
    requires Unwritten(log, c, id) && Lives(ttl)
    requires var e := PutEvent(c, es, k, id, value, ttl, now); e.Some? && !Raises(At(log, |log|), e.value)
    ensures var e := PutEvent(c, es, k, id, value, ttl, now).value;
      ReadKey(name, At(log + [e], |log| + 1), c, A.Perform(es, A.Op.Publish(k, id, true)), k, later) ==
      Some(if ttl.Some? && later > now + ttl.value * 1_000_000 then None else Some(value))
  {
    var e := PutEvent(c, es, k, id, value, ttl, now).value;
    var revision := A.Revision(A.NextGeneration(es, k), Some(id));
    var r, w := Reading(k, revision), Commitment(e, |log|);
    FirstWrite(log, c, Pending(k, revision, value, ttl, None), e);
    var m := INITIAL.(log := log + [e], used := {id}, committed := map[r := w]);
    assert A.ActiveRevision(A.Perform(es, A.Op.Publish(k, id, true)), k) == Some(revision);
    EpochsStay(m.log, |log|, |m.log|, c, e.key);
    FetchedIsWritten(name, c, m, r, later);
  }

  /** A deleted key gives nothing, nor does one whose namespace, or everything, was cleared. */
  lemma RetiredThenGet(name: Text, s: System, c: Config, es: A.Entries, op: A.Op, k: CacheKey, now: Time)
    requires op == A.Op.Delete(k) || op == A.Op.ClearAll || op == A.Op.ClearNamespace(k.namespace)
    ensures ReadKey(name, s, c, A.Perform(es, op), k, now) == Some(None)
  {
    A.RetiredIsInactive(es, op, k);
  }

  /** Deleting, putting or clearing other keys changes nothing for the key on the same system. */
  lemma OthersThenGet(name: Text, s: System, c: Config, es: A.Entries, op: A.Op, k: CacheKey, now: Time)
    requires match op
      case PreparePut(j) => j != k
      case Activate(j) => j != k
      case Publish(j, _, _) => j != k
      case Delete(j) => j != k
      case ClearNamespace(n) => n != k.namespace
      case ClearAll => false
    ensures ReadKey(name, s, c, A.Perform(es, op), k, now) == ReadKey(name, s, c, es, k, now)
  {
    A.OthersKept(es, op, k);
  }
}
