/**
 Clear epochs and the execution cache bridge: an exact mutable map kept on an immutable store. A clear deletes
 nothing; it moves keys to a fresh epoch.
 */
module ExecutionCache {
  import opened Text
  import opened Digests
  import opened Records
  import opened Stores
  import opened Search
  import opened MemoryStore
  import opened Publishing
  import opened ExecutionActions
  import opened ExecutionValue
  import Cache
  import Utf8

  // ---------- epochs ----------

  datatype Epochs = Epochs(all: nat, namespaces: map<Namespace, nat>)

  const FIRST_EPOCHS := Epochs(0, map[])

  function NamespaceEpoch(e: Epochs, n: Namespace): nat {
    if n in e.namespaces then e.namespaces[n] else 0
  }

  predicate ValidNamespace(n: Namespace) {
    forall i | 0 <= i < |n| :: n[i] != []
  }

  /** Where rotation raises: the first invalid namespace. */
  function FirstInvalid(ns: seq<Namespace>): (n: nat)
    ensures n <= |ns| && (n < |ns| ==> !ValidNamespace(ns[n]))
    ensures forall i | 0 <= i < n :: ValidNamespace(ns[i])
  {
    if ns == [] || !ValidNamespace(ns[0]) then 0 else 1 + FirstInvalid(ns[1..])
  }

  function Bumped(e: Epochs, n: Namespace): Epochs {
    e.(namespaces := e.namespaces[n := NamespaceEpoch(e, n) + 1])
  }

  /** After rotating the first `n` namespaces. */
  function Rotated(e: Epochs, ns: seq<Namespace>, n: nat): Epochs
    requires n <= |ns|
  {
    if n == 0 then e else Bumped(Rotated(e, ns, n - 1), ns[n - 1])
  }

  class MemoryEpochRegistry {
    var all: nat
    var namespaces: map<Namespace, nat>

    function Contents(): Epochs
      reads this
    {
      Epochs(all, namespaces)
    }

    constructor ()
      ensures Contents() == FIRST_EPOCHS
    {
      all, namespaces := 0, map[];
    }

    method RotateAll()
      modifies this
      ensures Contents() == old(Contents()).(all := old(all) + 1)
    {
      all := all + 1;
    }

    method RotateNamespaces(ns: seq<Namespace>) returns (ok: bool)
      modifies this
      ensures ok <==> forall i | 0 <= i < |ns| :: ValidNamespace(ns[i])
      ensures Contents() == Rotated(old(Contents()), ns, FirstInvalid(ns))
    {
      for i := 0 to |ns|
        invariant forall k | 0 <= k < i :: ValidNamespace(ns[k])
        invariant Contents() == Rotated(old(Contents()), ns, i)
      {
        if !ValidNamespace(ns[i]) {
          return false;
        }
        namespaces := namespaces[ns[i] := (if ns[i] in namespaces then namespaces[ns[i]] else 0) + 1];
      }
      return true;
    }
  }

  /** A rotation moves exactly the namespaces it reaches, and forward. */
  lemma {:induction false} RotationMovesExactly(e: Epochs, ns: seq<Namespace>, n: nat, space: Namespace)
    requires n <= |ns|
    ensures Rotated(e, ns, n).all == e.all
    ensures if space in ns[..n] then NamespaceEpoch(Rotated(e, ns, n), space) > NamespaceEpoch(e, space)
            else NamespaceEpoch(Rotated(e, ns, n), space) == NamespaceEpoch(e, space)
  {
    if n > 0 {
      RotationMovesExactly(e, ns, n - 1, space);
      assert ns[..n] == ns[..n - 1] + [ns[n - 1]];
    }
  }

  /** A rotation leaves the epochs as they were exactly when its very first namespace is invalid, or it has none. */
  lemma RotationUnchangedExactly(e: Epochs, ns: seq<Namespace>)
    ensures Rotated(e, ns, FirstInvalid(ns)) == e <==> FirstInvalid(ns) == 0
  {
    if FirstInvalid(ns) > 0 {
      RotationMovesExactly(e, ns, FirstInvalid(ns), ns[0]);
      assert ns[0] in ns[..FirstInvalid(ns)];
    }
  }

  /** A namespace with an empty part after a valid one: the rotation raises, and the valid one has moved. */
  lemma FailedRotationMoves(e: Epochs)
    ensures var ns := [[[97]], [[]]];
      && FirstInvalid(ns) == 1 < |ns|
      && Rotated(e, ns, FirstInvalid(ns)) == Bumped(e, [[97]]) != e
  {
    var ns: seq<Namespace> := [[[97]], [[]]];
    assert ns[1][0] == [] && !ValidNamespace(ns[1]);
    assert ns[0] != ns[1] && FirstInvalid(ns[1..]) == 0;
    assert Rotated(e, ns, 1) == Bumped(Rotated(e, ns, 0), ns[0]);
    RotationUnchangedExactly(e, ns);
  }

  // ---------- what happens to the shared store and registry ----------

  /** The fixed part of a bridge. */
  datatype Config = Config(runtime: Text, serializer: Text, partition: Text, producer: Text)

  function TagA(): (v: Value)
    ensures ValidTag(v.typeTag)
  {
    assert Utf8.Encode([97])[1..] == [];
    Value([97], [])
  }

  type EncodedValue = v: Value | ValidTag(v.typeTag) witness TagA()

  datatype Event =
    | Set(config: Config, key: CacheKey, value: EncodedValue, ttl: Option<int>, now: Time)
    | ClearAll
    | ClearNamespaces(namespaces: seq<Namespace>)

  datatype System = System(store: State, epochs: Epochs)

  const EMPTY_SYSTEM := System(EMPTY, FIRST_EPOCHS)

  const VALUE: Text := Ascii("value")
  const VALUE_MEDIA_TYPE: Text := Ascii("application/vnd.oncemesh.execution-cache-value-v1")

  function IdentityOf(c: Config, key: CacheKey, e: Epochs): Identity {
    Identity(c.runtime, c.serializer, c.partition, key, e.all, NamespaceEpoch(e, key.namespace))
  }

  /** A time to live that is given and not positive stores nothing. */
  predicate Lives(ttl: Option<int>) {
    ttl.Some? ==> ttl.value > 0
  }

  function FreshUntil(now: Time, ttl: Option<int>): Option<Time> {
    if ttl.Some? then Some(now + ttl.value * SECOND) else None
  }

  function ArtifactOf(v: EncodedValue): Artifact {
    Artifact(VALUE, Pack(v).value, VALUE_MEDIA_TYPE)
  }

  function ManifestOf(e: Event, d: Digest): Manifest
    requires e.Set?
  {
    ManifestFor(d, [ArtifactOf(e.value)], e.config.producer, e.now, FreshUntil(e.now, e.ttl), None)
  }

  ghost function Step(s: System, e: Event): System {
    match e
    case Set(c, key, value, ttl, now) =>
      if !Lives(ttl) then s
      else
        var d := ActionDigest(IdentityOf(c, key, s.epochs));
        if d.None? then s.(store := Apply(s.store, Op.PutBlob(Pack(value).value)))
        else s.(store := Run(s.store, PublishOps([ArtifactOf(value)], ManifestOf(e, d.value))))
    case ClearAll => s.(epochs := s.epochs.(all := s.epochs.all + 1))
    case ClearNamespaces(ns) => s.(epochs := Rotated(s.epochs, ns, FirstInvalid(ns)))
  }

  ghost predicate IsStep(f: (System, Event) -> System) {
    forall s, e {:trigger Step(s, e)} :: f(s, e) == Step(s, e)
  }

  type StepFunction = f: (System, Event) -> System | IsStep(f) ghost witness Step

  /** `Step`, by a name that proofs about long logs do not unfold. */
  ghost const Next: StepFunction

  lemma NextIsStep(s: System, e: Event)
    ensures Next(s, e) == Step(s, e)
  {
    assert IsStep(Next);
  }

  /** After the first `n` events. */
  ghost function StepAll(s: System, es: seq<Event>, n: nat): System
    requires n <= |es|
  {
    if n == 0 then s else Next(StepAll(s, es, n - 1), es[n - 1])
  }

  /** The event raises: no action digest, or a manifest that does not validate. */
  ghost predicate Raises(s: System, e: Event) {
    e.Set? && Lives(e.ttl) &&
    var d := ActionDigest(IdentityOf(e.config, e.key, s.epochs));
    d.None? || !ValidManifest(ManifestOf(e, d.value))
  }

  ghost predicate RaisesAt(s: System, es: seq<Event>, n: nat)
    requires n < |es|
  {
    Raises(StepAll(s, es, n), es[n])
  }

  ghost predicate Quiet(s: System, es: seq<Event>, n: nat)
    requires n <= |es|
  {
    forall i | 0 <= i < n :: !RaisesAt(s, es, i)
  }

  /** The first `done` events took effect; without `ok`, the last of them raised. */
  ghost predicate Performed(before: System, es: seq<Event>, done: nat, ok: bool, after: System) {
    && done <= |es|
    && after == StepAll(before, es, done)
    && if ok then Quiet(before, es, done) else done > 0 && Quiet(before, es, done - 1) && RaisesAt(before, es, done - 1)
  }

  lemma PerformNext(before: System, es: seq<Event>, done: nat, s: System)
    requires Performed(before, es, done, true, s) && done < |es|
    ensures Performed(before, es, done + 1, !Raises(s, es[done]), Step(s, es[done]))
  {
    NextIsStep(s, es[done]);
  }

  // ---------- reading ----------

  function ReadPolicy(producer: Text, now: Time): Policy {
    Policy(now, Some({producer}), None, None, true, false, 8, 64)
  }

  /** A hit counts only in the form a bridge publishes. */
  function Decoded(o: Outcome): Option<Value> {
    if !o.Hit? || o.artifacts.Keys != {VALUE} || o.manifest.artifacts == [] then None
    else if o.manifest.artifacts[0].name != VALUE || o.manifest.artifacts[0].mediaType != VALUE_MEDIA_TYPE then None
    else Unpack(o.artifacts[VALUE])
  }

  /** A hit reads as a value exactly when its one artifact is `value`, so described, and unpacks to it. */
  lemma DecodedMeans(o: Outcome, v: Value)
    ensures Decoded(o) == Some(v) <==>
            && o.Hit? && o.manifest.artifacts != []
            && o.manifest.artifacts[0].name == Ascii("value")
            && o.manifest.artifacts[0].mediaType == Ascii("application/vnd.oncemesh.execution-cache-value-v1")
            && o.artifacts.Keys == {Ascii("value")} && Pack(v) == Some(o.artifacts[Ascii("value")])
  {
    if o.Hit? && o.artifacts.Keys == {VALUE} {
      if Unpack(o.artifacts[VALUE]).Some? {
        PackUnpack(o.artifacts[VALUE]);
      }
      if Pack(v).Some? {
        UnpackPack(v);
      }
    }
  }

  ghost function Got(name: Text, s: System, c: Config, key: CacheKey, now: Time): Option<Value>
    requires ActionDigest(IdentityOf(c, key, s.epochs)).Some?
  {
    Decoded(Reused(Alone(name, s.store, ReadPolicy(c.producer, now)), ActionDigest(IdentityOf(c, key, s.epochs)).value))
  }

  /** The keys of a request can all be canonicalized. */
  ghost predicate Encodable(s: System, c: Config, keys: seq<CacheKey>) {
    forall k | k in keys :: ActionDigest(IdentityOf(c, k, s.epochs)).Some?
  }

  datatype Item = Item(key: CacheKey, value: EncodedValue, ttl: Option<int>)

  function SetEvents(c: Config, items: seq<Item>, now: Time): seq<Event> {
    seq(|items|, i requires 0 <= i < |items| => Event.Set(c, items[i].key, items[i].value, items[i].ttl, now))
  }

  class ExecutionCacheBridge {
    const config: Config
    const store: MemoryStore
    const epochs: MemoryEpochRegistry
    var enabled: bool

    function Contents(): System
      reads store, epochs
    {
      System(store.Contents(), epochs.Contents())
    }

    constructor (config: Config, store: MemoryStore, epochs: MemoryEpochRegistry, enabled: bool)
      ensures this.config == config && this.store == store && this.epochs == epochs && this.enabled == enabled
    {
      this.config, this.store, this.epochs, this.enabled := config, store, epochs, enabled;
    }

    /** `None` where canonicalizing some key raises. */
    method Get(keys: seq<CacheKey>, now: Time) returns (results: Option<map<CacheKey, Value>>)
      ensures !enabled ==> results == Some(map[])
      ensures enabled ==> (results.Some? <==> Encodable(Contents(), config, keys))
      ensures enabled && results.Some? ==>
        forall k :: (k in results.value <==> k in keys && Got(store.name, Contents(), config, k, now).Some?)
                    && (k in results.value ==> Got(store.name, Contents(), config, k, now) == Some(results.value[k]))
    {
      if !enabled {
        return Some(map[]);
      }
      var found: map<CacheKey, Value> := map[];
      for i := 0 to |keys|
        invariant Encodable(Contents(), config, keys[..i])
        invariant forall k :: (k in found <==> k in keys[..i] && Got(store.name, Contents(), config, k, now).Some?)
                              && (k in found ==> Got(store.name, Contents(), config, k, now) == Some(found[k]))
      {
        var identity := IdentityOf(config, keys[i], epochs.Contents());
        ActionDigestIsCanonical(identity);
        var requested := ObjectDigest(ActionJson(identity));
        if requested.None? {
          assert keys[i] in keys;
          return None;
        }
        var w := World([View(store.name, store.Contents())], ReadPolicy(config.producer, now));
        var outcome := Cache.Reuse(w, requested.value);
        var value := Decoded(outcome);
        assert value == Got(store.name, Contents(), config, keys[i], now);
        assert forall k :: k in keys[..i + 1] <==> k in keys[..i] || k == keys[i];
        if value.Some? {
          found := found[keys[i] := value.value];
        }
      }
      assert keys[..|keys|] == keys;
      return Some(found);
    }

    /** One pass of the loop in `set`. */
    method SetOne(item: Item, now: Time) returns (ok: bool)
      modifies store
      ensures var e := Event.Set(config, item.key, item.value, item.ttl, now);
        Contents() == Step(old(Contents()), e) && (ok <==> !Raises(old(Contents()), e))
    {
      if item.ttl.Some? && item.ttl.value <= 0 {
        return true;
      }
      var identity := IdentityOf(config, item.key, epochs.Contents());
      ActionDigestIsCanonical(identity);
      var artifact := ArtifactOf(item.value);
      var requested := ObjectDigest(ActionJson(identity));
      var published :=
        PublishResult(store, requested, [artifact], config.producer, now, FreshUntil(now, item.ttl), None);
      return published.Some?;
    }

    /** The loop ends at the first pair that raises; `done` counts the pairs processed, that one included. */
    method Set(items: seq<Item>, now: Time) returns (ok: bool, ghost done: nat)
      modifies store
      ensures Performed(old(Contents()), if enabled then SetEvents(config, items, now) else [], done, ok, Contents())
      ensures enabled && ok ==> done == |items|
    {
      ok, done := true, 0;
      if !enabled {
        return;
      }
      ghost var events := SetEvents(config, items, now);
      for i := 0 to |items|
        invariant ok && done == i
        invariant Performed(old(Contents()), events, done, ok, Contents())
      {
        PerformNext(old(Contents()), events, done, Contents());
        ok := SetOne(items[i], now);
        done := i + 1;
        if !ok {
          return;
        }
      }
    }

    /** `None` clears everything. */
    method Clear(namespaces: Option<seq<Namespace>>) returns (ok: bool)
      modifies epochs
      ensures Contents() ==
              Step(old(Contents()), if namespaces.None? then ClearAll else ClearNamespaces(namespaces.value))
      ensures ok <==> namespaces.None? || FirstInvalid(namespaces.value) == |namespaces.value|
    {
      ok := true;
      if namespaces.None? {
        epochs.RotateAll();
      } else {
        ok := epochs.RotateNamespaces(namespaces.value);
      }
    }
  }
}
