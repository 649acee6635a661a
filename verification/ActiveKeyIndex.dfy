/** The active-key index as a map, its in-memory form, and why no revision is ever active twice. */
module ActiveKeyIndex {
  import opened Text
  import opened ExecutionActions
  import Sorting

  datatype Entry = Entry(generation: nat, active: bool, publication: Option<Text>)

  const ABSENT := Entry(0, false, None)

  type Entries = map<CacheKey, Entry>

  /** `publication` is absent only where an entry was activated without being published. */
  datatype Revision = Revision(generation: nat, publication: Option<Text>)

  function EntryOf(es: Entries, k: CacheKey): Entry {
    if k in es then es[k] else ABSENT
  }

  function ActiveRevision(es: Entries, k: CacheKey): Option<Revision> {
    var e := EntryOf(es, k);
    if e.active then Some(Revision(e.generation, e.publication)) else None
  }

  /** The generation of the next value: an active entry is superseded. */
  function NextGeneration(es: Entries, k: CacheKey): nat {
    EntryOf(es, k).generation + if EntryOf(es, k).active then 1 else 0
  }

  function Retired(e: Entry): Entry {
    Entry(e.generation + 1, false, None)
  }

  /** `Publish` carries the fresh publication id and whether the publisher returned. */
  datatype Op =
    | PreparePut(key: CacheKey)
    | Activate(key: CacheKey)
    | Publish(key: CacheKey, id: Text, published: bool)
    | Delete(key: CacheKey)
    | ClearNamespace(namespace: Namespace)
    | ClearAll

  datatype Answer =
    | Generation(n: nat)
    | Nothing
    | PublisherRaised
    | Deleted(b: bool)
    | Cleared(count: nat)

  predicate Clears(op: Op, k: CacheKey) {
    op.ClearAll? || (op.ClearNamespace? && k.namespace == op.namespace)
  }

  /** The active entries a clear retires. */
  function ClearedBy(es: Entries, op: Op): set<CacheKey> {
    set k | k in es && es[k].active && Clears(op, k)
  }

  function Perform(es: Entries, op: Op): Entries {
    match op
    case PreparePut(k) => es[k := Entry(NextGeneration(es, k), false, None)]
    case Activate(k) => es[k := EntryOf(es, k).(active := true)]
    case Publish(k, id, published) =>
      if published then es[k := Entry(NextGeneration(es, k), true, Some(id))] else es
    case Delete(k) => if EntryOf(es, k).active then es[k := Retired(EntryOf(es, k))] else es
    case _ => map k | k in es :: if es[k].active && Clears(op, k) then Retired(es[k]) else es[k]
  }

  function Result(es: Entries, op: Op): Answer {
    match op
    case PreparePut(k) => Generation(NextGeneration(es, k))
    case Activate(k) => Nothing
    case Publish(k, _, published) => if published then Generation(NextGeneration(es, k)) else PublisherRaised
    case Delete(k) => Deleted(EntryOf(es, k).active)
    case _ => Cleared(|ClearedBy(es, op)|)
  }

  /** `r` lists exactly the active keys of the namespace, in ascending order. */
  ghost predicate ListsActive(es: Entries, n: Namespace, r: seq<Text>) {
    && Sorting.Ascending(r, Less)
    && forall t :: t in r <==> EntryOf(es, CacheKey(n, t)).active
  }

  /** The listing is determined. */
  lemma ListingUnique(es: Entries, n: Namespace, a: seq<Text>, b: seq<Text>)
    requires ListsActive(es, n, a) && ListsActive(es, n, b)
    ensures a == b
  {
    LessIsStrict();
    Sorting.AscendingUnique(a, b, Less);
  }

  lemma LessIsStrict()
    ensures Sorting.StrictOrder(Less)
  {
    forall x ensures !Less(x, x) {
      LessIrreflexive(x);
    }
    forall x, y, z | Less(x, y) && Less(y, z) ensures Less(x, z) {
      LessTransitive(x, y, z);
    }
  }

  /** Distinct texts in any order sort to an ascending listing of the same texts. */
  lemma SortListing(ts: seq<Text>)
    requires forall i, j | 0 <= i < j < |ts| :: ts[i] != ts[j]
    ensures Sorting.Ascending(Sorting.Sort(ts, Less), Less)
    ensures forall t :: t in Sorting.Sort(ts, Less) <==> t in ts
  {
    LessIsStrict();
    forall i, j | 0 <= i < |ts| && 0 <= j < |ts| && i != j ensures Less(ts[i], ts[j]) || Less(ts[j], ts[i]) {
      LessTotal(ts[i], ts[j]);
      assert ts[i] != ts[j];
    }
    Sorting.SortAscending(ts, Less);
    Sorting.SortElements(ts, Less);
  }

  /** The names the loop over all entries collects, sorted: what every index answers to `active_keys`. */
  method ListActive(es: Entries, n: Namespace) returns (r: seq<Text>)
    ensures ListsActive(es, n, r)
  {
    var names: seq<Text> := [];
    var rest := es.Keys;
    while rest != {}
      invariant rest <= es.Keys
      invariant forall i, j | 0 <= i < j < |names| :: names[i] != names[j]
      invariant forall t :: t in names <==> CacheKey(n, t) in es && CacheKey(n, t) !in rest && es[CacheKey(n, t)].active
      decreases |rest|
    {
      var k :| k in rest;
      rest := rest - {k};
      if k.namespace == n && es[k].active {
        assert k == CacheKey(n, k.name);
        names := names + [k.name];
      }
    }
    SortListing(names);
    r := Sorting.Sort(names, Less);
  }

  class MemoryActiveKeyIndex {
    var entries: Entries

    constructor ()
      ensures entries == map[]
    {
      entries := map[];
    }

    method ActiveRevisionOf(k: CacheKey) returns (r: Option<Revision>)
      ensures r == ActiveRevision(entries, k)
    {
      var e := if k in entries then entries[k] else ABSENT;
      r := if e.active then Some(Revision(e.generation, e.publication)) else None;
    }

    method PreparePut(k: CacheKey) returns (generation: nat)
      modifies this
      ensures entries == Perform(old(entries), Op.PreparePut(k))
      ensures Generation(generation) == Result(old(entries), Op.PreparePut(k))
      ensures k in entries && entries[k] == Entry(generation, false, None)
    {
      var e := if k in entries then entries[k] else ABSENT;
      generation := e.generation;
      if e.active {
        generation := generation + 1;
      }
      entries := entries[k := Entry(generation, false, None)];
    }

    method Activate(k: CacheKey)
      modifies this
      ensures entries == Perform(old(entries), Op.Activate(k))
    {
      var e := if k in entries then entries[k] else ABSENT;
      entries := entries[k := Entry(e.generation, true, e.publication)];
    }

    /** The publisher runs between the two reads of the generation, under the lock. */
    method PublishAndActivate(k: CacheKey, id: Text, published: bool) returns (a: Answer)
      modifies this
      ensures entries == Perform(old(entries), Op.Publish(k, id, published))
      ensures a == Result(old(entries), Op.Publish(k, id, published))
    {
      var e := if k in entries then entries[k] else ABSENT;
      var generation := e.generation + if e.active then 1 else 0;
      if !published {
        return PublisherRaised;
      }
      entries := entries[k := Entry(generation, true, Some(id))];
      return Generation(generation);
    }

    method Delete(k: CacheKey) returns (deleted: bool)
      modifies this
      ensures entries == Perform(old(entries), Op.Delete(k))
      ensures Deleted(deleted) == Result(old(entries), Op.Delete(k))
      ensures deleted <==> k in old(entries) && old(entries)[k].active
      ensures k !in entries || !entries[k].active
    {
      var e := if k in entries then entries[k] else ABSENT;
      if !e.active {
        return false;
      }
      entries := entries[k := Entry(e.generation + 1, false, None)];
      return true;
    }

    method ActiveKeys(n: Namespace) returns (r: seq<Text>)
      ensures ListsActive(entries, n, r)
    {
      r := ListActive(entries, n);
    }

    /** `clear_namespace` and `clear_all`. */
    method Clear(namespace: Option<Namespace>) returns (changed: nat)
      modifies this
      ensures entries == Perform(old(entries), ClearOp(namespace))
      ensures Cleared(changed) == Result(old(entries), ClearOp(namespace))
    {
      entries, changed := ClearEntries(entries, namespace);
    }
  }

  function ClearOp(namespace: Option<Namespace>): Op {
    if namespace.Some? then Op.ClearNamespace(namespace.value) else Op.ClearAll
  }

  /** The loop over all entries that clears share. */
  method ClearEntries(es: Entries, namespace: Option<Namespace>) returns (after: Entries, changed: nat)
    ensures after == Perform(es, ClearOp(namespace)) && Cleared(changed) == Result(es, ClearOp(namespace))
  {
    ghost var op := ClearOp(namespace);
    ghost var cleared: set<CacheKey> := {};
    after, changed := es, 0;
    var rest := es.Keys;
    while rest != {}
      invariant rest <= es.Keys && changed == |cleared|
      invariant cleared == ClearedOutside(es, op, rest) && after == RetiredAt(es, cleared)
      decreases |rest|
    {
      var k :| k in rest;
      ClearedNext(es, op, rest, k);
      rest := rest - {k};
      if es[k].active && (namespace.None? || k.namespace == namespace.value) {
        RetiredNext(es, cleared, k);
        cleared := cleared + {k};
        after := after[k := Entry(es[k].generation + 1, false, None)];
        changed := changed + 1;
      }
    }
    ClearedAll(es, op, rest);
  }

  /** What a clear has retired once only `rest` is left. */
  ghost function ClearedOutside(es: Entries, op: Op, rest: set<CacheKey>): set<CacheKey> {
    set k | k in es && k !in rest && es[k].active && Clears(op, k)
  }

  function RetiredAt(es: Entries, cleared: set<CacheKey>): Entries {
    map k | k in es :: if k in cleared then Retired(es[k]) else es[k]
  }

  lemma ClearedNext(es: Entries, op: Op, rest: set<CacheKey>, k: CacheKey)
    requires k in rest && k in es
    ensures k !in ClearedOutside(es, op, rest)
    ensures ClearedOutside(es, op, rest - {k}) ==
            ClearedOutside(es, op, rest) + if es[k].active && Clears(op, k) then {k} else {}
  {
  }

  lemma RetiredNext(es: Entries, cleared: set<CacheKey>, k: CacheKey)
    requires k in es
    ensures RetiredAt(es, cleared)[k := Retired(es[k])] == RetiredAt(es, cleared + {k})
  {
  }

  lemma ClearedAll(es: Entries, op: Op, none: set<CacheKey>)
    requires none == {} && (op.ClearNamespace? || op.ClearAll?)
    ensures ClearedOutside(es, op, none) == ClearedBy(es, op)
    ensures RetiredAt(es, ClearedBy(es, op)) == Perform(es, op)
  {
  }

  // ---------- generations only move forward ----------

  ghost predicate WellFormed(es: Entries) {
    forall k | k in es && !es[k].active :: es[k].publication == None
  }

  /** After the first `n` operations. */
  function Run(es: Entries, ops: seq<Op>, n: nat): Entries
    requires n <= |ops|
  {
    if n == 0 then es else Perform(Run(es, ops, n - 1), ops[n - 1])
  }

  /** Inactive entries carry no publication id, in every run. */
  lemma {:induction false} RunWellFormed(es: Entries, ops: seq<Op>, n: nat)
    requires n <= |ops| && WellFormed(es)
    ensures WellFormed(Run(es, ops, n))
  {
    if n > 0 {
      RunWellFormed(es, ops, n - 1);
    }
  }

  lemma {:induction false} GenerationNeverDecreases(es: Entries, ops: seq<Op>, i: nat, n: nat, k: CacheKey)
    requires i <= n <= |ops|
    ensures EntryOf(Run(es, ops, i), k).generation <= EntryOf(Run(es, ops, n), k).generation
  {
    if i < n {
      GenerationNeverDecreases(es, ops, i, n - 1, k);
    }
  }

  /** The revision is the active one, or its generation has been passed. */
  ghost predicate CurrentOrPast(es: Entries, k: CacheKey, r: Revision) {
    ActiveRevision(es, k) == Some(r) || EntryOf(es, k).generation > r.generation
  }

  lemma StepPasses(es: Entries, op: Op, k: CacheKey, r: Revision)
    requires CurrentOrPast(es, k, r)
    ensures CurrentOrPast(Perform(es, op), k, r)
    ensures EntryOf(es, k).generation > r.generation ==> EntryOf(Perform(es, op), k).generation > r.generation
  {
  }

  /** Once active, a revision stays the active one or is passed for good. */
  lemma {:induction false} RevisionsMoveOn(es: Entries, ops: seq<Op>, i: nat, n: nat, k: CacheKey, r: Revision)
    requires i <= n <= |ops| && CurrentOrPast(Run(es, ops, i), k, r)
    ensures CurrentOrPast(Run(es, ops, n), k, r)
    ensures EntryOf(Run(es, ops, i), k).generation > r.generation ==>
              EntryOf(Run(es, ops, n), k).generation > r.generation
  {
    if i < n {
      RevisionsMoveOn(es, ops, i, n - 1, k, r);
      StepPasses(Run(es, ops, n - 1), ops[n - 1], k, r);
    }
  }

  /**
   A revision that was active and no longer is (overwritten, deleted, cleared or prepared over) is never active
   again, whatever operations follow; every later active period has a greater generation.
   */
  lemma NeverActiveAgain(es: Entries, ops: seq<Op>, i: nat, j: nat, n: nat, k: CacheKey)
    requires i < j <= n <= |ops|
    requires ActiveRevision(Run(es, ops, i), k).Some?
    requires ActiveRevision(Run(es, ops, j), k) != ActiveRevision(Run(es, ops, i), k)
    ensures ActiveRevision(Run(es, ops, n), k) != ActiveRevision(Run(es, ops, i), k)
    ensures EntryOf(Run(es, ops, n), k).generation > EntryOf(Run(es, ops, i), k).generation
  {
    var r := ActiveRevision(Run(es, ops, i), k).value;
    RevisionsMoveOn(es, ops, i, j, k, r);
    RevisionsMoveOn(es, ops, j, n, k, r);
  }

  // ---------- what each operation does to a key, by the entry's fields ----------

  /** Deleting a key, preparing a put of it, or clearing its namespace or everything. */
  predicate Retires(op: Op, k: CacheKey) {
    op == Op.Delete(k) || op == Op.PreparePut(k) || op == Op.ClearAll || op == Op.ClearNamespace(k.namespace)
  }

  /** A revision is active exactly when the key's entry is, with the entry's own generation and publication. */
  lemma ActiveRevisionMeans(es: Entries, k: CacheKey, r: Revision)
    ensures ActiveRevision(es, k) == Some(r) <==> k in es && es[k] == Entry(r.generation, true, r.publication)
    ensures ActiveRevision(es, k) == None <==> k !in es || !es[k].active
  {
  }

  /** Right after, the key has no active revision; if it had one its generation has grown. */
  lemma RetiredIsInactive(es: Entries, op: Op, k: CacheKey)
    requires op == Op.Delete(k) || op == Op.PreparePut(k) || op == Op.ClearAll || op == Op.ClearNamespace(k.namespace)
    ensures var es' := Perform(es, op);
      && ActiveRevision(es', k) == None
      && (k !in es' || !es'[k].active)
      && (k in es && es[k].active ==> k in es' && es'[k] == Entry(es[k].generation + 1, false, None))
  {
  }

  /** Publishing makes the key active under the new publication; a raising publisher changes nothing. */
  lemma PublishedIsActive(es: Entries, k: CacheKey, id: Text)
    ensures Perform(es, Op.Publish(k, id, false)) == es
    ensures var es' := Perform(es, Op.Publish(k, id, true));
      && k in es' && es'[k].active && es'[k].publication == Some(id)
      && es'[k].generation == (if k !in es then 0 else if es[k].active then es[k].generation + 1 else es[k].generation)
      && ActiveRevision(es', k) == Some(Revision(es'[k].generation, Some(id)))
  {
  }

  /** An operation on other keys, or a clear of another namespace, leaves the key's entry as it was. */
  lemma OthersKept(es: Entries, op: Op, k: CacheKey)
    requires match op
      case PreparePut(j) => j != k
      case Activate(j) => j != k
      case Publish(j, _, _) => j != k
      case Delete(j) => j != k
      case ClearNamespace(n) => n != k.namespace
      case ClearAll => false
    ensures var es' := Perform(es, op); (k in es' <==> k in es) && (k in es ==> es'[k] == es[k])
  {
  }

  /** `delete` answers whether it took an active entry away, a clear how many it took away. */
  lemma AnswersCount(es: Entries, op: Op)
    requires op.Delete? || op.ClearNamespace? || op.ClearAll?
    ensures var es' := Perform(es, op);
      var lost := set k | k in es && es[k].active && (k !in es' || !es'[k].active);
      && (op.Delete? ==> Result(es, op) == Deleted(lost != {}) && |lost| <= 1)
      && (!op.Delete? ==> Result(es, op) == Cleared(|lost|))
  {
    var es' := Perform(es, op);
    var lost := set k | k in es && es[k].active && (k !in es' || !es'[k].active);
    if op.Delete? {
      assert lost == if op.key in es && es[op.key].active then {op.key} else {};
    } else {
      assert lost == ClearedBy(es, op);
    }
  }

  /** Once retired, a key stays without a revision until it is published or activated again. */
  lemma {:induction false} RetiredStaysInactive(es: Entries, ops: seq<Op>, i: nat, n: nat, k: CacheKey)
    requires i < n <= |ops| && Retires(ops[i], k)
    requires forall j | i < j < n :: ops[j] != Op.Activate(k) && !(ops[j].Publish? && ops[j].key == k)
    ensures ActiveRevision(Run(es, ops, n), k) == None
    decreases n
  {
    if n == i + 1 {
      RetiredIsInactive(Run(es, ops, i), ops[i], k);
    } else {
      RetiredStaysInactive(es, ops, i, n - 1, k);
    }
  }
}
