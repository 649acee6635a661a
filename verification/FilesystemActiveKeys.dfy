/** The file-backed index: every operation reads the file, works on the map and rewrites the file. */
module FilesystemActiveKeys {
  import opened Text
  import opened Json
  import opened ExecutionActions
  import opened ActiveKeyIndex
  import opened FilesystemIndex
  import Sorting

  /** What one operation does to the file; no answer where it raises. */
  ghost function FileStep(file: Option<Bytes>, op: Op): (Option<Bytes>, Option<Answer>) {
    var es := ReadFile(file);
    if es.None? then (file, None)
    else if op.Publish? && !op.published then (file, Some(PublisherRaised))
    else
      var written := Written(Perform(es.value, op));
      if written.None? then (file, None) else (written, Some(Result(es.value, op)))
  }

  /** The operations `_mutate` is given. */
  method Operate(es: Entries, op: Op) returns (after: Entries, answer: Answer)
    requires !op.Publish?
    ensures after == Perform(es, op) && answer == Result(es, op)
  {
    match op
    case PreparePut(k) =>
      var e := if k in es then es[k] else ABSENT;
      var generation := e.generation + if e.active then 1 else 0;
      after, answer := es[k := Entry(generation, false, None)], Generation(generation);
    case Activate(k) =>
      var e := if k in es then es[k] else ABSENT;
      after, answer := es[k := Entry(e.generation, true, e.publication)], Nothing;
    case Delete(k) =>
      var e := if k in es then es[k] else ABSENT;
      if e.active {
        after, answer := es[k := Entry(e.generation + 1, false, None)], Deleted(true);
      } else {
        after, answer := es, Deleted(false);
      }
    case ClearNamespace(n) =>
      var changed;
      after, changed := ClearEntries(es, Some(n));
      answer := Cleared(changed);
    case ClearAll =>
      var changed;
      after, changed := ClearEntries(es, None);
      answer := Cleared(changed);
  }

  /** `sorted(entries.items())`, whatever order the items come in. */
  method SortEntries(es: Entries) returns (xs: seq<Item>)
    ensures xs == SortedItems(es)
  {
    var items: seq<Item> := [];
    var rest := es.Keys;
    while rest != {}
      invariant rest <= es.Keys
      invariant forall i, j | 0 <= i < j < |items| :: items[i].key != items[j].key
      invariant forall x | x in items :: x.key in es && x.key !in rest && es[x.key] == x.entry
      invariant forall k | k in es && k !in rest :: Item(k, es[k]) in items
      decreases |rest|
    {
      var k :| k in rest;
      rest := rest - {k};
      assert forall i | 0 <= i < |items| :: items[i] in items;
      items := items + [Item(k, es[k])];
    }
    SortedLists(items, es);
    xs := Sorting.Sort(items, ItemLess);
    SortedListUnique(xs, SortedItems(es), es);
  }

  class FilesystemActiveKeyIndex {
    var file: Option<Bytes>

    constructor (file: Option<Bytes>)
      ensures this.file == file
    {
      this.file := file;
    }

    method Read() returns (es: Option<Entries>)
      ensures es == ReadFile(file)
    {
      es := ReadFile(file);
    }

    /** The file is replaced as a whole, or not at all. */
    method Write(es: Entries) returns (ok: bool)
      modifies this
      ensures ok == Written(es).Some?
      ensures file == if ok then Written(es) else old(file)
    {
      var xs := SortEntries(es);
      var data := CanonicalJson(IndexJson(xs, true));
      if data.None? {
        return false;
      }
      file := data;
      return true;
    }

    method Mutate(op: Op) returns (answer: Option<Answer>)
      requires !op.Publish?
      modifies this
      ensures FileStep(old(file), op) == (file, answer)
    {
      var es := Read();
      if es.None? {
        return None;
      }
      var after, result := Operate(es.value, op);
      var ok := Write(after);
      return if ok then Some(result) else None;
    }

    method PublishAndActivate(k: CacheKey, id: Text, published: bool) returns (answer: Option<Answer>)
      modifies this
      ensures FileStep(old(file), Op.Publish(k, id, published)) == (file, answer)
    {
      var es := Read();
      if es.None? {
        return None;
      }
      var e := if k in es.value then es.value[k] else ABSENT;
      var generation := e.generation + if e.active then 1 else 0;
      if !published {
        return Some(PublisherRaised);
      }
      var ok := Write(es.value[k := Entry(generation, true, Some(id))]);
      return if ok then Some(Generation(generation)) else None;
    }

    method ActiveRevisionOf(k: CacheKey) returns (r: Option<Option<Revision>>)
      ensures r.Some? <==> ReadFile(file).Some?
      ensures r.Some? ==> r.value == ActiveRevision(ReadFile(file).value, k)
    {
      var es := Read();
      if es.None? {
        return None;
      }
      return Some(ActiveRevision(es.value, k));
    }

    method ActiveKeys(n: Namespace) returns (r: Option<seq<Text>>)
      ensures r.Some? <==> ReadFile(file).Some?
      ensures r.Some? ==> ListsActive(ReadFile(file).value, n, r.value)
    {
      var es := Read();
      if es.None? {
        return None;
      }
      var names := ListActive(es.value, n);
      return Some(names);
    }
  }

  // ---------- the file stands for the map ----------

  predicate ValidOp(op: Op) {
    match op
    case Publish(k, id, _) => ValidKey(k) && IsPublicationId(id)
    case PreparePut(k) => ValidKey(k)
    case Activate(k) => ValidKey(k)
    case Delete(k) => ValidKey(k)
    case ClearNamespace(n) => forall i | 0 <= i < |n| :: ValidText(n[i])
    case ClearAll => true
  }

  /** Storable with room for `room` more generations. */
  ghost predicate Roomy(es: Entries, room: int) {
    Storable(es) && forall k | k in es :: es[k].generation + room <= MAX_SAFE_INTEGER
  }

  lemma StepUsesRoom(es: Entries, op: Op, room: nat)
    requires 0 < room <= MAX_SAFE_INTEGER && Roomy(es, room) && ValidOp(op)
    ensures Roomy(Perform(es, op), room - 1)
  {
  }

  /** A valid operation answers as the map does and leaves the file standing for the new map. */
  lemma FileStepRefines(file: Option<Bytes>, es: Entries, op: Op, room: nat)
    requires ReadFile(file) == Some(es) && 0 < room <= MAX_SAFE_INTEGER && Roomy(es, room) && ValidOp(op)
    ensures FileStep(file, op).1 == Some(Result(es, op))
    ensures ReadFile(FileStep(file, op).0) == Some(Perform(es, op))
  {
    StepUsesRoom(es, op, room);
    FileRoundTrip(Perform(es, op));
  }
}
