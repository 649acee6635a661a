/** The table-backed index: rows under the namespace's canonical text, each operation one transaction. */
module SqliteActiveKeys {
  import opened Text
  import opened Json
  import opened ExecutionActions
  import opened ActiveKeyIndex
  import opened FilesystemIndex
  import opened FilesystemActiveKeys
  import JsonIdentity
  import Sorting
  import Utf8

  /** The primary key of `active_keys`. */
  datatype RowKey = RowKey(namespace: Text, name: Text)

  type Table = map<RowKey, Entry>

  function CanonicalNamespace(n: Namespace): Option<Text> {
    match CanonicalJson(TextsJson(n))
    case None => None
    case Some(b) => Utf8.Decode(b)
  }

  ghost predicate IsNamespaceText(f: Namespace -> Option<Text>) {
    forall n {:trigger CanonicalNamespace(n)} :: f(n) == CanonicalNamespace(n)
  }

  type NamespaceTextFunction = f: Namespace -> Option<Text> | IsNamespaceText(f) witness CanonicalNamespace

  /** `_namespace`, by a name proofs do not unfold; `None` where canonicalization raises. */
  const NamespaceText: NamespaceTextFunction

  lemma NamespaceTextIsCanonical(n: Namespace)
    ensures NamespaceText(n) == CanonicalNamespace(n)
  {
    assert IsNamespaceText(NamespaceText);
  }

  /** The row of a key; a key that cannot be bound as text has none. */
  function RowOf(k: CacheKey): Option<RowKey> {
    var n := NamespaceText(k.namespace);
    if n.None? || !NoSurrogates(k.name) then None else Some(RowKey(n.value, k.name))
  }

  predicate EncodableNamespace(n: Namespace) {
    forall i | 0 <= i < |n| :: NoSurrogates(n[i])
  }

  lemma NamespaceTextSome(n: Namespace)
    ensures NamespaceText(n).Some? <==> EncodableNamespace(n)
  {
    NamespaceTextIsCanonical(n);
    TextsAccepted(n);
    if EncodableNamespace(n) {
      var j := TextsJson(n);
      SortedAccepted(j);
      JsonIdentity.TextWithoutSurrogates(Sorted(j));
      Utf8.DecodeEncode(ValueText(Sorted(j)));
    }
  }

  /** Distinct namespaces have distinct texts. */
  lemma NamespaceTextInjective(a: Namespace, b: Namespace)
    requires NamespaceText(a).Some? && NamespaceText(a) == NamespaceText(b)
    ensures a == b
  {
    NamespaceTextSome(a);
    NamespaceTextSome(b);
    NamespaceTextIsCanonical(a);
    NamespaceTextIsCanonical(b);
    TextsAccepted(a);
    TextsAccepted(b);
    Utf8.EncodeDecode(CanonicalJson(TextsJson(a)).value);
    Utf8.EncodeDecode(CanonicalJson(TextsJson(b)).value);
    JsonIdentity.CanonicalBytesIdentify(TextsJson(a), TextsJson(b));
    SameTexts(a, b);
  }

  // ---------- transactions ----------

  function EntryAt(t: Table, r: RowKey): Entry {
    if r in t then t[r] else ABSENT
  }

  /** The rows an UPDATE of active rows touches: one namespace, or all. */
  function Touched(t: Table, namespace: Option<Text>): set<RowKey> {
    set r | r in t && t[r].active && (namespace.None? || r.namespace == namespace.value)
  }

  /** SET generation = generation + 1, active = 0, publication_id = NULL */
  function Update(t: Table, namespace: Option<Text>): Table {
    map r | r in t :: if r in Touched(t, namespace) then Retired(t[r]) else t[r]
  }

  /** One committed transaction, or no answer and no change where it raises and rolls back. */
  function SqlStep(t: Table, op: Op): (Table, Option<Answer>) {
    match op
    case PreparePut(k) => SqlPreparePut(t, RowOf(k))
    case Activate(k) =>
      var r := RowOf(k);
      if r.None? then (t, None) else (t[r.value := EntryAt(t, r.value).(active := true)], Some(Nothing))
    case Publish(k, id, published) => SqlPublish(t, RowOf(k), id, published)
    case Delete(k) => SqlDelete(t, RowOf(k))
    case ClearNamespace(n) =>
      var text := NamespaceText(n);
      if text.None? then (t, None) else (Update(t, text), Some(Cleared(|Touched(t, text)|)))
    case ClearAll => (Update(t, None), Some(Cleared(|Touched(t, None)|)))
  }

  function NextAt(t: Table, r: RowKey): nat {
    EntryAt(t, r).generation + if EntryAt(t, r).active then 1 else 0
  }

  function SqlPreparePut(t: Table, r: Option<RowKey>): (Table, Option<Answer>) {
    if r.None? then (t, None)
    else (t[r.value := Entry(NextAt(t, r.value), false, None)], Some(Generation(NextAt(t, r.value))))
  }

  /** A publication id that breaks the column's CHECK rolls the transaction back. */
  function SqlPublish(t: Table, r: Option<RowKey>, id: Text, published: bool): (Table, Option<Answer>) {
    if r.None? then (t, None)
    else if !published then (t, Some(PublisherRaised))
    else if !IsPublicationId(id) then (t, None)
    else (t[r.value := Entry(NextAt(t, r.value), true, Some(id))], Some(Generation(NextAt(t, r.value))))
  }

  function SqlDelete(t: Table, r: Option<RowKey>): (Table, Option<Answer>) {
    if r.None? then (t, None)
    else if !EntryAt(t, r.value).active then (t, Some(Deleted(false)))
    else (t[r.value := Retired(EntryAt(t, r.value))], Some(Deleted(true)))
  }

  /** BINARY collation: memcmp of the UTF-8 bytes. */
  predicate ByteLess(a: Text, b: Text) {
    Less(Utf8.Encode(a), Utf8.Encode(b))
  }

  ghost predicate ListsRows(t: Table, namespace: Text, names: seq<Text>) {
    && Sorting.Ascending(names, ByteLess)
    && forall x :: x in names <==> EntryAt(t, RowKey(namespace, x)).active
  }

  class SQLiteActiveKeyIndex {
    var table: Table

    constructor ()
      ensures table == map[]
    {
      table := map[];
    }

    method Transaction(op: Op) returns (answer: Option<Answer>)
      modifies this
      ensures (table, answer) == SqlStep(old(table), op)
    {
      var after := SqlStep(table, op);
      table := after.0;
      return after.1;
    }

    method ActiveRevisionOf(k: CacheKey) returns (r: Option<Option<Revision>>)
      ensures r.Some? <==> RowOf(k).Some?
      ensures r.Some? ==> var e := EntryAt(table, RowOf(k).value);
        r.value == if e.active then Some(Revision(e.generation, e.publication)) else None
    {
      var row := RowOf(k);
      if row.None? {
        return None;
      }
      var e := EntryAt(table, row.value);
      return Some(if e.active then Some(Revision(e.generation, e.publication)) else None);
    }

    /** SELECT native_key … ORDER BY native_key, the scan in any order. */
    method ActiveKeys(n: Namespace) returns (names: Option<seq<Text>>)
      ensures names.Some? <==> NamespaceText(n).Some?
      ensures names.Some? ==> ListsRows(table, NamespaceText(n).value, names.value)
    {
      var text := NamespaceText(n);
      if text.None? {
        return None;
      }
      var found: seq<Text> := [];
      var rest := table.Keys;
      while rest != {}
        invariant rest <= table.Keys
        invariant forall i, j | 0 <= i < j < |found| :: found[i] != found[j]
        invariant forall x :: x in found <==> RowKey(text.value, x) in table && RowKey(text.value, x) !in rest
                                              && table[RowKey(text.value, x)].active
        decreases |rest|
      {
        var r :| r in rest;
        rest := rest - {r};
        if r.namespace == text.value && table[r].active {
          assert r == RowKey(text.value, r.name);
          found := found + [r.name];
        }
      }
      assert forall i | 0 <= i < |found| :: found[i] in found;
      SortByBytes(found);
      return Some(Sorting.Sort(found, ByteLess));
    }

    /** All entries of a readable index file, into an empty table unless replacing; or no change at all. */
    method ImportFilesystem(source: FilesystemActiveKeyIndex, replace: bool) returns (count: Option<nat>)
      modifies this
      ensures count.Some? <==>
        && (old(table) == map[] || replace) && ReadFile(source.file).Some?
        && forall k | k in ReadFile(source.file).value :: RowOf(k).Some?
      ensures count.Some? ==>
        Represents(table, ReadFile(source.file).value) && count.value == |ReadFile(source.file).value|
      ensures count.None? ==> table == old(table)
    {
      var entries := source.Read();
      if entries.None? || (table != map[] && !replace) {
        return None;
      }
      var rows := UpsertAll(entries.value);
      if rows.None? {
        return None;
      }
      table := rows.value;
      return Some(|entries.value|);
    }
  }

  lemma LoadOneMore(t: Table, es: Entries, rest: set<CacheKey>, k: CacheKey)
    requires k in rest && rest <= es.Keys && RowOf(k).Some? && Represents(t, es - rest)
    ensures Represents(t[RowOf(k).value := es[k]], es - (rest - {k}))
  {
    UpsertRepresents(t, es - rest, k, es[k]);
    assert (es - rest)[k := es[k]] == es - (rest - {k});
  }

  lemma AllLoaded(t: Table, es: Entries)
    requires Represents(t, es - {})
    ensures Represents(t, es) && forall k | k in es :: RowOf(k).Some?
  {
    assert es - {} == es;
  }

  /** One row for each entry; a key without a row raises. */
  method UpsertAll(es: Entries) returns (rows: Option<Table>)
    ensures rows.Some? <==> forall k | k in es :: RowOf(k).Some?
    ensures rows.Some? ==> Represents(rows.value, es)
  {
    var t: Table := map[];
    var rest := es.Keys;
    assert es - rest == map[];
    while rest != {}
      invariant rest <= es.Keys && Represents(t, es - rest)
      decreases |rest|
    {
      var k :| k in rest;
      var row := RowOf(k);
      if row.None? {
        return None;
      }
      LoadOneMore(t, es, rest, k);
      t := t[row.value := es[k]];
      rest := rest - {k};
    }
    AllLoaded(t, es);
    return Some(t);
  }

  lemma ByteOrderIsCodePointOrder(names: seq<Text>)
    ensures Sorting.Ascending(names, ByteLess) <==> Sorting.Ascending(names, Less)
  {
    forall i, j | 0 <= i < j < |names| ensures ByteLess(names[i], names[j]) <==> Less(names[i], names[j]) {
      Utf8.EncodingPreservesOrder(names[i], names[j]);
    }
  }

  lemma SortByBytes(names: seq<Text>)
    requires forall i, j | 0 <= i < j < |names| :: names[i] != names[j]
    ensures Sorting.Ascending(Sorting.Sort(names, ByteLess), ByteLess)
    ensures forall t :: t in Sorting.Sort(names, ByteLess) <==> t in names
  {
    forall x, y ensures ByteLess(x, y) <==> Less(x, y) {
      Utf8.EncodingPreservesOrder(x, y);
    }
    LessIsStrict();
    assert Sorting.StrictOrder(ByteLess);
    forall i, j | 0 <= i < |names| && 0 <= j < |names| && i != j
      ensures ByteLess(names[i], names[j]) || ByteLess(names[j], names[i])
    {
      LessTotal(names[i], names[j]);
      assert names[i] != names[j];
    }
    Sorting.SortAscending(names, ByteLess);
    Sorting.SortElements(names, ByteLess);
  }

  // ---------- the table stands for the map ----------

  /** One row per entry, and no other row. */
  ghost predicate Represents(t: Table, es: Entries) {
    && (forall k | k in es :: RowOf(k).Some? && RowOf(k).value in t && t[RowOf(k).value] == es[k])
    && (forall r | r in t :: exists k :: k in es && RowOf(k) == Some(r))
  }

  lemma RowInjective(a: CacheKey, b: CacheKey)
    requires RowOf(a).Some? && RowOf(a) == RowOf(b)
    ensures a == b
  {
    NamespaceTextInjective(a.namespace, b.namespace);
  }

  lemma UpsertRepresents(t: Table, es: Entries, k: CacheKey, e: Entry)
    requires Represents(t, es) && RowOf(k).Some?
    ensures Represents(t[RowOf(k).value := e], es[k := e])
  {
    var row := RowOf(k).value;
    var t', es' := t[row := e], es[k := e];
    forall q | q in es' ensures RowOf(q).Some? && RowOf(q).value in t' && t'[RowOf(q).value] == es'[q] {
      if q != k && RowOf(q) == RowOf(k) {
        RowInjective(q, k);
      }
    }
    forall r | r in t' ensures exists q :: q in es' && RowOf(q) == Some(r) {
      if r == row {
        assert k in es';
      } else {
        var q :| q in es && RowOf(q) == Some(r);
        assert q in es';
      }
    }
  }

  lemma EntryRepresented(t: Table, es: Entries, k: CacheKey)
    requires Represents(t, es) && RowOf(k).Some?
    ensures EntryAt(t, RowOf(k).value) == EntryOf(es, k)
  {
    if RowOf(k).value in t {
      var q :| q in es && RowOf(q) == RowOf(k);
      RowInjective(q, k);
    }
  }

  lemma ValidHasRow(k: CacheKey)
    requires ValidKey(k)
    ensures RowOf(k).Some?
  {
    NamespaceTextSome(k.namespace);
  }

  /** The touched rows are the rows of the cleared keys. */
  lemma TouchedRepresents(t: Table, es: Entries, op: Op, text: Option<Text>)
    requires Represents(t, es) && (op.ClearAll? || op.ClearNamespace?)
    requires if op.ClearAll? then text.None? else text.Some? && text == NamespaceText(op.namespace)
    ensures forall k | k in es :: RowOf(k).value in Touched(t, text) <==> k in ClearedBy(es, op)
    ensures |Touched(t, text)| == |ClearedBy(es, op)|
  {
    forall k | k in es ensures RowOf(k).value in Touched(t, text) <==> k in ClearedBy(es, op) {
      if op.ClearNamespace? && NamespaceText(k.namespace) == text {
        NamespaceTextInjective(k.namespace, op.namespace);
      }
    }
    forall r | r in Touched(t, text) ensures exists k :: k in ClearedBy(es, op) && RowOf(k) == Some(r) {
      var k :| k in es && RowOf(k) == Some(r);
    }
    SameSize(ClearedBy(es, op), Touched(t, text));
  }

  lemma {:induction false} SameSize(keys: set<CacheKey>, rows: set<RowKey>)
    requires forall k | k in keys :: RowOf(k).Some? && RowOf(k).value in rows
    requires forall r | r in rows :: exists k :: k in keys && RowOf(k) == Some(r)
    ensures |keys| == |rows|
    decreases keys
  {
    if keys == {} {
      assert rows == {};
    } else {
      var k :| k in keys;
      forall q | q in keys - {k} ensures RowOf(q).value in rows - {RowOf(k).value} {
        if RowOf(q) == RowOf(k) {
          RowInjective(q, k);
        }
      }
      forall r | r in rows - {RowOf(k).value} ensures exists q :: q in keys - {k} && RowOf(q) == Some(r) {
        var q :| q in keys && RowOf(q) == Some(r);
      }
      SameSize(keys - {k}, rows - {RowOf(k).value});
    }
  }

  lemma UpdateRepresents(t: Table, es: Entries, op: Op, text: Option<Text>)
    requires Represents(t, es) && (op.ClearAll? || op.ClearNamespace?)
    requires if op.ClearAll? then text.None? else text.Some? && text == NamespaceText(op.namespace)
    ensures Represents(Update(t, text), Perform(es, op))
  {
    TouchedRepresents(t, es, op, text);
    var t', es' := Update(t, text), Perform(es, op);
    forall k | k in es' ensures RowOf(k).Some? && RowOf(k).value in t' && t'[RowOf(k).value] == es'[k] {
      assert k in es;
      assert k in ClearedBy(es, op) <==> es[k].active && Clears(op, k);
    }
    forall r | r in t' ensures exists k :: k in es' && RowOf(k) == Some(r) {
      var k :| k in es && RowOf(k) == Some(r);
      assert k in es';
    }
  }

  /** A valid operation answers as the map does and leaves the table standing for the new map. */
  lemma SqlStepRefines(t: Table, es: Entries, op: Op)
    requires Represents(t, es) && ValidOp(op)
    ensures SqlStep(t, op).1 == Some(Result(es, op))
    ensures Represents(SqlStep(t, op).0, Perform(es, op))
  {
    match op
    case ClearNamespace(n) =>
      NamespaceTextSome(n);
      TouchedRepresents(t, es, op, NamespaceText(n));
      UpdateRepresents(t, es, op, NamespaceText(n));
    case ClearAll =>
      TouchedRepresents(t, es, op, None);
      UpdateRepresents(t, es, op, None);
    case _ =>
      var k := op.key;
      ValidHasRow(k);
      EntryRepresented(t, es, k);
      UpsertRepresents(t, es, k, EntryOf(Perform(es, op), k));
  }

  /** The table's byte-ordered answer is the map's code-point-ordered one. */
  lemma RowListing(t: Table, es: Entries, n: Namespace, names: seq<Text>)
    requires Represents(t, es) && NamespaceText(n).Some? && ListsRows(t, NamespaceText(n).value, names)
    ensures ListsActive(es, n, names)
  {
    ByteOrderIsCodePointOrder(names);
    forall x ensures x in names <==> EntryOf(es, CacheKey(n, x)).active {
      var k := CacheKey(n, x);
      if NoSurrogates(x) {
        EntryRepresented(t, es, k);
      } else {
        assert k !in es;
        NoRow(t, es, NamespaceText(n).value, x);
      }
    }
  }

  lemma NoRow(t: Table, es: Entries, namespace: Text, x: Text)
    requires Represents(t, es) && !NoSurrogates(x)
    ensures RowKey(namespace, x) !in t
  {
    forall r | r in t ensures NoSurrogates(r.name) {
      var k :| k in es && RowOf(k) == Some(r);
    }
  }
}
