/** The active-key index kept as one canonical JSON file, and the round trip between file and map. */
module FilesystemIndex {
  import opened Text
  import opened Json
  import opened JsonParser
  import opened Records
  import opened ExecutionActions
  import opened ActiveKeyIndex
  import JsonIdentity
  import Sorting

  datatype Item = Item(key: CacheKey, entry: Entry)

  // ---------- the order of entries in a file ----------

  predicate NamespaceLess(a: Namespace, b: Namespace) {
    b != [] && (a == [] || Less(a[0], b[0]) || (a[0] == b[0] && NamespaceLess(a[1..], b[1..])))
  }

  /** Tuple order: keys are unique, so the entries themselves never decide. */
  predicate ItemLess(a: Item, b: Item) {
    || NamespaceLess(a.key.namespace, b.key.namespace)
    || (a.key.namespace == b.key.namespace && Less(a.key.name, b.key.name))
  }

  lemma {:induction false} NamespaceIrreflexive(a: Namespace)
    ensures !NamespaceLess(a, a)
  {
    if a != [] {
      LessIrreflexive(a[0]);
      NamespaceIrreflexive(a[1..]);
    }
  }

  lemma {:induction false} NamespaceTransitive(a: Namespace, b: Namespace, c: Namespace)
    requires NamespaceLess(a, b) && NamespaceLess(b, c)
    ensures NamespaceLess(a, c)
  {
    if a != [] {
      if Less(a[0], b[0]) && Less(b[0], c[0]) {
        LessTransitive(a[0], b[0], c[0]);
      } else if a[0] == b[0] && b[0] == c[0] && !Less(a[0], c[0]) {
        NamespaceTransitive(a[1..], b[1..], c[1..]);
      }
    }
  }

  lemma {:induction false} NamespaceTotal(a: Namespace, b: Namespace)
    ensures NamespaceLess(a, b) || a == b || NamespaceLess(b, a)
  {
    if a != [] && b != [] {
      LessTotal(a[0], b[0]);
      NamespaceTotal(a[1..], b[1..]);
      assert a == [a[0]] + a[1..] && b == [b[0]] + b[1..];
    }
  }

  lemma ItemLessIsStrict()
    ensures Sorting.StrictOrder(ItemLess)
  {
    forall x ensures !ItemLess(x, x) {
      NamespaceIrreflexive(x.key.namespace);
      LessIrreflexive(x.key.name);
    }
    forall x, y, z | ItemLess(x, y) && ItemLess(y, z) ensures ItemLess(x, z) {
      if NamespaceLess(x.key.namespace, y.key.namespace) && NamespaceLess(y.key.namespace, z.key.namespace) {
        NamespaceTransitive(x.key.namespace, y.key.namespace, z.key.namespace);
      } else if x.key.namespace == y.key.namespace == z.key.namespace {
        LessTransitive(x.key.name, y.key.name, z.key.name);
      }
    }
  }

  /** `xs` holds exactly the entries of `es`, each once. */
  ghost predicate Lists(xs: seq<Item>, es: Entries) {
    && (forall i, j | 0 <= i < j < |xs| :: xs[i].key != xs[j].key)
    && (forall x | x in xs :: x.key in es && es[x.key] == x.entry)
    && (forall k | k in es :: Item(k, es[k]) in xs)
  }

  lemma SortedLists(xs: seq<Item>, es: Entries)
    requires Lists(xs, es)
    ensures Lists(Sorting.Sort(xs, ItemLess), es) && Sorting.Ascending(Sorting.Sort(xs, ItemLess), ItemLess)
  {
    ItemLessIsStrict();
    forall i, j | 0 <= i < |xs| && 0 <= j < |xs| && i != j ensures ItemLess(xs[i], xs[j]) || ItemLess(xs[j], xs[i]) {
      NamespaceTotal(xs[i].key.namespace, xs[j].key.namespace);
      LessTotal(xs[i].key.name, xs[j].key.name);
      assert xs[i].key != xs[j].key;
    }
    Sorting.SortAscending(xs, ItemLess);
    Sorting.SortElements(xs, ItemLess);
    var r := Sorting.Sort(xs, ItemLess);
    forall i, j | 0 <= i < j < |r| ensures r[i].key != r[j].key {
      assert ItemLess(r[i], r[j]);
      NamespaceIrreflexive(r[i].key.namespace);
      LessIrreflexive(r[i].key.name);
    }
  }

  lemma SortedListUnique(xs: seq<Item>, ys: seq<Item>, es: Entries)
    requires Lists(xs, es) && Lists(ys, es) && Sorting.Ascending(xs, ItemLess) && Sorting.Ascending(ys, ItemLess)
    ensures xs == ys
  {
    ItemLessIsStrict();
    Sorting.AscendingUnique(xs, ys, ItemLess);
  }

  /** The entries in some order. */
  ghost function Items(es: Entries): (xs: seq<Item>)
    ensures Lists(xs, es)
    decreases |es|
  {
    if es == map[] then []
    else
      var k :| k in es;
      ListsOneMore(Items(es - {k}), es - {k}, es, k);
      [Item(k, es[k])] + Items(es - {k})
  }

  lemma ListsOneMore(xs: seq<Item>, rest: Entries, es: Entries, k: CacheKey)
    requires k in es && rest == es - {k} && Lists(xs, rest)
    ensures Lists([Item(k, es[k])] + xs, es)
  {
    var x := Item(k, es[k]);
    var all := [x] + xs;
    assert forall y :: y in all <==> y == x || y in xs;
    forall i, j | 0 <= i < j < |all| ensures all[i].key != all[j].key {
      assert all[j] in xs;
      assert i > 0 ==> all[i] == xs[i - 1];
      assert all[j] == xs[j - 1];
    }
    forall key | key in es ensures Item(key, es[key]) in all {
      if key != k {
        assert key in rest && rest[key] == es[key];
      }
    }
  }

  /** `sorted(entries.items())` */
  ghost function SortedItems(es: Entries): (xs: seq<Item>)
    ensures Lists(xs, es) && Sorting.Ascending(xs, ItemLess)
  {
    SortedLists(Items(es), es);
    Sorting.Sort(Items(es), ItemLess)
  }

  // ---------- writing ----------

  function ItemFields(i: Item): seq<Member> {
    [Field("namespace", TextsJson(i.key.namespace)), Field("key", Str(i.key.name)),
     Field("generation", Int(i.entry.generation)), Field("active", Bool(i.entry.active))]
  }

  function PublicationJson(p: Option<Text>): Json {
    if p.Some? then Str(p.value) else Null
  }

  /** Version 1 files have no publication ids. */
  function ItemJson(i: Item, v2: bool): Json {
    Obj(ItemFields(i) + if v2 then [Field("publication_id", PublicationJson(i.entry.publication))] else [])
  }

  function IndexJson(xs: seq<Item>, v2: bool): Json {
    Obj([Field("version", Int(if v2 then 2 else 1)),
         Field("entries", Arr(seq(|xs|, i requires 0 <= i < |xs| => ItemJson(xs[i], v2))))])
  }

  /** The bytes `_write` puts in the file; `None` where canonicalization raises. */
  ghost function Written(es: Entries): Option<Bytes> {
    CanonicalJson(IndexJson(SortedItems(es), true))
  }

  // ---------- reading ----------

  /** A member by name; the last one counts, as in a Python dictionary. */
  function Lookup(ms: seq<Member>, name: string): Option<Json> {
    if ms == [] then None
    else if ms[|ms| - 1].key == Name(Ascii(name)) then Some(ms[|ms| - 1].value)
    else Lookup(ms[..|ms| - 1], name)
  }

  function Lookups(ms: seq<Member>, names: seq<string>): (r: Option<seq<Json>>)
    ensures r.Some? ==> |r.value| == |names|
  {
    if names == [] then Some([])
    else
      var first, rest := Lookup(ms, names[0]), Lookups(ms, names[1..]);
      if first.None? || rest.None? then None else Some([first.value] + rest.value)
  }

  /** The values under the names, when the keys are exactly these. */
  function Record(ms: seq<Member>, names: seq<string>): (r: Option<seq<Json>>)
    ensures r.Some? ==> |r.value| == |names|
  {
    if exists i | 0 <= i < |ms| :: forall k | 0 <= k < |names| :: ms[i].key != Name(Ascii(names[k])) then None
    else Lookups(ms, names)
  }

  predicate IsPublicationId(t: Text) {
    |t| == 32 && forall i | 0 <= i < |t| :: 48 <= t[i] < 58 || 97 <= t[i] < 103
  }

  const V1_NAMES: seq<string> := ["namespace", "key", "generation", "active"]
  const V2_NAMES: seq<string> := ["namespace", "key", "generation", "active", "publication_id"]

  predicate ValidPart(j: Json) {
    j.Str? && j.t != []
  }

  predicate ValidPublication(j: Json) {
    j.Null? || (j.Str? && IsPublicationId(j.t))
  }

  /** `v` holds the namespace, the key, the generation, whether active, and the publication id. */
  function ItemOf(v: seq<Json>): Option<Item>
    requires |v| == 5
  {
    if !v[0].Arr? || (exists i | 0 <= i < |v[0].items| :: !ValidPart(v[0].items[i])) || !ValidPart(v[1]) then None
    else if !v[2].Int? || v[2].i < 0 || !v[3].Bool? || !ValidPublication(v[4]) then None
    else
      var namespace := seq(|v[0].items|, i requires 0 <= i < |v[0].items| => v[0].items[i].t);
      Some(Item(CacheKey(namespace, v[1].t), Entry(v[2].i, v[3].b, if v[4].Str? then Some(v[4].t) else None)))
  }

  function ReadItem(j: Json, v2: bool): Option<Item> {
    if !j.Obj? then None
    else
      var values := Record(j.members, if v2 then V2_NAMES else V1_NAMES);
      if values.None? then None else ItemOf(values.value + if v2 then [] else [Null])
  }

  /** The first `n` entries of the list; a key that occurs twice is an error. */
  function ReadItems(items: seq<Json>, n: nat, v2: bool): Option<Entries>
    requires n <= |items|
  {
    if n == 0 then Some(map[])
    else
      match ReadItems(items, n - 1, v2)
      case None => None
      case Some(es) =>
        var item := ReadItem(items[n - 1], v2);
        if item.None? || item.value.key in es then None else Some(es[item.value.key := item.value.entry])
  }

  /** In Python `True == 1`, so a version of true reads as version 1. */
  predicate IsVersion1(j: Json) {
    j == Int(1) || j == Bool(true)
  }

  function ReadIndex(j: Json): Option<Entries> {
    if !j.Obj? || Record(j.members, ["version", "entries"]).None? then None
    else
      var values := Record(j.members, ["version", "entries"]).value;
      var version, entries := values[0], values[1];
      if !(IsVersion1(version) || version == Int(2)) || !entries.Arr? then None
      else ReadItems(entries.items, |entries.items|, version == Int(2))
  }

  /** `_read`: a missing file is empty; `None` where it raises. */
  function ReadFile(file: Option<Bytes>): Option<Entries> {
    if file.None? then Some(map[])
    else
      match Parse(file.value)
      case None => None
      case Some(j) => ReadIndex(j)
  }

  // ---------- what reading makes of a written file ----------

  predicate ValidText(t: Text) {
    t != [] && NoSurrogates(t)
  }

  predicate ValidKey(k: CacheKey) {
    ValidText(k.name) && forall i | 0 <= i < |k.namespace| :: ValidText(k.namespace[i])
  }

  predicate ValidEntry(e: Entry) {
    e.generation <= MAX_SAFE_INTEGER && (e.publication.Some? ==> IsPublicationId(e.publication.value))
  }

  /** Every entry could have been made by operations on encodable keys. */
  ghost predicate Storable(es: Entries) {
    forall k | k in es :: ValidKey(k) && ValidEntry(es[k])
  }

  lemma {:induction false} LookupIn(ms: seq<Member>, i: nat, name: string)
    requires DistinctKeys(ms) && i < |ms| && ms[i].key == Name(Ascii(name))
    ensures Lookup(ms, name) == Some(ms[i].value)
    decreases |ms|
  {
    if i < |ms| - 1 {
      assert ms[|ms| - 1].key != ms[i].key;
      LookupIn(ms[..|ms| - 1], i, name);
    }
  }

  lemma {:induction false} LookupsIn(r: seq<Member>, ms: seq<Member>, names: seq<string>)
    requires DistinctKeys(r) && |ms| == |names| && forall i | 0 <= i < |ms| :: ms[i] in r
    requires forall i | 0 <= i < |ms| :: ms[i].key == Name(Ascii(names[i]))
    ensures Lookups(r, names).Some? && forall i | 0 <= i < |ms| :: Lookups(r, names).value[i] == ms[i].value
    decreases |names|
  {
    if names != [] {
      var k :| 0 <= k < |r| && r[k] == ms[0];
      LookupIn(r, k, names[0]);
      LookupsIn(r, ms[1..], names[1..]);
    }
  }

  /** A record holds its values whatever order its members stand in. */
  lemma RecordOf(r: seq<Member>, ms: seq<Member>, names: seq<string>)
    requires DistinctKeys(r) && |ms| == |names| && forall m :: m in r <==> m in ms
    requires forall i | 0 <= i < |ms| :: ms[i].key == Name(Ascii(names[i]))
    ensures Record(r, names).Some? && forall i | 0 <= i < |ms| :: Record(r, names).value[i] == ms[i].value
  {
    LookupsIn(r, ms, names);
    forall i | 0 <= i < |r| ensures exists k | 0 <= k < |names| :: r[i].key == Name(Ascii(names[k])) {
      assert r[i] in ms;
    }
  }

  lemma SortedMembers(ms: seq<Member>)
    requires DistinctKeys(ms) && forall i | 0 <= i < |ms| :: ms[i].key.Name?
    ensures DistinctKeys(Sorted(Obj(ms)).members)
    ensures forall m :: m in Sorted(Obj(ms)).members <==> m in SortedValues(ms)
  {
    var vs := SortedValues(ms);
    JsonIdentity.KeyLessIsStrict();
    JsonIdentity.DistinctKeysCompare(vs);
    Sorting.SortElements(vs, KeyLess);
    Sorting.SortAscending(vs, KeyLess);
    var r := Sorting.Sort(vs, KeyLess);
    forall i, k | 0 <= i < k < |r| ensures r[i].key != r[k].key {
      assert KeyLess(r[i], r[k]);
      LessIrreflexive(r[i].key.text);
    }
  }

  lemma SortedRecord(ms: seq<Member>, names: seq<string>)
    requires DistinctKeys(ms) && |ms| == |names|
    requires forall i | 0 <= i < |ms| :: ms[i].key == Name(Ascii(names[i]))
    ensures var r := Record(Sorted(Obj(ms)).members, names);
      r.Some? && forall i | 0 <= i < |ms| :: r.value[i] == Sorted(ms[i].value)
  {
    SortedMembers(ms);
    RecordOf(Sorted(Obj(ms)).members, SortedValues(ms), names);
  }

  function ItemMembers(i: Item, v2: bool): (ms: seq<Member>)
    ensures ItemJson(i, v2) == Obj(ms)
  {
    ItemJson(i, v2).members
  }

  lemma ItemKeys(i: Item, v2: bool)
    ensures DistinctKeys(ItemMembers(i, v2))
    ensures var names := if v2 then V2_NAMES else V1_NAMES;
      |ItemMembers(i, v2)| == |names|
      && forall k | 0 <= k < |names| :: ItemMembers(i, v2)[k].key == Name(Ascii(names[k]))
  {
    var ms := ItemMembers(i, v2);
    assert |ms[0].key.text| == 9 && |ms[1].key.text| == 3 && |ms[2].key.text| == 10 && |ms[3].key.text| == 6;
    assert v2 ==> |ms[4].key.text| == 14;
  }

  lemma SortedTexts(ts: seq<Text>)
    ensures Sorted(TextsJson(ts)) == TextsJson(ts)
  {
  }

  lemma ItemReads(i: Item, v2: bool)
    requires ValidKey(i.key) && ValidEntry(i.entry) && (v2 || i.entry.publication.None?)
    ensures ReadItem(Sorted(ItemJson(i, v2)), v2) == Some(i)
  {
    var ms, names := ItemMembers(i, v2), if v2 then V2_NAMES else V1_NAMES;
    ItemKeys(i, v2);
    SortedRecord(ms, names);
    SortedTexts(i.key.namespace);
    var r := Record(Sorted(Obj(ms)).members, names).value;
    assert r[0] == TextsJson(i.key.namespace) && r[1] == Str(i.key.name);
    assert r[2] == Int(i.entry.generation) && r[3] == Bool(i.entry.active);
    assert v2 ==> r[4] == PublicationJson(i.entry.publication);
    ItemOfFields(i, r + if v2 then [] else [Null]);
  }

  lemma ItemOfFields(i: Item, v: seq<Json>)
    requires ValidKey(i.key) && ValidEntry(i.entry)
    requires |v| == 5 && v[0] == TextsJson(i.key.namespace) && v[1] == Str(i.key.name)
    requires v[2] == Int(i.entry.generation) && v[3] == Bool(i.entry.active)
    requires v[4] == PublicationJson(i.entry.publication)
    ensures ItemOf(v) == Some(i)
  {
    assert seq(|v[0].items|, k requires 0 <= k < |v[0].items| => v[0].items[k].t) == i.key.namespace;
  }

  function SortedItemJsons(xs: seq<Item>, v2: bool): seq<Json> {
    seq(|xs|, i requires 0 <= i < |xs| => Sorted(ItemJson(xs[i], v2)))
  }

  ghost predicate DistinctItems(xs: seq<Item>) {
    forall i, j | 0 <= i < j < |xs| :: xs[i].key != xs[j].key
  }

  ghost predicate GoodItem(x: Item, v2: bool) {
    ValidKey(x.key) && ValidEntry(x.entry) && (v2 || x.entry.publication.None?)
  }

  ghost predicate GoodItems(xs: seq<Item>, v2: bool) {
    && DistinctItems(xs)
    && (forall i | 0 <= i < |xs| :: GoodItem(xs[i], v2))
  }

  function EntriesOf(xs: seq<Item>, n: nat): Entries
    requires n <= |xs|
  {
    if n == 0 then map[] else EntriesOf(xs, n - 1)[xs[n - 1].key := xs[n - 1].entry]
  }

  lemma {:induction false} EntriesOfKeys(xs: seq<Item>, n: nat, key: CacheKey)
    requires n <= |xs| && forall i | 0 <= i < n :: xs[i].key != key
    ensures key !in EntriesOf(xs, n)
  {
    if n > 0 {
      EntriesOfKeys(xs, n - 1, key);
    }
  }

  lemma {:induction false} EntriesOfAt(xs: seq<Item>, n: nat, i: nat)
    requires i < n <= |xs| && forall j | i < j < n :: xs[j].key != xs[i].key
    ensures xs[i].key in EntriesOf(xs, n) && EntriesOf(xs, n)[xs[i].key] == xs[i].entry
  {
    if i < n - 1 {
      assert xs[n - 1].key != xs[i].key;
      EntriesOfAt(xs, n - 1, i);
    }
  }

  lemma ListedEntries(xs: seq<Item>, es: Entries)
    requires Lists(xs, es)
    ensures EntriesOf(xs, |xs|) == es
  {
    forall i: nat | i < |xs|
      ensures xs[i].key in EntriesOf(xs, |xs|) && EntriesOf(xs, |xs|)[xs[i].key] == xs[i].entry
    {
      EntriesOfAt(xs, |xs|, i);
    }
    forall k | k in es ensures k in EntriesOf(xs, |xs|) && EntriesOf(xs, |xs|)[k] == es[k] {
      var i :| 0 <= i < |xs| && xs[i] == Item(k, es[k]);
    }
    forall k | k !in es ensures k !in EntriesOf(xs, |xs|) {
      assert forall i | 0 <= i < |xs| :: xs[i] in xs;
      EntriesOfKeys(xs, |xs|, k);
    }
  }

  lemma ReadOneMore(items: seq<Json>, n: nat, v2: bool)
    requires 0 < n <= |items| && ReadItems(items, n - 1, v2).Some? && ReadItem(items[n - 1], v2).Some?
    requires ReadItem(items[n - 1], v2).value.key !in ReadItems(items, n - 1, v2).value
    ensures ReadItems(items, n, v2).Some?
    ensures var x := ReadItem(items[n - 1], v2).value;
      ReadItems(items, n, v2).value == ReadItems(items, n - 1, v2).value[x.key := x.entry]
  {
  }

  lemma ItemReadsAt(xs: seq<Item>, items: seq<Json>, i: nat, v2: bool)
    requires i < |xs| && GoodItem(xs[i], v2) && items == SortedItemJsons(xs, v2)
    ensures |items| == |xs| && ReadItem(items[i], v2) == Some(xs[i])
  {
    ItemReads(xs[i], v2);
  }

  /** The first `n` values read as the first `n` items. */
  ghost predicate AllRead(items: seq<Json>, xs: seq<Item>, n: nat, v2: bool)
    requires n <= |items| && n <= |xs|
  {
    n == 0 || (AllRead(items, xs, n - 1, v2) && ReadItem(items[n - 1], v2) == Some(xs[n - 1]))
  }

  lemma {:induction false} AllReadUpTo(xs: seq<Item>, items: seq<Json>, n: nat, v2: bool)
    requires n <= |xs| == |items| && forall i | 0 <= i < |xs| :: ReadItem(items[i], v2) == Some(xs[i])
    ensures AllRead(items, xs, n, v2)
  {
    if n > 0 {
      AllReadUpTo(xs, items, n - 1, v2);
    }
  }

  lemma GoodItemsRead(xs: seq<Item>, items: seq<Json>, v2: bool)
    requires GoodItems(xs, v2) && items == SortedItemJsons(xs, v2)
    ensures |items| == |xs| && AllRead(items, xs, |xs|, v2)
  {
    forall i | 0 <= i < |xs| ensures ReadItem(items[i], v2) == Some(xs[i]) {
      ItemReadsAt(xs, items, i, v2);
    }
    AllReadUpTo(xs, items, |xs|, v2);
  }

  lemma {:induction false} ItemsRead(xs: seq<Item>, items: seq<Json>, n: nat, v2: bool)
    requires n <= |items| && n <= |xs| && AllRead(items, xs, n, v2) && DistinctItems(xs)
    ensures ReadItems(items, n, v2).Some? && ReadItems(items, n, v2).value == EntriesOf(xs, n)
  {
    if n > 0 {
      ItemsRead(xs, items, n - 1, v2);
      EntriesOfKeys(xs, n - 1, xs[n - 1].key);
      ReadOneMore(items, n, v2);
    }
  }

  lemma GoodListing(xs: seq<Item>, es: Entries, v2: bool)
    requires Lists(xs, es) && Storable(es) && (v2 || forall k | k in es :: es[k].publication.None?)
    ensures GoodItems(xs, v2)
  {
    assert forall i | 0 <= i < |xs| :: xs[i] in xs;
  }

  lemma IndexRecord(xs: seq<Item>, v2: bool)
    ensures Sorted(IndexJson(xs, v2)).Obj?
    ensures Record(Sorted(IndexJson(xs, v2)).members, ["version", "entries"]) ==
            Some([Int(if v2 then 2 else 1), Arr(SortedItemJsons(xs, v2))])
  {
    var ms := IndexJson(xs, v2).members;
    assert ms[0].key.text[0] == 'v' as int && ms[1].key.text[0] == 'e' as int;
    assert ms[0].key == Name(Ascii("version")) && ms[1].key == Name(Ascii("entries"));
    SortedRecord(ms, ["version", "entries"]);
    assert Sorted(ms[0].value) == Int(if v2 then 2 else 1);
    assert Sorted(ms[1].value) == Arr(SortedItemJsons(xs, v2));
    var r := Record(Sorted(IndexJson(xs, v2)).members, ["version", "entries"]).value;
    assert r == [r[0], r[1]];
  }

  lemma ReadsEntries(j: Json, items: seq<Json>, v2: bool)
    requires j.Obj? && Record(j.members, ["version", "entries"]) == Some([Int(if v2 then 2 else 1), Arr(items)])
    ensures ReadIndex(j) == ReadItems(items, |items|, v2)
  {
    var values := Record(j.members, ["version", "entries"]).value;
    assert values[0] == Int(if v2 then 2 else 1) && values[1] == Arr(items);
    var second := values[0] == Int(2);
    assert second == v2;
    assert ReadIndex(j) == ReadItems(values[1].items, |values[1].items|, second);
  }

  lemma IndexReads(xs: seq<Item>, es: Entries, v2: bool)
    requires Lists(xs, es) && Storable(es) && (v2 || forall k | k in es :: es[k].publication.None?)
    ensures ReadIndex(Sorted(IndexJson(xs, v2))) == Some(es)
  {
    var items := SortedItemJsons(xs, v2);
    IndexRecord(xs, v2);
    GoodListing(xs, es, v2);
    GoodItemsRead(xs, items, v2);
    ItemsRead(xs, items, |xs|, v2);
    ListedEntries(xs, es);
    ReadsEntries(Sorted(IndexJson(xs, v2)), items, v2);
  }

  // ---------- which maps can be written ----------

  predicate EncodableItem(i: Item) {
    && (forall k | 0 <= k < |i.key.namespace| :: NoSurrogates(i.key.namespace[k])) && NoSurrogates(i.key.name)
    && i.entry.generation <= MAX_SAFE_INTEGER
    && (i.entry.publication.Some? ==> NoSurrogates(i.entry.publication.value))
  }

  lemma FieldsAccepted(i: Item)
    ensures (forall k | 0 <= k < 4 :: AcceptedMember(ItemFields(i)[k])) <==>
            EncodableItem(Item(i.key, i.entry.(publication := None)))
  {
    var ms := ItemFields(i);
    AsciiText("namespace");
    AsciiText("key");
    AsciiText("generation");
    AsciiText("active");
    TextsAccepted(i.key.namespace);
    assert AcceptedMember(ms[0]) <==> forall k | 0 <= k < |i.key.namespace| :: NoSurrogates(i.key.namespace[k]);
    assert AcceptedMember(ms[1]) <==> NoSurrogates(i.key.name);
    assert AcceptedMember(ms[2]) <==> i.entry.generation <= MAX_SAFE_INTEGER;
    assert AcceptedMember(ms[3]);
  }

  lemma ItemAccepted(i: Item, v2: bool)
    requires v2 || i.entry.publication.None?
    ensures Accepted(ItemJson(i, v2)) <==> EncodableItem(i)
  {
    var ms := ItemMembers(i, v2);
    FieldsAccepted(i);
    AsciiText("publication_id");
    assert Accepted(Obj(ms)) <==> forall k | 0 <= k < |ms| :: AcceptedMember(ms[k]);
    assert forall k | 0 <= k < 4 :: ms[k] == ItemFields(i)[k];
    assert v2 ==> ms[4].value == PublicationJson(i.entry.publication);
  }

  lemma TextsAccepted(ts: seq<Text>)
    ensures Accepted(TextsJson(ts)) <==> forall i | 0 <= i < |ts| :: NoSurrogates(ts[i])
  {
    assert forall i | 0 <= i < |ts| :: TextsJson(ts).items[i] == Str(ts[i]);
  }

  lemma IndexAccepted(xs: seq<Item>, v2: bool)
    requires forall i | 0 <= i < |xs| :: v2 || xs[i].entry.publication.None?
    ensures Accepted(IndexJson(xs, v2)) <==> forall i | 0 <= i < |xs| :: EncodableItem(xs[i])
  {
    var ms := IndexJson(xs, v2).members;
    AsciiText("version");
    AsciiText("entries");
    forall i | 0 <= i < |xs| ensures Accepted(ms[1].value.items[i]) <==> EncodableItem(xs[i]) {
      ItemAccepted(xs[i], v2);
    }
    assert ms[0].value == Int(if v2 then 2 else 1);
    assert Accepted(ms[1].value) <==> forall i | 0 <= i < |xs| :: EncodableItem(xs[i]);
  }

  /** Writing succeeds exactly when every text is encodable and no generation exceeds 2^53 - 1. */
  lemma WrittenExactlyWhenEncodable(es: Entries)
    ensures Written(es).Some? <==> forall k | k in es :: EncodableItem(Item(k, es[k]))
  {
    var xs := SortedItems(es);
    IndexAccepted(xs, true);
    assert forall i | 0 <= i < |xs| :: xs[i] in xs;
    assert forall k | k in es :: Item(k, es[k]) in xs;
  }

  // ---------- the main results ----------

  lemma StorableIsEncodable(es: Entries)
    requires Storable(es)
    ensures forall k | k in es :: EncodableItem(Item(k, es[k]))
  {
  }

  /** Reading inverts writing, for every map with generations up to 2^53 - 1. */
  lemma FileRoundTrip(es: Entries)
    requires Storable(es)
    ensures Written(es).Some? && ReadFile(Written(es)) == Some(es)
  {
    var xs := SortedItems(es);
    StorableIsEncodable(es);
    WrittenExactlyWhenEncodable(es);
    JsonIdentity.ParseCanonical(IndexJson(xs, true));
    IndexReads(xs, es, true);
  }

  /** A version 1 file, in any entry order, reads as the same map without publication ids. */
  lemma Version1Reads(xs: seq<Item>, es: Entries)
    requires Lists(xs, es) && Storable(es) && forall k | k in es :: es[k].publication.None?
    ensures CanonicalJson(IndexJson(xs, false)).Some?
    ensures ReadFile(CanonicalJson(IndexJson(xs, false))) == Some(es)
  {
    forall i | 0 <= i < |xs| ensures EncodableItem(xs[i]) && xs[i].entry.publication.None? {
      assert xs[i] in xs;
    }
    IndexAccepted(xs, false);
    JsonIdentity.ParseCanonical(IndexJson(xs, false));
    IndexReads(xs, es, false);
  }

  // ---------- the file, said of its parts ----------

  /** Tuples compare at the first place where they part, or the shorter is less. */
  lemma {:induction false} NamespaceLessMeans(a: Namespace, b: Namespace, i: nat)
    requires i <= |a| && i <= |b| && a[..i] == b[..i]
    requires i < |a| && i < |b| ==> a[i] != b[i]
    ensures NamespaceLess(a, b) <==> i < |b| && (i < |a| ==> Less(a[i], b[i]))
  {
    if i > 0 {
      assert a[0] == a[..i][0] && b[0] == b[..i][0];
      assert a[1..][..i - 1] == a[..i][1..] && b[1..][..i - 1] == b[..i][1..];
      LessIrreflexive(a[0]);
      NamespaceLessMeans(a[1..], b[1..], i - 1);
    }
  }

  /** A written file lists the entries by namespace and then by name, ascending. */
  lemma WrittenInOrder(es: Entries, i: nat, k: nat)
    requires i < k < |SortedItems(es)|
    ensures var a, b := SortedItems(es)[i].key, SortedItems(es)[k].key;
      (a.namespace == b.namespace && Less(a.name, b.name)) || NamespaceLess(a.namespace, b.namespace)
  {
    assert ItemLess(SortedItems(es)[i], SortedItems(es)[k]);
  }

  /** 32 hexadecimal digits in lower case. */
  lemma PublicationIdMeans(t: Text)
    ensures IsPublicationId(t) <==>
            |t| == 32 && forall c | c in t :: '0' as int <= c <= '9' as int || 'a' as int <= c <= 'f' as int
  {
    assert forall i | 0 <= i < |t| :: t[i] in t;
  }

  /** The values an entry is read from: a list of texts, a text, a number, a truth value, a publication id or null. */
  predicate Spells(v: seq<Json>, x: Item)
    requires |v| == 5
  {
    && v[0].Arr? && |v[0].items| == |x.key.namespace|
    && (forall i | 0 <= i < |v[0].items| :: v[0].items[i] == Str(x.key.namespace[i]) && x.key.namespace[i] != [])
    && v[1] == Str(x.key.name) && x.key.name != []
    && v[2] == Int(x.entry.generation) && v[3] == Bool(x.entry.active)
    && v[4] == (if x.entry.publication.Some? then Str(x.entry.publication.value) else Null)
    && (x.entry.publication.Some? ==> IsPublicationId(x.entry.publication.value))
  }

  lemma ItemMeans(v: seq<Json>, x: Item)
    requires |v| == 5
    ensures ItemOf(v) == Some(x) <==> Spells(v, x)
  {
    if Spells(v, x) {
      assert forall i | 0 <= i < |v[0].items| :: ValidPart(v[0].items[i]);
      assert ItemOf(v).Some?;
      assert ItemOf(v).value.key.namespace == x.key.namespace;
    }
  }

  /** Every entry of the list, as it reads by itself. */
  function Reads(items: seq<Json>, v2: bool): (rs: seq<Option<Item>>)
    ensures |rs| == |items| && forall i | 0 <= i < |rs| :: rs[i] == ReadItem(items[i], v2)
  {
    seq(|items|, i requires 0 <= i < |items| => ReadItem(items[i], v2))
  }

  /** All of them read, under distinct keys. */
  ghost predicate Gatherable(rs: seq<Option<Item>>) {
    && (forall i | 0 <= i < |rs| :: rs[i].Some?)
    && (forall i, k | 0 <= i < k < |rs| :: rs[i].value.key != rs[k].value.key)
  }

  /** `es` has these entries and no others. */
  ghost predicate Gathers(rs: seq<Option<Item>>, es: Entries)
    requires forall i | 0 <= i < |rs| :: rs[i].Some?
  {
    && (forall i | 0 <= i < |rs| :: rs[i].value.key in es && es[rs[i].value.key] == rs[i].value.entry)
    && (forall key | key in es :: exists i :: 0 <= i < |rs| && rs[i].value.key == key)
  }

  lemma GatherOneMore(rs: seq<Option<Item>>, es: Entries, x: Item)
    requires Gatherable(rs) && Gathers(rs, es)
    ensures x.key in es <==> !Gatherable(rs + [Some(x)])
    ensures x.key !in es ==> Gathers(rs + [Some(x)], es[x.key := x.entry])
  {
    var all := rs + [Some(x)];
    assert forall i | 0 <= i < |rs| :: all[i] == rs[i];
    assert all[|rs|] == Some(x);
    if x.key in es {
      var i :| 0 <= i < |rs| && rs[i].value.key == x.key;
      assert all[i].value.key == all[|rs|].value.key;
    }
  }

  lemma GatherablePrefix(rs: seq<Option<Item>>, x: Option<Item>)
    requires Gatherable(rs + [x])
    ensures Gatherable(rs) && x.Some?
  {
    var all := rs + [x];
    assert forall i | 0 <= i < |rs| :: all[i] == rs[i];
    assert all[|rs|] == x;
  }

  /** `es` is what reading these entries gives. */
  ghost predicate IsGathered(rs: seq<Option<Item>>, es: Option<Entries>) {
    (es.Some? <==> Gatherable(rs)) && (es.Some? ==> Gathers(rs, es.value))
  }

  function Added(es: Option<Entries>, x: Option<Item>): Option<Entries> {
    if es.None? || x.None? || x.value.key in es.value then None else Some(es.value[x.value.key := x.value.entry])
  }

  lemma GatheredOneMore(rs: seq<Option<Item>>, es: Option<Entries>, x: Option<Item>)
    requires IsGathered(rs, es)
    ensures IsGathered(rs + [x], Added(es, x))
  {
    if es.Some? && x.Some? {
      GatherOneMore(rs, es.value, x.value);
      if x.value.key !in es.value {
        assert Gatherable(rs + [Some(x.value)]);
      }
    }
    if Gatherable(rs + [x]) {
      GatherablePrefix(rs, x);
    }
  }

  lemma ReadsNext(items: seq<Json>, n: nat, v2: bool) returns (x: Option<Item>)
    requires n < |items|
    ensures Reads(items[..n + 1], v2) == Reads(items[..n], v2) + [x]
    ensures ReadItems(items, n + 1, v2) == Added(ReadItems(items, n, v2), x)
  {
    x := ReadItem(items[n], v2);
  }

  /** A list of entries is read exactly when every entry is, under distinct keys; the map has those and no others. */
  lemma {:induction false} ItemsMean(items: seq<Json>, n: nat, v2: bool)
    requires n <= |items|
    ensures IsGathered(Reads(items[..n], v2), ReadItems(items, n, v2))
  {
    if n > 0 {
      ItemsMean(items, n - 1, v2);
      var x := ReadsNext(items, n - 1, v2);
      GatheredOneMore(Reads(items[..n - 1], v2), ReadItems(items, n - 1, v2), x);
    }
  }
}
