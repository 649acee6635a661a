/** Canonical bytes as identity: equal bytes exactly for equal values, whatever the key insertion order. */
module JsonIdentity {
  import opened Text
  import opened Json
  import opened JsonParser
  import Sorting
  import Utf8

  /** The position of a key in a dictionary, or the dictionary's size when it is absent. */
  function Find(ms: seq<Member>, key: Key): (r: nat)
    ensures r <= |ms| && (r < |ms| ==> ms[r].key == key)
    ensures r == |ms| ==> forall i | 0 <= i < |ms| :: ms[i].key != key
  {
    if ms == [] || ms[0].key == key then 0 else 1 + Find(ms[1..], key)
  }

  /** Equality of values and their types: lists position by position, dictionaries key by key. */
  ghost predicate SameValue(a: Json, b: Json)
    decreases a
  {
    match (a, b)
    case (Arr(xs), Arr(ys)) => |xs| == |ys| && forall i | 0 <= i < |xs| :: SameValue(xs[i], ys[i])
    case (Obj(ms), Obj(ns)) =>
      && (forall k | 0 <= k < |ns| :: Find(ms, ns[k].key) < |ms|)
      && (forall i | 0 <= i < |ms| ::
            var k := Find(ns, ms[i].key);
            k < |ns| && SameValue(ms[i].value, ns[k].value))
    case _ => a == b
  }

  lemma {:induction false} CharsWithoutSurrogates(t: Text)
    requires NoSurrogates(t)
    ensures NoSurrogates(CharsText(t))
  {
    if t != [] {
      CharsWithoutSurrogates(t[1..]);
    }
  }

  lemma {:induction false} DecimalWithoutSurrogates(n: nat)
    ensures NoSurrogates(Decimal(n))
  {
    if n >= 10 {
      DecimalWithoutSurrogates(n / 10);
    }
  }

  lemma {:induction false} TextWithoutSurrogates(j: Json)
    requires Accepted(j)
    ensures NoSurrogates(ValueText(j))
    decreases j, 1, 0
  {
    match j
    case Int(i) => DecimalWithoutSurrogates(if i < 0 then -i else i);
    case Str(t) => CharsWithoutSurrogates(t);
    case Arr(items) => ItemsWithoutSurrogates(j, 0); assert items[0..] == items;
    case Obj(members) => MembersWithoutSurrogates(j, 0); assert members[0..] == members;
    case _ =>
  }

  lemma {:induction false} ItemsWithoutSurrogates(j: Json, k: nat)
    requires j.Arr? && k <= |j.items| && Accepted(j)
    ensures NoSurrogates(ItemsText(j.items[k..]))
    decreases j, 0, |j.items| - k
  {
    if k < |j.items| {
      TextWithoutSurrogates(j.items[k]);
      ItemsWithoutSurrogates(j, k + 1);
      assert j.items[k..][1..] == j.items[k + 1..];
    }
  }

  lemma {:induction false} MembersWithoutSurrogates(j: Json, k: nat)
    requires j.Obj? && k <= |j.members| && Accepted(j)
    ensures NoSurrogates(MembersText(j.members[k..]))
    decreases j, 0, |j.members| - k
  {
    if k < |j.members| {
      CharsWithoutSurrogates(j.members[k].key.text);
      TextWithoutSurrogates(j.members[k].value);
      MembersWithoutSurrogates(j, k + 1);
      assert j.members[k..][1..] == j.members[k + 1..];
    }
  }

  /** Reading canonical bytes gives the value back, its keys in sorted order. */
  lemma ParseCanonical(j: Json)
    requires Accepted(j)
    ensures CanonicalJson(j).Some? && Parse(CanonicalJson(j).value) == Some(Sorted(j))
  {
    SortedAccepted(j);
    var t := ValueText(Sorted(j));
    TextWithoutSurrogates(Sorted(j));
    Utf8.DecodeEncode(t);
    ParsePrinted(Sorted(j), []);
    assert t + [] == t;
  }

  lemma KeyLessIsStrict()
    ensures Sorting.StrictOrder(KeyLess)
  {
    forall x ensures !KeyLess(x, x) {
      if x.key.Name? {
        LessIrreflexive(x.key.text);
      }
    }
    forall x, y, z | KeyLess(x, y) && KeyLess(y, z) ensures KeyLess(x, z) {
      LessTransitive(x.key.text, y.key.text, z.key.text);
    }
  }

  /** Members with distinct string keys can be sorted. */
  lemma DistinctKeysCompare(ms: seq<Member>)
    requires forall i | 0 <= i < |ms| :: ms[i].key.Name?
    requires forall i, k | 0 <= i < k < |ms| :: ms[i].key != ms[k].key
    ensures Sorting.Comparable(ms, KeyLess)
  {
    forall i, k | 0 <= i < |ms| && 0 <= k < |ms| && i != k
      ensures KeyLess(ms[i], ms[k]) || KeyLess(ms[k], ms[i])
    {
      LessTotal(ms[i].key.text, ms[k].key.text);
      assert if i < k then ms[i].key != ms[k].key else ms[k].key != ms[i].key;
    }
  }

  lemma SameElementsSortAlike(xs: seq<Member>, ys: seq<Member>)
    requires forall i | 0 <= i < |xs| :: xs[i].key.Name? && xs[i] in ys
    requires forall k | 0 <= k < |ys| :: ys[k].key.Name? && ys[k] in xs
    requires forall i, k | 0 <= i < k < |xs| :: xs[i].key != xs[k].key
    requires forall i, k | 0 <= i < k < |ys| :: ys[i].key != ys[k].key
    ensures Sorting.Sort(xs, KeyLess) == Sorting.Sort(ys, KeyLess)
  {
    KeyLessIsStrict();
    DistinctKeysCompare(xs);
    DistinctKeysCompare(ys);
    Sorting.SortIgnoresOrder(xs, ys, KeyLess);
  }

  /** Equal values have the same sorted form: insertion order is forgotten. */
  lemma {:induction false} SameValueSorted(a: Json, b: Json)
    requires Accepted(a) && Accepted(b) && Dictionary(a) && Dictionary(b) && SameValue(a, b)
    ensures Sorted(a) == Sorted(b)
    decreases a
  {
    if a.Arr? && b.Arr? {
      forall i | 0 <= i < |a.items| ensures Sorted(a.items[i]) == Sorted(b.items[i]) {
        SameValueSorted(a.items[i], b.items[i]);
      }
      assert Sorted(a).items == Sorted(b).items;
    } else if a.Obj? && b.Obj? {
      var ms, ns := a.members, b.members;
      forall i | 0 <= i < |ms| ensures SortedMember(ms[i]) == SortedMember(ns[Find(ns, ms[i].key)]) {
        SameValueSorted(ms[i].value, ns[Find(ns, ms[i].key)].value);
      }
      MatchedMembersSortAlike(ms, ns);
    }
  }

  function SortedMember(m: Member): Member {
    Member(m.key, Sorted(m.value))
  }

  lemma MatchedMembersSortAlike(ms: seq<Member>, ns: seq<Member>)
    requires forall i | 0 <= i < |ms| :: ms[i].key.Name?
    requires forall k | 0 <= k < |ns| :: ns[k].key.Name? && Find(ms, ns[k].key) < |ms|
    requires forall i, k | 0 <= i < k < |ms| :: ms[i].key != ms[k].key
    requires forall i, k | 0 <= i < k < |ns| :: ns[i].key != ns[k].key
    requires forall i | 0 <= i < |ms| ::
               Find(ns, ms[i].key) < |ns| && SortedMember(ms[i]) == SortedMember(ns[Find(ns, ms[i].key)])
    ensures Sorting.Sort(SortedValues(ms), KeyLess) == Sorting.Sort(SortedValues(ns), KeyLess)
  {
    var xs, ys := SortedValues(ms), SortedValues(ns);
    forall i | 0 <= i < |xs| ensures xs[i] in ys {
      assert xs[i] == SortedMember(ms[i]) == ys[Find(ns, ms[i].key)];
    }
    forall k | 0 <= k < |ys| ensures ys[k] in xs {
      var i := Find(ms, ns[k].key);
      assert Find(ns, ms[i].key) == k;
      assert ys[k] == SortedMember(ms[i]) == xs[i];
    }
    SameElementsSortAlike(xs, ys);
  }

  /** Values with the same sorted form are equal as Python values. */
  lemma {:induction false} SortedSameValue(a: Json, b: Json)
    requires Accepted(a) && Accepted(b) && Dictionary(a) && Dictionary(b) && Sorted(a) == Sorted(b)
    ensures SameValue(a, b)
    decreases a
  {
    if a.Arr? {
      forall i | 0 <= i < |a.items| ensures SameValue(a.items[i], b.items[i]) {
        assert Sorted(a).items[i] == Sorted(b).items[i];
        SortedSameValue(a.items[i], b.items[i]);
      }
    } else if a.Obj? {
      var ms, ns := a.members, b.members;
      var xs, ys := SortedValues(ms), SortedValues(ns);
      SameElementsWhenSorted(xs, ys);
      forall k: nat | k < |ns| ensures Find(ms, ns[k].key) < |ms| {
        var _ := Counterpart(ns, ms, k);
      }
      forall i: nat | i < |ms|
        ensures Find(ns, ms[i].key) < |ns| && SameValue(ms[i].value, ns[Find(ns, ms[i].key)].value)
      {
        var k := Counterpart(ms, ns, i);
        SortedSameValue(ms[i].value, ns[k].value);
      }
    }
  }

  lemma SameElementsWhenSorted(xs: seq<Member>, ys: seq<Member>)
    requires Sorting.Sort(xs, KeyLess) == Sorting.Sort(ys, KeyLess)
    ensures forall x :: x in xs <==> x in ys
  {
    Sorting.SortElements(xs, KeyLess);
    Sorting.SortElements(ys, KeyLess);
  }

  /** The member of `ns` with the key, and the sorted value, of member `i` of `ms`. */
  lemma Counterpart(ms: seq<Member>, ns: seq<Member>, i: nat) returns (k: nat)
    requires i < |ms| && forall x :: x in SortedValues(ms) <==> x in SortedValues(ns)
    requires forall j, k | 0 <= j < k < |ns| :: ns[j].key != ns[k].key
    ensures k < |ns| && Find(ns, ms[i].key) == k && Sorted(ns[k].value) == Sorted(ms[i].value)
  {
    var xs, ys := SortedValues(ms), SortedValues(ns);
    assert xs[i] in ys;
    k :| 0 <= k < |ys| && ys[k] == xs[i];
  }

  /** The bytes of a value identify it: equal bytes exactly for values equal up to key insertion order. */
  lemma CanonicalBytesIdentify(a: Json, b: Json)
    requires Accepted(a) && Accepted(b) && Dictionary(a) && Dictionary(b)
    ensures CanonicalJson(a) == CanonicalJson(b) <==> SameValue(a, b)
  {
    if CanonicalJson(a) == CanonicalJson(b) {
      ParseCanonical(a);
      ParseCanonical(b);
      SortedSameValue(a, b);
    }
    if SameValue(a, b) {
      SameValueSorted(a, b);
    }
  }

  /** Canonicalizing what was read from canonical bytes gives those bytes again. */
  lemma CanonicalIsStable(j: Json)
    requires Accepted(j) && Dictionary(j)
    ensures CanonicalJson(Sorted(j)) == CanonicalJson(j)
  {
    SortedAccepted(j);
    SortedTwice(j);
  }

  lemma {:induction false} SortedTwice(j: Json)
    requires Accepted(j) && Dictionary(j)
    ensures Sorted(Sorted(j)) == Sorted(j)
  {
    match j
    case Arr(items) =>
      forall i | 0 <= i < |items| ensures Sorted(Sorted(items[i])) == Sorted(items[i]) {
        SortedTwice(items[i]);
      }
    case Obj(members) =>
      var xs := SortedValues(members);
      KeyLessIsStrict();
      DistinctKeysCompare(xs);
      Sorting.SortAscending(xs, KeyLess);
      Sorting.SortElements(xs, KeyLess);
      var sorted := Sorting.Sort(xs, KeyLess);
      forall i | 0 <= i < |sorted| ensures SortedValues(sorted)[i] == sorted[i] {
        assert sorted[i] in xs;
        var k :| 0 <= k < |members| && xs[k] == sorted[i];
        SortedTwice(members[k].value);
      }
      assert SortedValues(sorted) == sorted;
      Sorting.SortOfAscending(sorted, KeyLess);
    case _ =>
  }
}
