/** Insertion sort by a strict order, and the one ascending arrangement of distinct elements. */
module Sorting {

  ghost predicate StrictOrder<T(!new)>(less: (T, T) -> bool) {
    && (forall x :: !less(x, x))
    && (forall x, y, z :: less(x, y) && less(y, z) ==> less(x, z))
  }

  ghost predicate Ascending<T>(xs: seq<T>, less: (T, T) -> bool) {
    forall i, j | 0 <= i < j < |xs| :: less(xs[i], xs[j])
  }

  /** Any two entries at different positions are ordered one way or the other. */
  ghost predicate Comparable<T>(xs: seq<T>, less: (T, T) -> bool) {
    forall i, j | 0 <= i < |xs| && 0 <= j < |xs| && i != j :: less(xs[i], xs[j]) || less(xs[j], xs[i])
  }

  function Insert<T>(x: T, ys: seq<T>, less: (T, T) -> bool): seq<T> {
    if ys == [] || less(x, ys[0]) then [x] + ys else [ys[0]] + Insert(x, ys[1..], less)
  }

  function Sort<T>(xs: seq<T>, less: (T, T) -> bool): seq<T> {
    if xs == [] then [] else Insert(xs[0], Sort(xs[1..], less), less)
  }

  lemma {:induction false} InsertElements<T>(x: T, ys: seq<T>, less: (T, T) -> bool)
    ensures |Insert(x, ys, less)| == |ys| + 1
    ensures forall z :: z in Insert(x, ys, less) <==> z == x || z in ys
  {
    if ys != [] && !less(x, ys[0]) {
      InsertElements(x, ys[1..], less);
      assert ys == [ys[0]] + ys[1..];
    }
  }

  lemma {:induction false} SortElements<T>(xs: seq<T>, less: (T, T) -> bool)
    ensures |Sort(xs, less)| == |xs|
    ensures forall z :: z in Sort(xs, less) <==> z in xs
  {
    if xs != [] {
      SortElements(xs[1..], less);
      InsertElements(xs[0], Sort(xs[1..], less), less);
      assert xs == [xs[0]] + xs[1..];
    }
  }

  lemma {:induction false} InsertAscending<T(!new)>(x: T, ys: seq<T>, less: (T, T) -> bool)
    requires StrictOrder(less) && Ascending(ys, less)
    requires forall y | y in ys :: less(x, y) || less(y, x)
    ensures Ascending(Insert(x, ys, less), less)
  {
    if ys != [] && !less(x, ys[0]) {
      InsertAscending(x, ys[1..], less);
      InsertElements(x, ys[1..], less);
      var r := Insert(x, ys[1..], less);
      forall j | 0 <= j < |r| ensures less(ys[0], r[j]) {
        assert r[j] in r;
      }
    }
  }

  /** Sorting comparable entries arranges them in ascending order. */
  lemma {:induction false} SortAscending<T(!new)>(xs: seq<T>, less: (T, T) -> bool)
    requires StrictOrder(less) && Comparable(xs, less)
    ensures Ascending(Sort(xs, less), less)
  {
    if xs != [] {
      SortAscending(xs[1..], less);
      SortElements(xs[1..], less);
      forall y | y in Sort(xs[1..], less) ensures less(xs[0], y) || less(y, xs[0]) {
        assert y in xs[1..];
      }
      InsertAscending(xs[0], Sort(xs[1..], less), less);
    }
  }

  /** Ascending sequences with the same elements are equal. */
  lemma {:induction false} AscendingUnique<T(!new)>(a: seq<T>, b: seq<T>, less: (T, T) -> bool)
    requires StrictOrder(less) && Ascending(a, less) && Ascending(b, less)
    requires forall z :: z in a <==> z in b
    ensures a == b
  {
    if a == [] {
      assert forall i | 0 <= i < |b| :: b[i] in b;
    } else {
      assert a[0] in b && b[0] in a;
      assert a[0] == b[0];
      forall z ensures z in a[1..] <==> z in b[1..] {
        if z in a[1..] {
          assert z in b && z != a[0];
        }
        if z in b[1..] {
          assert z in a && z != b[0];
        }
      }
      AscendingUnique(a[1..], b[1..], less);
      assert a == [a[0]] + a[1..] && b == [b[0]] + b[1..];
    }
  }

  /** Sorting an already ascending sequence changes nothing. */
  lemma SortOfAscending<T(!new)>(xs: seq<T>, less: (T, T) -> bool)
    requires StrictOrder(less) && Ascending(xs, less)
    ensures Sort(xs, less) == xs
  {
    SortElements(xs, less);
    SortAscending(xs, less);
    AscendingUnique(Sort(xs, less), xs, less);
  }

  /** The order in which comparable entries arrive never matters. */
  lemma SortIgnoresOrder<T(!new)>(a: seq<T>, b: seq<T>, less: (T, T) -> bool)
    requires StrictOrder(less) && Comparable(a, less) && Comparable(b, less)
    requires forall z :: z in a <==> z in b
    ensures Sort(a, less) == Sort(b, less)
  {
    SortElements(a, less);
    SortElements(b, less);
    SortAscending(a, less);
    SortAscending(b, less);
    AscendingUnique(Sort(a, less), Sort(b, less), less);
  }
}
