/** Lists of declarations that a loader checks one by one, refuses on a repeated key, and sorts by key. */
module Declarations {
  import opened Ordering

  function OrderBy<T, K>(less: (K, K) -> bool, key: T -> K): (T, T) -> bool { (a, b) => less(key(a), key(b)) }

  ghost predicate Declared<T(!new), K(!new)>(valid: T -> bool, key: T -> K, items: seq<T>) {
    && (forall x :: x in items ==> valid(x))
    && (forall i, j :: 0 <= i < j < |items| ==> key(items[i]) != key(items[j]))
  }

  function Sorted<T, K>(less: (K, K) -> bool, key: T -> K, items: seq<T>): seq<T> {
    SortBy(OrderBy(less, key), items)
  }

  lemma KeyedOrder<T(!new), K(!new)>(less: (K, K) -> bool, key: T -> K)
    requires StrictTotalOrder(less)
    ensures StrictOrder(OrderBy(less, key))
    ensures forall a, b :: OrderBy(less, key)(a, b) || OrderBy(less, key)(b, a) || key(a) == key(b)
  {
  }

  lemma DeclaredComparable<T(!new), K(!new)>(less: (K, K) -> bool, valid: T -> bool, key: T -> K, items: seq<T>)
    requires StrictTotalOrder(less)
    ensures Declared(valid, key, items)
       <==> (forall x :: x in items ==> valid(x)) && Comparable(OrderBy(less, key), items)
  {
    KeyedOrder(less, key);
  }

  /** Reordering declarations changes neither their acceptance nor their sorted form. */
  lemma DeclaredReordered<T(!new), K(!new)>(less: (K, K) -> bool, valid: T -> bool, key: T -> K, a: seq<T>, b: seq<T>)
    requires StrictTotalOrder(less) && multiset(a) == multiset(b)
    ensures Declared(valid, key, a) <==> Declared(valid, key, b)
    ensures Declared(valid, key, a) ==> Sorted(less, key, a) == Sorted(less, key, b)
  {
    var order := OrderBy(less, key);
    KeyedOrder(less, key);
    DeclaredComparable(less, valid, key, a);
    DeclaredComparable(less, valid, key, b);
    PermutationSameElements(a, b);
    if Comparable(order, a) { SortByOrderInvariant(order, a, b); }
    if Comparable(order, b) { SortByOrderInvariant(order, b, a); }
  }

  lemma SortedPermutes<T(!new), K(!new)>(less: (K, K) -> bool, key: T -> K, items: seq<T>)
    ensures multiset(Sorted(less, key, items)) == multiset(items) && |Sorted(less, key, items)| == |items|
    ensures forall x :: x in Sorted(less, key, items) <==> x in items
  {
    SortByPermutes(OrderBy(less, key), items);
    PermutationSameElements(Sorted(less, key, items), items);
  }

  lemma SortedAscends<T(!new), K(!new)>(less: (K, K) -> bool, valid: T -> bool, key: T -> K, items: seq<T>)
    requires StrictTotalOrder(less) && Declared(valid, key, items)
    ensures Ascending(OrderBy(less, key), Sorted(less, key, items))
    ensures Declared(valid, key, Sorted(less, key, items))
  {
    KeyedOrder(less, key);
    DeclaredComparable(less, valid, key, items);
    SortByAscends(OrderBy(less, key), items);
    SortedPermutes(less, key, items);
    DeclaredReordered(less, valid, key, items, Sorted(less, key, items));
  }

  lemma DeclaredPointwise<T(!new), K(!new)>(valid: T -> bool, key: T -> K, a: seq<T>, b: seq<T>)
    requires |a| == |b|
    requires forall i :: 0 <= i < |a| ==> valid(a[i]) == valid(b[i]) && key(a[i]) == key(b[i])
    ensures Declared(valid, key, a) <==> Declared(valid, key, b)
  {
    if Declared(valid, key, a) {
      forall x | x in b ensures valid(x) { var i :| 0 <= i < |b| && b[i] == x; assert a[i] in a; }
    }
    if Declared(valid, key, b) {
      forall x | x in a ensures valid(x) { var i :| 0 <= i < |a| && a[i] == x; assert b[i] in b; }
    }
  }

  lemma DeclaredPrefix<T(!new), K(!new)>(valid: T -> bool, key: T -> K, items: seq<T>, n: nat)
    requires n <= |items| && Declared(valid, key, items)
    ensures Declared(valid, key, items[..n])
  {
    forall x | x in items[..n] ensures valid(x) { assert x in items; }
  }

  /** A loop over declarations with the set of the keys seen so far. */
  method CheckDeclared<T(!new), K(!new,==)>(valid: T -> bool, key: T -> K, items: seq<T>) returns (ok: bool)
    ensures ok <==> Declared(valid, key, items)
  {
    var seen: set<K> := {};
    for i := 0 to |items|
      invariant Declared(valid, key, items[..i])
      invariant seen == set j | 0 <= j < i :: key(items[j])
    {
      var x := items[i];
      assert items[i] in items;
      if !valid(x) { return false; }
      if key(x) in seen { return false; }
      seen := seen + {key(x)};
      assert items[..i + 1] == items[..i] + [x];
    }
    assert items[..|items|] == items;
    return true;
  }

  // ---- repeated keys are neighbours after sorting -----------------------------------------------------------

  predicate NeighboursDiffer<T, K(==)>(key: T -> K, s: seq<T>) {
    forall i :: 0 < i < |s| ==> key(s[i - 1]) != key(s[i])
  }

  /** `windows(2).all(..)`. */
  method CheckNeighbours<T, K(==)>(key: T -> K, s: seq<T>) returns (ok: bool)
    ensures ok <==> NeighboursDiffer(key, s)
  {
    var i := 1;
    while i < |s|
      invariant 1 <= i && forall j :: 0 < j < i && j < |s| ==> key(s[j - 1]) != key(s[j])
    {
      if key(s[i - 1]) == key(s[i]) { return false; }
      i := i + 1;
    }
    return true;
  }

  lemma {:induction false} NeighboursAscend<T(!new), K(!new)>(less: (K, K) -> bool, key: T -> K, s: seq<T>, i: nat, j: nat)
    requires StrictTotalOrder(less) && Sortedness(OrderBy(less, key), s) && NeighboursDiffer(key, s) && i < j < |s|
    ensures less(key(s[i]), key(s[j]))
    decreases j
  {
    assert !OrderBy(less, key)(s[j], s[j - 1]);
    if i < j - 1 { NeighboursAscend(less, key, s, i, j - 1); }
  }

  lemma NeighboursSuffice<T(!new), K(!new)>(less: (K, K) -> bool, key: T -> K, items: seq<T>)
    requires StrictTotalOrder(less)
    ensures NeighboursDiffer(key, Sorted(less, key, items)) <==> Declared(_ => true, key, items)
  {
    var s := Sorted(less, key, items);
    assert WeakOrder(OrderBy(less, key));
    SortBySorts(OrderBy(less, key), items);
    SortedPermutes(less, key, items);
    DeclaredReordered(less, _ => true, key, s, items);
    if NeighboursDiffer(key, s) {
      forall i, j | 0 <= i < j < |s| ensures key(s[i]) != key(s[j]) { NeighboursAscend(less, key, s, i, j); }
    } else {
      var i :| 0 < i < |s| && key(s[i - 1]) == key(s[i]);
    }
  }
}
