/** Lexicographic orders and stable sorting.

    Every ordered container in the system (`BTreeSet`, `BTreeMap`, `sort`, `sort_by`) compares
    strings, tuples of strings, or lists of such tuples.  All of these are one construction:
    the lexicographic order on sequences over an ordered element type.
 */
module Ordering {

  /** A UTF-8 string or a byte buffer: what the source measures with `len()`. */
  type Byte = b: int | 0 <= b < 256
  type Bytes = seq<Byte>

  /** A tuple of strings, the shape of every record that is sorted or encoded. */
  type Row = seq<Bytes>

  predicate ByteLess(a: Byte, b: Byte) { a < b }

  predicate LexLess<T(==)>(less: (T, T) -> bool, a: seq<T>, b: seq<T>) {
    if b == [] then false
    else if a == [] then true
    else if a[0] == b[0] then LexLess(less, a[1..], b[1..])
    else less(a[0], b[0])
  }

  predicate BytesLess(a: Bytes, b: Bytes) { LexLess(ByteLess, a, b) }

  predicate RowLess(a: Row, b: Row) { LexLess(BytesLess, a, b) }

  predicate RowsLess(a: seq<Row>, b: seq<Row>) { LexLess(RowLess, a, b) }

  ghost predicate StrictOrder<T(!new)>(less: (T, T) -> bool) {
    && (forall x, y :: less(x, y) ==> !less(y, x))
    && (forall x, y, z :: less(x, y) && less(y, z) ==> less(x, z))
  }

  ghost predicate StrictTotalOrder<T(!new)>(less: (T, T) -> bool) {
    && StrictOrder(less)
    && (forall x, y :: less(x, y) || less(y, x) || x == y)
  }

  lemma {:induction false} LexAsymmetric<T(!new)>(less: (T, T) -> bool, a: seq<T>, b: seq<T>)
    requires StrictOrder(less)
    ensures LexLess(less, a, b) ==> !LexLess(less, b, a)
  {
    if a != [] && b != [] && a[0] == b[0] {
      LexAsymmetric(less, a[1..], b[1..]);
    }
  }

  lemma {:induction false} LexTransitive<T(!new)>(less: (T, T) -> bool, a: seq<T>, b: seq<T>, c: seq<T>)
    requires StrictOrder(less)
    ensures LexLess(less, a, b) && LexLess(less, b, c) ==> LexLess(less, a, c)
  {
    if a != [] && b != [] && c != [] && a[0] == b[0] == c[0] {
      LexTransitive(less, a[1..], b[1..], c[1..]);
    }
  }

  lemma {:induction false} LexTotal<T(!new)>(less: (T, T) -> bool, a: seq<T>, b: seq<T>)
    requires StrictTotalOrder(less)
    ensures LexLess(less, a, b) || LexLess(less, b, a) || a == b
  {
    if a != [] && b != [] && a[0] == b[0] {
      LexTotal(less, a[1..], b[1..]);
      assert a == [a[0]] + a[1..] && b == [b[0]] + b[1..];
    }
  }

  /** The three orders of the system are strict total orders. */
  lemma BytesOrder()
    ensures StrictTotalOrder(BytesLess)
  {
    forall a: Bytes, b: Bytes ensures BytesLess(a, b) ==> !BytesLess(b, a) { LexAsymmetric(ByteLess, a, b); }
    forall a: Bytes, b: Bytes, c: Bytes ensures BytesLess(a, b) && BytesLess(b, c) ==> BytesLess(a, c) {
      LexTransitive(ByteLess, a, b, c);
    }
    forall a: Bytes, b: Bytes ensures BytesLess(a, b) || BytesLess(b, a) || a == b { LexTotal(ByteLess, a, b); }
  }

  lemma RowOrder()
    ensures StrictTotalOrder(RowLess)
  {
    BytesOrder();
    forall a: Row, b: Row ensures RowLess(a, b) ==> !RowLess(b, a) { LexAsymmetric(BytesLess, a, b); }
    forall a: Row, b: Row, c: Row ensures RowLess(a, b) && RowLess(b, c) ==> RowLess(a, c) {
      LexTransitive(BytesLess, a, b, c);
    }
    forall a: Row, b: Row ensures RowLess(a, b) || RowLess(b, a) || a == b { LexTotal(BytesLess, a, b); }
  }

  lemma RowsOrder()
    ensures StrictTotalOrder(RowsLess)
  {
    RowOrder();
    forall a: seq<Row>, b: seq<Row> ensures RowsLess(a, b) ==> !RowsLess(b, a) { LexAsymmetric(RowLess, a, b); }
    forall a: seq<Row>, b: seq<Row>, c: seq<Row> ensures RowsLess(a, b) && RowsLess(b, c) ==> RowsLess(a, c) {
      LexTransitive(RowLess, a, b, c);
    }
    forall a: seq<Row>, b: seq<Row> ensures RowsLess(a, b) || RowsLess(b, a) || a == b { LexTotal(RowLess, a, b); }
  }

  /** The strictly ascending sequences: what iterating a `BTreeSet` yields. */
  ghost predicate Ascending<T>(less: (T, T) -> bool, s: seq<T>) {
    forall i, j :: 0 <= i < j < |s| ==> less(s[i], s[j])
  }

  /** Any two entries at different positions are comparable: their sort keys are distinct. */
  ghost predicate Comparable<T>(less: (T, T) -> bool, s: seq<T>) {
    forall i, j :: 0 <= i < j < |s| ==> less(s[i], s[j]) || less(s[j], s[i])
  }

  /** Stable sorting, as `slice::sort_by` specifies it. */
  function InsertBy<T>(less: (T, T) -> bool, x: T, s: seq<T>): seq<T> {
    if s == [] || !less(s[0], x) then [x] + s else [s[0]] + InsertBy(less, x, s[1..])
  }

  function SortBy<T>(less: (T, T) -> bool, s: seq<T>): seq<T> {
    if s == [] then [] else InsertBy(less, s[0], SortBy(less, s[1..]))
  }

  lemma {:induction false} InsertByPermutes<T>(less: (T, T) -> bool, x: T, s: seq<T>)
    ensures multiset(InsertBy(less, x, s)) == multiset(s) + multiset{x}
  {
    if s != [] && less(s[0], x) {
      InsertByPermutes(less, x, s[1..]);
      assert s == [s[0]] + s[1..];
    }
  }

  lemma {:induction false} SortByPermutes<T>(less: (T, T) -> bool, s: seq<T>)
    ensures multiset(SortBy(less, s)) == multiset(s)
    ensures |SortBy(less, s)| == |s|
  {
    if s != [] {
      SortByPermutes(less, s[1..]);
      InsertByPermutes(less, s[0], SortBy(less, s[1..]));
      assert s == [s[0]] + s[1..];
    }
    assert |multiset(SortBy(less, s))| == |multiset(s)|;
  }

  lemma PermutationSameElements<T>(a: seq<T>, b: seq<T>)
    requires multiset(a) == multiset(b)
    ensures |a| == |b|
    ensures forall x :: x in a <==> x in b
  {
    assert |multiset(a)| == |multiset(b)|;
    forall x ensures x in a <==> x in b {
      assert x in a <==> x in multiset(a);
      assert x in b <==> x in multiset(b);
    }
  }

  lemma {:induction false} InsertByAscends<T(!new)>(less: (T, T) -> bool, x: T, s: seq<T>)
    requires StrictOrder(less) && Ascending(less, s)
    requires forall y :: y in s ==> less(x, y) || less(y, x)
    ensures Ascending(less, InsertBy(less, x, s))
  {
    if s == [] {
    } else if !less(s[0], x) {
      forall i | 0 <= i < |s| ensures less(x, s[i]) {
        assert s[0] in s && less(x, s[0]);
        if i > 0 { assert less(s[0], s[i]); }
      }
    } else {
      var r := InsertBy(less, x, s[1..]);
      InsertByAscends(less, x, s[1..]);
      InsertByPermutes(less, x, s[1..]);
      forall j | 0 <= j < |r| ensures less(s[0], r[j]) {
        assert r[j] in multiset(r);
        if r[j] != x { assert r[j] in s[1..]; }
      }
    }
  }

  lemma {:induction false} SortByAscends<T(!new)>(less: (T, T) -> bool, s: seq<T>)
    requires StrictOrder(less) && Comparable(less, s)
    ensures Ascending(less, SortBy(less, s))
  {
    if s != [] {
      var t := SortBy(less, s[1..]);
      SortByAscends(less, s[1..]);
      SortByPermutes(less, s[1..]);
      forall y | y in t ensures less(s[0], y) || less(y, s[0]) {
        assert y in multiset(s[1..]);
        var k :| 0 <= k < |s| - 1 && s[1..][k] == y;
        assert s[k + 1] == y;
      }
      InsertByAscends(less, s[0], t);
    }
  }

  /** Nothing sorts before its predecessor, even with repeated keys. */
  ghost predicate Sortedness<T>(less: (T, T) -> bool, s: seq<T>) {
    forall i, j :: 0 <= i < j < |s| ==> !less(s[j], s[i])
  }

  ghost predicate WeakOrder<T(!new)>(less: (T, T) -> bool) {
    && StrictOrder(less)
    && (forall x, y, z :: !less(y, x) && !less(z, y) ==> !less(z, x))
  }

  lemma {:induction false} InsertBySorts<T(!new)>(less: (T, T) -> bool, x: T, s: seq<T>)
    requires WeakOrder(less) && Sortedness(less, s)
    ensures Sortedness(less, InsertBy(less, x, s))
  {
    if s == [] {
    } else if !less(s[0], x) {
      forall i | 0 <= i < |s| ensures !less(s[i], x) {
        if i > 0 { assert !less(s[i], s[0]); }
      }
    } else {
      var r := InsertBy(less, x, s[1..]);
      InsertBySorts(less, x, s[1..]);
      InsertByPermutes(less, x, s[1..]);
      forall j | 0 <= j < |r| ensures !less(r[j], s[0]) {
        assert r[j] in multiset(r);
        if r[j] != x { assert r[j] in s[1..]; }
      }
    }
  }

  lemma {:induction false} SortBySorts<T(!new)>(less: (T, T) -> bool, s: seq<T>)
    requires WeakOrder(less)
    ensures Sortedness(less, SortBy(less, s))
  {
    if s != [] {
      SortBySorts(less, s[1..]);
      InsertBySorts(less, s[0], SortBy(less, s[1..]));
    }
  }

  /** An ascending arrangement of a collection is unique. */
  lemma {:induction false} AscendingUnique<T(!new)>(less: (T, T) -> bool, a: seq<T>, b: seq<T>)
    requires StrictOrder(less) && Ascending(less, a) && Ascending(less, b)
    requires multiset(a) == multiset(b)
    ensures a == b
  {
    PermutationSameElements(a, b);
    if a != [] {
      AscendingSameFirst(less, a, b);
      TailMultiset(a);
      TailMultiset(b);
      AscendingUnique(less, a[1..], b[1..]);
      assert a == [a[0]] + a[1..] && b == [b[0]] + b[1..];
    }
  }

  lemma TailMultiset<T>(s: seq<T>)
    requires s != []
    ensures multiset(s[1..]) == multiset(s) - multiset{s[0]}
  {
    assert s == [s[0]] + s[1..];
  }

  lemma AscendingSameFirst<T(!new)>(less: (T, T) -> bool, a: seq<T>, b: seq<T>)
    requires StrictOrder(less) && Ascending(less, a) && Ascending(less, b)
    requires a != [] && b != [] && a[0] in b && b[0] in a
    ensures a[0] == b[0]
  {
    var i :| 0 <= i < |b| && b[i] == a[0];
    var j :| 0 <= j < |a| && a[j] == b[0];
  }

  lemma ComparablePermutation<T(!new)>(less: (T, T) -> bool, a: seq<T>, b: seq<T>)
    requires StrictOrder(less) && Comparable(less, a) && multiset(a) == multiset(b)
    ensures Comparable(less, b)
  {
    // Ascending sequences are comparable, and comparability only depends on multiplicities.
    PermutationSameElements(a, b);
    forall i, j | 0 <= i < j < |b| ensures less(b[i], b[j]) || less(b[j], b[i]) {
      var x, y := b[i], b[j];
      if x == y {
        assert multiset(b[..j]) + multiset(b[j..]) == multiset(b) by { assert b == b[..j] + b[j..]; }
        assert x in b[..j] && x in b[j..];
        assert multiset(a)[x] >= 2;
        ComparableDistinct(less, a, x);
      } else {
        assert x in a && y in a;
        var p :| 0 <= p < |a| && a[p] == x;
        var q :| 0 <= q < |a| && a[q] == y;
        assert p < q || q < p;
      }
    }
  }

  lemma {:induction false} ComparableDistinct<T(!new)>(less: (T, T) -> bool, a: seq<T>, x: T)
    requires StrictOrder(less) && Comparable(less, a)
    ensures multiset(a)[x] <= 1
  {
    if a != [] {
      assert a == [a[0]] + a[1..];
      ComparableDistinct(less, a[1..], x);
      if x == a[0] && x in a[1..] {
        assert false;
      }
    }
  }

  /** Sorting forgets the order of its input when the sort keys are distinct. */
  lemma SortByOrderInvariant<T(!new)>(less: (T, T) -> bool, a: seq<T>, b: seq<T>)
    requires StrictOrder(less) && Comparable(less, a) && multiset(a) == multiset(b)
    ensures SortBy(less, a) == SortBy(less, b)
    ensures Comparable(less, b)
  {
    ComparablePermutation(less, a, b);
    SortByAscends(less, a);
    SortByAscends(less, b);
    SortByPermutes(less, a);
    SortByPermutes(less, b);
    AscendingUnique(less, SortBy(less, a), SortBy(less, b));
  }

  // ---- sequences ---------------------------------------------------------------------------------

  lemma AppendAssociates<T>(a: seq<T>, b: seq<T>, c: seq<T>)
    ensures (a + b) + c == a + (b + c)
  {
  }

  lemma SplitEqual<T>(a: seq<T>, b: seq<T>, r: seq<T>, s: seq<T>)
    requires |a| == |b| && a + r == b + s
    ensures a == b && r == s
  {
    assert a == (a + r)[..|a|] && b == (b + s)[..|b|];
    assert r == (a + r)[|a|..] && s == (b + s)[|b|..];
  }

  /** Sums over a sequence do not depend on its order. */
  function Sum<T>(weight: T -> nat, s: seq<T>): nat {
    if s == [] then 0 else Sum(weight, s[..|s| - 1]) + weight(s[|s| - 1])
  }

  lemma {:induction false} SumAppend<T>(weight: T -> nat, a: seq<T>, b: seq<T>)
    ensures Sum(weight, a + b) == Sum(weight, a) + Sum(weight, b)
  {
    if b == [] {
      assert a + b == a;
    } else {
      assert (a + b)[..|a + b| - 1] == a + b[..|b| - 1];
      SumAppend(weight, a, b[..|b| - 1]);
    }
  }

  lemma SumOne<T>(weight: T -> nat, x: T)
    ensures Sum(weight, [x]) == weight(x)
  {
    assert [x][..0] == [];
  }

  lemma RemoveOne<T>(front: seq<T>, x: T, c: seq<T>, d: seq<T>)
    requires multiset(front + [x]) == multiset(c + ([x] + d))
    ensures multiset(front) == multiset(c + d)
  {
    assert multiset(front + [x]) == multiset(front) + multiset{x};
    assert multiset(c + ([x] + d)) == multiset(c) + multiset{x} + multiset(d);
    assert multiset(front) == multiset(front) + multiset{x} - multiset{x};
  }

  lemma {:induction false} SumPermutes<T>(weight: T -> nat, a: seq<T>, b: seq<T>)
    requires multiset(a) == multiset(b)
    ensures Sum(weight, a) == Sum(weight, b)
  {
    PermutationSameElements(a, b);
    if a != [] {
      var front, x := a[..|a| - 1], a[|a| - 1];
      assert x in a && x in b;
      var k :| 0 <= k < |b| && b[k] == x;
      var c, d := b[..k], b[k + 1..];
      assert a == front + [x] && b == c + ([x] + d);
      RemoveOne(front, x, c, d);
      SumPermutes(weight, front, c + d);
      SumAppend(weight, c, d);
      SumAppend(weight, [x], d);
      SumAppend(weight, c, [x] + d);
      SumOne(weight, x);
    }
  }

  lemma {:induction false} SumPointwise<T>(weight: T -> nat, a: seq<T>, b: seq<T>)
    requires |a| == |b| && forall i :: 0 <= i < |a| ==> weight(a[i]) == weight(b[i])
    ensures Sum(weight, a) == Sum(weight, b)
  {
    if a != [] { SumPointwise(weight, a[..|a| - 1], b[..|b| - 1]); }
  }

  /** A function applied to every element, and its effect on multiplicities. */
  function Map<S, T>(f: S -> T, s: seq<S>): (r: seq<T>)
    ensures |r| == |s|
  {
    seq(|s|, i requires 0 <= i < |s| => f(s[i]))
  }

  predicate Distinct<T(==)>(s: seq<T>) { forall i, j :: 0 <= i < j < |s| ==> s[i] != s[j] }

  lemma {:induction false} DistinctOnce<T>(s: seq<T>, x: T)
    requires Distinct(s)
    ensures multiset(s)[x] == if x in s then 1 else 0
  {
    if s != [] {
      DistinctOnce(s[1..], x);
      assert s == [s[0]] + s[1..];
    }
  }

  lemma SameDistinct<T(!new)>(a: seq<T>, b: seq<T>)
    requires Distinct(a) && Distinct(b) && forall x :: x in a <==> x in b
    ensures multiset(a) == multiset(b)
  {
    forall x ensures multiset(a)[x] == multiset(b)[x] {
      DistinctOnce(a, x);
      DistinctOnce(b, x);
    }
  }

  lemma MapInserts<S, T>(f: S -> T, c: seq<S>, x: S, d: seq<S>)
    ensures multiset(Map(f, c + ([x] + d))) == multiset(Map(f, c + d)) + multiset{f(x)}
  {
    assert Map(f, c + ([x] + d)) == Map(f, c) + ([f(x)] + Map(f, d));
    assert Map(f, c + d) == Map(f, c) + Map(f, d);
  }

  lemma {:induction false} MapPermutes<S, T>(f: S -> T, a: seq<S>, b: seq<S>)
    requires multiset(a) == multiset(b)
    ensures multiset(Map(f, a)) == multiset(Map(f, b))
  {
    PermutationSameElements(a, b);
    if a != [] {
      var front, x := a[..|a| - 1], a[|a| - 1];
      assert x in a && x in b;
      var k :| 0 <= k < |b| && b[k] == x;
      var c, d := b[..k], b[k + 1..];
      assert a == front + [x] && b == c + ([x] + d);
      RemoveOne(front, x, c, d);
      MapPermutes(f, front, c + d);
      MapInserts(f, front, x, []);
      MapInserts(f, c, x, d);
      assert front + ([x] + []) == front + [x] && front + [] == front;
    }
  }
}
