/** UTF-8 validity, character boundaries and substring search on byte strings. */
module Text {
  import opened Ordering

  datatype Option<+T> = None | Some(value: T)

  // ---- UTF-8 -----------------------------------------------------------------------------------

  predicate Continuation(b: Byte) { 0x80 <= b < 0xc0 }

  /** The width of the well-formed character at the front, 0 if there is none (table 3-7 of the Unicode Standard). */
  function CharWidth(s: Bytes): (n: nat)
    ensures n <= |s| && n <= 4
    ensures n > 0 ==> forall i :: 0 < i < n ==> Continuation(s[i])
    ensures n > 0 ==> !Continuation(s[0])
    ensures n == 1 <==> s != [] && s[0] < 0x80
  {
    if s == [] then 0
    else if s[0] < 0x80 then 1
    else if |s| < 2 || !Continuation(s[1]) then 0
    else if 0xc2 <= s[0] < 0xe0 then 2
    else if |s| < 3 || !Continuation(s[2]) then 0
    else if s[0] == 0xe0 then (if 0xa0 <= s[1] then 3 else 0)
    else if s[0] == 0xed then (if s[1] < 0xa0 then 3 else 0)
    else if 0xe1 <= s[0] < 0xf0 then 3
    else if |s| < 4 || !Continuation(s[3]) then 0
    else if s[0] == 0xf0 then (if 0x90 <= s[1] then 4 else 0)
    else if 0xf1 <= s[0] < 0xf4 then 4
    else if s[0] == 0xf4 then (if s[1] < 0x90 then 4 else 0)
    else 0
  }

  /** `str::from_utf8(s).is_ok()`. */
  predicate ValidUtf8(s: Bytes) {
    s == [] || (CharWidth(s) > 0 && ValidUtf8(s[CharWidth(s)..]))
  }

  lemma CharWidthAppend(a: Bytes, b: Bytes)
    requires CharWidth(a) > 0
    ensures CharWidth(a + b) == CharWidth(a)
  {
  }

  lemma {:induction false} Utf8Append(a: Bytes, b: Bytes)
    requires ValidUtf8(a)
    ensures ValidUtf8(a + b) <==> ValidUtf8(b)
  {
    if a == [] {
      assert a + b == b;
    } else {
      CharWidthAppend(a, b);
      var n := CharWidth(a);
      assert (a + b)[n..] == a[n..] + b;
      Utf8Append(a[n..], b);
    }
  }

  predicate AsciiText(s: Bytes) { forall i :: 0 <= i < |s| ==> s[i] < 128 }

  lemma {:induction false} AsciiValid(s: Bytes)
    requires AsciiText(s)
    ensures ValidUtf8(s)
  {
    if s != [] { AsciiValid(s[1..]); }
  }

  /** `str::is_char_boundary`. */
  predicate IsCharBoundary(s: Bytes, i: nat) {
    i == 0 || i == |s| || (i < |s| && !Continuation(s[i]))
  }

  /** Slicing a string panics off a character boundary; on one, both halves are strings again. */
  function SliceFrom(s: Bytes, i: nat): Bytes
    requires i <= |s| && IsCharBoundary(s, i)
  {
    s[i..]
  }

  function SliceTo(s: Bytes, i: nat): Bytes
    requires i <= |s| && IsCharBoundary(s, i)
  {
    s[..i]
  }

  /** Around an ASCII byte of a valid string both positions are boundaries. */
  lemma {:induction false} AsciiBoundaries(s: Bytes, i: nat)
    requires ValidUtf8(s) && i < |s| && s[i] < 0x80
    ensures IsCharBoundary(s, i) && IsCharBoundary(s, i + 1)
    ensures ValidUtf8(s[i..]) && ValidUtf8(s[i + 1..])
  {
    var n := CharWidth(s);
    if i == 0 {
      assert s[0..] == s;
      if n < |s| { assert CharWidth(s[n..]) > 0; }
    } else {
      assert n <= i;
      AsciiBoundaries(s[n..], i - n);
      assert s[n..][i - n..] == s[i..] && s[n..][i - n + 1..] == s[i + 1..];
      if i + 1 < |s| { assert s[n..][i - n + 1] == s[i + 1]; }
    }
  }

  // ---- search ----------------------------------------------------------------------------------

  predicate OccursAt(s: Bytes, pat: Bytes, i: nat) {
    i + |pat| <= |s| && s[i..i + |pat|] == pat
  }

  /** `str::find` and `windows(n).position(..)`: the first occurrence. */
  function Find(s: Bytes, pat: Bytes): (r: Option<nat>)
    requires pat != []
    ensures r.Some? ==> r.value + |pat| <= |s|
  {
    if |s| < |pat| then None
    else if s[..|pat|] == pat then Some(0)
    else
      var r := Find(s[1..], pat);
      if r.None? then None else Some(r.value + 1)
  }

  lemma {:induction false} FindFirst(s: Bytes, pat: Bytes)
    requires pat != []
    ensures Find(s, pat).Some? ==>
      OccursAt(s, pat, Find(s, pat).value) && forall j :: 0 <= j < Find(s, pat).value ==> !OccursAt(s, pat, j)
    ensures Find(s, pat).None? ==> forall j: nat :: !OccursAt(s, pat, j)
  {
    if |s| >= |pat| && s[..|pat|] != pat {
      FindFirst(s[1..], pat);
      assert !OccursAt(s, pat, 0);
      forall j: nat | 0 < j ensures OccursAt(s, pat, j) <==> OccursAt(s[1..], pat, j - 1) {
        if j + |pat| <= |s| { assert s[1..][j - 1..j - 1 + |pat|] == s[j..j + |pat|]; }
      }
    }
  }

  lemma FindUnique(s: Bytes, pat: Bytes, i: nat)
    requires pat != [] && OccursAt(s, pat, i) && forall j :: 0 <= j < i ==> !OccursAt(s, pat, j)
    ensures Find(s, pat) == Some(i)
  {
    FindFirst(s, pat);
  }

  lemma OccursAtAppend(s: Bytes, t: Bytes, pat: Bytes, i: nat)
    requires i + |pat| <= |s|
    ensures OccursAt(s + t, pat, i) <==> OccursAt(s, pat, i)
  {
    assert (s + t)[i..i + |pat|] == s[i..i + |pat|];
  }

  /** An occurrence found in a prefix is the first one of the whole. */
  lemma FindAppend(s: Bytes, t: Bytes, pat: Bytes)
    requires pat != [] && Find(s, pat).Some?
    ensures Find(s + t, pat) == Find(s, pat)
  {
    var i := Find(s, pat).value;
    FindFirst(s, pat);
    forall j | 0 <= j <= i ensures OccursAt(s + t, pat, j) <==> OccursAt(s, pat, j) {
      OccursAtAppend(s, t, pat, j);
    }
    FindUnique(s + t, pat, i);
  }

  // ---- splitting and joining -----------------------------------------------------------------------

  /** `str::split` on one character: there is always at least one part. */
  function Split<T(==)>(sep: T, s: seq<T>): (r: seq<seq<T>>)
    ensures r != []
  {
    if s == [] then [[]]
    else
      var r := Split(sep, s[1..]);
      if s[0] == sep then [[]] + r else [[s[0]] + r[0]] + r[1..]
  }

  /** `join`. */
  function Join<T>(sep: T, parts: seq<seq<T>>): seq<T> {
    if parts == [] then [] else if |parts| == 1 then parts[0] else parts[0] + ([sep] + Join(sep, parts[1..]))
  }

  ghost predicate Without<T>(sep: T, parts: seq<seq<T>>) {
    forall i :: 0 <= i < |parts| ==> sep !in parts[i]
  }

  lemma {:induction false} SplitWithout<T>(sep: T, s: seq<T>)
    ensures Without(sep, Split(sep, s))
  {
    if s != [] { SplitWithout(sep, s[1..]); }
  }

  lemma {:induction false} SplitFirst<T>(sep: T, part: seq<T>, rest: seq<T>)
    requires sep !in part
    ensures Split(sep, part + ([sep] + rest)) == [part] + Split(sep, rest)
    ensures Split(sep, part) == [part]
  {
    var s := part + ([sep] + rest);
    if part == [] {
      assert s == [sep] + rest && s[1..] == rest;
    } else {
      assert s[1..] == part[1..] + ([sep] + rest);
      SplitFirst(sep, part[1..], rest);
      assert [part[0]] + part[1..] == part;
    }
  }

  /** Splitting undoes joining. */
  lemma {:induction false} SplitJoin<T>(sep: T, parts: seq<seq<T>>)
    requires parts != [] && Without(sep, parts)
    ensures Split(sep, Join(sep, parts)) == parts
  {
    SplitFirst(sep, parts[0], Join(sep, parts[1..]));
    if |parts| > 1 {
      SplitJoin(sep, parts[1..]);
    }
  }

  /** Joining undoes splitting. */
  lemma {:induction false} JoinSplit<T>(sep: T, s: seq<T>)
    ensures Join(sep, Split(sep, s)) == s
  {
    if s != [] {
      var r := Split(sep, s[1..]);
      JoinSplit(sep, s[1..]);
      if s[0] == sep {
        assert ([[]] + r)[1..] == r;
      } else {
        var w := [[s[0]] + r[0]] + r[1..];
        assert w[1..] == r[1..];
        if |r| > 1 { AppendAssociates([s[0]], r[0], [sep] + Join(sep, r[1..])); }
      }
    }
  }

  lemma {:induction false} SplitAppend<T>(sep: T, a: seq<T>, b: seq<T>)
    ensures Split(sep, a + ([sep] + b)) == Split(sep, a) + Split(sep, b)
  {
    var s := a + ([sep] + b);
    if a == [] {
      assert s == [sep] + b && s[1..] == b;
    } else {
      assert s[1..] == a[1..] + ([sep] + b);
      SplitAppend(sep, a[1..], b);
    }
  }

  /** The parts of all fields, one field after the other. */
  function Pieces<T(==)>(sep: T, fields: seq<seq<T>>): seq<seq<T>> {
    if fields == [] then [] else Split(sep, fields[0]) + Pieces(sep, fields[1..])
  }

  lemma {:induction false} PiecesAppend<T>(sep: T, a: seq<seq<T>>, b: seq<seq<T>>)
    ensures Pieces(sep, a + b) == Pieces(sep, a) + Pieces(sep, b)
  {
    if a == [] {
      assert a + b == b;
    } else {
      assert (a + b)[1..] == a[1..] + b;
      PiecesAppend(sep, a[1..], b);
      AppendAssociates(Split(sep, a[0]), Pieces(sep, a[1..]), Pieces(sep, b));
    }
  }

  lemma PiecesOfTwo<T>(sep: T, x: seq<T>, y: seq<T>)
    ensures Pieces(sep, [x, y]) == Split(sep, x) + Split(sep, y)
  {
    assert [x, y][1..] == [y] && [y][1..] == [];
    assert Pieces(sep, [y]) == Split(sep, y) + [] == Split(sep, y);
  }

  /** A separator inside a field looks like the one between two fields. */
  lemma PiecesRegroup<T>(sep: T, a: seq<T>, b: seq<T>, c: seq<T>)
    ensures Pieces(sep, [a + ([sep] + b), c]) == Pieces(sep, [a, b + ([sep] + c)])
  {
    PiecesOfTwo(sep, a + ([sep] + b), c);
    PiecesOfTwo(sep, a, b + ([sep] + c));
    SplitAppend(sep, a, b);
    SplitAppend(sep, b, c);
    AppendAssociates(Split(sep, a), Split(sep, b), Split(sep, c));
  }

  lemma PiecesMiddle<T>(sep: T, front: seq<seq<T>>, x: seq<seq<T>>, y: seq<seq<T>>, back: seq<seq<T>>)
    requires Pieces(sep, x) == Pieces(sep, y)
    ensures Pieces(sep, front + (x + back)) == Pieces(sep, front + (y + back))
  {
    PiecesAppend(sep, front, x + back);
    PiecesAppend(sep, front, y + back);
    PiecesAppend(sep, x, back);
    PiecesAppend(sep, y, back);
  }

  lemma {:induction false} SplitJoined<T>(sep: T, fields: seq<seq<T>>)
    requires fields != []
    ensures Split(sep, Join(sep, fields)) == Pieces(sep, fields)
  {
    if |fields| == 1 {
      assert Pieces(sep, fields[1..]) == [];
      assert Split(sep, fields[0]) + [] == Split(sep, fields[0]);
    } else {
      SplitJoined(sep, fields[1..]);
      SplitAppend(sep, fields[0], Join(sep, fields[1..]));
    }
  }

  /** Joined fields are the same text exactly when they have the same parts. */
  lemma JoinedSameExactly<T>(sep: T, a: seq<seq<T>>, b: seq<seq<T>>)
    requires a != [] && b != []
    ensures Join(sep, a) == Join(sep, b) <==> Pieces(sep, a) == Pieces(sep, b)
  {
    SplitJoined(sep, a);
    SplitJoined(sep, b);
    JoinSplit(sep, Join(sep, a));
    JoinSplit(sep, Join(sep, b));
  }

  lemma {:induction false} AtFirst<T>(sep: T, s: seq<T>) returns (a: seq<T>, b: seq<T>)
    requires sep in s
    ensures s == a + ([sep] + b) && sep !in a
  {
    if s[0] == sep {
      a, b := [], s[1..];
    } else {
      var c, d := AtFirst(sep, s[1..]);
      a, b := [s[0]] + c, d;
      AppendAssociates([s[0]], c, [sep] + d);
    }
  }

  lemma SplitOne<T>(sep: T, s: seq<T>)
    ensures sep !in s ==> Split(sep, s) == [s]
    ensures sep in s ==> |Split(sep, s)| >= 2
  {
    if sep in s {
      var a, b := AtFirst(sep, s);
      SplitAppend(sep, a, b);
    } else {
      SplitFirst(sep, s, []);
    }
  }

  /** Fields without a separator are their own parts. */
  lemma {:induction false} PiecesPlain<T>(sep: T, fields: seq<seq<T>>)
    requires Without(sep, fields)
    ensures Pieces(sep, fields) == fields
  {
    if fields != [] {
      SplitOne(sep, fields[0]);
      PiecesPlain(sep, fields[1..]);
    }
  }

  /** Fields that have no more parts than fields have no separator. */
  lemma {:induction false} PiecesCount<T>(sep: T, fields: seq<seq<T>>)
    ensures |Pieces(sep, fields)| >= |fields|
    ensures |Pieces(sep, fields)| == |fields| ==> Without(sep, fields) && Pieces(sep, fields) == fields
  {
    if fields != [] {
      SplitOne(sep, fields[0]);
      PiecesCount(sep, fields[1..]);
      assert fields == [fields[0]] + fields[1..];
    }
  }
}
