/** Key normalization and namespace scoping of the blob store. */
module Blobstore {
  import opened Ordering
  import opened Text
  import opened Identity
  import opened Naming

  const DOT: Byte := 46
  const CURRENT: Bytes := [DOT]
  const PARENT: Bytes := [DOT, DOT]

  /** Resolving segments on top of a stack; `None` when a parent step finds it empty. */
  function Resolve(stack: seq<Bytes>, segments: seq<Bytes>): Option<seq<Bytes>>
    decreases |segments|
  {
    if segments == [] then Some(stack)
    else
      var seg, rest := segments[0], segments[1..];
      if seg == [] || seg == CURRENT then Resolve(stack, rest)
      else if seg == PARENT then (if stack == [] then None else Resolve(stack[..|stack| - 1], rest))
      else Resolve(stack + [seg], rest)
  }

  function Normalized(key: Bytes): Option<Bytes> {
    match Resolve([], Split(SLASH, key))
    case None => None
    case Some(stack) => Some(Join(SLASH, stack))
  }

  /** `normalize_key`. */
  method NormalizeKey(key: Bytes) returns (r: Option<Bytes>)
    ensures r == Normalized(key)
  {
    var parts := Split(SLASH, key);
    var segments: seq<Bytes> := [];
    var i := 0;
    assert parts[0..] == parts;
    while i < |parts|
      invariant 0 <= i <= |parts|
      invariant Resolve([], parts) == Resolve(segments, parts[i..])
    {
      assert parts[i..][0] == parts[i] && parts[i..][1..] == parts[i + 1..];
      if parts[i] == [] || parts[i] == CURRENT {
      } else if parts[i] == PARENT {
        if segments == [] { return None; }
        segments := segments[..|segments| - 1];
      } else {
        segments := segments + [parts[i]];
      }
      i := i + 1;
    }
    return Some(Join(SLASH, segments));
  }

  // ---- what normalization means ------------------------------------------------------------------

  predicate CleanSegment(seg: Bytes) { seg != [] && seg != CURRENT && seg != PARENT && SLASH !in seg }

  ghost predicate Clean(segments: seq<Bytes>) { forall i :: 0 <= i < |segments| ==> CleanSegment(segments[i]) }

  function Step(seg: Bytes): int {
    if seg == [] || seg == CURRENT then 0 else if seg == PARENT then -1 else 1
  }

  /** How far a path goes down, net of parent steps. */
  function Depth(segments: seq<Bytes>): int {
    if segments == [] then 0 else Step(segments[0]) + Depth(segments[1..])
  }

  /** The least depth of any prefix. */
  function Lowest(segments: seq<Bytes>): (r: int)
    ensures r <= 0
  {
    if segments == [] then 0
    else
      var r := Step(segments[0]) + Lowest(segments[1..]);
      if r < 0 then r else 0
  }

  lemma {:induction false} LowestIsReached(segments: seq<Bytes>) returns (n: nat)
    ensures n <= |segments| && Depth(segments[..n]) == Lowest(segments)
  {
    n := 0;
    if segments != [] {
      var k := LowestIsReached(segments[1..]);
      if Lowest(segments) < 0 {
        n := k + 1;
        assert segments[..n][1..] == segments[1..][..k];
      }
    }
  }

  lemma {:induction false} LowestIsLeast(segments: seq<Bytes>, n: nat)
    requires n <= |segments|
    ensures Lowest(segments) <= Depth(segments[..n])
  {
    if n > 0 {
      LowestIsLeast(segments[1..], n - 1);
      assert segments[..n][1..] == segments[1..][..n - 1];
    }
  }

  lemma {:induction false} ResolveByLowest(stack: seq<Bytes>, segments: seq<Bytes>)
    ensures Resolve(stack, segments).None? <==> |stack| + Lowest(segments) < 0
    ensures Resolve(stack, segments).Some? ==> |Resolve(stack, segments).value| == |stack| + Depth(segments)
    decreases |segments|
  {
    if segments != [] {
      var seg, rest := segments[0], segments[1..];
      if seg == [] || seg == CURRENT {
        ResolveByLowest(stack, rest);
      } else if seg != PARENT {
        ResolveByLowest(stack + [seg], rest);
      } else if stack != [] {
        ResolveByLowest(stack[..|stack| - 1], rest);
      }
    }
  }

  /** A path is refused exactly when one of its prefixes has more parent steps than there are segments to leave;
      otherwise its depth is the length of the result. */
  lemma ResolveEscapes(stack: seq<Bytes>, segments: seq<Bytes>)
    ensures Resolve(stack, segments).None? <==> exists n: nat :: n <= |segments| && |stack| + Depth(segments[..n]) < 0
    ensures Resolve(stack, segments).Some? ==> |Resolve(stack, segments).value| == |stack| + Depth(segments)
  {
    ResolveByLowest(stack, segments);
    var k := LowestIsReached(segments);
    forall n: nat | n <= |segments| ensures Lowest(segments) <= Depth(segments[..n]) { LowestIsLeast(segments, n); }
  }

  lemma {:induction false} ResolveClean(stack: seq<Bytes>, segments: seq<Bytes>)
    requires Clean(stack) && Without(SLASH, segments) && Resolve(stack, segments).Some?
    ensures Clean(Resolve(stack, segments).value)
    decreases |segments|
  {
    if segments != [] {
      var seg, rest := segments[0], segments[1..];
      if seg == [] || seg == CURRENT {
        ResolveClean(stack, rest);
      } else if seg == PARENT {
        ResolveClean(stack[..|stack| - 1], rest);
      } else {
        ResolveClean(stack + [seg], rest);
      }
    }
  }

  lemma {:induction false} ResolveCleanFixed(stack: seq<Bytes>, segments: seq<Bytes>)
    requires Clean(segments)
    ensures Resolve(stack, segments) == Some(stack + segments)
    decreases |segments|
  {
    if segments == [] {
      assert stack + segments == stack;
    } else {
      ResolveCleanFixed(stack + [segments[0]], segments[1..]);
      assert stack + [segments[0]] + segments[1..] == stack + segments;
    }
  }

  /** The normal form of clean segments is their join; splitting it gives them back. */
  lemma CleanKey(stack: seq<Bytes>)
    requires Clean(stack)
    ensures Resolve([], Split(SLASH, Join(SLASH, stack))) == Some(stack)
  {
    if stack == [] {
      var empty: seq<Bytes> := [[]];
      assert Resolve([], empty[1..]) == Some([]);
    } else {
      SplitJoin(SLASH, stack);
      ResolveCleanFixed([], stack);
      assert [] + stack == stack;
    }
  }

  lemma NormalStack(key: Bytes) returns (stack: seq<Bytes>)
    requires Normalized(key).Some?
    ensures Clean(stack) && Resolve([], Split(SLASH, key)) == Some(stack)
    ensures Normalized(key).value == Join(SLASH, stack)
  {
    SplitWithout(SLASH, key);
    ResolveClean([], Split(SLASH, key));
    stack := Resolve([], Split(SLASH, key)).value;
  }

  lemma NormalizeIdempotent(key: Bytes)
    requires Normalized(key).Some?
    ensures Normalized(Normalized(key).value) == Normalized(key)
  {
    var stack := NormalStack(key);
    CleanKey(stack);
  }

  lemma {:induction false} ResolveAppend(stack: seq<Bytes>, a: seq<Bytes>, b: seq<Bytes>)
    ensures Resolve(stack, a + b)
         == match Resolve(stack, a) case None => None case Some(middle) => Resolve(middle, b)
    decreases |a|
  {
    if a == [] {
      assert a + b == b;
    } else {
      var seg, rest := a[0], a[1..];
      assert (a + b)[1..] == rest + b;
      if seg == [] || seg == CURRENT {
        ResolveAppend(stack, rest, b);
      } else if seg == PARENT {
        if stack != [] { ResolveAppend(stack[..|stack| - 1], rest, b); }
      } else {
        ResolveAppend(stack + [seg], rest, b);
      }
    }
  }

  /** A path under another may be normalized in two stages: normal forms stand for their paths. */
  lemma NormalizeComposes(a: Bytes, b: Bytes)
    requires Normalized(a).Some?
    ensures Normalized(a + ([SLASH] + b)) == Normalized(Normalized(a).value + ([SLASH] + b))
  {
    var stack := NormalStack(a);
    SplitAppend(SLASH, a, b);
    SplitAppend(SLASH, Join(SLASH, stack), b);
    ResolveAppend([], Split(SLASH, a), Split(SLASH, b));
    ResolveAppend([], Split(SLASH, Join(SLASH, stack)), Split(SLASH, b));
    CleanKey(stack);
  }

  // ---- scoping ---------------------------------------------------------------------------------------

  /** `scoped_key`; `None` is the access-denied error. */
  function Scoped(prefix: Bytes, key: Bytes): Option<Bytes> {
    match Normalized(key) case None => None case Some(clean) => Some(prefix + clean)
  }

  /** `unscoped_key`. */
  function Unscoped(prefix: Bytes, key: Bytes): Bytes {
    if |prefix| <= |key| && key[..|prefix|] == prefix then key[|prefix|..] else key
  }

  lemma UnscopeScope(prefix: Bytes, key: Bytes)
    requires Scoped(prefix, key).Some?
    ensures Normalized(key) == Some(Unscoped(prefix, Scoped(prefix, key).value))
  {
    var clean := Normalized(key).value;
    assert (prefix + clean)[..|prefix|] == prefix && (prefix + clean)[|prefix|..] == clean;
  }

  /** Two namespaces never reach one blob, and within one a blob has one normal key. */
  lemma NamespacesApart(a: Bytes, b: Bytes, k: Bytes, l: Bytes)
    requires ValidName(a) && ValidName(b)
    requires Scoped(BlobKeyPrefix(a), k).Some? && Scoped(BlobKeyPrefix(a), k) == Scoped(BlobKeyPrefix(b), l)
    ensures a == b && Normalized(k) == Normalized(l)
  {
    BlobKeyPrefixesApart(a, b, Normalized(k).value, Normalized(l).value);
  }
}
