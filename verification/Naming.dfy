/** Storage names derived from namespaces, modules and nodes. */
module Naming {
  import opened Ordering
  import opened Encoding
  import opened Text
  import opened Identity

  const UNDERSCORE: Byte := 95
  const SLASH: Byte := 47
  const POSTGRES_IDENTIFIER_MAX_BYTES := 63
  const MIGRATION_EXECUTOR_SUFFIX_BYTES := 8

  predicate Alphanumeric(b: Byte) { 48 <= b <= 57 || 65 <= b <= 90 || 97 <= b <= 122 }

  function Encoded(b: Byte): Bytes {
    if Alphanumeric(b) then [b]
    else if b == HYPHEN then [UNDERSCORE]
    else [UNDERSCORE, HexDigit(b / 16), HexDigit(b % 16)]
  }

  /** What `storage_component` makes of any string. */
  function Component(s: Bytes): Bytes {
    if s == [] then [] else Encoded(s[0]) + Component(s[1..])
  }

  lemma {:induction false} ComponentAppend(a: Bytes, b: Bytes)
    ensures Component(a + b) == Component(a) + Component(b)
  {
    if a == [] {
      assert a + b == b;
    } else {
      assert (a + b)[1..] == a[1..] + b;
      ComponentAppend(a[1..], b);
      AppendAssociates(Encoded(a[0]), Component(a[1..]), Component(b));
    }
  }

  method StorageComponent(value: Bytes) returns (output: Bytes)
    ensures output == Component(value)
  {
    output := [];
    for i := 0 to |value|
      invariant output == Component(value[..i])
    {
      ComponentAppend(value[..i], [value[i]]);
      assert value[..i + 1] == value[..i] + [value[i]];
      assert Component([value[i]]) == Encoded(value[i]) by { assert [value[i]][1..] == []; }
      if Alphanumeric(value[i]) {
        output := output + [value[i]];
      } else if value[i] == HYPHEN {
        output := output + [UNDERSCORE];
      } else {
        output := output + [UNDERSCORE, HexDigit(value[i] / 16), HexDigit(value[i] % 16)];
      }
    }
    assert value[..|value|] == value;
  }

  predicate NameBytes(s: Bytes) { forall i :: 0 <= i < |s| ==> LowerOrDigit(s[i]) || s[i] == HYPHEN }

  predicate IdentifierByte(b: Byte) { Alphanumeric(b) || b == UNDERSCORE }

  lemma {:induction false} ComponentBytes(s: Bytes)
    ensures forall i :: 0 <= i < |Component(s)| ==> IdentifierByte(Component(s)[i])
  {
    if s != [] { ComponentBytes(s[1..]); }
  }

  /** On name bytes the encoding is one to one, byte for byte. */
  lemma {:induction false} ComponentOfName(s: Bytes)
    requires NameBytes(s)
    ensures |Component(s)| == |s|
    ensures forall i :: 0 <= i < |s| ==> Component(s)[i] == if s[i] == HYPHEN then UNDERSCORE else s[i]
  {
    if s != [] { ComponentOfName(s[1..]); }
  }

  lemma ComponentInjective(a: Bytes, b: Bytes)
    requires NameBytes(a) && NameBytes(b) && Component(a) == Component(b)
    ensures a == b
  {
    ComponentOfName(a);
    ComponentOfName(b);
    forall i | 0 <= i < |a| ensures a[i] == b[i] {
      assert Component(a)[i] == Component(b)[i];
    }
  }

  /** Off the accepted names it is not: a hyphen followed by hexadecimal digits looks like an encoded byte. */
  lemma ComponentCollides()
    ensures Component([HYPHEN, 53, 102]) == Component([UNDERSCORE]) == [UNDERSCORE, 53, 102]
  {
    var a: Bytes, b: Bytes := [HYPHEN, 53, 102], [UNDERSCORE];
    assert a[1..] == [53, 102] && a[1..][1..] == [102] && a[1..][1..][1..] == [] && b[1..] == [];
    assert Component([102]) == [102] && Component([53, 102]) == [53, 102];
  }

  // ---- bounded identifiers ---------------------------------------------------------------------------

  /** The hexadecimal digest of a domain and its components. */
  type HexDigest = h: Bytes | |h| == 64 && forall i :: 0 <= i < |h| ==> LowerHex(h[i]) witness seq(64, _ => 48)
  type Digest = (Bytes, seq<Bytes>) -> HexDigest

  function JoinedComponents(components: seq<Bytes>): Bytes {
    if components == [] then []
    else if |components| == 1 then Component(components[0])
    else Component(components[0]) + [UNDERSCORE, UNDERSCORE] + JoinedComponents(components[1..])
  }

  lemma {:induction false} JoinedBytes(components: seq<Bytes>)
    ensures forall i :: 0 <= i < |JoinedComponents(components)| ==> IdentifierByte(JoinedComponents(components)[i])
  {
    if components != [] {
      ComponentBytes(components[0]);
      JoinedBytes(components[1..]);
    }
  }

  function Identifier(digest: Digest, prefix: Bytes, domain: Bytes, components: seq<Bytes>, alwaysHash: bool, max: nat): Bytes
    requires max >= 13
  {
    var readable := prefix + JoinedComponents(components);
    if !alwaysHash && |readable| <= max then readable
    else
      var kept := if |readable| <= max - 13 then readable else readable[..max - 13];
      kept + [UNDERSCORE] + digest(domain, components)[..12]
  }

  /** Whatever the components are, the identifier is ASCII and within its budget, and truncation cuts no character. */
  lemma IdentifierBounded(digest: Digest, prefix: Bytes, domain: Bytes, components: seq<Bytes>, alwaysHash: bool, max: nat)
    requires max >= 13 && AsciiText(prefix)
    ensures |Identifier(digest, prefix, domain, components, alwaysHash, max)| <= max
    ensures AsciiText(Identifier(digest, prefix, domain, components, alwaysHash, max))
    ensures AsciiText(prefix + JoinedComponents(components))
  {
    JoinedBytes(components);
    var hex: Bytes := digest(domain, components);
    assert forall i :: 0 <= i < 12 ==> LowerHex(hex[i]);
  }

  const WR_NS: Bytes := [119, 114, 95, 110, 115, 95]
  const WR_DB: Bytes := [119, 114, 95, 100, 98, 95]
  const WR_OWNER: Bytes := [119, 114, 95, 111, 119, 110, 101, 114, 95]
  const WR_MAINT: Bytes := [119, 114, 95, 109, 97, 105, 110, 116, 95]
  const WR_RUNTIME: Bytes := [119, 114, 95, 114, 117, 110, 116, 105, 109, 101, 95]
  const WR_READY: Bytes := [119, 114, 95, 114, 101, 97, 100, 121, 95]
  const WR_MIGRATE: Bytes := [119, 114, 95, 109, 105, 103, 114, 97, 116, 101, 95]

  datatype Purpose = Group | Database | Owner | Maintenance

  function PurposePrefix(p: Purpose): (r: Bytes)
    ensures 6 <= |r| <= 9 && AsciiText(r)
  {
    match p case Group => WR_NS case Database => WR_DB case Owner => WR_OWNER case Maintenance => WR_MAINT
  }

  /** The kinds of databases and roles that are named. */
  datatype Kind = Namespaced(purpose: Purpose) | Runtime | Readiness | Executor

  function KindPrefix(k: Kind): (r: Bytes)
    ensures 6 <= |r| <= 11 && AsciiText(r)
  {
    match k
    case Namespaced(p) => PurposePrefix(p)
    case Runtime => WR_RUNTIME
    case Readiness => WR_READY
    case Executor => WR_MIGRATE
  }

  function Room(k: Kind): (n: nat)
    ensures 24 <= n <= POSTGRES_IDENTIFIER_MAX_BYTES
  {
    POSTGRES_IDENTIFIER_MAX_BYTES - if k.Executor? then MIGRATION_EXECUTOR_SUFFIX_BYTES + 1 else 0
  }

  function StorageName(digest: Digest, k: Kind, domain: Bytes, components: seq<Bytes>): (r: Bytes)
    ensures |r| <= Room(k) && AsciiText(r)
  {
    IdentifierBounded(digest, KindPrefix(k), domain, components, !k.Namespaced?, Room(k));
    Identifier(digest, KindPrefix(k), domain, components, !k.Namespaced?, Room(k))
  }

  /** `namespace_runtime_group`, `namespace_database`, `namespace_owner` and `namespace_maintenance_role`. */
  function NamespaceIdentifier(digest: Digest, p: Purpose, domain: Bytes, namespace: Bytes): (r: Bytes)
    ensures |r| <= POSTGRES_IDENTIFIER_MAX_BYTES && AsciiText(r)
  {
    StorageName(digest, Namespaced(p), domain, [namespace])
  }

  function LoginKind(readiness: bool): Kind { if readiness then Readiness else Runtime }

  /** `namespace_runtime_login` and `namespace_readiness_verifier`. */
  function LoginIdentifier(digest: Digest, readiness: bool, domain: Bytes, node: Bytes, namespace: Bytes): (r: Bytes)
    ensures |r| <= POSTGRES_IDENTIFIER_MAX_BYTES && AsciiText(r)
  {
    StorageName(digest, LoginKind(readiness), domain, [node, namespace])
  }

  /** `migration_executor_prefix`: a nonce of eight more characters still fits. */
  function ExecutorPrefix(digest: Digest, domain: Bytes, namespace: Bytes): (r: Bytes)
    ensures |r| + MIGRATION_EXECUTOR_SUFFIX_BYTES <= POSTGRES_IDENTIFIER_MAX_BYTES && AsciiText(r)
  {
    StorageName(digest, Executor, domain, [namespace]) + [UNDERSCORE]
  }

  /** For accepted namespaces these identifiers are never hashed, and no two of them coincide,
      neither for two purposes nor for two namespaces. */
  lemma NamespaceIdentifiersDistinct(digest: Digest, p: Purpose, q: Purpose, d: Bytes, e: Bytes, a: Bytes, b: Bytes)
    requires ValidName(a) && ValidName(b)
    requires NamespaceIdentifier(digest, p, d, a) == NamespaceIdentifier(digest, q, e, b)
    ensures p == q && a == b
  {
    ReadableIdentifier(digest, p, d, a);
    ReadableIdentifier(digest, q, e, b);
    var x, y := PurposePrefix(p), PurposePrefix(q);
    assert (x + Component(a))[3] == x[3] && (y + Component(b))[3] == y[3];
    SplitEqual(x, y, Component(a), Component(b));
    ComponentInjective(a, b);
  }

  lemma ReadableIdentifier(digest: Digest, p: Purpose, d: Bytes, a: Bytes)
    requires ValidName(a)
    ensures NamespaceIdentifier(digest, p, d, a) == PurposePrefix(p) + Component(a)
  {
    ComponentOfName(a);
  }

  // ---- roles of different kinds ------------------------------------------------------------------------

  predicate StartsWith(s: Bytes, prefix: Bytes) { |prefix| <= |s| && s[..|prefix|] == prefix }

  lemma IdentifierStarts(digest: Digest, prefix: Bytes, domain: Bytes, components: seq<Bytes>, alwaysHash: bool, max: nat)
    requires |prefix| + 13 <= max
    ensures StartsWith(Identifier(digest, prefix, domain, components, alwaysHash, max), prefix)
  {
  }

  lemma PrefixesApart(s: Bytes, j: Kind, k: Kind)
    requires StartsWith(s, KindPrefix(j)) && StartsWith(s, KindPrefix(k))
    ensures j == k
  {
    var x, y := KindPrefix(j), KindPrefix(k);
    assert s[3] == s[..|x|][3] == s[..|y|][3] && s[4] == s[..|x|][4] == s[..|y|][4];
  }

  /** Whatever the inputs and whatever is appended, hashed or not, names of two kinds never coincide. */
  lemma KindsApart(digest: Digest, j: Kind, k: Kind, d: Bytes, e: Bytes, a: seq<Bytes>, b: seq<Bytes>, m: Bytes, n: Bytes)
    requires StorageName(digest, j, d, a) + m == StorageName(digest, k, e, b) + n
    ensures j == k
  {
    IdentifierStarts(digest, KindPrefix(j), d, a, !j.Namespaced?, Room(j));
    IdentifierStarts(digest, KindPrefix(k), e, b, !k.Namespaced?, Room(k));
    var s := StorageName(digest, j, d, a) + m;
    assert s[..|KindPrefix(j)|] == KindPrefix(j) && s[..|KindPrefix(k)|] == KindPrefix(k);
    PrefixesApart(s, j, k);
  }

  /** Names of executors for two accepted namespaces never coincide, whatever their nonces. */
  lemma ExecutorsApart(digest: Digest, d: Bytes, a: Bytes, b: Bytes, m: Bytes, n: Bytes)
    requires ValidName(a) && ValidName(b) && |m| == |n| == MIGRATION_EXECUTOR_SUFFIX_BYTES
    requires ExecutorPrefix(digest, d, a) + m == ExecutorPrefix(digest, d, b) + n
    ensures a == b && m == n
  {
    ReadableExecutor(digest, d, a);
    ReadableExecutor(digest, d, b);
    ComponentOfName(a);
    ComponentOfName(b);
    var x, y := ExecutorPrefix(digest, d, a), ExecutorPrefix(digest, d, b);
    SplitEqual(x, y, m, n);
    var u, v := [UNDERSCORE] + digest(d, [a])[..12] + [UNDERSCORE], [UNDERSCORE] + digest(d, [b])[..12] + [UNDERSCORE];
    SplitEqual(WR_MIGRATE + Component(a), WR_MIGRATE + Component(b), u, v);
    SplitEqual(WR_MIGRATE, WR_MIGRATE, Component(a), Component(b));
    ComponentInjective(a, b);
  }

  lemma ReadableExecutor(digest: Digest, d: Bytes, a: Bytes)
    requires ValidName(a)
    ensures ExecutorPrefix(digest, d, a) == WR_MIGRATE + Component(a) + ([UNDERSCORE] + digest(d, [a])[..12] + [UNDERSCORE])
  {
    ComponentOfName(a);
  }

  // ---- module schemas --------------------------------------------------------------------------------

  const WR: Bytes := [119, 114, 95, 95]

  /** `module_schema`. */
  function Schema(namespace: Bytes, name: Bytes): Bytes {
    WR + (Component(namespace) + ([UNDERSCORE, UNDERSCORE] + Component(name)))
  }

  predicate ValidPair(namespace: Bytes, name: Bytes) { ValidName(namespace) && ValidName(name) }

  /** The schema name only shows the two names with two hyphens between them. */
  function Dashed(namespace: Bytes, name: Bytes): Bytes { namespace + ([HYPHEN, HYPHEN] + name) }

  lemma SchemaIsDashed(namespace: Bytes, name: Bytes)
    ensures Schema(namespace, name) == WR + Component(Dashed(namespace, name))
  {
    var dashes: Bytes := [HYPHEN, HYPHEN];
    ComponentAppend(namespace, dashes + name);
    ComponentAppend(dashes, name);
    assert dashes[1..] == [HYPHEN] && dashes[1..][1..] == [];
    assert Component([HYPHEN]) == [UNDERSCORE] && Component(dashes) == [UNDERSCORE, UNDERSCORE];
  }

  lemma SameSchemaSameDashed(a: Bytes, b: Bytes, c: Bytes, d: Bytes)
    requires ValidPair(a, b) && ValidPair(c, d)
    ensures Schema(a, b) == Schema(c, d) <==> Dashed(a, b) == Dashed(c, d)
  {
    SchemaIsDashed(a, b);
    SchemaIsDashed(c, d);
    if Schema(a, b) == Schema(c, d) {
      SplitEqual(WR, WR, Component(Dashed(a, b)), Component(Dashed(c, d)));
      ComponentInjective(Dashed(a, b), Dashed(c, d));
    }
  }

  /** Two hyphens at `i`, and no more, between two names. */
  predicate DashesAt(s: Bytes, i: nat) {
    0 < i && i + 2 < |s| && s[i] == s[i + 1] == HYPHEN && s[i - 1] != HYPHEN && s[i + 2] != HYPHEN
  }

  predicate NoDashes(s: Bytes) { forall i :: 0 <= i < |s| - 1 ==> s[i] != HYPHEN || s[i + 1] != HYPHEN }

  /** The namespace can give its part after two hyphens to the module name, or the name its part before them
      to the namespace, and both stay within the length limit. */
  ghost predicate Shiftable(namespace: Bytes, name: Bytes) {
    || (exists i :: DashesAt(namespace, i) && |namespace| - i + |name| <= MAX_STABLE_NAME_LEN)
    || (exists i :: DashesAt(name, i) && |namespace| + 2 + i <= MAX_STABLE_NAME_LEN)
  }

  lemma ShorterNamespace(a: Bytes, b: Bytes, c: Bytes, d: Bytes)
    requires ValidPair(a, b) && ValidPair(c, d) && Dashed(a, b) == Dashed(c, d) && |c| < |a|
    ensures DashesAt(a, |c|) && |a| - |c| + |b| <= MAX_STABLE_NAME_LEN
    ensures DashesAt(d, |a| - |c| - 2) && |c| + 2 + (|a| - |c| - 2) <= MAX_STABLE_NAME_LEN
  {
    var x, y, n := Dashed(a, b), Dashed(c, d), |c|;
    assert x[n] == a[n] && y[n] == HYPHEN && y[n + 1] == HYPHEN && |x| == |a| + 2 + |b| && |y| == n + 2 + |d|;
    assert x[n - 1] == a[n - 1] && y[n - 1] == c[n - 1];
    assert n + 1 < |a| && x[n + 1] == a[n + 1];
    assert n + 2 < |a| && x[n + 2] == a[n + 2] && y[n + 2] == d[0];
    var m := |a|;
    assert x[m] == HYPHEN && x[m + 1] == HYPHEN && x[m + 2] == b[0] && x[m - 1] == a[m - 1];
    assert y[m] == d[m - n - 2] && y[m + 1] == d[m - n - 1] && y[m - 1] == d[m - n - 3] && y[m + 2] == d[m - n];
  }

  lemma ShiftNamespace(a: Bytes, b: Bytes, i: nat)
    requires ValidPair(a, b) && DashesAt(a, i) && |a| - i + |b| <= MAX_STABLE_NAME_LEN
    ensures var c, d := a[..i], a[i + 2..] + ([HYPHEN, HYPHEN] + b);
      ValidPair(c, d) && c != a && Dashed(c, d) == Dashed(a, b)
  {
    var c, d := a[..i], a[i + 2..] + ([HYPHEN, HYPHEN] + b);
    assert a == c + ([HYPHEN, HYPHEN] + a[i + 2..]);
  }

  lemma ShiftName(a: Bytes, b: Bytes, i: nat)
    requires ValidPair(a, b) && DashesAt(b, i) && |a| + 2 + i <= MAX_STABLE_NAME_LEN
    ensures var c, d := a + ([HYPHEN, HYPHEN] + b[..i]), b[i + 2..];
      ValidPair(c, d) && c != a && Dashed(c, d) == Dashed(a, b)
  {
    var c, d := a + ([HYPHEN, HYPHEN] + b[..i]), b[i + 2..];
    assert b == b[..i] + ([HYPHEN, HYPHEN] + d);
    assert c[|c| - 1] == b[i - 1] && d[0] == b[i + 2] && d[|d| - 1] == b[|b| - 1];
  }

  /** An accepted pair shares its schema with another accepted pair exactly when it is shiftable. */
  lemma SchemaSharedExactly(a: Bytes, b: Bytes)
    requires ValidPair(a, b)
    ensures (exists c, d :: ValidPair(c, d) && (c, d) != (a, b) && Schema(c, d) == Schema(a, b)) <==> Shiftable(a, b)
  {
    if i: nat :| DashesAt(a, i) && |a| - i + |b| <= MAX_STABLE_NAME_LEN {
      ShiftNamespace(a, b, i);
      SameSchemaSameDashed(a[..i], a[i + 2..] + ([HYPHEN, HYPHEN] + b), a, b);
    }
    if i: nat :| DashesAt(b, i) && |a| + 2 + i <= MAX_STABLE_NAME_LEN {
      ShiftName(a, b, i);
      SameSchemaSameDashed(a + ([HYPHEN, HYPHEN] + b[..i]), b[i + 2..], a, b);
    }
    if c, d :| ValidPair(c, d) && (c, d) != (a, b) && Schema(c, d) == Schema(a, b) {
      SameSchemaSameDashed(a, b, c, d);
      SharedShifts(a, b, c, d);
    }
  }

  lemma SharedShifts(a: Bytes, b: Bytes, c: Bytes, d: Bytes)
    requires ValidPair(a, b) && ValidPair(c, d) && Dashed(a, b) == Dashed(c, d) && (c, d) != (a, b)
    ensures Shiftable(a, b)
  {
    if |c| < |a| {
      ShorterNamespace(a, b, c, d);
    } else if |a| < |c| {
      ShorterNamespace(c, d, a, b);
      assert DashesAt(b, |c| - |a| - 2);
    } else {
      SplitEqual(a, c, [HYPHEN, HYPHEN] + b, [HYPHEN, HYPHEN] + d);
      SplitEqual([HYPHEN, HYPHEN], [HYPHEN, HYPHEN], b, d);
    }
  }

  /** Without consecutive hyphens schemas are distinct. */
  lemma SchemaInjective(a: Bytes, b: Bytes, c: Bytes, d: Bytes)
    requires ValidPair(a, b) && ValidPair(c, d) && NoDashes(a) && NoDashes(b)
    requires Schema(a, b) == Schema(c, d)
    ensures a == c && b == d
  {
    SameSchemaSameDashed(a, b, c, d);
    if (c, d) != (a, b) {
      SharedShifts(a, b, c, d);
      assert forall i :: !DashesAt(a, i) && !DashesAt(b, i);
    }
  }

  /** The smallest collision: `a` with `b--c`, and `a--b` with `c`. */
  lemma SchemaCollides()
    ensures var b: Bytes, ab: Bytes := [98, HYPHEN, HYPHEN, 99], [97, HYPHEN, HYPHEN, 98];
      ValidPair([97], b) && ValidPair(ab, [99]) && Schema([97], b) == Schema(ab, [99])
  {
    var b: Bytes, ab: Bytes := [98, HYPHEN, HYPHEN, 99], [97, HYPHEN, HYPHEN, 98];
    assert Dashed([97], b) == Dashed(ab, [99]);
    SameSchemaSameDashed([97], b, ab, [99]);
  }

  // ---- logins ------------------------------------------------------------------------------------------

  function Cut(s: Bytes, n: nat): Bytes { if |s| <= n then s else s[..n] }

  /** What a login name has room to show of a node and a namespace. */
  function Shown(readiness: bool, node: Bytes, namespace: Bytes): Bytes {
    Cut(Dashed(node, namespace), if readiness then 41 else 39)
  }

  lemma JoinedIsDashed(node: Bytes, namespace: Bytes)
    ensures JoinedComponents([node, namespace]) == Component(Dashed(node, namespace))
  {
    var two, dashes: Bytes := [node, namespace], [HYPHEN, HYPHEN];
    assert two[1..] == [namespace];
    ComponentAppend(node, dashes + namespace);
    ComponentAppend(dashes, namespace);
    assert dashes[1..] == [HYPHEN] && dashes[1..][1..] == [];
    assert Component([HYPHEN]) == [UNDERSCORE] && Component(dashes) == [UNDERSCORE, UNDERSCORE];
  }

  lemma ComponentCut(s: Bytes, n: nat)
    requires NameBytes(s)
    ensures NameBytes(Cut(s, n)) && Cut(Component(s), n) == Component(Cut(s, n))
  {
    ComponentOfName(s);
    if n < |s| { ComponentOfName(s[..n]); }
  }

  lemma CutBehind(prefix: Bytes, s: Bytes, n: nat)
    requires |prefix| <= n
    ensures Cut(prefix + s, n) == prefix + Cut(s, n - |prefix|)
  {
    if |prefix + s| > n { assert (prefix + s)[..n] == prefix + s[..n - |prefix|]; }
  }

  lemma HashedIdentifier(digest: Digest, prefix: Bytes, d: Bytes, components: seq<Bytes>, s: Bytes)
    requires NameBytes(s) && JoinedComponents(components) == Component(s) && |prefix| <= 50
    ensures Identifier(digest, prefix, d, components, true, POSTGRES_IDENTIFIER_MAX_BYTES)
         == prefix + Component(Cut(s, 50 - |prefix|)) + ([UNDERSCORE] + digest(d, components)[..12])
  {
    CutBehind(prefix, Component(s), 50);
    ComponentCut(s, 50 - |prefix|);
    AppendAssociates(prefix + Component(Cut(s, 50 - |prefix|)), [UNDERSCORE], digest(d, components)[..12]);
  }

  lemma DashedIsName(a: Bytes, b: Bytes)
    requires ValidPair(a, b)
    ensures NameBytes(Dashed(a, b))
  {
  }

  lemma LoginShows(digest: Digest, readiness: bool, d: Bytes, node: Bytes, namespace: Bytes)
    requires ValidPair(node, namespace)
    ensures NameBytes(Shown(readiness, node, namespace))
    ensures LoginIdentifier(digest, readiness, d, node, namespace)
         == KindPrefix(LoginKind(readiness)) + Component(Shown(readiness, node, namespace))
            + ([UNDERSCORE] + digest(d, [node, namespace])[..12])
  {
    var prefix, s := KindPrefix(LoginKind(readiness)), Dashed(node, namespace);
    JoinedIsDashed(node, namespace);
    DashedIsName(node, namespace);
    ComponentCut(s, 50 - |prefix|);
    HashedIdentifier(digest, prefix, d, [node, namespace], s);
  }

  /** Login names of one sort for accepted names coincide exactly when they show the same and the first twelve digits of
      the two digests agree. */
  lemma LoginSameExactly(digest: Digest, readiness: bool, d: Bytes, a: Bytes, b: Bytes, c: Bytes, e: Bytes)
    requires ValidPair(a, b) && ValidPair(c, e)
    ensures LoginIdentifier(digest, readiness, d, a, b) == LoginIdentifier(digest, readiness, d, c, e)
       <==> Shown(readiness, a, b) == Shown(readiness, c, e) && digest(d, [a, b])[..12] == digest(d, [c, e])[..12]
  {
    LoginShows(digest, readiness, d, a, b);
    LoginShows(digest, readiness, d, c, e);
    var x, y := LoginIdentifier(digest, readiness, d, a, b), LoginIdentifier(digest, readiness, d, c, e);
    var prefix := KindPrefix(LoginKind(readiness));
    var s, t := Shown(readiness, a, b), Shown(readiness, c, e);
    var u, v := [UNDERSCORE] + digest(d, [a, b])[..12], [UNDERSCORE] + digest(d, [c, e])[..12];
    if x == y {
      assert |prefix + Component(s)| == |prefix + Component(t)|;
      SplitEqual(prefix + Component(s), prefix + Component(t), u, v);
      SplitEqual(prefix, prefix, Component(s), Component(t));
      SplitEqual([UNDERSCORE], [UNDERSCORE], digest(d, [a, b])[..12], digest(d, [c, e])[..12]);
      ComponentInjective(s, t);
    }
  }

  // ---- blob keys -------------------------------------------------------------------------------------

  const WR_SLASH: Bytes := [119, 114, 47]

  /** `blob_key_prefix`. */
  function BlobKeyPrefix(namespace: Bytes): Bytes { WR_SLASH + (Component(namespace) + [SLASH]) }

  lemma ComponentWithoutSlash(s: Bytes)
    ensures SLASH !in Component(s)
  {
    ComponentBytes(s);
  }

  /** A key that starts with the prefixes of two accepted namespaces has one namespace. */
  lemma BlobKeyPrefixesApart(a: Bytes, b: Bytes, x: Bytes, y: Bytes)
    requires ValidName(a) && ValidName(b) && BlobKeyPrefix(a) + x == BlobKeyPrefix(b) + y
    ensures a == b && x == y
  {
    var c, d := Component(a), Component(b);
    AppendAssociates(WR_SLASH, c + [SLASH], x);
    AppendAssociates(WR_SLASH, d + [SLASH], y);
    SplitEqual(WR_SLASH, WR_SLASH, c + [SLASH] + x, d + [SLASH] + y);
    AppendAssociates(c, [SLASH], x);
    AppendAssociates(d, [SLASH], y);
    ComponentWithoutSlash(a);
    ComponentWithoutSlash(b);
    SplitFirst(SLASH, c, x);
    SplitFirst(SLASH, d, y);
    assert c == ([c] + Split(SLASH, x))[0] == ([d] + Split(SLASH, y))[0] == d;
    ComponentInjective(a, b);
    SplitEqual(c, d, [SLASH] + x, [SLASH] + y);
    SplitEqual([SLASH], [SLASH], x, y);
  }
}
