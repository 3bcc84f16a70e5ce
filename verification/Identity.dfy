/** Stable names and principal URIs. */
module Identity {
  import opened Ordering
  import opened Text

  const MAX_STABLE_NAME_LEN := 24

  predicate LowerOrDigit(b: Byte) { 97 <= b <= 122 || 48 <= b <= 57 }

  const HYPHEN: Byte := 45
  const COLON: Byte := 58

  /** `validate_name`. */
  predicate ValidName(s: Bytes) {
    && 0 < |s| <= MAX_STABLE_NAME_LEN
    && LowerOrDigit(s[0])
    && LowerOrDigit(s[|s| - 1])
    && forall i :: 0 <= i < |s| ==> LowerOrDigit(s[i]) || s[i] == HYPHEN
  }

  datatype PrincipalKind = Human | ServiceAccount | Manager | Proxy | NodeAgent | PostgresClient

  /** `PrincipalKind::as_str`. */
  function KindText(k: PrincipalKind): (r: Bytes)
    ensures COLON !in r
  {
    match k
    case Human => [104, 117, 109, 97, 110]
    case ServiceAccount => [115, 101, 114, 118, 105, 99, 101, 45, 97, 99, 99, 111, 117, 110, 116]
    case Manager => [109, 97, 110, 97, 103, 101, 114]
    case Proxy => [112, 114, 111, 120, 121]
    case NodeAgent => [110, 111, 100, 101, 45, 97, 103, 101, 110, 116]
    case PostgresClient => [112, 111, 115, 116, 103, 114, 101, 115, 45, 99, 108, 105, 101, 110, 116]
  }

  /** `PrincipalKind::from_str`. */
  function ParseKind(s: Bytes): (r: Option<PrincipalKind>)
    ensures r.Some? ==> KindText(r.value) == s
  {
    if s == KindText(Human) then Some(Human)
    else if s == KindText(ServiceAccount) then Some(ServiceAccount)
    else if s == KindText(Manager) then Some(Manager)
    else if s == KindText(Proxy) then Some(Proxy)
    else if s == KindText(NodeAgent) then Some(NodeAgent)
    else if s == KindText(PostgresClient) then Some(PostgresClient)
    else None
  }

  lemma KindRoundTrip(k: PrincipalKind)
    ensures ParseKind(KindText(k)) == Some(k)
  {
    // Initials, and lengths where initials agree, tell the kinds apart.
    assert KindText(Human)[0] == 104 && KindText(ServiceAccount)[0] == 115 && KindText(Manager)[0] == 109;
    assert KindText(Proxy)[0] == 112 && KindText(NodeAgent)[0] == 110 && KindText(PostgresClient)[0] == 112;
  }

  datatype Principal = Principal(cluster: Bytes, kind: PrincipalKind, name: Bytes)

  const URN: Bytes := [117, 114, 110]
  const WRUNTIME: Bytes := [119, 114, 117, 110, 116, 105, 109, 101]

  /** `PrincipalUri::new`: the text of a principal. */
  function UriText(p: Principal): Bytes {
    Join(COLON, [URN, WRUNTIME, p.cluster, KindText(p.kind), p.name])
  }

  predicate ValidPrincipal(p: Principal) { ValidName(p.cluster) && ValidName(p.name) }

  /** `PrincipalUri::parse`. */
  function ParseUri(value: Bytes): Option<Principal> {
    var s := Split(COLON, value);
    if |s| != 5 || s[0] != URN || s[1] != WRUNTIME || !ValidName(s[2]) || !ValidName(s[4]) then None
    else match ParseKind(s[3])
      case None => None
      case Some(kind) =>
        var p := Principal(s[2], kind, s[4]);
        if UriText(p) != value then None else Some(p)
  }

  lemma NameWithoutColon(s: Bytes)
    requires ValidName(s)
    ensures COLON !in s
  {
  }

  lemma UriSegments(p: Principal)
    requires ValidPrincipal(p)
    ensures Split(COLON, UriText(p)) == [URN, WRUNTIME, p.cluster, KindText(p.kind), p.name]
  {
    NameWithoutColon(p.cluster);
    NameWithoutColon(p.name);
    SplitJoin(COLON, [URN, WRUNTIME, p.cluster, KindText(p.kind), p.name]);
  }

  /** The accepted URIs are exactly the texts of valid principals, each of one principal only;
      the byte-exact comparison at the end of `parse` never rejects anything. */
  lemma UriExact(value: Bytes, p: Principal)
    ensures ParseUri(value) == Some(p) <==> ValidPrincipal(p) && value == UriText(p)
  {
    if ValidPrincipal(p) && value == UriText(p) {
      UriSegments(p);
      KindRoundTrip(p.kind);
    }
  }

  lemma ComparisonRedundant(value: Bytes)
    ensures var s := Split(COLON, value);
      |s| == 5 && s[0] == URN && s[1] == WRUNTIME && ParseKind(s[3]).Some? ==>
        UriText(Principal(s[2], ParseKind(s[3]).value, s[4])) == value
  {
    JoinSplit(COLON, value);
    var s := Split(COLON, value);
    if |s| == 5 { assert s == [s[0], s[1], s[2], s[3], s[4]]; }
  }
}
