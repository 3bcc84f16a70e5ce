/** Workload snapshots: how a manager builds one from a policy and how a consumer decodes it. */
module Snapshot {
  import opened Ordering
  import opened Encoding
  import opened Text
  import opened Declarations
  import P = PolicyEncoding
  import A = AuthorizationPolicy
  import Identity

  // Times are whole nanoseconds since the Unix epoch; a wall clock may be before it.
  const SECOND := 1_000_000_000
  const VALIDITY := 30 * SECOND
  const MAX_FUTURE_SKEW := 5 * SECOND
  const MAX_PROJECTION_BYTES := 2 * 1024 * 1024
  const I32_LIMIT: nat := 0x8000_0000
  const I64_LIMIT: nat := 0x8000_0000_0000_0000

  datatype Timestamp = Timestamp(seconds: int, nanos: int)

  datatype Enrollment = Enrollment(principal: Bytes, workload: Bytes)

  datatype Projection = ProxyPeer | EngineJobAdmin

  function KindNumber(k: Projection): nat { if k.ProxyPeer? then 1 else 2 }

  datatype Snapshot = Snapshot(schema: nat, kind: nat, cluster: Bytes, generation: nat, policyDigest: Bytes,
                               projectionDigest: Bytes, issuedAt: Option<Timestamp>, validUntil: Option<Timestamp>,
                               enrollmentCount: nat, revokedCount: nat, enrollments: seq<Enrollment>, revoked: seq<Bytes>)

  function EnrollmentRow(e: Enrollment): Row { [e.principal, e.workload] }

  // ---- the projection digest ---------------------------------------------------------------------------

  predicate Fits(s: Snapshot) {
    && s.schema < U32_LIMIT && s.kind < U32_LIMIT && s.generation < U64_LIMIT
    && |s.cluster| < U32_LIMIT && |s.policyDigest| < U32_LIMIT
    && RowsFit(Map(EnrollmentRow, s.enrollments)) && RowsFit(Map(P.Cell, s.revoked))
  }

  function ProjectionBytes(domain: Bytes, s: Snapshot): Bytes
    requires Fits(s)
  {
    domain + (U32(s.schema) + (U32(s.kind) + (Str(s.cluster) + (U64(s.generation) + (Str(s.policyDigest)
      + (Table(Map(EnrollmentRow, s.enrollments)) + Table(Map(P.Cell, s.revoked))))))))
  }

  /** `projection_digest`. */
  function ProjectionDigest(domain: Bytes, sha: Bytes -> Hash, s: Snapshot): Option<Bytes> {
    if Fits(s) then Some(DigestText(sha(ProjectionBytes(domain, s)))) else None
  }

  /** The digest covers everything but itself, the counts and the times. */
  lemma ProjectionDetermines(domain: Bytes, s: Snapshot, t: Snapshot)
    requires Fits(s) && Fits(t) && ProjectionBytes(domain, s) == ProjectionBytes(domain, t)
    ensures s.schema == t.schema && s.kind == t.kind && s.cluster == t.cluster && s.generation == t.generation
    ensures s.policyDigest == t.policyDigest && s.enrollments == t.enrollments && s.revoked == t.revoked
  {
    var s6, t6 := Table(Map(P.Cell, s.revoked)), Table(Map(P.Cell, t.revoked));
    var s5, t5 := Table(Map(EnrollmentRow, s.enrollments)) + s6, Table(Map(EnrollmentRow, t.enrollments)) + t6;
    var s4, t4 := Str(s.policyDigest) + s5, Str(t.policyDigest) + t5;
    var s3, t3 := U64(s.generation) + s4, U64(t.generation) + t4;
    var s2, t2 := Str(s.cluster) + s3, Str(t.cluster) + t3;
    SplitEqual(domain, domain, U32(s.schema) + (U32(s.kind) + s2), U32(t.schema) + (U32(t.kind) + t2));
    U32PrefixFree(s.schema, t.schema, U32(s.kind) + s2, U32(t.kind) + t2);
    U32PrefixFree(s.kind, t.kind, s2, t2);
    StrPrefixFree(s.cluster, t.cluster, s3, t3);
    U64PrefixFree(s.generation, t.generation, s4, t4);
    StrPrefixFree(s.policyDigest, t.policyDigest, s5, t5);
    P.RowsTellAll();
    EnrollmentsTell();
    P.RecordsReadBack(EnrollmentRow, 2, s.enrollments, t.enrollments, s6, t6);
    assert s6 + [] == s6 && t6 + [] == t6;
    P.RecordsReadBack(P.Cell, 1, s.revoked, t.revoked, [], []);
  }

  lemma EnrollmentsTell()
    ensures P.RowsTell(EnrollmentRow)
  {
    forall x, y | EnrollmentRow(x) == EnrollmentRow(y) ensures x == y {
      assert EnrollmentRow(x)[0] == EnrollmentRow(y)[0] && EnrollmentRow(x)[1] == EnrollmentRow(y)[1];
    }
  }

  // ---- the wire format: a faithful protobuf codec with protobuf's lengths ------------------------------------

  datatype Codec = Codec(encode: Snapshot -> Bytes, decode: Bytes -> Option<Snapshot>)

  function VarLen(n: nat): nat { if n < 128 then 1 else 1 + VarLen(n / 128) }

  function NumberLen(n: nat): nat { if n == 0 then 0 else 1 + VarLen(n) }

  function DelimitedLen(n: nat): nat { 1 + VarLen(n) + n }

  function StringLen(s: Bytes): nat { if s == [] then 0 else DelimitedLen(|s|) }

  function TimestampLen(t: Option<Timestamp>): nat {
    if t.None? || t.value.seconds < 0 || t.value.nanos < 0 then 0
    else DelimitedLen(NumberLen(t.value.seconds) + NumberLen(t.value.nanos))
  }

  function EnrollmentLen(e: Enrollment): nat { DelimitedLen(StringLen(e.principal) + StringLen(e.workload)) }

  function RevokedLen(s: Bytes): nat { DelimitedLen(|s|) }

  /** The encoded length of a snapshot whose times are not negative. */
  function EncodedLen(s: Snapshot): nat {
    NumberLen(s.schema) + NumberLen(s.kind) + StringLen(s.cluster) + NumberLen(s.generation) + StringLen(s.policyDigest)
    + StringLen(s.projectionDigest) + TimestampLen(s.issuedAt) + TimestampLen(s.validUntil)
    + NumberLen(s.enrollmentCount) + NumberLen(s.revokedCount)
    + Sum(EnrollmentLen, s.enrollments) + Sum(RevokedLen, s.revoked)
  }

  predicate ValidTime(t: Option<Timestamp>) {
    t.Some? && 0 <= t.value.seconds < I64_LIMIT && 0 <= t.value.nanos < SECOND
  }

  predicate TextEnrollment(e: Enrollment) { ValidUtf8(e.principal) && ValidUtf8(e.workload) }

  /** What the fields of the message can hold: numbers of their width, an enumeration of 32 bits with a sign, and
      strings of UTF-8. */
  predicate Representable(s: Snapshot) {
    && s.schema < U32_LIMIT && s.kind < I32_LIMIT && s.generation < U64_LIMIT
    && s.enrollmentCount < U32_LIMIT && s.revokedCount < U32_LIMIT
    && ValidTime(s.issuedAt) && ValidTime(s.validUntil)
    && ValidUtf8(s.cluster) && ValidUtf8(s.policyDigest) && ValidUtf8(s.projectionDigest)
    && (forall e :: e in s.enrollments ==> TextEnrollment(e)) && (forall v :: v in s.revoked ==> ValidUtf8(v))
  }

  ghost predicate Faithful(c: Codec) {
    forall s :: Representable(s) ==> c.decode(c.encode(s)) == Some(s) && |c.encode(s)| == EncodedLen(s)
  }

  // ---- building -------------------------------------------------------------------------------------------------

  /** `timestamp`, for a time from the epoch on. */
  function TimeOf(t: nat): Timestamp { Timestamp(t / SECOND, t % SECOND) }

  function OfProxy(n: P.Node): Enrollment { Enrollment(n.principal, n.node) }

  function OfManager(m: P.Manager): Enrollment { Enrollment(m.principal, m.id) }

  function EnrollmentsOf(p: P.Policy, k: Projection): seq<Enrollment> {
    if k.ProxyPeer? then Map(OfProxy, p.proxies) else Map(OfManager, p.managers)
  }

  function Unsigned(p: P.Policy, policyDigest: Bytes, k: Projection, t: nat): Snapshot {
    var e := Sorted(RowLess, EnrollmentRow, EnrollmentsOf(p, k));
    Snapshot(1, KindNumber(k), p.cluster, p.generation, policyDigest, [], Some(TimeOf(t)), Some(TimeOf(t + VALIDITY)),
             |e|, |p.revoked|, e, p.revoked)
  }

  /** `build_snapshot` for a wall time `now` on a clock that shows less than 2^63 seconds. */
  function Build(c: Codec, domain: Bytes, sha: Bytes -> Hash, p: P.Policy, policyDigest: Bytes, k: Projection, now: int): Option<Bytes> {
    if now < 0 || now + VALIDITY >= I64_LIMIT * SECOND then None
    else
      var s := Unsigned(p, policyDigest, k, now);
      match ProjectionDigest(domain, sha, s)
      case None => None
      case Some(d) =>
        var bytes := c.encode(s.(projectionDigest := d));
        if |bytes| <= MAX_PROJECTION_BYTES then Some(bytes) else None
  }

  // ---- decoding -------------------------------------------------------------------------------------------------

  datatype Indexed = Indexed(wire: Snapshot, enrollments: map<Bytes, Bytes>, revocations: set<Bytes>)

  /** `admits`. */
  predicate Admits(x: Indexed, principal: Bytes, leaf: Bytes) { principal in x.enrollments && leaf !in x.revocations }

  datatype SnapshotIdentity = SnapshotIdentity(generation: nat, policyDigest: Bytes, projectionDigest: Bytes)

  function IdentityOf(x: Indexed): SnapshotIdentity {
    SnapshotIdentity(x.wire.generation, x.wire.policyDigest, x.wire.projectionDigest)
  }

  /** `timestamp_duration`. */
  function Duration(t: Option<Timestamp>): Option<nat> {
    if t.None? || t.value.seconds < 0 || !(0 <= t.value.nanos < SECOND) then None
    else Some(t.value.seconds * SECOND + t.value.nanos)
  }

  function Cap(k: Projection): nat { if k.ProxyPeer? then A.MAX_PROXIES else A.MAX_MANAGERS }

  function KindOf(k: Projection): Identity.PrincipalKind {
    if k.ProxyPeer? then Identity.PrincipalKind.Proxy else Identity.PrincipalKind.Manager
  }

  predicate EnrollmentOk(cluster: Bytes, k: Projection, e: Enrollment) {
    var u := Identity.ParseUri(e.principal);
    u.Some? && u.value.cluster == cluster && u.value.kind == KindOf(k) && Identity.ValidName(e.workload)
  }

  /** The checks of the two lists, for given tests of one element. */
  ghost predicate ListsOk(enrollment: Enrollment -> bool, s: Snapshot) {
    && (forall e :: e in s.enrollments ==> enrollment(e)) && Ascending(OrderBy(RowLess, EnrollmentRow), s.enrollments)
    && (forall v :: v in s.revoked ==> ValidDigest(v)) && Ascending(BytesLess, s.revoked)
  }

  predicate HeaderOk(s: Snapshot, cluster: Bytes, k: Projection) {
    && s.schema == 1 && s.generation > 0 && s.kind == KindNumber(k) && s.cluster == cluster && Identity.ValidName(cluster)
    && ValidDigest(s.policyDigest) && ValidDigest(s.projectionDigest)
    && s.enrollmentCount == |s.enrollments| && s.revokedCount == |s.revoked|
    && |s.enrollments| <= Cap(k) && |s.revoked| <= A.MAX_REVOKED_FINGERPRINTS
  }

  predicate TimesOk(s: Snapshot, wall: int) {
    var issued, until := Duration(s.issuedAt), Duration(s.validUntil);
    && issued.Some? && until.Some? && until.value == issued.value + VALIDITY
    && wall >= 0 && issued.value <= wall + MAX_FUTURE_SKEW && wall < until.value
  }

  function IndexOf(s: Snapshot): Indexed { Indexed(s, Index(s.enrollments), set v | v in s.revoked) }

  /** The map that inserting the enrollments one after the other leaves. */
  function Index(s: seq<Enrollment>): map<Bytes, Bytes> {
    if s == [] then map[] else Index(s[..|s| - 1])[s[|s| - 1].principal := s[|s| - 1].workload]
  }

  lemma {:induction false} IndexKeys(s: seq<Enrollment>, principal: Bytes)
    ensures principal in Index(s) <==> exists i :: 0 <= i < |s| && s[i].principal == principal
  {
    if s != [] {
      var front := s[..|s| - 1];
      IndexKeys(front, principal);
      if i :| 0 <= i < |front| && front[i].principal == principal { assert s[i].principal == principal; }
      if i :| 0 <= i < |s| && s[i].principal == principal && i < |front| { assert front[i].principal == principal; }
    }
  }

  /** `decode_snapshot`. */
  ghost function Decoded(c: Codec, domain: Bytes, sha: Bytes -> Hash, enrollment: Enrollment -> bool, raw: Bytes,
                         cluster: Bytes, k: Projection, wall: int): Option<Indexed> {
    if |raw| > MAX_PROJECTION_BYTES then None
    else match c.decode(raw)
      case None => None
      case Some(s) =>
        if c.encode(s) == raw && HeaderOk(s, cluster, k) && ListsOk(enrollment, s)
           && ProjectionDigest(domain, sha, s) == Some(s.projectionDigest) && TimesOk(s, wall)
        then Some(IndexOf(s)) else None
  }

  /** The loops of `decode_snapshot` over the enrollments and the revocations. */
  method CheckLists(enrollment: Enrollment -> bool, s: Snapshot) returns (ok: bool, x: Indexed)
    ensures ok <==> ListsOk(enrollment, s)
    ensures ok ==> x == IndexOf(s)
  {
    RowOrder();
    KeyedOrder(RowLess, EnrollmentRow);
    var entries, first := IndexEnrollments(enrollment, OrderBy(RowLess, EnrollmentRow), s.enrollments);
    var revocations, second := IndexRevocations(s.revoked);
    x := Indexed(s, entries, revocations);
    ok := first && second;
  }

  method IndexEnrollments(enrollment: Enrollment -> bool, less: (Enrollment, Enrollment) -> bool, s: seq<Enrollment>)
    returns (m: map<Bytes, Bytes>, ok: bool)
    requires StrictOrder(less)
    ensures ok <==> (forall e :: e in s ==> enrollment(e)) && Ascending(less, s)
    ensures ok ==> m == Index(s)
  {
    m := map[];
    var previous: Option<Enrollment> := None;
    for i := 0 to |s|
      invariant forall e :: e in s[..i] ==> enrollment(e)
      invariant Ascending(less, s[..i]) && m == Index(s[..i])
      invariant previous == if i == 0 then None else Some(s[i - 1])
    {
      assert s[i] in s;
      if !enrollment(s[i]) || (previous.Some? && !less(previous.value, s[i])) { return m, false; }
      AscendingGrows(less, s, i);
      assert s[..i + 1] == s[..i] + [s[i]];
      previous := Some(s[i]);
      m := m[s[i].principal := s[i].workload];
    }
    assert s[..|s|] == s;
    ok := true;
  }

  lemma AscendingGrows<T(!new)>(less: (T, T) -> bool, s: seq<T>, i: nat)
    requires StrictOrder(less) && i < |s| && Ascending(less, s[..i]) && (i == 0 || less(s[i - 1], s[i]))
    ensures Ascending(less, s[..i + 1])
  {
    var t := s[..i + 1];
    forall a, b | 0 <= a < b < |t| ensures less(t[a], t[b]) {
      if b < i {
        assert less(s[..i][a], s[..i][b]);
      } else if a < i - 1 {
        assert less(s[..i][a], s[..i][i - 1]);
      }
    }
  }

  method IndexRevocations(s: seq<Bytes>) returns (seen: set<Bytes>, ok: bool)
    ensures ok <==> (forall v :: v in s ==> ValidDigest(v)) && Ascending(BytesLess, s)
    ensures ok ==> seen == set v | v in s
  {
    seen := {};
    var prior: Bytes := [];
    BytesOrder();
    for i := 0 to |s|
      invariant forall v :: v in s[..i] ==> ValidDigest(v)
      invariant Ascending(BytesLess, s[..i])
      invariant prior == if i == 0 then [] else s[i - 1]
      invariant seen == set v | v in s[..i]
    {
      assert s[i] in s;
      if !ValidDigest(s[i]) || !BytesLess(prior, s[i]) || s[i] in seen {
        if s[i] in seen {
          var j :| 0 <= j < i && s[j] == s[i];
        }
        return seen, false;
      }
      AscendingGrows(BytesLess, s, i);
      assert s[..i + 1] == s[..i] + [s[i]];
      prior, seen := s[i], seen + {s[i]};
    }
    assert s[..|s|] == s;
    ok := true;
  }

  /** `decode_snapshot`. */
  method DecodeSnapshot(c: Codec, domain: Bytes, sha: Bytes -> Hash, enrollment: Enrollment -> bool, raw: Bytes,
                        cluster: Bytes, k: Projection, wall: int) returns (r: Option<Indexed>)
    ensures r == Decoded(c, domain, sha, enrollment, raw, cluster, k, wall)
  {
    if |raw| > MAX_PROJECTION_BYTES { return None; }
    var s := c.decode(raw);
    if s.None? || c.encode(s.value) != raw || !HeaderOk(s.value, cluster, k) { return None; }
    var ok, x := CheckLists(enrollment, s.value);
    if !ok || ProjectionDigest(domain, sha, s.value) != Some(s.value.projectionDigest) || !TimesOk(s.value, wall) {
      return None;
    }
    return Some(x);
  }
}
