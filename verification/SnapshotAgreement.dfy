/** What a manager builds from a loaded policy, a consumer decodes to exactly that policy's admissions. */
module SnapshotAgreement {
  import opened Ordering
  import opened Encoding
  import opened Text
  import opened Declarations
  import opened Snapshot
  import P = PolicyEncoding
  import A = AuthorizationPolicy
  import Identity

  // ---- sizes ---------------------------------------------------------------------------------------------

  function Power(k: nat): nat { if k == 0 then 1 else 128 * Power(k - 1) }

  lemma {:induction false} VarLenAtMost(n: nat, k: nat)
    requires k > 0 && n < Power(k)
    ensures VarLen(n) <= k
  {
    if n >= 128 {
      assert n / 128 < Power(k - 1);
      VarLenAtMost(n / 128, k - 1);
    }
  }

  lemma NumberAtMost(n: nat)
    requires n < U64_LIMIT
    ensures NumberLen(n) <= 11
  {
    assert Power(1) == 128 && Power(2) == 16384 && Power(3) == 2097152 && Power(4) == 268435456;
    assert Power(5) == 34359738368 && Power(6) == 4398046511104 && Power(7) == 562949953421312;
    assert Power(8) == 72057594037927936 && Power(9) == 9223372036854775808;
    assert Power(10) == 1180591620717411303424;
    VarLenAtMost(n, 10);
  }

  lemma {:induction false} SumAtMost<T>(weight: T -> nat, s: seq<T>, w: nat)
    requires forall x :: x in s ==> weight(x) <= w
    ensures Sum(weight, s) <= |s| * w
  {
    if s != [] {
      SumAtMost(weight, s[..|s| - 1], w);
      assert s[|s| - 1] in s;
      assert |s| * w == (|s| - 1) * w + w;
    }
  }

  lemma UriLength(value: Bytes)
    requires Identity.ParseUri(value).Some?
    ensures 0 < |value| <= 78
  {
    var p := Identity.ParseUri(value).value;
    Identity.UriExact(value, p);
    FiveJoined(Identity.URN, Identity.WRUNTIME, p.cluster, Identity.KindText(p.kind), p.name);
    KindLength(p.kind);
  }

  lemma NameValid(s: Bytes)
    requires Identity.ValidName(s)
    ensures AsciiText(s) && ValidUtf8(s)
  {
    AsciiValid(s);
  }

  lemma DigestValid(s: Bytes)
    requires ValidDigest(s)
    ensures ValidUtf8(s)
  {
    forall i | 0 <= i < |s| ensures s[i] < 128 {
      if i < 7 { assert s[i] == s[..7][i]; }
    }
    AsciiValid(s);
  }

  lemma {:induction false} AsciiJoin(parts: seq<Bytes>)
    requires forall i :: 0 <= i < |parts| ==> AsciiText(parts[i])
    ensures AsciiText(Join(Identity.COLON, parts))
  {
    if |parts| > 1 { AsciiJoin(parts[1..]); }
  }

  lemma UriValid(value: Bytes)
    requires Identity.ParseUri(value).Some?
    ensures ValidUtf8(value)
  {
    var p := Identity.ParseUri(value).value;
    Identity.UriExact(value, p);
    NameValid(p.cluster);
    NameValid(p.name);
    UrnAscii();
    KindAscii(p.kind);
    FiveAscii(Identity.URN, Identity.WRUNTIME, p.cluster, Identity.KindText(p.kind), p.name);
    AsciiValid(value);
  }

  lemma UrnAscii()
    ensures AsciiText(Identity.URN) && AsciiText(Identity.WRUNTIME)
  {
  }

  lemma KindAscii(k: Identity.PrincipalKind)
    ensures AsciiText(Identity.KindText(k))
  {
  }

  lemma FiveAscii(a: Bytes, b: Bytes, c: Bytes, d: Bytes, e: Bytes)
    requires AsciiText(a) && AsciiText(b) && AsciiText(c) && AsciiText(d) && AsciiText(e)
    ensures AsciiText(Join(Identity.COLON, [a, b, c, d, e]))
  {
    AsciiJoin([a, b, c, d, e]);
  }

  lemma KindLength(k: Identity.PrincipalKind)
    ensures |Identity.KindText(k)| <= 15
  {
  }

  lemma FiveJoined(a: Bytes, b: Bytes, c: Bytes, d: Bytes, e: Bytes)
    ensures |Join(Identity.COLON, [a, b, c, d, e])| == |a| + |b| + |c| + |d| + |e| + 4
  {
    var s5, s4, s3, s2, s1 := [e], [d, e], [c, d, e], [b, c, d, e], [a, b, c, d, e];
    assert s1[1..] == s2 && s2[1..] == s3 && s3[1..] == s4 && s4[1..] == s5;
    assert |Join(Identity.COLON, s5)| == |e|;
    assert |Join(Identity.COLON, s4)| == |d| + |e| + 1;
    assert |Join(Identity.COLON, s3)| == |c| + |d| + |e| + 2;
    assert |Join(Identity.COLON, s2)| == |b| + |c| + |d| + |e| + 3;
  }

  lemma EnrollmentAtMost(e: Enrollment)
    requires 0 < |e.principal| <= 78 && |e.workload| <= 24
    ensures EnrollmentLen(e) <= 108
  {
  }

  lemma TimestampAtMost(t: Option<Timestamp>)
    requires ValidTime(t)
    ensures TimestampLen(t) <= 24
  {
    NumberAtMost(t.value.seconds);
    NumberAtMost(t.value.nanos);
  }

  predicate ShortEnrollment(e: Enrollment) { 0 < |e.principal| <= 78 && |e.workload| <= 24 }

  ghost predicate Small(s: Snapshot) {
    && Representable(s) && |s.cluster| <= 24 && |s.policyDigest| == 71 && |s.projectionDigest| == 71
    && |s.enrollments| <= A.MAX_PROXIES && |s.revoked| <= A.MAX_REVOKED_FINGERPRINTS
    && (forall e :: e in s.enrollments ==> ShortEnrollment(e))
    && (forall v :: v in s.revoked ==> |v| == 71)
  }

  /** Within the policy's caps a snapshot is always below the limit, so the size check of `load` and `build_snapshot`
      never fails. */
  lemma SmallFits(s: Snapshot)
    requires Small(s)
    ensures EncodedLen(s) <= MAX_PROJECTION_BYTES
  {
    NumberAtMost(s.schema);
    NumberAtMost(s.kind);
    NumberAtMost(s.generation);
    NumberAtMost(s.enrollmentCount);
    NumberAtMost(s.revokedCount);
    TimestampAtMost(s.issuedAt);
    TimestampAtMost(s.validUntil);
    assert StringLen(s.cluster) <= 26 && StringLen(s.policyDigest) == 73 && StringLen(s.projectionDigest) == 73;
    forall e | e in s.enrollments ensures EnrollmentLen(e) <= 108 { EnrollmentAtMost(e); }
    forall v | v in s.revoked ensures RevokedLen(v) <= 73 { assert |v| == 71; }
    SumAtMost(EnrollmentLen, s.enrollments, 108);
    SumAtMost(RevokedLen, s.revoked, 73);
    assert |s.enrollments| * 108 <= 4096 * 108 && |s.revoked| * 73 <= 16384 * 73;
  }

  // ---- what loading guarantees about the lists ----------------------------------------------------------------

  function Test(cluster: Bytes, k: Projection): Enrollment -> bool { e => EnrollmentOk(cluster, k, e) }

  /** A policy whose projections can be published, for a given test of one enrollment. */
  ghost predicate Publishable(test: Enrollment -> bool, p: P.Policy, k: Projection) {
    && Identity.ValidName(p.cluster) && 0 < p.generation < U64_LIMIT
    && Declared(test, EnrollmentRow, EnrollmentsOf(p, k)) && |EnrollmentsOf(p, k)| <= Cap(k)
    && (forall v :: v in p.revoked ==> ValidDigest(v)) && Ascending(BytesLess, p.revoked)
    && |p.revoked| <= A.MAX_REVOKED_FINGERPRINTS
  }

  lemma InCluster(endpoint: Bytes -> bool, raw: A.RawPolicy, principal: Bytes)
    requires Declared(A.TestsOf(endpoint, raw.cluster).principal, A.Uri, raw.principals)
    requires principal in A.Uris(raw.principals)
    ensures Identity.ParseUri(principal).Some? && Identity.ParseUri(principal).value.cluster == raw.cluster
  {
    var x :| x in raw.principals && x.uri == principal;
    assert A.TestsOf(endpoint, raw.cluster).principal(x);
  }

  lemma ManagersPublishable(endpoint: Bytes -> bool, raw: A.RawPolicy)
    requires A.Acceptable(A.TestsOf(endpoint, raw.cluster), raw)
    ensures Declared(Test(raw.cluster, EngineJobAdmin), EnrollmentRow, EnrollmentsOf(A.Canonical(raw), EngineJobAdmin))
    ensures |EnrollmentsOf(A.Canonical(raw), EngineJobAdmin)| <= Cap(EngineJobAdmin)
  {
    var t, uris := A.TestsOf(endpoint, raw.cluster), A.Uris(raw.principals);
    var managers := A.Canonical(raw).managers;
    BytesOrder();
    SortedPermutes(BytesLess, A.ManagerId, raw.managers);
    DeclaredReordered(BytesLess, m => t.manager(uris, m), A.ManagerPrincipal, raw.managers, managers);
    var s := Map(OfManager, managers);
    forall e | e in s ensures Test(raw.cluster, EngineJobAdmin)(e) {
      var i :| 0 <= i < |s| && s[i] == e;
      assert e == OfManager(managers[i]) && managers[i] in managers && t.manager(uris, managers[i]);
      InCluster(endpoint, raw, managers[i].principal);
    }
    forall i, j | 0 <= i < j < |s| ensures EnrollmentRow(s[i]) != EnrollmentRow(s[j]) {
      assert s[i] == OfManager(managers[i]) && s[j] == OfManager(managers[j]);
      assert A.ManagerPrincipal(managers[i]) != A.ManagerPrincipal(managers[j]);
      assert EnrollmentRow(s[i])[0] != EnrollmentRow(s[j])[0];
    }
  }

  lemma ProxiesPublishable(endpoint: Bytes -> bool, raw: A.RawPolicy)
    requires A.Acceptable(A.TestsOf(endpoint, raw.cluster), raw)
    ensures Declared(Test(raw.cluster, ProxyPeer), EnrollmentRow, EnrollmentsOf(A.Canonical(raw), ProxyPeer))
    ensures |EnrollmentsOf(A.Canonical(raw), ProxyPeer)| <= Cap(ProxyPeer)
  {
    var t, uris := A.TestsOf(endpoint, raw.cluster), A.Uris(raw.principals);
    var proxies := A.Canonical(raw).proxies;
    RowOrder();
    SortedPermutes(RowLess, P.NodeRow, raw.proxies);
    A.NodesDeclared(raw);
    DeclaredReordered(RowLess, _ => true, P.NodeRow, raw.proxies, proxies);
    var s := Map(OfProxy, proxies);
    forall e | e in s ensures Test(raw.cluster, ProxyPeer)(e) {
      var i :| 0 <= i < |s| && s[i] == e;
      assert e == OfProxy(proxies[i]) && proxies[i] in raw.proxies && t.proxy(uris, proxies[i]);
      InCluster(endpoint, raw, proxies[i].principal);
    }
    forall i, j | 0 <= i < j < |s| ensures EnrollmentRow(s[i]) != EnrollmentRow(s[j]) {
      assert s[i] == OfProxy(proxies[i]) && s[j] == OfProxy(proxies[j]);
      assert EnrollmentRow(s[i]) == P.NodeRow(proxies[i]) && EnrollmentRow(s[j]) == P.NodeRow(proxies[j]);
    }
  }

  lemma LoadedPublishable(endpoint: Bytes -> bool, domain: Bytes, rawLen: nat, raw: A.RawPolicy, k: Projection)
    requires A.Loaded(A.TestsOf(endpoint, raw.cluster), domain, rawLen, raw).Some?
    ensures Publishable(Test(raw.cluster, k), A.Canonical(raw), k)
  {
    if k.ProxyPeer? { ProxiesPublishable(endpoint, raw); } else { ManagersPublishable(endpoint, raw); }
    BytesOrder();
    SortedPermutes(BytesLess, A.Same, raw.revoked);
    SortedAscends(BytesLess, ValidDigest, A.Same, raw.revoked);
    var revoked := A.Canonical(raw).revoked;
    forall i, j | 0 <= i < j < |revoked| ensures BytesLess(revoked[i], revoked[j]) {
      assert OrderBy(BytesLess, A.Same)(revoked[i], revoked[j]);
    }
  }

  // ---- building and decoding -------------------------------------------------------------------------------------

  lemma TimeRoundTrip(t: nat)
    requires t < I64_LIMIT * SECOND
    ensures ValidTime(Some(TimeOf(t))) && Duration(Some(TimeOf(t))) == Some(t)
  {
  }

  /** The test lets only short texts through. */
  ghost predicate Bounded(test: Enrollment -> bool) { forall e :: test(e) ==> ShortEnrollment(e) && TextEnrollment(e) }

  lemma TestBounds(cluster: Bytes, k: Projection)
    ensures Bounded(Test(cluster, k))
  {
    forall e | Test(cluster, k)(e) ensures ShortEnrollment(e) && TextEnrollment(e) {
      UriLength(e.principal);
      UriValid(e.principal);
      NameValid(e.workload);
    }
  }

  /** The snapshot that is encoded: the digest is taken with its own field empty, which makes no difference. */
  function Signed(domain: Bytes, sha: Bytes -> Hash, p: P.Policy, policyDigest: Bytes, k: Projection, t: nat): Snapshot {
    var s := Unsigned(p, policyDigest, k, t);
    s.(projectionDigest := match ProjectionDigest(domain, sha, s) case None => [] case Some(d) => d)
  }

  lemma UnsignedFits(test: Enrollment -> bool, p: P.Policy, policyDigest: Bytes, k: Projection, t: nat)
    requires Publishable(test, p, k) && ValidDigest(policyDigest) && Bounded(test)
    ensures Fits(Unsigned(p, policyDigest, k, t))
  {
    var u := Unsigned(p, policyDigest, k, t);
    SortedPermutes(RowLess, EnrollmentRow, EnrollmentsOf(p, k));
    forall i | 0 <= i < |u.enrollments| ensures RowFits(Map(EnrollmentRow, u.enrollments)[i]) {
      assert u.enrollments[i] in EnrollmentsOf(p, k);
      assert Map(EnrollmentRow, u.enrollments)[i] == EnrollmentRow(u.enrollments[i]);
    }
    forall i | 0 <= i < |u.revoked| ensures RowFits(Map(P.Cell, u.revoked)[i]) {
      assert u.revoked[i] in u.revoked && Map(P.Cell, u.revoked)[i] == P.Cell(u.revoked[i]);
    }
  }

  lemma SignedSmall(test: Enrollment -> bool, p: P.Policy, policyDigest: Bytes, k: Projection, t: nat, digest: Bytes)
    requires Publishable(test, p, k) && ValidDigest(policyDigest) && t + VALIDITY < I64_LIMIT * SECOND && Bounded(test)
    requires ValidDigest(digest)
    ensures Small(Unsigned(p, policyDigest, k, t).(projectionDigest := digest))
  {
    SortedPermutes(RowLess, EnrollmentRow, EnrollmentsOf(p, k));
    TimeRoundTrip(t);
    TimeRoundTrip(t + VALIDITY);
    NameValid(p.cluster);
    DigestValid(policyDigest);
    DigestValid(digest);
    var e := Sorted(RowLess, EnrollmentRow, EnrollmentsOf(p, k));
    forall x | x in e ensures ShortEnrollment(x) && TextEnrollment(x) { assert x in EnrollmentsOf(p, k); }
    forall v | v in p.revoked ensures |v| == 71 && ValidUtf8(v) { DigestValid(v); }
  }

  lemma SignedFits(test: Enrollment -> bool, domain: Bytes, sha: Bytes -> Hash, p: P.Policy, policyDigest: Bytes,
                   k: Projection, t: nat)
    requires Publishable(test, p, k) && ValidDigest(policyDigest) && t + VALIDITY < I64_LIMIT * SECOND
    requires Bounded(test)
    ensures var u, s := Unsigned(p, policyDigest, k, t), Signed(domain, sha, p, policyDigest, k, t);
      && ProjectionDigest(domain, sha, s) == Some(s.projectionDigest) == ProjectionDigest(domain, sha, u)
      && Small(s) && ValidDigest(s.projectionDigest)
  {
    UnsignedFits(test, p, policyDigest, k, t);
    var u, s := Unsigned(p, policyDigest, k, t), Signed(domain, sha, p, policyDigest, k, t);
    assert ProjectionBytes(domain, s) == ProjectionBytes(domain, u);
    SignedSmall(test, p, policyDigest, k, t, s.projectionDigest);
  }

  lemma SignedLists(test: Enrollment -> bool, domain: Bytes, sha: Bytes -> Hash, p: P.Policy, policyDigest: Bytes, k: Projection, t: nat)
    requires Publishable(test, p, k)
    ensures ListsOk(test, Signed(domain, sha, p, policyDigest, k, t))
  {
    RowOrder();
    SortedAscends(RowLess, test, EnrollmentRow, EnrollmentsOf(p, k));
  }

  ghost predicate EnrolledFor(p: P.Policy, k: Projection, principal: Bytes) {
    exists i :: 0 <= i < |EnrollmentsOf(p, k)| && EnrollmentsOf(p, k)[i].principal == principal
  }

  lemma SignedAdmits(domain: Bytes, sha: Bytes -> Hash, p: P.Policy, policyDigest: Bytes, k: Projection, t: nat,
                     principal: Bytes, leaf: Bytes)
    ensures Admits(IndexOf(Signed(domain, sha, p, policyDigest, k, t)), principal, leaf)
       <==> EnrolledFor(p, k, principal) && leaf !in p.revoked
  {
    var a, b := EnrollmentsOf(p, k), Signed(domain, sha, p, policyDigest, k, t).enrollments;
    SortedPermutes(RowLess, EnrollmentRow, a);
    IndexKeys(b, principal);
    if i :| 0 <= i < |a| && a[i].principal == principal {
      assert a[i] in b;
      var j :| 0 <= j < |b| && b[j] == a[i];
    }
    if i :| 0 <= i < |b| && b[i].principal == principal {
      assert b[i] in a;
      var j :| 0 <= j < |a| && a[j] == b[i];
    }
  }

  lemma SignedTimes(domain: Bytes, sha: Bytes -> Hash, p: P.Policy, policyDigest: Bytes, k: Projection, t: nat, wall: int)
    requires t + VALIDITY < I64_LIMIT * SECOND
    ensures TimesOk(Signed(domain, sha, p, policyDigest, k, t), wall)
       <==> wall >= 0 && t - MAX_FUTURE_SKEW <= wall < t + VALIDITY
  {
    TimeRoundTrip(t);
    TimeRoundTrip(t + VALIDITY);
  }

  lemma BuildSucceeds(c: Codec, test: Enrollment -> bool, domain: Bytes, sha: Bytes -> Hash, p: P.Policy,
                      policyDigest: Bytes, k: Projection, t: nat)
    requires Faithful(c) && Publishable(test, p, k) && ValidDigest(policyDigest) && t + VALIDITY < I64_LIMIT * SECOND
    requires Bounded(test)
    ensures var s := Signed(domain, sha, p, policyDigest, k, t);
      && Build(c, domain, sha, p, policyDigest, k, t) == Some(c.encode(s))
      && |c.encode(s)| <= MAX_PROJECTION_BYTES && c.decode(c.encode(s)) == Some(s)
  {
    SignedFits(test, domain, sha, p, policyDigest, k, t);
    SmallFits(Signed(domain, sha, p, policyDigest, k, t));
  }

  lemma SignedDecodes(c: Codec, test: Enrollment -> bool, domain: Bytes, sha: Bytes -> Hash, p: P.Policy,
                      policyDigest: Bytes, k: Projection, t: nat, wall: int)
    requires Faithful(c) && Publishable(test, p, k) && ValidDigest(policyDigest) && t + VALIDITY < I64_LIMIT * SECOND
    requires Bounded(test)
    ensures var s := Signed(domain, sha, p, policyDigest, k, t);
      Decoded(c, domain, sha, test, c.encode(s), p.cluster, k, wall) == if TimesOk(s, wall) then Some(IndexOf(s)) else None
  {
    BuildSucceeds(c, test, domain, sha, p, policyDigest, k, t);
    SignedFits(test, domain, sha, p, policyDigest, k, t);
    SignedLists(test, domain, sha, p, policyDigest, k, t);
    SortedPermutes(RowLess, EnrollmentRow, EnrollmentsOf(p, k));
  }

  /** For every policy that loads and every time `t`, building succeeds; the bytes decode exactly at the wall times
      from five seconds before `t` to thirty seconds after it; and the decoded snapshot admits exactly the principals
      the policy enrols for that projection, with a leaf that it does not revoke. */
  lemma ProducerConsumerAgree(c: Codec, endpoint: Bytes -> bool, policyDomain: Bytes, domain: Bytes, sha: Bytes -> Hash,
                              rawLen: nat, raw: A.RawPolicy, p: P.Policy, k: Projection, t: nat, wall: int,
                              principal: Bytes, leaf: Bytes)
    requires Faithful(c) && t + VALIDITY < I64_LIMIT * SECOND
    requires A.Loaded(A.TestsOf(endpoint, raw.cluster), policyDomain, rawLen, raw) == Some(p)
    ensures var built := Build(c, domain, sha, p, DigestText(sha(P.PolicyBytes(policyDomain, p))), k, t);
      && built.Some?
      && var got := Decoded(c, domain, sha, Test(p.cluster, k), built.value, p.cluster, k, wall);
         && (got.Some? <==> wall >= 0 && t - MAX_FUTURE_SKEW <= wall < t + VALIDITY)
         && (got.Some? ==> (Admits(got.value, principal, leaf) <==> EnrolledFor(p, k, principal) && leaf !in p.revoked))
  {
    var digest := DigestText(sha(P.PolicyBytes(policyDomain, p)));
    LoadedPublishable(endpoint, policyDomain, rawLen, raw, k);
    TestBounds(p.cluster, k);
    BuildSucceeds(c, Test(p.cluster, k), domain, sha, p, digest, k, t);
    SignedDecodes(c, Test(p.cluster, k), domain, sha, p, digest, k, t, wall);
    SignedTimes(domain, sha, p, digest, k, t, wall);
    SignedAdmits(domain, sha, p, digest, k, t, principal, leaf);
  }
}
