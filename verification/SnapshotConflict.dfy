/** How a conflict of two published policies is forgotten, from the policies to the consumer's state. */
module SnapshotConflict {
  import opened Ordering
  import opened Encoding
  import opened Text
  import opened Snapshot
  import opened SnapshotConsumer
  import P = PolicyEncoding
  import A = AuthorizationPolicy
  import S = SnapshotAgreement
  import Declarations
  import Identity

  /** A site that consumes its own cluster's snapshots with the code's own test of enrollments. */
  ghost predicate Proper(site: Site) {
    Faithful(site.codec) && site.enrollment == S.Test(site.cluster, site.kind)
  }

  /** `p` is what loading some text of the site's cluster gives. */
  ghost predicate LoadedFor(site: Site, endpoint: Bytes -> bool, domain: Bytes, p: P.Policy) {
    exists rawLen: nat, raw: A.RawPolicy :: raw.cluster == site.cluster
      && A.Loaded(A.TestsOf(endpoint, site.cluster), domain, rawLen, raw) == Some(p)
  }

  function PolicyDigest(site: Site, domain: Bytes, p: P.Policy): Bytes
    requires P.Fits(p)
  {
    DigestText(site.sha(P.PolicyBytes(domain, p)))
  }

  /** The answer that a manager with policy `p` builds and a consumer gets at wall time `t`. */
  function Answer(site: Site, domain: Bytes, p: P.Policy, t: nat, now: int): Input
    requires P.Fits(p)
  {
    Poll(Build(site.codec, site.domain, site.sha, p, PolicyDigest(site, domain, p), site.kind, t), true, t, now)
  }

  /** What the consumer makes of that answer. */
  function Received(site: Site, domain: Bytes, p: P.Policy, t: nat): Indexed
    requires P.Fits(p)
  {
    IndexOf(S.Signed(site.domain, site.sha, p, PolicyDigest(site, domain, p), site.kind, t))
  }

  lemma PublishedReceived(site: Site, domain: Bytes, p: P.Policy, t: nat, now: int)
    requires Proper(site) && t + VALIDITY < I64_LIMIT * SECOND && P.Fits(p) && p.cluster == site.cluster
    requires S.Publishable(site.enrollment, p, site.kind) && S.Bounded(site.enrollment)
    ensures EventOf(site, Answer(site, domain, p, t, now)) == Consume(Some(Received(site, domain, p, t)), t, now)
  {
    var digest := PolicyDigest(site, domain, p);
    S.BuildSucceeds(site.codec, site.enrollment, site.domain, site.sha, p, digest, site.kind, t);
    S.SignedDecodes(site.codec, site.enrollment, site.domain, site.sha, p, digest, site.kind, t, t);
    S.SignedTimes(site.domain, site.sha, p, digest, site.kind, t, t);
  }

  lemma LoadedIsPublishable(site: Site, endpoint: Bytes -> bool, domain: Bytes, p: P.Policy)
    requires Proper(site) && LoadedFor(site, endpoint, domain, p)
    ensures P.Fits(p) && p.cluster == site.cluster && S.Publishable(site.enrollment, p, site.kind) && S.Bounded(site.enrollment)
  {
    var rawLen: nat, raw: A.RawPolicy :| raw.cluster == site.cluster
      && A.Loaded(A.TestsOf(endpoint, site.cluster), domain, rawLen, raw) == Some(p);
    S.LoadedPublishable(endpoint, domain, rawLen, raw, site.kind);
    S.TestBounds(site.cluster, site.kind);
  }

  lemma AnswerArrives(site: Site, endpoint: Bytes -> bool, domain: Bytes, p: P.Policy, t: nat, now: int)
    requires Proper(site) && LoadedFor(site, endpoint, domain, p) && t + VALIDITY < I64_LIMIT * SECOND
    ensures Arrives(site, domain, p, t, now)
  {
    LoadedIsPublishable(site, endpoint, domain, p);
    PublishedReceived(site, domain, p, t, now);
  }

  /** Two policies of one generation are a conflict unless their canonical bytes collide. */
  lemma PoliciesConflict(site: Site, domain: Bytes, a: P.Policy, b: P.Policy, t: nat)
    requires P.Fits(a) && P.Fits(b) && a != b
    ensures IdentityOf(Received(site, domain, a, t)) != IdentityOf(Received(site, domain, b, t))
         || Collide(site.sha, P.PolicyBytes(domain, a), P.PolicyBytes(domain, b))
  {
    P.PolicyReadsBack(domain, a, b);
    SameDigest(site.sha, P.PolicyBytes(domain, a), P.PolicyBytes(domain, b));
  }

  /** A consumer that is served `a`, `b`, `c` and `a` again at one time is blocked by `b` and fresh on `a` in the end,
      exactly as after the first answer. */
  ghost predicate Forgets(site: Site, domain: Bytes, a: P.Policy, b: P.Policy, c: P.Policy, t: nat, now: int)
    requires P.Fits(a) && P.Fits(b) && P.Fits(c)
  {
    var x := Received(site, domain, a, t);
    var inputs := [Answer(site, domain, a, t, now), Answer(site, domain, b, t, now), Answer(site, domain, c, t, now),
                   Answer(site, domain, a, t, now)];
    && Conflicted(After(site, inputs, 2), x)
    && After(site, inputs, 4) == Fresh(x, now, now + VALIDITY) == After(site, inputs, 1)
  }

  ghost predicate Arrives(site: Site, domain: Bytes, p: P.Policy, t: nat, now: int) {
    P.Fits(p) && EventOf(site, Answer(site, domain, p, t, now)) == Consume(Some(Received(site, domain, p, t)), t, now)
  }

  lemma ArrivalsForget(site: Site, domain: Bytes, a: P.Policy, b: P.Policy, c: P.Policy, t: nat, now: int)
    requires t + VALIDITY < I64_LIMIT * SECOND && a.generation == b.generation > c.generation
    requires Arrives(site, domain, a, t, now) && Arrives(site, domain, b, t, now) && Arrives(site, domain, c, t, now)
    requires IdentityOf(Received(site, domain, a, t)) != IdentityOf(Received(site, domain, b, t))
    ensures Forgets(site, domain, a, b, c, t, now)
  {
    var x, y, z := Received(site, domain, a, t), Received(site, domain, b, t), Received(site, domain, c, t);
    var inputs := [Answer(site, domain, a, t, now), Answer(site, domain, b, t, now), Answer(site, domain, c, t, now),
                   Answer(site, domain, a, t, now)];
    FullBudget(site, domain, a, t);
    PolledConflictForgotten(site, inputs, x, y, z, t, now);
  }

  /** A consumer that is served two policies of one generation is blocked until a higher one comes; but a third policy,
      of a lower generation, makes it forget, and the first is fresh again. */
  lemma PublishedConflictForgotten(site: Site, endpoint: Bytes -> bool, domain: Bytes, a: P.Policy, b: P.Policy,
                                   c: P.Policy, t: nat, now: int)
    requires Proper(site) && t + VALIDITY < I64_LIMIT * SECOND
    requires LoadedFor(site, endpoint, domain, a) && LoadedFor(site, endpoint, domain, b) && LoadedFor(site, endpoint, domain, c)
    requires a != b && a.generation == b.generation > c.generation
    ensures P.Fits(a) && P.Fits(b) && P.Fits(c)
    ensures Forgets(site, domain, a, b, c, t, now) || Collide(site.sha, P.PolicyBytes(domain, a), P.PolicyBytes(domain, b))
  {
    AnswerArrives(site, endpoint, domain, a, t, now);
    AnswerArrives(site, endpoint, domain, b, t, now);
    AnswerArrives(site, endpoint, domain, c, t, now);
    PoliciesConflict(site, domain, a, b, t);
    if IdentityOf(Received(site, domain, a, t)) != IdentityOf(Received(site, domain, b, t)) {
      ArrivalsForget(site, domain, a, b, c, t, now);
    }
  }

  lemma FullBudget(site: Site, domain: Bytes, p: P.Policy, t: nat)
    requires P.Fits(p) && t + VALIDITY < I64_LIMIT * SECOND
    ensures Budget(Received(site, domain, p, t), t) == VALIDITY
  {
    S.TimeRoundTrip(t + VALIDITY);
  }

  // ---- such policies exist ------------------------------------------------------------------------------------

  /** A policy that declares nothing but revoked fingerprints. */
  function Bare(generation: nat, cluster: Bytes, revoked: seq<Bytes>): A.RawPolicy {
    A.RawPolicy(1, generation, cluster, [], [], [], [], [], revoked)
  }

  function BarePolicy(generation: nat, cluster: Bytes, revoked: seq<Bytes>): P.Policy {
    P.Policy(1, generation, cluster, [], [], [], [], [], revoked)
  }

  lemma SortFew<T>(less: (T, T) -> bool, s: seq<T>)
    requires |s| <= 1
    ensures SortBy(less, s) == s
  {
  }

  lemma BareCanonical(generation: nat, cluster: Bytes, revoked: seq<Bytes>)
    requires |revoked| <= 1
    ensures A.Canonical(Bare(generation, cluster, revoked)) == BarePolicy(generation, cluster, revoked)
  {
    SortFew(Declarations.OrderBy(BytesLess, A.Same), revoked);
    assert Map(A.LoadAssignment, []) == [];
  }

  lemma FewCells(revoked: seq<Bytes>)
    requires |revoked| <= 1 && forall v :: v in revoked ==> |v| == 71
    ensures RowsFit(Map(P.Cell, revoked)) && |Table(Map(P.Cell, revoked))| <= 79
  {
    var rows := Map(P.Cell, revoked);
    if revoked != [] {
      var v := revoked[0];
      assert rows[0] == P.Cell(v) && |v| == 71 && |rows[1..]| == 0 && |rows[0][1..]| == 0;
      assert EncRow([v]) == Str(v) + EncRow([]);
      assert EncRows(rows) == EncRow([v]) + EncRows([]);
    }
  }

  lemma NoRows<T>(row: T -> Row)
    ensures var none: seq<T> := []; RowsFit(Map(row, none)) && |Table(Map(row, none))| == 4
  {
  }

  lemma BareBytes(domain: Bytes, generation: nat, cluster: Bytes, revoked: seq<Bytes>)
    requires generation < U64_LIMIT && |cluster| <= 24 && |revoked| <= 1 && forall v :: v in revoked ==> |v| == 71
    ensures var p := BarePolicy(generation, cluster, revoked);
      P.Fits(p) && |P.PolicyBytes(domain, p)| <= |domain| + 200
  {
    FewCells(revoked);
    NoRows(P.PrincipalRow);
    NoRows(P.ManagerRow);
    NoRows(P.NodeRow);
    var p := BarePolicy(generation, cluster, revoked);
    assert |P.EnrollmentBytes(p)| <= 91;
    assert EncList(P.AssignmentBytes, p.assignments, P.EnrollmentBytes(p)) == P.EnrollmentBytes(p);
  }

  lemma BareAcceptable(t: A.Tests, generation: nat, cluster: Bytes, revoked: seq<Bytes>)
    requires Identity.ValidName(cluster) && 0 < generation < U64_LIMIT
    requires |revoked| <= 1 && forall v :: v in revoked ==> ValidDigest(v)
    ensures A.Acceptable(t, Bare(generation, cluster, revoked))
  {
    var raw := Bare(generation, cluster, revoked);
    assert A.Enrolled(raw) == [];
  }

  lemma LoadedBare(site: Site, endpoint: Bytes -> bool, domain: Bytes, generation: nat, revoked: seq<Bytes>)
    returns (p: P.Policy)
    requires Identity.ValidName(site.cluster) && 0 < generation < U64_LIMIT && |domain| <= 1024
    requires |revoked| <= 1 && forall v :: v in revoked ==> ValidDigest(v)
    ensures LoadedFor(site, endpoint, domain, p) && p.generation == generation && p.revoked == revoked
  {
    p := BarePolicy(generation, site.cluster, revoked);
    var t, raw := A.TestsOf(endpoint, site.cluster), Bare(generation, site.cluster, revoked);
    BareCanonical(generation, site.cluster, revoked);
    BareBytes(domain, generation, site.cluster, revoked);
    BareAcceptable(t, generation, site.cluster, revoked);
    assert A.Loaded(t, domain, 0, raw) == Some(p);
  }

  /** For every cluster and every generation from the second on, three policies as above. */
  lemma ConflictingPolicies(site: Site, endpoint: Bytes -> bool, domain: Bytes, generation: nat, fingerprint: Bytes)
    returns (a: P.Policy, b: P.Policy, c: P.Policy)
    requires Identity.ValidName(site.cluster) && 1 < generation < U64_LIMIT && |domain| <= 1024 && ValidDigest(fingerprint)
    ensures LoadedFor(site, endpoint, domain, a) && LoadedFor(site, endpoint, domain, b) && LoadedFor(site, endpoint, domain, c)
    ensures a != b && a.generation == b.generation == generation > c.generation
  {
    a := LoadedBare(site, endpoint, domain, generation, []);
    b := LoadedBare(site, endpoint, domain, generation, [fingerprint]);
    c := LoadedBare(site, endpoint, domain, generation - 1, []);
    assert a.revoked != b.revoked;
  }
}
