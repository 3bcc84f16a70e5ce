/** Loading an authorization policy, and prevalidating a rollout against it. */
module AuthorizationPolicy {
  import opened Ordering
  import opened Encoding
  import opened Text
  import opened Declarations
  import opened PolicyEncoding
  import Identity

  datatype RawAssignment = RawAssignment(principal: Bytes, role: Bytes, scope: Scope)

  datatype RawPolicy = RawPolicy(schema: nat, generation: nat, cluster: Bytes, principals: seq<Principal>,
                                 assignments: seq<RawAssignment>, managers: seq<Manager>, proxies: seq<Node>,
                                 agents: seq<Node>, revoked: seq<Bytes>)

  const MAX_POLICY_BYTES := 4 * 1024 * 1024
  const MAX_PRINCIPALS := 4096
  const MAX_ASSIGNMENTS := 16384
  const MAX_ASSIGNMENTS_PER_PRINCIPAL := 16
  const MAX_SCOPE_VALUES := 65536
  const MAX_SCOPE_VALUES_PER_ASSIGNMENT := 1024
  const MAX_MANAGERS := 128
  const MAX_PROXIES := 4096
  const MAX_NODE_AGENTS := 4096
  const MAX_REVOKED_FINGERPRINTS := 16384

  // ---- one declaration of each sort -----------------------------------------------------------------------

  /** `PolicyRole::from_str`. */
  function ParseRole(s: Bytes): (r: Option<Role>)
    ensures r.Some? ==> RoleText(r.value) == s
  {
    if s == RoleText(Admin) then Some(Admin)
    else if s == RoleText(View) then Some(View)
    else if s == RoleText(Infra) then Some(Infra)
    else if s == RoleText(JobView) then Some(JobView)
    else if s == RoleText(JobAdmin) then Some(JobAdmin)
    else if s == RoleText(Status) then Some(Status)
    else if s == RoleText(Route) then Some(Route)
    else if s == RoleText(Secret) then Some(Secret)
    else if s == RoleText(Schedule) then Some(Schedule)
    else if s == RoleText(Deploy) then Some(Deploy)
    else None
  }

  /** Which scope dimensions a role of a principal kind may name. */
  datatype Dimensions = Dimensions(namespaces: bool, nodes: bool, queues: bool, managers: bool)

  /** `allowed_dimensions`. */
  function Allowed(kind: Identity.PrincipalKind, role: Role): Option<Dimensions> {
    match (kind, role)
    case (Human, Admin) => Some(Dimensions(false, false, false, false))
    case (Human, View) => Some(Dimensions(true, true, false, false))
    case (Human, Infra) => Some(Dimensions(false, true, false, true))
    case (Human, JobView) => Some(Dimensions(false, false, true, false))
    case (Human, JobAdmin) => Some(Dimensions(false, false, true, false))
    case (ServiceAccount, Status) => Some(Dimensions(true, true, false, false))
    case (ServiceAccount, Route) => Some(Dimensions(true, false, false, false))
    case (ServiceAccount, Secret) => Some(Dimensions(true, false, false, false))
    case (ServiceAccount, Schedule) => Some(Dimensions(true, false, false, false))
    case (ServiceAccount, Infra) => Some(Dimensions(false, true, false, false))
    case (ServiceAccount, Deploy) => Some(Dimensions(false, true, false, true))
    case (ServiceAccount, JobView) => Some(Dimensions(false, false, true, false))
    case (ServiceAccount, JobAdmin) => Some(Dimensions(false, false, true, false))
    case _ => None
  }

  predicate PrincipalOk(cluster: Bytes, p: Principal) {
    var u := Identity.ParseUri(p.uri);
    u.Some? && Identity.ParseKind(p.kind) == Some(u.value.kind) && u.value.cluster == cluster
  }

  function Same(s: Bytes): Bytes { s }

  /** `checked_set`. */
  ghost predicate SetOk(s: Option<seq<Bytes>>) {
    s.Some? ==> s.value != [] && Declared(Identity.ValidName, Same, s.value)
  }

  function Size(s: Option<seq<Bytes>>): nat { if s.None? then 0 else |s.value| }

  function ScopeSize(s: Scope): nat { Size(s.namespaces) + Size(s.nodes) + Size(s.queues) + Size(s.managers) }

  ghost predicate ScopeOk(s: Scope) { SetOk(s.namespaces) && SetOk(s.nodes) && SetOk(s.queues) && SetOk(s.managers) }

  predicate ScopeWithin(s: Scope, d: Dimensions) {
    && (s.namespaces.Some? ==> d.namespaces) && (s.nodes.Some? ==> d.nodes)
    && (s.queues.Some? ==> d.queues) && (s.managers.Some? ==> d.managers)
  }

  /** The checks of one assignment that do not look at its sets' contents; `uris` are the declared principals. */
  predicate AssignmentShape(uris: set<Bytes>, a: RawAssignment) {
    var u, role := Identity.ParseUri(a.principal), ParseRole(a.role);
    && a.principal in uris && u.Some? && role.Some? && Allowed(u.value.kind, role.value).Some?
    && ScopeWithin(a.scope, Allowed(u.value.kind, role.value).value)
    && ScopeSize(a.scope) <= MAX_SCOPE_VALUES_PER_ASSIGNMENT
  }

  predicate EnrollmentOk(uris: set<Bytes>, kind: Identity.PrincipalKind, principal: Bytes) {
    var u := Identity.ParseUri(principal);
    u.Some? && principal in uris && u.value.kind == kind
  }

  predicate ManagerOk(endpoint: Bytes -> bool, uris: set<Bytes>, m: Manager) {
    && EnrollmentOk(uris, Identity.PrincipalKind.Manager, m.principal)
    && Identity.ValidName(m.id) && Identity.ParseUri(m.principal).value.name == m.id
    && endpoint(m.endpoint)
  }

  predicate NodeOk(uris: set<Bytes>, kind: Identity.PrincipalKind, n: Node) {
    EnrollmentOk(uris, kind, n.principal) && Identity.ValidName(n.node)
  }

  predicate IsWorkload(p: Principal) {
    var u := Identity.ParseUri(p.uri);
    u.Some? && (u.value.kind.Manager? || u.value.kind.Proxy? || u.value.kind.NodeAgent?)
  }

  /** The tests of single declarations; the rest of the loader only combines them. */
  datatype Tests = Tests(principal: Principal -> bool, shape: (set<Bytes>, RawAssignment) -> bool,
                         manager: (set<Bytes>, Manager) -> bool, proxy: (set<Bytes>, Node) -> bool,
                         agent: (set<Bytes>, Node) -> bool, workload: Principal -> bool)

  function TestsOf(endpoint: Bytes -> bool, cluster: Bytes): Tests {
    Tests(p => PrincipalOk(cluster, p), AssignmentShape, (u, m) => ManagerOk(endpoint, u, m),
          (u, n) => NodeOk(u, Identity.PrincipalKind.Proxy, n), (u, n) => NodeOk(u, Identity.PrincipalKind.NodeAgent, n),
          IsWorkload)
  }

  // ---- the loaded policy ------------------------------------------------------------------------------------

  function Uri(p: Principal): Bytes { p.uri }
  function ManagerPrincipal(m: Manager): Bytes { m.principal }
  function ManagerId(m: Manager): Bytes { m.id }
  function Endpoint(m: Manager): Bytes { m.endpoint }
  function NodePrincipal(n: Node): Bytes { n.principal }

  function SortSet(s: Option<seq<Bytes>>): Option<seq<Bytes>> {
    if s.None? then None else Some(Sorted(BytesLess, Same, s.value))
  }

  function SortScope(s: Scope): Scope {
    Scope(SortSet(s.namespaces), SortSet(s.nodes), SortSet(s.queues), SortSet(s.managers))
  }

  function RoleOf(text: Bytes): Role { match ParseRole(text) case None => Admin case Some(r) => r }

  function LoadAssignment(a: RawAssignment): Assignment {
    Assignment(a.principal, RoleOf(a.role), SortScope(a.scope))
  }

  function RoleIndex(r: Role): Byte {
    match r
    case Admin => 0 case View => 1 case Infra => 2 case JobView => 3 case JobAdmin => 4
    case Status => 5 case Route => 6 case Secret => 7 case Schedule => 8 case Deploy => 9
  }

  /** An absent set sorts before every set, and no loaded set is empty. */
  function SetKey(s: Option<seq<Bytes>>): Row { if s.None? then [] else s.value }

  /** The derived order on assignments: principal, role, then the four sets. */
  function AssignmentKey(a: Assignment): seq<Row> {
    [[a.principal], [[RoleIndex(a.role)]], SetKey(a.scope.namespaces), SetKey(a.scope.nodes), SetKey(a.scope.queues),
     SetKey(a.scope.managers)]
  }

  function Uris(principals: seq<Principal>): set<Bytes> { set p | p in principals :: p.uri }

  function Enrolled(raw: RawPolicy): seq<Bytes> {
    Map(ManagerPrincipal, raw.managers) + Map(NodePrincipal, raw.proxies) + Map(NodePrincipal, raw.agents)
  }

  function AssignedTo(principal: Bytes): RawAssignment -> nat {
    (a: RawAssignment) => if a.principal == principal then 1 else 0
  }

  function AssignmentWeight(a: RawAssignment): nat { ScopeSize(a.scope) }

  predicate WithinCaps(raw: RawPolicy) {
    && |raw.principals| <= MAX_PRINCIPALS && |raw.assignments| <= MAX_ASSIGNMENTS && |raw.managers| <= MAX_MANAGERS
    && |raw.proxies| <= MAX_PROXIES && |raw.agents| <= MAX_NODE_AGENTS && |raw.revoked| <= MAX_REVOKED_FINGERPRINTS
  }

  ghost predicate AssignmentsOk(t: Tests, uris: set<Bytes>, s: seq<RawAssignment>) {
    && (forall a :: a in s ==> t.shape(uris, a) && ScopeOk(a.scope))
    && Sum(AssignmentWeight, s) <= MAX_SCOPE_VALUES
    && (forall p :: Sum(AssignedTo(p), s) <= MAX_ASSIGNMENTS_PER_PRINCIPAL)
    && Declared(_ => true, AssignmentKey, Map(LoadAssignment, s))
  }

  ghost predicate EnrollmentsOk(t: Tests, uris: set<Bytes>, raw: RawPolicy) {
    && Declared(m => t.manager(uris, m), ManagerPrincipal, raw.managers)
    && Declared(m => t.manager(uris, m), ManagerId, raw.managers)
    && Declared(m => t.manager(uris, m), Endpoint, raw.managers)
    && (forall n :: n in raw.proxies ==> t.proxy(uris, n))
    && (forall n :: n in raw.agents ==> t.agent(uris, n))
    && Declared(_ => true, Same, Enrolled(raw))
    && (forall p :: p in raw.principals && t.workload(p) ==> p.uri in Enrolled(raw))
  }

  ghost predicate Acceptable(t: Tests, raw: RawPolicy) {
    && raw.schema == 1 && 0 < raw.generation < U64_LIMIT && Identity.ValidName(raw.cluster) && WithinCaps(raw)
    && Declared(t.principal, Uri, raw.principals)
    && AssignmentsOk(t, Uris(raw.principals), raw.assignments)
    && EnrollmentsOk(t, Uris(raw.principals), raw)
    && Declared(ValidDigest, Same, raw.revoked)
  }

  function Canonical(raw: RawPolicy): Policy {
    Policy(raw.schema, raw.generation, raw.cluster,
           Sorted(BytesLess, Uri, raw.principals),
           Sorted(RowsLess, AssignmentKey, Map(LoadAssignment, raw.assignments)),
           Sorted(BytesLess, ManagerId, raw.managers),
           Sorted(RowLess, NodeRow, raw.proxies),
           Sorted(RowLess, NodeRow, raw.agents),
           Sorted(BytesLess, Same, raw.revoked))
  }

  /** `load` after the TOML is parsed: the caps on the text and on the canonical bytes are the same. */
  ghost function Loaded(t: Tests, domain: Bytes, rawLen: nat, raw: RawPolicy): Option<Policy> {
    var p := Canonical(raw);
    if rawLen <= MAX_POLICY_BYTES && Acceptable(t, raw) && Fits(p) && |PolicyBytes(domain, p)| <= MAX_POLICY_BYTES
    then Some(p) else None
  }

  // ---- source order -------------------------------------------------------------------------------------------

  ghost predicate SetReordered(a: Option<seq<Bytes>>, b: Option<seq<Bytes>>) {
    a.Some? == b.Some? && (a.Some? ==> multiset(a.value) == multiset(b.value))
  }

  ghost predicate AssignmentReordered(a: RawAssignment, b: RawAssignment) {
    && a.principal == b.principal && a.role == b.role
    && SetReordered(a.scope.namespaces, b.scope.namespaces) && SetReordered(a.scope.nodes, b.scope.nodes)
    && SetReordered(a.scope.queues, b.scope.queues) && SetReordered(a.scope.managers, b.scope.managers)
  }

  ghost predicate Between(a: seq<RawAssignment>, middle: seq<RawAssignment>, b: seq<RawAssignment>) {
    && |a| == |middle| && multiset(middle) == multiset(b)
    && forall i :: 0 <= i < |a| ==> AssignmentReordered(a[i], middle[i])
  }

  /** The same policy with every list, and every list inside an assignment, in another order. */
  ghost predicate Reordered(a: RawPolicy, b: RawPolicy) {
    && a.schema == b.schema && a.generation == b.generation && a.cluster == b.cluster
    && ListsReordered(a, b)
    && (exists middle :: Between(a.assignments, middle, b.assignments))
  }

  ghost predicate ListsReordered(a: RawPolicy, b: RawPolicy) {
    && multiset(a.principals) == multiset(b.principals)
    && multiset(a.managers) == multiset(b.managers)
    && multiset(a.proxies) == multiset(b.proxies) && multiset(a.agents) == multiset(b.agents)
    && multiset(a.revoked) == multiset(b.revoked)
  }

  /** The shape test only sees which sets are present and how large they are. */
  ghost predicate ShapeOnly(t: Tests) {
    forall u, a, b :: AssignmentReordered(a, b) && ScopeSize(a.scope) == ScopeSize(b.scope) ==> t.shape(u, a) == t.shape(u, b)
  }

  lemma TestsSeeShapeOnly(endpoint: Bytes -> bool, cluster: Bytes)
    ensures ShapeOnly(TestsOf(endpoint, cluster))
  {
  }

  lemma SetOrderIgnored(a: Option<seq<Bytes>>, b: Option<seq<Bytes>>)
    requires SetReordered(a, b)
    ensures SetOk(a) <==> SetOk(b)
    ensures Size(a) == Size(b)
    ensures SetOk(a) ==> SortSet(a) == SortSet(b)
  {
    if a.Some? {
      BytesOrder();
      PermutationSameElements(a.value, b.value);
      DeclaredReordered(BytesLess, Identity.ValidName, Same, a.value, b.value);
    }
  }

  lemma AssignmentOrderIgnored(a: RawAssignment, b: RawAssignment)
    requires AssignmentReordered(a, b)
    ensures ScopeOk(a.scope) <==> ScopeOk(b.scope)
    ensures ScopeSize(a.scope) == ScopeSize(b.scope)
    ensures ScopeOk(a.scope) ==> LoadAssignment(a) == LoadAssignment(b)
  {
    SetOrderIgnored(a.scope.namespaces, b.scope.namespaces);
    SetOrderIgnored(a.scope.nodes, b.scope.nodes);
    SetOrderIgnored(a.scope.queues, b.scope.queues);
    SetOrderIgnored(a.scope.managers, b.scope.managers);
  }

  lemma AssignmentsPointwise(t: Tests, u: set<Bytes>, a: seq<RawAssignment>, b: seq<RawAssignment>)
    requires ShapeOnly(t) && |a| == |b| && forall i :: 0 <= i < |a| ==> AssignmentReordered(a[i], b[i])
    requires AssignmentsOk(t, u, a)
    ensures AssignmentsOk(t, u, b) && Map(LoadAssignment, a) == Map(LoadAssignment, b)
  {
    forall i | 0 <= i < |a|
      ensures t.shape(u, b[i]) && ScopeOk(b[i].scope) && LoadAssignment(a[i]) == LoadAssignment(b[i])
      ensures AssignmentWeight(a[i]) == AssignmentWeight(b[i])
    {
      assert a[i] in a;
      AssignmentOrderIgnored(a[i], b[i]);
    }
    SumPointwise(AssignmentWeight, a, b);
    forall p ensures Sum(AssignedTo(p), b) <= MAX_ASSIGNMENTS_PER_PRINCIPAL {
      SumPointwise(AssignedTo(p), a, b);
      assert Sum(AssignedTo(p), a) <= MAX_ASSIGNMENTS_PER_PRINCIPAL;
    }
    assert Map(LoadAssignment, a) == Map(LoadAssignment, b);
  }

  lemma AssignmentsPermuted(t: Tests, u: set<Bytes>, a: seq<RawAssignment>, b: seq<RawAssignment>)
    requires multiset(a) == multiset(b) && AssignmentsOk(t, u, a)
    ensures AssignmentsOk(t, u, b)
    ensures Sorted(RowsLess, AssignmentKey, Map(LoadAssignment, a)) == Sorted(RowsLess, AssignmentKey, Map(LoadAssignment, b))
  {
    PermutationSameElements(a, b);
    SumPermutes(AssignmentWeight, a, b);
    forall p ensures Sum(AssignedTo(p), b) <= MAX_ASSIGNMENTS_PER_PRINCIPAL {
      SumPermutes(AssignedTo(p), a, b);
      assert Sum(AssignedTo(p), a) <= MAX_ASSIGNMENTS_PER_PRINCIPAL;
    }
    MapPermutes(LoadAssignment, a, b);
    RowsOrder();
    DeclaredReordered(RowsLess, _ => true, AssignmentKey, Map(LoadAssignment, a), Map(LoadAssignment, b));
  }

  lemma SymmetricBetween(a: seq<RawAssignment>, middle: seq<RawAssignment>, b: seq<RawAssignment>)
    requires Between(a, middle, b)
    ensures forall i :: 0 <= i < |a| ==> AssignmentReordered(middle[i], a[i])
  {
  }

  /** Acceptance and canonical form of the assignments are the same in every source order. */
  lemma AssignmentsReordered(t: Tests, u: set<Bytes>, a: seq<RawAssignment>, middle: seq<RawAssignment>, b: seq<RawAssignment>)
    requires ShapeOnly(t) && Between(a, middle, b)
    ensures AssignmentsOk(t, u, a) <==> AssignmentsOk(t, u, b)
    ensures AssignmentsOk(t, u, a) ==>
      Sorted(RowsLess, AssignmentKey, Map(LoadAssignment, a)) == Sorted(RowsLess, AssignmentKey, Map(LoadAssignment, b))
  {
    SymmetricBetween(a, middle, b);
    if AssignmentsOk(t, u, a) {
      AssignmentsPointwise(t, u, a, middle);
      AssignmentsPermuted(t, u, middle, b);
    }
    if AssignmentsOk(t, u, b) {
      AssignmentsPermuted(t, u, b, middle);
      AssignmentsPointwise(t, u, middle, a);
    }
  }

  lemma EnrolledPermutes(a: RawPolicy, b: RawPolicy)
    requires ListsReordered(a, b)
    ensures multiset(Enrolled(a)) == multiset(Enrolled(b))
  {
    MapPermutes(ManagerPrincipal, a.managers, b.managers);
    MapPermutes(NodePrincipal, a.proxies, b.proxies);
    MapPermutes(NodePrincipal, a.agents, b.agents);
  }

  /** Proxies and agents have distinct principals, so distinct rows. */
  lemma NodesDeclared(raw: RawPolicy)
    requires Declared(_ => true, Same, Enrolled(raw))
    ensures Declared(_ => true, NodeRow, raw.proxies) && Declared(_ => true, NodeRow, raw.agents)
  {
    var e, m, p := Enrolled(raw), |raw.managers|, |raw.proxies|;
    forall i, j | 0 <= i < j < |raw.proxies| ensures NodeRow(raw.proxies[i]) != NodeRow(raw.proxies[j]) {
      var x := Map(NodePrincipal, raw.proxies);
      assert x[i] == NodePrincipal(raw.proxies[i]) && x[j] == NodePrincipal(raw.proxies[j]);
      assert e[m + i] == x[i] && e[m + j] == x[j];
      assert Same(e[m + i]) != Same(e[m + j]);
      assert NodeRow(raw.proxies[i])[0] != NodeRow(raw.proxies[j])[0];
    }
    forall i, j | 0 <= i < j < |raw.agents| ensures NodeRow(raw.agents[i]) != NodeRow(raw.agents[j]) {
      var x := Map(NodePrincipal, raw.agents);
      assert x[i] == NodePrincipal(raw.agents[i]) && x[j] == NodePrincipal(raw.agents[j]);
      assert e[m + p + i] == x[i] && e[m + p + j] == x[j];
      assert Same(e[m + p + i]) != Same(e[m + p + j]);
      assert NodeRow(raw.agents[i])[0] != NodeRow(raw.agents[j])[0];
    }
  }

  lemma UrisSame(a: seq<Principal>, b: seq<Principal>)
    requires multiset(a) == multiset(b)
    ensures Uris(a) == Uris(b)
  {
    PermutationSameElements(a, b);
  }

  lemma EnrollmentsReordered(t: Tests, u: set<Bytes>, a: RawPolicy, b: RawPolicy)
    requires ListsReordered(a, b) && EnrollmentsOk(t, u, a)
    ensures EnrollmentsOk(t, u, b)
    ensures Sorted(BytesLess, ManagerId, a.managers) == Sorted(BytesLess, ManagerId, b.managers)
    ensures Sorted(RowLess, NodeRow, a.proxies) == Sorted(RowLess, NodeRow, b.proxies)
    ensures Sorted(RowLess, NodeRow, a.agents) == Sorted(RowLess, NodeRow, b.agents)
  {
    BytesOrder();
    RowOrder();
    PermutationSameElements(a.principals, b.principals);
    PermutationSameElements(a.proxies, b.proxies);
    PermutationSameElements(a.agents, b.agents);
    DeclaredReordered(BytesLess, m => t.manager(u, m), ManagerPrincipal, a.managers, b.managers);
    DeclaredReordered(BytesLess, m => t.manager(u, m), ManagerId, a.managers, b.managers);
    DeclaredReordered(BytesLess, m => t.manager(u, m), Endpoint, a.managers, b.managers);
    EnrolledPermutes(a, b);
    PermutationSameElements(Enrolled(a), Enrolled(b));
    DeclaredReordered(BytesLess, _ => true, Same, Enrolled(a), Enrolled(b));
    NodesDeclared(a);
    DeclaredReordered(RowLess, _ => true, NodeRow, a.proxies, b.proxies);
    DeclaredReordered(RowLess, _ => true, NodeRow, a.agents, b.agents);
  }

  lemma ReorderedSizes(a: RawPolicy, b: RawPolicy)
    requires Reordered(a, b)
    ensures WithinCaps(a) <==> WithinCaps(b)
    ensures Uris(a.principals) == Uris(b.principals)
  {
    var middle :| Between(a.assignments, middle, b.assignments);
    PermutationSameElements(middle, b.assignments);
    PermutationSameElements(a.principals, b.principals);
    PermutationSameElements(a.managers, b.managers);
    PermutationSameElements(a.proxies, b.proxies);
    PermutationSameElements(a.agents, b.agents);
    PermutationSameElements(a.revoked, b.revoked);
    UrisSame(a.principals, b.principals);
  }

  lemma AcceptableReordered(t: Tests, a: RawPolicy, b: RawPolicy)
    requires ShapeOnly(t) && Reordered(a, b)
    ensures Acceptable(t, a) <==> Acceptable(t, b)
    ensures Acceptable(t, a) ==> Canonical(a) == Canonical(b)
  {
    BytesOrder();
    ReorderedSizes(a, b);
    var u := Uris(a.principals);
    DeclaredReordered(BytesLess, t.principal, Uri, a.principals, b.principals);
    var middle :| Between(a.assignments, middle, b.assignments);
    AssignmentsReordered(t, u, a.assignments, middle, b.assignments);
    if EnrollmentsOk(t, u, a) { EnrollmentsReordered(t, u, a, b); }
    if EnrollmentsOk(t, u, b) { EnrollmentsReordered(t, u, b, a); }
    DeclaredReordered(BytesLess, ValidDigest, Same, a.revoked, b.revoked);
  }

  /** Acceptance, the loaded policy and with it every digest do not depend on the order of anything in the source. */
  lemma LoadIgnoresOrder(endpoint: Bytes -> bool, domain: Bytes, rawLen: nat, a: RawPolicy, b: RawPolicy)
    requires Reordered(a, b)
    ensures var t := TestsOf(endpoint, a.cluster); Loaded(t, domain, rawLen, a) == Loaded(t, domain, rawLen, b)
  {
    TestsSeeShapeOnly(endpoint, a.cluster);
    AcceptableReordered(TestsOf(endpoint, a.cluster), a, b);
  }

  /** Every list of a loaded policy is strictly ascending in its own order. */
  lemma LoadedSorted(t: Tests, domain: Bytes, rawLen: nat, raw: RawPolicy, p: Policy)
    requires Loaded(t, domain, rawLen, raw) == Some(p)
    ensures Ascending(OrderBy(BytesLess, Uri), p.principals) && Ascending(OrderBy(RowsLess, AssignmentKey), p.assignments)
    ensures Ascending(OrderBy(BytesLess, ManagerId), p.managers) && Ascending(OrderBy(BytesLess, Same), p.revoked)
    ensures Ascending(OrderBy(RowLess, NodeRow), p.proxies) && Ascending(OrderBy(RowLess, NodeRow), p.agents)
  {
    BytesOrder();
    RowOrder();
    RowsOrder();
    SortedAscends(BytesLess, t.principal, Uri, raw.principals);
    SortedAscends(RowsLess, _ => true, AssignmentKey, Map(LoadAssignment, raw.assignments));
    SortedAscends(BytesLess, m => t.manager(Uris(raw.principals), m), ManagerId, raw.managers);
    NodesDeclared(raw);
    SortedAscends(RowLess, _ => true, NodeRow, raw.proxies);
    SortedAscends(RowLess, _ => true, NodeRow, raw.agents);
    SortedAscends(BytesLess, ValidDigest, Same, raw.revoked);
  }

  // ---- assignments are told apart by their keys ----------------------------------------------------------------

  predicate SetsNonempty(s: Scope) {
    s.namespaces != Some([]) && s.nodes != Some([]) && s.queues != Some([]) && s.managers != Some([])
  }

  lemma AssignmentKeyTells(a: Assignment, b: Assignment)
    requires SetsNonempty(a.scope) && SetsNonempty(b.scope) && AssignmentKey(a) == AssignmentKey(b)
    ensures a == b
  {
    var x, y := AssignmentKey(a), AssignmentKey(b);
    assert x[0][0] == y[0][0] && x[1][0][0] == y[1][0][0];
    assert x[2] == y[2] && x[3] == y[3] && x[4] == y[4] && x[5] == y[5];
  }

  lemma LoadedSetsNonempty(a: RawAssignment)
    requires ScopeOk(a.scope)
    ensures SetsNonempty(LoadAssignment(a).scope)
  {
    if a.scope.namespaces.Some? { SortedPermutes(BytesLess, Same, a.scope.namespaces.value); }
    if a.scope.nodes.Some? { SortedPermutes(BytesLess, Same, a.scope.nodes.value); }
    if a.scope.queues.Some? { SortedPermutes(BytesLess, Same, a.scope.queues.value); }
    if a.scope.managers.Some? { SortedPermutes(BytesLess, Same, a.scope.managers.value); }
  }

  /** A repeated key is a repeated assignment, which is what `load` compares. */
  lemma RepeatedKeyIsRepeatedAssignment(s: seq<RawAssignment>)
    requires forall a :: a in s ==> ScopeOk(a.scope)
    ensures var loaded := Map(LoadAssignment, s);
      Declared(_ => true, AssignmentKey, loaded) <==> forall i, j :: 0 <= i < j < |loaded| ==> loaded[i] != loaded[j]
  {
    var loaded := Map(LoadAssignment, s);
    forall i | 0 <= i < |loaded| ensures SetsNonempty(loaded[i].scope) {
      assert s[i] in s && loaded[i] == LoadAssignment(s[i]);
      LoadedSetsNonempty(s[i]);
    }
    forall i, j | 0 <= i < j < |loaded| ensures AssignmentKey(loaded[i]) == AssignmentKey(loaded[j]) <==> loaded[i] == loaded[j] {
      if AssignmentKey(loaded[i]) == AssignmentKey(loaded[j]) { AssignmentKeyTells(loaded[i], loaded[j]); }
    }
  }

  // ---- the loader as written --------------------------------------------------------------------------------------

  method CheckSet(s: Option<seq<Bytes>>) returns (ok: bool)
    ensures ok <==> SetOk(s)
  {
    if s.None? { return true; }
    if s.value == [] { return false; }
    ok := CheckDeclared(Identity.ValidName, Same, s.value);
  }

  method CheckScope(s: Scope) returns (ok: bool)
    ensures ok <==> ScopeOk(s)
  {
    ok := CheckSet(s.namespaces);
    if !ok { return; }
    ok := CheckSet(s.nodes);
    if !ok { return; }
    ok := CheckSet(s.queues);
    if !ok { return; }
    ok := CheckSet(s.managers);
  }

  function CountOf(counts: map<Bytes, nat>, p: Bytes): nat { if p in counts then counts[p] else 0 }

  /** The parts of `AssignmentsOk` that the loop over the assignments checks as it goes. */
  ghost predicate LoopOk(t: Tests, u: set<Bytes>, s: seq<RawAssignment>) {
    && (forall a :: a in s ==> t.shape(u, a) && ScopeOk(a.scope))
    && Sum(AssignmentWeight, s) <= MAX_SCOPE_VALUES
    && (forall p :: Sum(AssignedTo(p), s) <= MAX_ASSIGNMENTS_PER_PRINCIPAL)
  }

  predicate Room(s: seq<RawAssignment>, a: RawAssignment) {
    && Sum(AssignmentWeight, s) + ScopeSize(a.scope) <= MAX_SCOPE_VALUES
    && Sum(AssignedTo(a.principal), s) + 1 <= MAX_ASSIGNMENTS_PER_PRINCIPAL
  }

  lemma OneMore(s: seq<RawAssignment>, a: RawAssignment, p: Bytes)
    ensures Sum(AssignmentWeight, s + [a]) == Sum(AssignmentWeight, s) + ScopeSize(a.scope)
    ensures Sum(AssignedTo(p), s + [a]) == Sum(AssignedTo(p), s) + if a.principal == p then 1 else 0
  {
    SumAppend(AssignmentWeight, s, [a]);
    SumOne(AssignmentWeight, a);
    SumAppend(AssignedTo(p), s, [a]);
    SumOne(AssignedTo(p), a);
  }

  lemma LoopStep(t: Tests, u: set<Bytes>, s: seq<RawAssignment>, a: RawAssignment)
    requires LoopOk(t, u, s)
    ensures LoopOk(t, u, s + [a]) <==> t.shape(u, a) && ScopeOk(a.scope) && Room(s, a)
  {
    var more := s + [a];
    assert more[|s|] == a && a in more;
    OneMore(s, a, a.principal);
    if t.shape(u, a) && ScopeOk(a.scope) && Room(s, a) {
      forall p ensures Sum(AssignedTo(p), more) <= MAX_ASSIGNMENTS_PER_PRINCIPAL { OneMore(s, a, p); }
    }
  }

  lemma LoopPrefix(t: Tests, u: set<Bytes>, s: seq<RawAssignment>, n: nat)
    requires LoopOk(t, u, s) && n <= |s|
    ensures LoopOk(t, u, s[..n])
  {
    assert s == s[..n] + s[n..];
    SumAppend(AssignmentWeight, s[..n], s[n..]);
    forall p ensures Sum(AssignedTo(p), s[..n]) <= MAX_ASSIGNMENTS_PER_PRINCIPAL {
      SumAppend(AssignedTo(p), s[..n], s[n..]);
      assert Sum(AssignedTo(p), s) <= MAX_ASSIGNMENTS_PER_PRINCIPAL;
    }
  }

  ghost predicate Counted(counts: map<Bytes, nat>, s: seq<RawAssignment>) {
    forall p :: CountOf(counts, p) == Sum(AssignedTo(p), s)
  }

  lemma CountedStep(counts: map<Bytes, nat>, s: seq<RawAssignment>, a: RawAssignment)
    requires Counted(counts, s)
    ensures Counted(counts[a.principal := CountOf(counts, a.principal) + 1], s + [a])
  {
    var more := counts[a.principal := CountOf(counts, a.principal) + 1];
    forall p ensures CountOf(more, p) == Sum(AssignedTo(p), s + [a]) {
      OneMore(s, a, p);
      assert CountOf(counts, p) == Sum(AssignedTo(p), s);
    }
  }

  /** One round of the loop. */
  method AdmitAssignment(t: Tests, u: set<Bytes>, ghost s: seq<RawAssignment>, counts: map<Bytes, nat>, total: nat, a: RawAssignment)
    returns (ok: bool, counts': map<Bytes, nat>, total': nat)
    requires LoopOk(t, u, s) && Counted(counts, s) && total == Sum(AssignmentWeight, s)
    ensures ok <==> LoopOk(t, u, s + [a])
    ensures ok ==> Counted(counts', s + [a]) && total' == Sum(AssignmentWeight, s + [a])
  {
    LoopStep(t, u, s, a);
    OneMore(s, a, a.principal);
    CountedStep(counts, s, a);
    assert CountOf(counts, a.principal) == Sum(AssignedTo(a.principal), s);
    var scope := CheckScope(a.scope);
    total' := total + ScopeSize(a.scope);
    var count := CountOf(counts, a.principal) + 1;
    counts' := counts[a.principal := count];
    ok := t.shape(u, a) && scope && total' <= MAX_SCOPE_VALUES && count <= MAX_ASSIGNMENTS_PER_PRINCIPAL;
  }

  /** The loop over the assignments, with the running total and the count of each principal. */
  method CheckAssignments(t: Tests, u: set<Bytes>, s: seq<RawAssignment>) returns (ok: bool, loaded: seq<Assignment>)
    ensures ok <==> LoopOk(t, u, s)
    ensures ok ==> loaded == Map(LoadAssignment, s)
  {
    var counts: map<Bytes, nat>, total: nat := map[], 0;
    loaded := [];
    for i := 0 to |s|
      invariant LoopOk(t, u, s[..i]) && Counted(counts, s[..i]) && total == Sum(AssignmentWeight, s[..i])
      invariant loaded == Map(LoadAssignment, s[..i])
    {
      assert s[..i + 1] == s[..i] + [s[i]];
      ok, counts, total := AdmitAssignment(t, u, s[..i], counts, total, s[i]);
      if !ok {
        if LoopOk(t, u, s) { LoopPrefix(t, u, s, i + 1); }
        return;
      }
      loaded := loaded + [LoadAssignment(s[i])];
    }
    assert s[..|s|] == s;
    ok := true;
  }

  method LoadAssignments(t: Tests, u: set<Bytes>, s: seq<RawAssignment>) returns (r: Option<seq<Assignment>>)
    ensures r.Some? <==> AssignmentsOk(t, u, s)
    ensures r.Some? ==> r.value == Sorted(RowsLess, AssignmentKey, Map(LoadAssignment, s))
  {
    var ok, loaded := CheckAssignments(t, u, s);
    if !ok { return None; }
    RowsOrder();
    NeighboursSuffice(RowsLess, AssignmentKey, loaded);
    var sorted := Sorted(RowsLess, AssignmentKey, loaded);
    var distinct := CheckNeighbours(AssignmentKey, sorted);
    if !distinct { return None; }
    return Some(sorted);
  }

  method CheckEnrollments(t: Tests, u: set<Bytes>, raw: RawPolicy) returns (ok: bool)
    ensures ok <==> EnrollmentsOk(t, u, raw)
  {
    ok := CheckDeclared(m => t.manager(u, m), ManagerPrincipal, raw.managers);
    if !ok { return; }
    ok := CheckDeclared(m => t.manager(u, m), ManagerId, raw.managers);
    if !ok { return; }
    ok := CheckDeclared(m => t.manager(u, m), Endpoint, raw.managers);
    if !ok { return; }
    if exists n :: n in raw.proxies && !t.proxy(u, n) { return false; }
    if exists n :: n in raw.agents && !t.agent(u, n) { return false; }
    ok := CheckDeclared(_ => true, Same, Enrolled(raw));
    if !ok { return; }
    ok := forall p :: p in raw.principals && t.workload(p) ==> p.uri in Enrolled(raw);
  }

  /** `load` after the TOML is parsed. */
  method Load(t: Tests, domain: Bytes, rawLen: nat, raw: RawPolicy) returns (r: Option<Policy>)
    ensures r == Loaded(t, domain, rawLen, raw)
  {
    if rawLen > MAX_POLICY_BYTES || raw.schema != 1 || raw.generation == 0 || raw.generation >= U64_LIMIT { return None; }
    if !Identity.ValidName(raw.cluster) || !WithinCaps(raw) { return None; }
    var principals := CheckDeclared(t.principal, Uri, raw.principals);
    if !principals { return None; }
    var u := Uris(raw.principals);
    var assignments := LoadAssignments(t, u, raw.assignments);
    if assignments.None? { return None; }
    var enrollments := CheckEnrollments(t, u, raw);
    if !enrollments { return None; }
    var revoked := CheckDeclared(ValidDigest, Same, raw.revoked);
    if !revoked { return None; }
    var p := Canonical(raw);
    var fits, bytes := WritePolicy(domain, p);
    if !fits || |bytes| > MAX_POLICY_BYTES { return None; }
    return Some(p);
  }

  // ---- rollouts ------------------------------------------------------------------------------------------------------

  function TargetOf(m: Manager): Target { Target(m.id, m.endpoint) }

  /** `manager_targets`. */
  function ManagerTargets(p: Policy): seq<Target> { Map(TargetOf, p.managers) }

  /** `authorizes_rollout`: one assignment of the caller grants the whole target set. */
  predicate AuthorizesRollout(p: Policy, principal: Bytes, kind: Identity.PrincipalKind, ids: seq<Bytes>) {
    && (exists k :: k in p.principals && k.uri == principal)
    && exists a :: a in p.assignments && a.principal == principal
        && ((kind.Human? && (a.role.Admin? || a.role.Infra?)) || (kind.ServiceAccount? && a.role.Deploy?))
        && (a.scope.managers.None? || forall i :: 0 <= i < |ids| ==> ids[i] in a.scope.managers.value)
  }

  /** The checks of `prevalidate_rollout_claims`, in terms of the parsed caller. */
  predicate RolloutAccepted(p: Policy, caller: Option<Identity.Principal>, uri: Bytes, leaf: Bytes, expected: seq<Target>) {
    && caller.Some? && caller.value.cluster == p.cluster
    && (caller.value.kind.Human? || caller.value.kind.ServiceAccount?)
    && ValidDigest(leaf) && leaf !in p.revoked
    && ByIds(expected) == ManagerTargets(p)
    && AuthorizesRollout(p, uri, caller.value.kind, Map(TargetId, ManagerTargets(p)))
  }

  /** An accepted rollout names the enrolled managers, in whatever order, so the recorded set hash is the hash of
      the caller's own list; and every other order of that list is accepted as well. */
  lemma RolloutHash(domain: Bytes, p: Policy, caller: Option<Identity.Principal>, uri: Bytes, leaf: Bytes,
                    expected: seq<Target>, other: seq<Target>)
    requires RolloutAccepted(p, caller, uri, leaf, expected) && UniqueIds(ManagerTargets(p))
    requires TargetsFit(ByIds(ManagerTargets(p))) && multiset(other) == multiset(expected)
    ensures SetHashed(domain, other) == SetHashed(domain, ManagerTargets(p)) && SetHashed(domain, other).Some?
    ensures RolloutAccepted(p, caller, uri, leaf, other)
  {
    var targets := ManagerTargets(p);
    ByIdsPermutes(expected);
    assert multiset(targets) == multiset(other);
    SetHashIdentity(domain, targets, other);
    UniqueReordered(targets, other);
    UniqueReordered(targets, expected);
  }

  /** The manager ids of a loaded policy are distinct, and its manager list is the sorted one. */
  lemma LoadedManagersUnique(t: Tests, domain: Bytes, rawLen: nat, raw: RawPolicy)
    requires Loaded(t, domain, rawLen, raw).Some?
    ensures UniqueIds(ManagerTargets(Loaded(t, domain, rawLen, raw).value))
  {
    BytesOrder();
    var p := Loaded(t, domain, rawLen, raw).value;
    SortedAscends(BytesLess, m => t.manager(Uris(raw.principals), m), ManagerId, raw.managers);
    var targets := ManagerTargets(p);
    forall i, j | 0 <= i < j < |targets| ensures targets[i].id != targets[j].id {
      assert targets[i] == TargetOf(p.managers[i]) && targets[j] == TargetOf(p.managers[j]);
      assert ManagerId(p.managers[i]) != ManagerId(p.managers[j]);
    }
  }

  lemma TargetsFitTheirPolicy(p: Policy)
    requires Fits(p)
    ensures TargetsFit(ByIds(ManagerTargets(p)))
  {
    var targets := ManagerTargets(p);
    ByIdsPermutes(targets);
    PermutationSameElements(ByIds(targets), targets);
    forall i | 0 <= i < |ByIds(targets)| ensures RowFits(Map(TargetRow, ByIds(targets))[i]) {
      assert ByIds(targets)[i] in targets;
      var k :| 0 <= k < |targets| && targets[k] == ByIds(targets)[i];
      var row := Map(ManagerRow, p.managers)[k];
      assert RowFits(row) && row == ManagerRow(p.managers[k]) && targets[k] == TargetOf(p.managers[k]);
      assert |row[1]| < U32_LIMIT && |row[2]| < U32_LIMIT;
      assert Map(TargetRow, ByIds(targets))[i] == TargetRow(targets[k]);
    }
  }

  /** For a loaded policy nothing more is needed: `manager_set_hash` of the enrolled managers never fails, and an
      accepted rollout records the hash of the caller's list, in any order. */
  lemma LoadedRolloutHash(t: Tests, domain: Bytes, setDomain: Bytes, rawLen: nat, raw: RawPolicy, p: Policy,
                          uri: Bytes, leaf: Bytes, expected: seq<Target>, other: seq<Target>)
    requires Loaded(t, domain, rawLen, raw) == Some(p)
    requires RolloutAccepted(p, Identity.ParseUri(uri), uri, leaf, expected) && multiset(other) == multiset(expected)
    ensures SetHashed(setDomain, other) == SetHashed(setDomain, ManagerTargets(p)) && SetHashed(setDomain, other).Some?
    ensures RolloutAccepted(p, Identity.ParseUri(uri), uri, leaf, other)
  {
    LoadedManagersUnique(t, domain, rawLen, raw);
    TargetsFitTheirPolicy(p);
    RolloutHash(setDomain, p, Identity.ParseUri(uri), uri, leaf, expected, other);
  }
}
