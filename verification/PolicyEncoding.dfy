/** The canonical bytes of an authorization policy and of a manager set. */
module PolicyEncoding {
  import opened Ordering
  import opened Encoding
  import opened Text
  import opened Declarations

  datatype Role = Admin | View | Infra | JobView | JobAdmin | Status | Route | Secret | Schedule | Deploy

  /** `PolicyRole::as_str`. */
  function RoleText(r: Role): (t: Bytes)
    ensures |t| <= 9
  {
    match r
    case Admin => [97, 100, 109, 105, 110]
    case View => [118, 105, 101, 119]
    case Infra => [105, 110, 102, 114, 97]
    case JobView => [106, 111, 98, 45, 118, 105, 101, 119]
    case JobAdmin => [106, 111, 98, 45, 97, 100, 109, 105, 110]
    case Status => [115, 116, 97, 116, 117, 115]
    case Route => [114, 111, 117, 116, 101]
    case Secret => [115, 101, 99, 114, 101, 116]
    case Schedule => [115, 99, 104, 101, 100, 117, 108, 101]
    case Deploy => [100, 101, 112, 108, 111, 121]
  }

  /** Length, first and second byte tell the roles apart. */
  function RoleMark(t: Bytes): (nat, Byte, Byte)
    requires |t| >= 2
  {
    (|t|, t[0], t[1])
  }

  lemma RoleTextInjective(r: Role, q: Role)
    requires RoleText(r) == RoleText(q)
    ensures r == q
  {
    assert RoleMark(RoleText(r)) == RoleMark(RoleText(q));
  }

  /** The optional sets of a scope, each in ascending order once loaded. */
  datatype Scope = Scope(namespaces: Option<seq<Bytes>>, nodes: Option<seq<Bytes>>, queues: Option<seq<Bytes>>,
                         managers: Option<seq<Bytes>>)

  datatype Principal = Principal(uri: Bytes, kind: Bytes)

  datatype Assignment = Assignment(principal: Bytes, role: Role, scope: Scope)

  datatype Manager = Manager(principal: Bytes, id: Bytes, endpoint: Bytes)

  datatype Node = Node(principal: Bytes, node: Bytes)

  datatype Policy = Policy(schema: nat, generation: nat, cluster: Bytes, principals: seq<Principal>,
                           assignments: seq<Assignment>, managers: seq<Manager>, proxies: seq<Node>,
                           agents: seq<Node>, revoked: seq<Bytes>)

  // ---- what is pushed -----------------------------------------------------------------------------------

  function Cell(s: Bytes): Row { [s] }

  function PrincipalRow(p: Principal): Row { [p.uri, p.kind] }

  function ManagerRow(m: Manager): Row { [m.principal, m.id, m.endpoint] }

  function NodeRow(n: Node): Row { [n.principal, n.node] }

  predicate SetFits(s: Option<seq<Bytes>>) { s.None? || RowsFit(Map(Cell, s.value)) }

  /** `push_opt_set`, in front of what follows. */
  function SetBytes(s: Option<seq<Bytes>>, rest: Bytes): Bytes
    requires SetFits(s)
  {
    if s.None? then [0] + rest else [1] + (Table(Map(Cell, s.value)) + rest)
  }

  predicate AssignmentFits(a: Assignment) {
    && |a.principal| < U32_LIMIT
    && SetFits(a.scope.namespaces) && SetFits(a.scope.nodes) && SetFits(a.scope.queues) && SetFits(a.scope.managers)
  }

  function ScopeBytes(s: Scope, rest: Bytes): Bytes
    requires SetFits(s.namespaces) && SetFits(s.nodes) && SetFits(s.queues) && SetFits(s.managers)
  {
    SetBytes(s.namespaces, SetBytes(s.nodes, SetBytes(s.queues, SetBytes(s.managers, rest))))
  }

  function AssignmentBytes(a: Assignment, rest: Bytes): Bytes {
    if !AssignmentFits(a) then []
    else Str(a.principal) + (Str(RoleText(a.role)) + ScopeBytes(a.scope, rest))
  }

  predicate AssignmentsFit(s: seq<Assignment>) {
    |s| < U32_LIMIT && forall i :: 0 <= i < |s| ==> AssignmentFits(s[i])
  }

  predicate Fits(p: Policy) {
    && p.schema < U32_LIMIT && p.generation < U64_LIMIT && |p.cluster| < U32_LIMIT
    && RowsFit(Map(PrincipalRow, p.principals)) && AssignmentsFit(p.assignments)
    && RowsFit(Map(ManagerRow, p.managers)) && RowsFit(Map(NodeRow, p.proxies)) && RowsFit(Map(NodeRow, p.agents))
    && RowsFit(Map(Cell, p.revoked))
  }

  function EnrollmentBytes(p: Policy): Bytes
    requires Fits(p)
  {
    Table(Map(ManagerRow, p.managers)) + (Table(Map(NodeRow, p.proxies)) + (Table(Map(NodeRow, p.agents))
      + (Table(Map(Cell, p.revoked)) + [])))
  }

  /** The bytes that `load` hashes. */
  function PolicyBytes(domain: Bytes, p: Policy): Bytes
    requires Fits(p)
  {
    domain + (U32(p.schema) + (U64(p.generation) + (Str(p.cluster) + (Table(Map(PrincipalRow, p.principals))
      + (U32(|p.assignments|) + EncList(AssignmentBytes, p.assignments, EnrollmentBytes(p)))))))
  }

  // ---- reading them back -----------------------------------------------------------------------------------

  /** Records whose rows are equal are equal. */
  ghost predicate RowsTell<T(!new)>(row: T -> Row) { forall x, y :: row(x) == row(y) ==> x == y }

  lemma MapTells<T(!new)>(row: T -> Row, a: seq<T>, b: seq<T>)
    requires RowsTell(row) && Map(row, a) == Map(row, b)
    ensures a == b
  {
    assert |Map(row, a)| == |Map(row, b)|;
    forall i | 0 <= i < |a| ensures a[i] == b[i] {
      assert Map(row, a)[i] == row(a[i]) && Map(row, b)[i] == row(b[i]);
    }
  }

  lemma RecordsReadBack<T(!new)>(row: T -> Row, k: nat, a: seq<T>, b: seq<T>, r: Bytes, s: Bytes)
    requires RowsTell(row) && forall x :: |row(x)| == k
    requires RowsFit(Map(row, a)) && RowsFit(Map(row, b))
    requires Table(Map(row, a)) + r == Table(Map(row, b)) + s
    ensures a == b && r == s
  {
    forall i | 0 <= i < |a| ensures |Map(row, a)[i]| == k { assert Map(row, a)[i] == row(a[i]); }
    forall i | 0 <= i < |b| ensures |Map(row, b)[i]| == k { assert Map(row, b)[i] == row(b[i]); }
    TablePrefixFree(Map(row, a), Map(row, b), k, r, s);
    MapTells(row, a, b);
  }

  lemma RowsTellAll()
    ensures RowsTell(Cell) && RowsTell(PrincipalRow) && RowsTell(ManagerRow) && RowsTell(NodeRow)
  {
    forall x, y | Cell(x) == Cell(y) ensures x == y { assert Cell(x)[0] == Cell(y)[0]; }
    forall x, y | PrincipalRow(x) == PrincipalRow(y) ensures x == y {
      assert PrincipalRow(x)[0] == PrincipalRow(y)[0] && PrincipalRow(x)[1] == PrincipalRow(y)[1];
    }
    forall x, y | ManagerRow(x) == ManagerRow(y) ensures x == y {
      assert ManagerRow(x)[0] == ManagerRow(y)[0] && ManagerRow(x)[1] == ManagerRow(y)[1];
      assert ManagerRow(x)[2] == ManagerRow(y)[2];
    }
    forall x, y | NodeRow(x) == NodeRow(y) ensures x == y {
      assert NodeRow(x)[0] == NodeRow(y)[0] && NodeRow(x)[1] == NodeRow(y)[1];
    }
  }

  lemma SetReadsBack(a: Option<seq<Bytes>>, b: Option<seq<Bytes>>, r: Bytes, s: Bytes)
    requires SetFits(a) && SetFits(b) && SetBytes(a, r) == SetBytes(b, s)
    ensures a == b && r == s
  {
    assert SetBytes(a, r)[0] == SetBytes(b, s)[0];
    if a.None? {
      SplitEqual([0], [0], r, s);
    } else {
      var x, y := Table(Map(Cell, a.value)) + r, Table(Map(Cell, b.value)) + s;
      SplitEqual([1], [1], x, y);
      RowsTellAll();
      RecordsReadBack(Cell, 1, a.value, b.value, r, s);
    }
  }

  lemma ScopeReadsBack(a: Scope, b: Scope, r: Bytes, s: Bytes)
    requires SetFits(a.namespaces) && SetFits(a.nodes) && SetFits(a.queues) && SetFits(a.managers)
    requires SetFits(b.namespaces) && SetFits(b.nodes) && SetFits(b.queues) && SetFits(b.managers)
    requires ScopeBytes(a, r) == ScopeBytes(b, s)
    ensures a == b && r == s
  {
    var a3, b3 := SetBytes(a.managers, r), SetBytes(b.managers, s);
    var a2, b2 := SetBytes(a.queues, a3), SetBytes(b.queues, b3);
    SetReadsBack(a.namespaces, b.namespaces, SetBytes(a.nodes, a2), SetBytes(b.nodes, b2));
    SetReadsBack(a.nodes, b.nodes, a2, b2);
    SetReadsBack(a.queues, b.queues, a3, b3);
    SetReadsBack(a.managers, b.managers, r, s);
  }

  lemma AssignmentReadsBack(a: Assignment, b: Assignment, r: Bytes, s: Bytes)
    requires AssignmentFits(a) && AssignmentFits(b) && AssignmentBytes(a, r) == AssignmentBytes(b, s)
    ensures a == b && r == s
  {
    var x, y := ScopeBytes(a.scope, r), ScopeBytes(b.scope, s);
    StrPrefixFree(a.principal, b.principal, Str(RoleText(a.role)) + x, Str(RoleText(b.role)) + y);
    StrPrefixFree(RoleText(a.role), RoleText(b.role), x, y);
    RoleTextInjective(a.role, b.role);
    ScopeReadsBack(a.scope, b.scope, r, s);
  }

  lemma AssignmentsReadBack(a: seq<Assignment>, b: seq<Assignment>, r: Bytes, s: Bytes)
    requires AssignmentsFit(a) && AssignmentsFit(b)
    requires U32(|a|) + EncList(AssignmentBytes, a, r) == U32(|b|) + EncList(AssignmentBytes, b, s)
    ensures a == b && r == s
  {
    U32PrefixFree(|a|, |b|, EncList(AssignmentBytes, a, r), EncList(AssignmentBytes, b, s));
    forall i | 0 <= i < |a| ensures ReadsBack(AssignmentBytes, a[i], b[i]) {
      forall x, y | AssignmentBytes(a[i], x) == AssignmentBytes(b[i], y) ensures a[i] == b[i] && x == y {
        AssignmentReadsBack(a[i], b[i], x, y);
      }
    }
    ListReadsBack(AssignmentBytes, a, b, r, s);
  }

  lemma EnrollmentsReadBack(p: Policy, q: Policy)
    requires Fits(p) && Fits(q) && EnrollmentBytes(p) == EnrollmentBytes(q)
    ensures p.managers == q.managers && p.proxies == q.proxies && p.agents == q.agents && p.revoked == q.revoked
  {
    RowsTellAll();
    var p3, q3 := Table(Map(Cell, p.revoked)) + [], Table(Map(Cell, q.revoked)) + [];
    var p2, q2 := Table(Map(NodeRow, p.agents)) + p3, Table(Map(NodeRow, q.agents)) + q3;
    RecordsReadBack(ManagerRow, 3, p.managers, q.managers,
                    Table(Map(NodeRow, p.proxies)) + p2, Table(Map(NodeRow, q.proxies)) + q2);
    RecordsReadBack(NodeRow, 2, p.proxies, q.proxies, p2, q2);
    RecordsReadBack(NodeRow, 2, p.agents, q.agents, p3, q3);
    RecordsReadBack(Cell, 1, p.revoked, q.revoked, [], []);
  }

  /** The canonical bytes determine every field of the policy. */
  lemma PolicyReadsBack(domain: Bytes, p: Policy, q: Policy)
    requires Fits(p) && Fits(q)
    ensures PolicyBytes(domain, p) == PolicyBytes(domain, q) <==> p == q
  {
    if PolicyBytes(domain, p) == PolicyBytes(domain, q) {
      var p5, q5 := EncList(AssignmentBytes, p.assignments, EnrollmentBytes(p)),
        EncList(AssignmentBytes, q.assignments, EnrollmentBytes(q));
      var p4, q4 := U32(|p.assignments|) + p5, U32(|q.assignments|) + q5;
      var p3, q3 := Table(Map(PrincipalRow, p.principals)) + p4, Table(Map(PrincipalRow, q.principals)) + q4;
      var p2, q2 := Str(p.cluster) + p3, Str(q.cluster) + q3;
      SplitEqual(domain, domain, U32(p.schema) + (U64(p.generation) + p2), U32(q.schema) + (U64(q.generation) + q2));
      U32PrefixFree(p.schema, q.schema, U64(p.generation) + p2, U64(q.generation) + q2);
      U64PrefixFree(p.generation, q.generation, p2, q2);
      StrPrefixFree(p.cluster, q.cluster, p3, q3);
      RowsTellAll();
      RecordsReadBack(PrincipalRow, 2, p.principals, q.principals, p4, q4);
      AssignmentsReadBack(p.assignments, q.assignments, EnrollmentBytes(p), EnrollmentBytes(q));
      EnrollmentsReadBack(p, q);
    }
  }

  // ---- manager sets --------------------------------------------------------------------------------------

  datatype Target = Target(id: Bytes, endpoint: Bytes)

  function TargetId(t: Target): Bytes { t.id }

  function TargetRow(t: Target): Row { [t.id, t.endpoint] }

  predicate TargetsFit(s: seq<Target>) { RowsFit(Map(TargetRow, s)) }

  predicate UniqueIds(s: seq<Target>) { forall i, j :: 0 <= i < j < |s| ==> s[i].id != s[j].id }

  function ByIds(s: seq<Target>): seq<Target> { Sorted(BytesLess, TargetId, s) }

  /** The bytes that `manager_set_hash` hashes; it refuses repeated ids. */
  function SetHashed(domain: Bytes, targets: seq<Target>): Option<Bytes> {
    if UniqueIds(targets) && TargetsFit(ByIds(targets)) then Some(domain + Table(Map(TargetRow, ByIds(targets)))) else None
  }

  lemma UniqueReordered(a: seq<Target>, b: seq<Target>)
    requires multiset(a) == multiset(b)
    ensures UniqueIds(a) <==> UniqueIds(b)
    ensures UniqueIds(a) ==> ByIds(a) == ByIds(b)
  {
    BytesOrder();
    DeclaredReordered(BytesLess, _ => true, TargetId, a, b);
    assert UniqueIds(a) <==> Declared(_ => true, TargetId, a) by { UniqueIsDeclared(a); }
    assert UniqueIds(b) <==> Declared(_ => true, TargetId, b) by { UniqueIsDeclared(b); }
  }

  lemma UniqueIsDeclared(a: seq<Target>)
    ensures UniqueIds(a) <==> Declared(_ => true, TargetId, a)
  {
  }

  lemma ByIdsPermutes(a: seq<Target>)
    ensures multiset(ByIds(a)) == multiset(a) && |ByIds(a)| == |a|
  {
    SortedPermutes(BytesLess, TargetId, a);
  }

  /** The set hash ignores the order of the list and nothing else. */
  lemma SetHashIdentity(domain: Bytes, a: seq<Target>, b: seq<Target>)
    requires SetHashed(domain, a).Some?
    ensures SetHashed(domain, a) == SetHashed(domain, b) <==> multiset(a) == multiset(b)
  {
    ByIdsPermutes(a);
    ByIdsPermutes(b);
    if multiset(a) == multiset(b) {
      UniqueReordered(a, b);
    }
    if SetHashed(domain, a) == SetHashed(domain, b) {
      var x, y := ByIds(a), ByIds(b);
      SplitEqual(domain, domain, Table(Map(TargetRow, x)), Table(Map(TargetRow, y)));
      forall s, t | TargetRow(s) == TargetRow(t) ensures s == t {
        assert TargetRow(s)[0] == TargetRow(t)[0] && TargetRow(s)[1] == TargetRow(t)[1];
      }
      assert Table(Map(TargetRow, x)) + [] == Table(Map(TargetRow, y)) + [];
      RecordsReadBack(TargetRow, 2, x, y, [], []);
    }
  }

  // ---- writing them -------------------------------------------------------------------------------------------

  /** `push_opt_set`. */
  method PushSet(start: Bytes, s: Option<seq<Bytes>>) returns (ok: bool, out: Bytes)
    ensures ok <==> SetFits(s)
    ensures ok ==> forall rest :: out + rest == start + SetBytes(s, rest)
  {
    if s.None? {
      out := start + [0];
      forall rest ensures out + rest == start + SetBytes(s, rest) { AppendAssociates(start, [0], rest); }
      return true, out;
    }
    out := start + [1];
    ghost var head := out;
    ok, out := PushTable(out, Map(Cell, s.value));
    if ok {
      forall rest ensures out + rest == start + SetBytes(s, rest) {
        AppendAssociates(head, Table(Map(Cell, s.value)), rest);
        AppendAssociates(start, [1], Table(Map(Cell, s.value)) + rest);
      }
    }
  }

  method PushAssignment(start: Bytes, a: Assignment) returns (ok: bool, out: Bytes)
    ensures ok <==> AssignmentFits(a)
    ensures ok ==> Appends(AssignmentBytes, a, start, out)
  {
    out := start;
    if |a.principal| >= U32_LIMIT { return false, out; }
    var role := RoleText(a.role);
    out := out + Str(a.principal);
    ghost var b1 := out;
    out := out + Str(role);
    ghost var b2 := out;
    ok, out := PushSet(out, a.scope.namespaces);
    if !ok { return; }
    ok, out := PushSet(out, a.scope.nodes);
    if !ok { return; }
    ok, out := PushSet(out, a.scope.queues);
    if !ok { return; }
    ok, out := PushSet(out, a.scope.managers);
    if !ok { return; }
    forall rest ensures out + rest == start + AssignmentBytes(a, rest) {
      var x := ScopeBytes(a.scope, rest);
      assert out + rest == b2 + x;
      AppendAssociates(b1, Str(role), x);
      AppendAssociates(start, Str(a.principal), Str(role) + x);
    }
  }

  /** The loop over the assignments, for any way `enc` to say what one of them is written as. */
  method PushEach(start: Bytes, a: seq<Assignment>, ghost enc: (Assignment, Bytes) -> Bytes, ghost rest: Bytes)
    returns (ok: bool, out: Bytes)
    requires forall x, s, o :: Appends(AssignmentBytes, x, s, o) ==> Appends(enc, x, s, o)
    ensures ok <==> forall i :: 0 <= i < |a| ==> AssignmentFits(a[i])
    ensures ok ==> out + rest == start + EncList(enc, a, rest)
  {
    out := start;
    ghost var whole := start + EncList(enc, a, rest);
    assert a[0..] == a;
    var i := 0;
    while i < |a|
      invariant 0 <= i <= |a| && forall j :: 0 <= j < i ==> AssignmentFits(a[j])
      invariant Writing(enc, whole, out, a[i..], rest)
    {
      ghost var before := out;
      ok, out := PushAssignment(out, a[i]);
      if !ok { return; }
      WritingStep(enc, whole, before, out, a, i, rest);
      i := i + 1;
    }
    assert a[i..] == [];
    WritingDone(enc, whole, out, rest);
    ok := true;
  }

  method PushAssignments(start: Bytes, a: seq<Assignment>, ghost rest: Bytes) returns (ok: bool, out: Bytes)
    ensures ok <==> AssignmentsFit(a)
    ensures ok ==> out + rest == start + (U32(|a|) + EncList(AssignmentBytes, a, rest))
  {
    out := start;
    if |a| >= U32_LIMIT { return false, out; }
    AppendAssociates(start, U32(|a|), EncList(AssignmentBytes, a, rest));
    ok, out := PushEach(start + U32(|a|), a, AssignmentBytes, rest);
  }

  method PushEnrollments(start: Bytes, p: Policy) returns (ok: bool, out: Bytes)
    ensures ok <==> (RowsFit(Map(ManagerRow, p.managers)) && RowsFit(Map(NodeRow, p.proxies))
                  && RowsFit(Map(NodeRow, p.agents)) && RowsFit(Map(Cell, p.revoked)))
    ensures Fits(p) ==> out == start + EnrollmentBytes(p)
  {
    ok, out := PushTable(start, Map(ManagerRow, p.managers));
    if !ok { return; }
    ghost var b1 := out;
    ok, out := PushTable(out, Map(NodeRow, p.proxies));
    if !ok { return; }
    ghost var b2 := out;
    ok, out := PushTable(out, Map(NodeRow, p.agents));
    if !ok { return; }
    ghost var b3 := out;
    ok, out := PushTable(out, Map(Cell, p.revoked));
    if !ok { return; }
    if Fits(p) {
      var x1, x2, x3, x4 := Table(Map(ManagerRow, p.managers)), Table(Map(NodeRow, p.proxies)),
        Table(Map(NodeRow, p.agents)), Table(Map(Cell, p.revoked));
      assert x4 + [] == x4;
      AppendAssociates(start, x1, x2 + (x3 + x4));
      AppendAssociates(b1, x2, x3 + x4);
      AppendAssociates(b2, x3, x4);
    }
  }

  /** The canonical bytes as `load` builds them; the numbers fit their fields by their types. */
  method WritePolicy(domain: Bytes, p: Policy) returns (ok: bool, out: Bytes)
    requires p.schema < U32_LIMIT && p.generation < U64_LIMIT
    ensures ok <==> Fits(p)
    ensures ok ==> out == PolicyBytes(domain, p)
  {
    out := domain;
    if |p.cluster| >= U32_LIMIT { return false, out; }
    out := domain + U32(p.schema) + U64(p.generation) + Str(p.cluster);
    ghost var b1 := out;
    ok, out := PushTable(out, Map(PrincipalRow, p.principals));
    if !ok { return; }
    ghost var b2 := out;
    ghost var tail: Bytes := if Fits(p) then EnrollmentBytes(p) else [];
    ok, out := PushAssignments(out, p.assignments, tail);
    if !ok { return; }
    ok, out := PushEnrollments(out, p);
    if ok {
      var x := U32(|p.assignments|) + EncList(AssignmentBytes, p.assignments, tail);
      assert out == b2 + x;
      AppendAssociates(b1, Table(Map(PrincipalRow, p.principals)), x);
      HeaderAppends(domain, p, Table(Map(PrincipalRow, p.principals)) + x);
    }
  }

  lemma HeaderAppends(domain: Bytes, p: Policy, rest: Bytes)
    requires p.schema < U32_LIMIT && p.generation < U64_LIMIT && |p.cluster| < U32_LIMIT
    ensures domain + U32(p.schema) + U64(p.generation) + Str(p.cluster) + rest
         == domain + (U32(p.schema) + (U64(p.generation) + (Str(p.cluster) + rest)))
  {
    AppendAssociates(domain, U32(p.schema), U64(p.generation) + (Str(p.cluster) + rest));
    AppendAssociates(domain + U32(p.schema), U64(p.generation), Str(p.cluster) + rest);
    AppendAssociates(domain + U32(p.schema) + U64(p.generation), Str(p.cluster), rest);
  }

  /** `manager_set_hash` up to the hash itself: sort, compare neighbours, write. */
  method ManagerSetBytes(domain: Bytes, targets: seq<Target>) returns (r: Option<Bytes>)
    ensures r == SetHashed(domain, targets)
  {
    var sorted := ByIds(targets);
    BytesOrder();
    NeighboursSuffice(BytesLess, TargetId, targets);
    UniqueIsDeclared(targets);
    var distinct := CheckNeighbours(TargetId, sorted);
    if !distinct { return None; }
    var ok, out := PushTable(domain, Map(TargetRow, sorted));
    return if ok then Some(out) else None;
  }
}
