/** Canonical deployment inventories and the bytes that identify a deployment revision. */
module DeploymentContract {
  import opened Ordering
  import opened Encoding
  import opened Text
  import opened Identity
  import opened Declarations

  datatype ModuleIdentity = ModuleIdentity(namespace: Bytes, name: Bytes, version: Bytes)

  datatype Module = Module(identity: Option<ModuleIdentity>, schemaDigest: Bytes)

  datatype Secret = Secret(namespace: Bytes, key: Bytes)

  datatype Engine = Engine(slot: Bytes, modules: seq<Module>, secrets: seq<Secret>, databases: seq<Bytes>,
                           queueId: Bytes, adminAddress: Bytes)

  datatype Inventory = Inventory(schema: nat, engines: seq<Engine>)

  /** Parsers of other libraries: semantic versions, canonical HTTPS addresses and the protobuf length. */
  datatype Env = Env(version: Bytes -> bool, address: Bytes -> bool, encodedLen: Inventory -> nat)

  const MAX_INVENTORY_BYTES := 2 * 1024 * 1024

  // ---- one engine -----------------------------------------------------------------------------------------

  predicate TokenByte(b: Byte) {
    48 <= b <= 57 || 65 <= b <= 90 || 97 <= b <= 122 || b == 45 || b == 95 || b == 46
  }

  predicate ValidToken(s: Bytes) { 0 < |s| <= 128 && forall i :: 0 <= i < |s| ==> TokenByte(s[i]) }

  /** `ModuleId::parse`; its schema-length check cannot fail for two valid names. */
  predicate ValidModule(env: Env, m: Module) {
    && m.identity.Some?
    && ValidName(m.identity.value.namespace) && ValidName(m.identity.value.name) && env.version(m.identity.value.version)
    && (m.schemaDigest == [] || ValidDigest(m.schemaDigest))
  }

  function ModuleRow(m: Module): Row {
    if m.identity.None? then []
    else [m.identity.value.namespace, m.identity.value.name, m.identity.value.version, m.schemaDigest]
  }

  predicate ValidSecret(s: Secret) { ValidName(s.namespace) && 0 < |s.key| <= 256 }

  function SecretRow(s: Secret): Row { [s.namespace, s.key] }

  function DatabaseRow(namespace: Bytes): Row { [namespace] }

  predicate ValidQueue(env: Env, e: Engine) {
    if e.queueId == [] then e.adminAddress == []
    else ValidName(e.queueId) && 0 < |e.adminAddress| <= 2048 && env.address(e.adminAddress)
  }

  ghost predicate ValidEngine(env: Env, e: Engine) {
    && ValidToken(e.slot)
    && |e.modules| <= 4096 && |e.secrets| <= 4096 && |e.databases| <= 4096
    && Declared(m => ValidModule(env, m), ModuleRow, e.modules)
    && Declared(ValidSecret, SecretRow, e.secrets)
    && Declared(ValidName, DatabaseRow, e.databases)
    && ValidQueue(env, e)
  }

  function SortEngine(e: Engine): Engine {
    e.(modules := Sorted(RowLess, ModuleRow, e.modules),
       secrets := Sorted(RowLess, SecretRow, e.secrets),
       databases := Sorted(RowLess, DatabaseRow, e.databases))
  }

  function Entries(e: Engine): nat { |e.modules| + |e.secrets| + |e.databases| }

  function SlotRow(e: Engine): Row { [e.slot] }

  /** The same engine with its lists in another order. */
  ghost predicate EngineReordered(e: Engine, f: Engine) {
    && e.slot == f.slot && e.queueId == f.queueId && e.adminAddress == f.adminAddress
    && multiset(e.modules) == multiset(f.modules)
    && multiset(e.secrets) == multiset(f.secrets)
    && multiset(e.databases) == multiset(f.databases)
  }

  lemma EngineOrderIgnored(env: Env, e: Engine, f: Engine)
    requires EngineReordered(e, f)
    ensures ValidEngine(env, e) <==> ValidEngine(env, f)
    ensures ValidEngine(env, e) ==> SortEngine(e) == SortEngine(f)
    ensures Entries(e) == Entries(f)
  {
    RowOrder();
    PermutationSameElements(e.modules, f.modules);
    PermutationSameElements(e.secrets, f.secrets);
    PermutationSameElements(e.databases, f.databases);
    DeclaredReordered(RowLess, m => ValidModule(env, m), ModuleRow, e.modules, f.modules);
    DeclaredReordered(RowLess, ValidSecret, SecretRow, e.secrets, f.secrets);
    DeclaredReordered(RowLess, ValidName, DatabaseRow, e.databases, f.databases);
  }

  lemma SortReorders(e: Engine)
    ensures EngineReordered(e, SortEngine(e))
  {
    SortedPermutes(RowLess, ModuleRow, e.modules);
    SortedPermutes(RowLess, SecretRow, e.secrets);
    SortedPermutes(RowLess, DatabaseRow, e.databases);
  }

  // ---- canonicalization -------------------------------------------------------------------------------------

  ghost predicate ValidEngines(env: Env, engines: seq<Engine>) {
    && |engines| <= 1024
    && Declared((e: Engine) => ValidEngine(env, e), SlotRow, engines)
    && Sum(Entries, engines) <= 65536
  }

  function SortInventory(inventory: Inventory): Inventory {
    inventory.(engines := Sorted(RowLess, SlotRow, Map(SortEngine, inventory.engines)))
  }

  /** `canonicalize_inventory`. */
  ghost function Canonical(env: Env, inventory: Inventory): Option<Inventory> {
    var c := SortInventory(inventory);
    if inventory.schema == 1 && ValidEngines(env, inventory.engines) && env.encodedLen(c) <= MAX_INVENTORY_BYTES
    then Some(c) else None
  }

  /** The same inventory with its engines, and the lists of each, in another order. */
  ghost predicate Reordered(a: Inventory, b: Inventory) {
    a.schema == b.schema && exists middle :: Between(a.engines, middle, b.engines)
  }

  ghost predicate Between(a: seq<Engine>, middle: seq<Engine>, b: seq<Engine>) {
    && |a| == |middle| && multiset(middle) == multiset(b)
    && forall i :: 0 <= i < |a| ==> EngineReordered(a[i], middle[i])
  }

  lemma PointwiseReordered(env: Env, a: seq<Engine>, middle: seq<Engine>)
    requires |a| == |middle| && forall i :: 0 <= i < |a| ==> EngineReordered(a[i], middle[i])
    ensures ValidEngines(env, a) <==> ValidEngines(env, middle)
    ensures ValidEngines(env, a) ==> Map(SortEngine, a) == Map(SortEngine, middle)
  {
    forall i | 0 <= i < |a|
      ensures ValidEngine(env, a[i]) <==> ValidEngine(env, middle[i])
      ensures ValidEngine(env, a[i]) ==> SortEngine(a[i]) == SortEngine(middle[i])
      ensures Entries(a[i]) == Entries(middle[i]) && SlotRow(a[i]) == SlotRow(middle[i])
    {
      EngineOrderIgnored(env, a[i], middle[i]);
    }
    SumPointwise(Entries, a, middle);
    var valid := (e: Engine) => ValidEngine(env, e);
    DeclaredPointwise(valid, SlotRow, a, middle);
    if ValidEngines(env, a) {
      forall i | 0 <= i < |a| ensures SortEngine(a[i]) == SortEngine(middle[i]) { assert a[i] in a; }
    }
  }

  lemma EnginesReordered(env: Env, a: seq<Engine>, b: seq<Engine>)
    requires multiset(a) == multiset(b)
    ensures ValidEngines(env, a) <==> ValidEngines(env, b)
    ensures ValidEngines(env, a) ==> Sorted(RowLess, SlotRow, Map(SortEngine, a)) == Sorted(RowLess, SlotRow, Map(SortEngine, b))
  {
    RowOrder();
    PermutationSameElements(a, b);
    SumPermutes(Entries, a, b);
    DeclaredReordered(RowLess, (e: Engine) => ValidEngine(env, e), SlotRow, a, b);
    if ValidEngines(env, a) {
      MapPermutes(SortEngine, a, b);
      SlotsKept(a);
      DeclaredReordered(RowLess, (e: Engine) => true, SlotRow, Map(SortEngine, a), Map(SortEngine, b));
    }
  }

  lemma SlotsKept(a: seq<Engine>)
    requires forall i, j :: 0 <= i < j < |a| ==> SlotRow(a[i]) != SlotRow(a[j])
    ensures Declared((e: Engine) => true, SlotRow, Map(SortEngine, a))
  {
    var m := Map(SortEngine, a);
    forall i, j | 0 <= i < j < |m| ensures SlotRow(m[i]) != SlotRow(m[j]) {
      assert m[i] == SortEngine(a[i]) && m[j] == SortEngine(a[j]);
    }
  }

  /** Acceptance and result are the same for every order of engines, modules, secrets and databases. */
  lemma CanonicalIgnoresOrder(env: Env, a: Inventory, b: Inventory)
    requires Reordered(a, b)
    ensures Canonical(env, a) == Canonical(env, b)
  {
    var middle :| Between(a.engines, middle, b.engines);
    PointwiseReordered(env, a.engines, middle);
    EnginesReordered(env, middle, b.engines);
  }

  /** Nothing is lost or added: the canonical form is a reordering of the input. */
  lemma CanonicalReorders(inventory: Inventory)
    ensures Reordered(inventory, SortInventory(inventory))
  {
    var a, middle := inventory.engines, Map(SortEngine, inventory.engines);
    forall i | 0 <= i < |a| ensures EngineReordered(a[i], middle[i]) { SortReorders(a[i]); }
    SortedPermutes(RowLess, SlotRow, middle);
    assert Between(a, middle, SortInventory(inventory).engines);
  }

  ghost predicate EngineSorted(e: Engine) {
    && Ascending(OrderBy(RowLess, ModuleRow), e.modules)
    && Ascending(OrderBy(RowLess, SecretRow), e.secrets)
    && Ascending(OrderBy(RowLess, DatabaseRow), e.databases)
  }

  lemma SortedEngine(env: Env, e: Engine)
    requires ValidEngine(env, e)
    ensures EngineSorted(SortEngine(e))
  {
    RowOrder();
    SortedAscends(RowLess, m => ValidModule(env, m), ModuleRow, e.modules);
    SortedAscends(RowLess, ValidSecret, SecretRow, e.secrets);
    SortedAscends(RowLess, ValidName, DatabaseRow, e.databases);
  }

  /** The canonical form is strictly ascending at both levels. */
  lemma CanonicalSorted(env: Env, inventory: Inventory)
    requires Canonical(env, inventory).Some?
    ensures var c := Canonical(env, inventory).value;
      Ascending(OrderBy(RowLess, SlotRow), c.engines) && forall e :: e in c.engines ==> EngineSorted(e)
  {
    var given := inventory.engines;
    var sorted := Map(SortEngine, given);
    RowOrder();
    SlotsKept(given);
    SortedAscends(RowLess, (e: Engine) => true, SlotRow, sorted);
    SortedPermutes(RowLess, SlotRow, sorted);
    forall e | e in sorted ensures EngineSorted(e) {
      var i :| 0 <= i < |sorted| && sorted[i] == e;
      assert e == SortEngine(given[i]) && given[i] in given;
      SortedEngine(env, given[i]);
    }
  }

  lemma CanonicalIdempotent(env: Env, inventory: Inventory)
    requires Canonical(env, inventory).Some?
    ensures Canonical(env, Canonical(env, inventory).value) == Canonical(env, inventory)
  {
    CanonicalReorders(inventory);
    CanonicalIgnoresOrder(env, inventory, SortInventory(inventory));
  }

  /** The locals of the loop over the engines, after some of them. */
  datatype Progress = Progress(engines: seq<Engine>, slots: set<Row>, total: nat)

  function Slots(engines: seq<Engine>): set<Row> { set j | 0 <= j < |engines| :: SlotRow(engines[j]) }

  ghost predicate Reached(valid: Engine -> bool, p: Progress, done: seq<Engine>) {
    && Declared(valid, SlotRow, done)
    && p.engines == Map(SortEngine, done) && p.slots == Slots(done) && p.total == Sum(Entries, done)
  }

  function Advance(p: Progress, e: Engine): Progress {
    Progress(p.engines + [SortEngine(e)], p.slots + {SlotRow(e)}, p.total + |e.modules| + |e.secrets| + |e.databases|)
  }

  lemma SlotsStep(done: seq<Engine>, e: Engine)
    ensures Slots(done + [e]) == Slots(done) + {SlotRow(e)}
  {
    var more := done + [e];
    forall j | 0 <= j < |done| ensures SlotRow(done[j]) in Slots(more) { assert more[j] == done[j]; }
    assert more[|done|] == e;
  }

  lemma ReachedStep(valid: Engine -> bool, p: Progress, done: seq<Engine>, e: Engine)
    requires Reached(valid, p, done)
    ensures valid(e) && SlotRow(e) !in p.slots ==> Reached(valid, Advance(p, e), done + [e])
    ensures !valid(e) || SlotRow(e) in p.slots ==> !Declared(valid, SlotRow, done + [e])
  {
    var more := done + [e];
    assert more[|done|] == e && e in more;
    if valid(e) && SlotRow(e) !in p.slots {
      SlotsStep(done, e);
      SumAppend(Entries, done, [e]);
      SumOne(Entries, e);
      assert Map(SortEngine, more) == Map(SortEngine, done) + [SortEngine(e)];
    }
    if SlotRow(e) in p.slots {
      var j :| 0 <= j < |done| && SlotRow(done[j]) == SlotRow(e);
      assert more[j] == done[j];
    }
  }

  lemma EngineRefused(valid: Engine -> bool, p: Progress, engines: seq<Engine>, i: nat)
    requires i < |engines| && Reached(valid, p, engines[..i]) && (!valid(engines[i]) || SlotRow(engines[i]) in p.slots)
    ensures !Declared(valid, SlotRow, engines)
  {
    ReachedStep(valid, p, engines[..i], engines[i]);
    var n := i + 1;
    assert engines[..n] == engines[..i] + [engines[i]];
    if Declared(valid, SlotRow, engines) { DeclaredPrefix(valid, SlotRow, engines, n); }
  }

  /** The loop over the engines, which sorts the lists of each as it goes. */
  method CanonicalizeEngines(env: Env, engines: seq<Engine>, ghost valid: Engine -> bool)
    returns (r: Option<Progress>)
    requires forall e :: valid(e) <==> ValidEngine(env, e)
    ensures r.Some? <==> Declared(valid, SlotRow, engines)
    ensures r.Some? ==> Reached(valid, r.value, engines)
  {
    var p := Progress([], {}, 0);
    for i := 0 to |engines|
      invariant Reached(valid, p, engines[..i])
    {
      var ok := CheckEngine(env, engines[i]);
      if !ok || SlotRow(engines[i]) in p.slots {
        EngineRefused(valid, p, engines, i);
        return None;
      }
      ReachedStep(valid, p, engines[..i], engines[i]);
      assert engines[..i + 1] == engines[..i] + [engines[i]];
      p := Advance(p, engines[i]);
    }
    assert engines[..|engines|] == engines;
    return Some(p);
  }

  method CanonicalizeInventory(env: Env, inventory: Inventory) returns (r: Option<Inventory>)
    ensures r == Canonical(env, inventory)
  {
    if inventory.schema != 1 || |inventory.engines| > 1024 { return None; }
    var p := CanonicalizeEngines(env, inventory.engines, (e: Engine) => ValidEngine(env, e));
    if p.None? || p.value.total > 65536 { return None; }
    var c := inventory.(engines := Sorted(RowLess, SlotRow, p.value.engines));
    if env.encodedLen(c) > MAX_INVENTORY_BYTES { return None; }
    return Some(c);
  }

  method CheckEngine(env: Env, e: Engine) returns (ok: bool)
    ensures ok <==> ValidEngine(env, e)
  {
    if !ValidToken(e.slot) || |e.modules| > 4096 || |e.secrets| > 4096 || |e.databases| > 4096 { return false; }
    var modules := CheckDeclared(m => ValidModule(env, m), ModuleRow, e.modules);
    if !modules { return false; }
    var secrets := CheckDeclared(ValidSecret, SecretRow, e.secrets);
    if !secrets { return false; }
    var databases := CheckDeclared(ValidName, DatabaseRow, e.databases);
    if !databases { return false; }
    return ValidQueue(env, e);
  }

  // ---- the bytes of a revision ------------------------------------------------------------------------------

  predicate EngineFits(e: Engine) {
    && |e.slot| < U32_LIMIT && |e.queueId| < U32_LIMIT && |e.adminAddress| < U32_LIMIT
    && RowsFit(Map(ModuleRow, e.modules)) && RowsFit(Map(SecretRow, e.secrets)) && RowsFit(Map(DatabaseRow, e.databases))
  }

  predicate EnginesFit(engines: seq<Engine>) { forall i :: 0 <= i < |engines| ==> EngineFits(engines[i]) }

  /** What is pushed for one engine, in front of what follows. */
  function EngineBytes(e: Engine, rest: Bytes): Bytes {
    if !EngineFits(e) then []
    else
      Str(e.slot) + (Table(Map(ModuleRow, e.modules)) + (Table(Map(SecretRow, e.secrets))
        + (Table(Map(DatabaseRow, e.databases)) + (Str(e.queueId) + (Str(e.adminAddress) + rest)))))
  }

  function EnginesBytes(engines: seq<Engine>): Bytes { EncList(EngineBytes, engines, []) }

  datatype Revision = Revision(node: Bytes, number: nat, bundle: Bytes, inventory: Inventory)

  predicate RevisionFits(r: Revision) {
    && r.inventory.schema < U32_LIMIT && |r.node| < U32_LIMIT && r.number < U64_LIMIT && |r.bundle| < U32_LIMIT
    && |r.inventory.engines| < U32_LIMIT && EnginesFit(r.inventory.engines)
  }

  function RevisionBytes(domain: Bytes, r: Revision): Bytes
    requires RevisionFits(r)
  {
    domain + (U32(r.inventory.schema) + (Str(r.node) + (U64(r.number) + (Str(r.bundle)
      + (U32(|r.inventory.engines|) + EnginesBytes(r.inventory.engines))))))
  }

  /** The revision that `revision_digest` hashes: the inventory in canonical form. */
  ghost function Hashed(env: Env, r: Revision): Option<Revision> {
    if !ValidName(r.node) || r.number == 0 || !ValidDigest(r.bundle) then None
    else match Canonical(env, r.inventory)
      case None => None
      case Some(c) => if RevisionFits(r.(inventory := c)) then Some(r.(inventory := c)) else None
  }

  predicate Identified(e: Engine) { forall i :: 0 <= i < |e.modules| ==> e.modules[i].identity.Some? }

  lemma RowsDetermine(e: Engine, f: Engine)
    requires Identified(e) && Identified(f)
    requires Map(ModuleRow, e.modules) == Map(ModuleRow, f.modules)
    requires Map(SecretRow, e.secrets) == Map(SecretRow, f.secrets)
    requires Map(DatabaseRow, e.databases) == Map(DatabaseRow, f.databases)
    ensures e.modules == f.modules && e.secrets == f.secrets && e.databases == f.databases
  {
    forall i | 0 <= i < |e.modules| ensures e.modules[i] == f.modules[i] {
      var x, y := Map(ModuleRow, e.modules)[i], Map(ModuleRow, f.modules)[i];
      assert x == ModuleRow(e.modules[i]) && y == ModuleRow(f.modules[i]);
      assert x[0] == y[0] && x[1] == y[1] && x[2] == y[2] && x[3] == y[3];
    }
    forall i | 0 <= i < |e.secrets| ensures e.secrets[i] == f.secrets[i] {
      var x, y := Map(SecretRow, e.secrets)[i], Map(SecretRow, f.secrets)[i];
      assert x == SecretRow(e.secrets[i]) && y == SecretRow(f.secrets[i]);
      assert x[0] == y[0] && x[1] == y[1];
    }
    forall i | 0 <= i < |e.databases| ensures e.databases[i] == f.databases[i] {
      var x, y := Map(DatabaseRow, e.databases)[i], Map(DatabaseRow, f.databases)[i];
      assert x == DatabaseRow(e.databases[i]) && y == DatabaseRow(f.databases[i]);
      assert x[0] == y[0];
    }
  }

  lemma RowArity(e: Engine)
    requires Identified(e)
    ensures Arity(Map(ModuleRow, e.modules), 4) && Arity(Map(SecretRow, e.secrets), 2)
    ensures Arity(Map(DatabaseRow, e.databases), 1)
  {
    MapArity(ModuleRow, e.modules, 4);
    MapArity(SecretRow, e.secrets, 2);
    MapArity(DatabaseRow, e.databases, 1);
  }

  lemma MapArity<T>(row: T -> Row, items: seq<T>, k: nat)
    requires forall i :: 0 <= i < |items| ==> |row(items[i])| == k
    ensures Arity(Map(row, items), k)
  {
    forall i | 0 <= i < |items| ensures |Map(row, items)[i]| == k { assert Map(row, items)[i] == row(items[i]); }
  }

  lemma TablesReadBack(a: seq<seq<Row>>, b: seq<seq<Row>>, r: Bytes, s: Bytes)
    requires |a| == |b| == 3 && forall i :: 0 <= i < 3 ==> RowsFit(a[i]) && RowsFit(b[i])
    requires Arity(a[0], 4) && Arity(b[0], 4) && Arity(a[1], 2) && Arity(b[1], 2) && Arity(a[2], 1) && Arity(b[2], 1)
    requires Table(a[0]) + (Table(a[1]) + (Table(a[2]) + r)) == Table(b[0]) + (Table(b[1]) + (Table(b[2]) + s))
    ensures a == b && r == s
  {
    TablePrefixFree(a[0], b[0], 4, Table(a[1]) + (Table(a[2]) + r), Table(b[1]) + (Table(b[2]) + s));
    TablePrefixFree(a[1], b[1], 2, Table(a[2]) + r, Table(b[2]) + s);
    TablePrefixFree(a[2], b[2], 1, r, s);
  }

  function Tables(e: Engine): (r: seq<seq<Row>>)
    ensures |r| == 3
  {
    [Map(ModuleRow, e.modules), Map(SecretRow, e.secrets), Map(DatabaseRow, e.databases)]
  }

  lemma EngineReadsBack(e: Engine, f: Engine, r: Bytes, s: Bytes)
    requires EngineFits(e) && EngineFits(f) && Identified(e) && Identified(f)
    requires EngineBytes(e, r) == EngineBytes(f, s)
    ensures e == f && r == s
  {
    var e5, f5 := Str(e.adminAddress) + r, Str(f.adminAddress) + s;
    var e4, f4 := Str(e.queueId) + e5, Str(f.queueId) + f5;
    var t, u := Tables(e), Tables(f);
    StrPrefixFree(e.slot, f.slot, Table(t[0]) + (Table(t[1]) + (Table(t[2]) + e4)),
                  Table(u[0]) + (Table(u[1]) + (Table(u[2]) + f4)));
    RowArity(e);
    RowArity(f);
    TablesReadBack(t, u, e4, f4);
    assert t[0] == u[0] && t[1] == u[1] && t[2] == u[2];
    StrPrefixFree(e.queueId, f.queueId, e5, f5);
    StrPrefixFree(e.adminAddress, f.adminAddress, r, s);
    RowsDetermine(e, f);
  }

  lemma EnginesReadBack(a: seq<Engine>, b: seq<Engine>)
    requires EnginesFit(a) && EnginesFit(b) && |a| == |b| && EnginesBytes(a) == EnginesBytes(b)
    requires forall i :: 0 <= i < |a| ==> Identified(a[i]) && Identified(b[i])
    ensures a == b
  {
    forall i | 0 <= i < |a| ensures ReadsBack(EngineBytes, a[i], b[i]) {
      forall r, s | EngineBytes(a[i], r) == EngineBytes(b[i], s) ensures a[i] == b[i] && r == s {
        EngineReadsBack(a[i], b[i], r, s);
      }
    }
    ListReadsBack(EngineBytes, a, b, [], []);
  }

  lemma RevisionReadsBack(domain: Bytes, r: Revision, s: Revision)
    requires RevisionFits(r) && RevisionFits(s) && RevisionBytes(domain, r) == RevisionBytes(domain, s)
    requires forall i :: 0 <= i < |r.inventory.engines| ==> Identified(r.inventory.engines[i])
    requires forall i :: 0 <= i < |s.inventory.engines| ==> Identified(s.inventory.engines[i])
    ensures r == s
  {
    var a, b := r.inventory.engines, s.inventory.engines;
    var r5, s5 := U32(|a|) + EnginesBytes(a), U32(|b|) + EnginesBytes(b);
    var r4, s4 := Str(r.bundle) + r5, Str(s.bundle) + s5;
    var r3, s3 := U64(r.number) + r4, U64(s.number) + s4;
    var r2, s2 := Str(r.node) + r3, Str(s.node) + s3;
    SplitEqual(domain, domain, U32(r.inventory.schema) + r2, U32(s.inventory.schema) + s2);
    U32PrefixFree(r.inventory.schema, s.inventory.schema, r2, s2);
    StrPrefixFree(r.node, s.node, r3, s3);
    U64PrefixFree(r.number, s.number, r4, s4);
    StrPrefixFree(r.bundle, s.bundle, r5, s5);
    U32PrefixFree(|a|, |b|, EnginesBytes(a), EnginesBytes(b));
    EnginesReadBack(a, b);
  }

  lemma CanonicalIdentified(env: Env, inventory: Inventory)
    requires Canonical(env, inventory).Some?
    ensures forall i :: 0 <= i < |Canonical(env, inventory).value.engines| ==>
      Identified(Canonical(env, inventory).value.engines[i])
  {
    CanonicalIdempotent(env, inventory);
    var engines := Canonical(env, inventory).value.engines;
    forall i | 0 <= i < |engines| ensures Identified(engines[i]) {
      assert engines[i] in engines && ValidEngine(env, engines[i]);
      forall k | 0 <= k < |engines[i].modules| ensures engines[i].modules[k].identity.Some? {
        assert engines[i].modules[k] in engines[i].modules;
      }
    }
  }

  /** Two valid inputs give the same hashed bytes exactly when node, revision number, bundle digest and canonical
      inventory are the same. */
  lemma RevisionIdentity(env: Env, domain: Bytes, r: Revision, s: Revision)
    requires Hashed(env, r).Some? && Hashed(env, s).Some?
    ensures RevisionBytes(domain, Hashed(env, r).value) == RevisionBytes(domain, Hashed(env, s).value)
       <==> && r.node == s.node && r.number == s.number && r.bundle == s.bundle
            && Canonical(env, r.inventory) == Canonical(env, s.inventory)
  {
    if RevisionBytes(domain, Hashed(env, r).value) == RevisionBytes(domain, Hashed(env, s).value) {
      CanonicalIdentified(env, r.inventory);
      CanonicalIdentified(env, s.inventory);
      RevisionReadsBack(domain, Hashed(env, r).value, Hashed(env, s).value);
    }
  }

  /** So the digest of a revision is the same exactly when these four are, unless the two hashed texts are a
      collision of the hash. */
  lemma DigestIdentity(env: Env, domain: Bytes, sha: Bytes -> Hash, r: Revision, s: Revision)
    requires Hashed(env, r).Some? && Hashed(env, s).Some?
    ensures var x, y := RevisionBytes(domain, Hashed(env, r).value), RevisionBytes(domain, Hashed(env, s).value);
      DigestText(sha(x)) == DigestText(sha(y))
      <==> || (r.node == s.node && r.number == s.number && r.bundle == s.bundle
               && Canonical(env, r.inventory) == Canonical(env, s.inventory))
           || Collide(sha, x, y)
  {
    RevisionIdentity(env, domain, r, s);
    SameDigest(sha, RevisionBytes(domain, Hashed(env, r).value), RevisionBytes(domain, Hashed(env, s).value));
  }

  // ---- writing them -------------------------------------------------------------------------------------------

  method PushEngine(start: Bytes, e: Engine) returns (ok: bool, out: Bytes)
    ensures ok <==> EngineFits(e)
    ensures ok ==> forall rest :: start + EngineBytes(e, rest) == out + rest
  {
    out := start;
    if |e.slot| >= U32_LIMIT { return false, out; }
    out := out + Str(e.slot);
    ghost var b1 := out;
    ok, out := PushTable(out, Map(ModuleRow, e.modules));
    if !ok { return; }
    ghost var b2 := out;
    ok, out := PushTable(out, Map(SecretRow, e.secrets));
    if !ok { return; }
    ghost var b3 := out;
    ok, out := PushTable(out, Map(DatabaseRow, e.databases));
    if !ok { return; }
    ghost var b4 := out;
    if |e.queueId| >= U32_LIMIT || |e.adminAddress| >= U32_LIMIT { return false, out; }
    out := out + Str(e.queueId);
    ghost var b5 := out;
    out := out + Str(e.adminAddress);
    forall rest ensures start + EngineBytes(e, rest) == out + rest {
      AppendAssociates(b5, Str(e.adminAddress), rest);
      EngineAppends(start, e, rest);
    }
  }

  lemma EngineAppends(start: Bytes, e: Engine, rest: Bytes)
    requires EngineFits(e)
    ensures start + EngineBytes(e, rest)
         == start + Str(e.slot) + Table(Map(ModuleRow, e.modules)) + Table(Map(SecretRow, e.secrets))
            + Table(Map(DatabaseRow, e.databases)) + Str(e.queueId) + Str(e.adminAddress) + rest
  {
    var x1, x2, x3, x4 := Str(e.slot), Table(Map(ModuleRow, e.modules)), Table(Map(SecretRow, e.secrets)),
      Table(Map(DatabaseRow, e.databases));
    var x5, x6 := Str(e.queueId), Str(e.adminAddress);
    AppendAssociates(start, x1, x2 + (x3 + (x4 + (x5 + (x6 + rest)))));
    AppendAssociates(start + x1, x2, x3 + (x4 + (x5 + (x6 + rest))));
    AppendAssociates(start + x1 + x2, x3, x4 + (x5 + (x6 + rest)));
    AppendAssociates(start + x1 + x2 + x3, x4, x5 + (x6 + rest));
    AppendAssociates(start + x1 + x2 + x3 + x4, x5, x6 + rest);
    AppendAssociates(start + x1 + x2 + x3 + x4 + x5, x6, rest);
  }

  method PushEngines(start: Bytes, engines: seq<Engine>) returns (ok: bool, out: Bytes)
    ensures ok <==> EnginesFit(engines)
    ensures ok ==> out == start + EnginesBytes(engines)
  {
    out := start;
    var i := 0;
    assert engines[0..] == engines;
    while i < |engines|
      invariant 0 <= i <= |engines| && EnginesFit(engines[..i])
      invariant EnginesFit(engines) ==> start + EnginesBytes(engines) == out + EnginesBytes(engines[i..])
    {
      ok, out := PushEngine(out, engines[i]);
      if !ok { return; }
      assert engines[i..][1..] == engines[i + 1..];
      i := i + 1;
    }
    assert engines[..i] == engines && engines[i..] == [] && out + [] == out;
    ok := true;
  }

  function RevisionDomain(): Bytes { Ascii("wruntime-deployment-revision-v1") }

  /** `revision_digest`. */
  method RevisionDigest(env: Env, sha: Bytes -> Hash, r: Revision) returns (d: Option<Bytes>)
    requires r.number < U64_LIMIT
    ensures d == match Hashed(env, r)
                 case None => None
                 case Some(h) => Some(DigestText(sha(RevisionBytes(RevisionDomain(), h))))
  {
    if !ValidName(r.node) || r.number == 0 || !ValidDigest(r.bundle) { return None; }
    var c := CanonicalizeInventory(env, r.inventory);
    if c.None? { return None; }
    CanonicalSize(env, r.inventory);
    var domain := RevisionDomain();
    var h := r.(inventory := c.value);
    var bytes := domain + U32(c.value.schema) + Str(r.node) + U64(r.number) + Str(r.bundle)
      + U32(|c.value.engines|);
    var ok, all := PushEngines(bytes, c.value.engines);
    if !ok { return None; }
    RevisionAppends(domain, h);
    return Some(DigestText(sha(all)));
  }

  lemma CanonicalSize(env: Env, inventory: Inventory)
    requires Canonical(env, inventory).Some?
    ensures |Canonical(env, inventory).value.engines| <= 1024 && Canonical(env, inventory).value.schema == 1
  {
    SortedPermutes(RowLess, SlotRow, Map(SortEngine, inventory.engines));
  }

  lemma RevisionAppends(domain: Bytes, r: Revision)
    requires RevisionFits(r)
    ensures RevisionBytes(domain, r)
         == domain + U32(r.inventory.schema) + Str(r.node) + U64(r.number) + Str(r.bundle)
            + U32(|r.inventory.engines|) + EnginesBytes(r.inventory.engines)
  {
    var x1, x2, x3, x4 := U32(r.inventory.schema), Str(r.node), U64(r.number), Str(r.bundle);
    var x5, x6 := U32(|r.inventory.engines|), EnginesBytes(r.inventory.engines);
    AppendAssociates(domain, x1, x2 + (x3 + (x4 + (x5 + x6))));
    AppendAssociates(domain + x1, x2, x3 + (x4 + (x5 + x6)));
    AppendAssociates(domain + x1 + x2, x3, x4 + (x5 + x6));
    AppendAssociates(domain + x1 + x2 + x3, x4, x5 + x6);
    AppendAssociates(domain + x1 + x2 + x3 + x4, x5, x6);
  }
}
