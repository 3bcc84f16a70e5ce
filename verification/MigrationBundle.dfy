/** Migration bundle manifests: their validation, their digest pre-image and their capture from sources. */
module MigrationBundle {
  import opened Ordering
  import opened Encoding
  import opened Text
  import opened Identity

  const FORMAT_VERSION := 1

  type Word = n: nat | n < U64_LIMIT

  datatype Limits = Limits(perNamespace: Word, fileBytes: Word, startupBytes: Word, deadlineMs: Word, graceMs: Word)

  datatype File = File(namespace: Bytes, moduleName: Bytes, version: Word, filename: Bytes, contentHash: Bytes, length: Word)

  datatype Manifest = Manifest(format: Word, deployment: Bytes, bundle: Bytes, limits: Limits, files: seq<File>)

  // ---- file names ----------------------------------------------------------------------------------

  predicate Digit(b: Byte) { 48 <= b <= 57 }

  predicate Digits(s: Bytes) { forall i :: 0 <= i < |s| ==> Digit(s[i]) }

  function Decimal(s: Bytes): nat
    requires Digits(s)
  {
    if s == [] then 0 else 10 * Decimal(s[..|s| - 1]) + (s[|s| - 1] - 48)
  }

  const PLUS: Byte := 43

  /** `str::parse::<u64>`, which takes a leading plus sign. */
  function ParseU64(s: Bytes): Option<Word> {
    var d := if s != [] && s[0] == PLUS then s[1..] else s;
    if d == [] || !Digits(d) || Decimal(d) >= U64_LIMIT then None else Some(Decimal(d))
  }

  predicate DescriptionByte(b: Byte) {
    Digit(b) || 65 <= b <= 90 || 97 <= b <= 122 || b == 95 || b == 45
  }

  const SQL: Bytes := [46, 115, 113, 108]

  predicate ValidDescription(s: Bytes) {
    |s| > 4 && s[|s| - 4..] == SQL && forall i :: 0 <= i < |s| - 4 ==> DescriptionByte(s[i])
  }

  /** The text between the leading `V` and the first `__`. */
  function VersionText(filename: Bytes): (r: Option<Bytes>)
    ensures r.Some? ==> |r.value| + 3 <= |filename|
  {
    if filename == [] || filename[0] != 86 then None
    else match Find(filename[1..], [95, 95])
      case None => None
      case Some(i) => Some(filename[1..1 + i])
  }

  /** `parse_version`. */
  function ParseVersion(filename: Bytes): Option<Word> {
    match VersionText(filename)
    case None => None
    case Some(v) =>
      if v == [] || v[0] == 48 || !ValidDescription(filename[|v| + 3..]) then None else ParseU64(v)
  }

  const SEPARATOR: Byte := 47

  lemma VersionWithoutSeparator(v: Bytes)
    requires ParseU64(v).Some?
    ensures SEPARATOR !in v
  {
    if v[0] == PLUS { assert v == [PLUS] + v[1..]; }
  }

  lemma DescriptionWithoutSeparator(d: Bytes)
    requires ValidDescription(d)
    ensures SEPARATOR !in d
  {
    assert d == d[..|d| - 4] + d[|d| - 4..];
  }

  /** An accepted file name is a single path component: `validate_filename` need not look for separators. */
  lemma AcceptedNameIsOneComponent(filename: Bytes)
    requires ParseVersion(filename).Some?
    ensures SEPARATOR !in filename
  {
    var v := VersionText(filename).value;
    VersionWithoutSeparator(v);
    DescriptionWithoutSeparator(filename[|v| + 3..]);
    FoundUnderscores(filename[1..]);
    PiecesWithoutSeparator(filename, |v|);
  }

  lemma FoundUnderscores(s: Bytes)
    requires Find(s, [95, 95]).Some?
    ensures var i := Find(s, [95, 95]).value; s[i] == 95 && s[i + 1] == 95
  {
    FindFirst(s, [95, 95]);
    var i := Find(s, [95, 95]).value;
    assert s[i..i + 2][0] == s[i] && s[i..i + 2][1] == s[i + 1];
  }

  lemma PiecesWithoutSeparator(f: Bytes, n: nat)
    requires n + 3 <= |f| && f[0] != SEPARATOR && f[n + 1] != SEPARATOR && f[n + 2] != SEPARATOR
    requires SEPARATOR !in f[1..1 + n] && SEPARATOR !in f[n + 3..]
    ensures SEPARATOR !in f
  {
    assert f == [f[0]] + f[1..1 + n] + [f[n + 1], f[n + 2]] + f[n + 3..];
  }

  /** `u64::to_string`. */
  function Show(n: nat): (r: Bytes)
    ensures r != [] && Digit(r[0])
  {
    if n < 10 then [48 + n] else Show(n / 10) + [48 + n % 10]
  }

  lemma {:induction false} LeadingDigit(a: Bytes)
    requires Digits(a) && a != [] && a[0] != 48
    ensures Decimal(a) > 0 && (|a| > 1 ==> Decimal(a[..|a| - 1]) > 0)
  {
    if |a| > 1 { LeadingDigit(a[..|a| - 1]); }
  }

  /** Digits without a leading zero are the printed form of their value. */
  lemma {:induction false} ShowDecimal(a: Bytes)
    requires Digits(a) && a != [] && a[0] != 48
    ensures Show(Decimal(a)) == a
  {
    var front, last := a[..|a| - 1], a[|a| - 1] - 48;
    assert a == front + [a[|a| - 1]];
    if |a| == 1 {
      assert Decimal(front) == 0;
    } else {
      LeadingDigit(a);
      ShowDecimal(front);
      var n := Decimal(a);
      assert n == 10 * Decimal(front) + last && n / 10 == Decimal(front) && n % 10 == last;
    }
  }

  /** The spelling of an accepted version is canonical if and only if it does not start with a plus sign. */
  lemma VersionCanonicalExactly(filename: Bytes)
    requires ParseVersion(filename).Some?
    ensures VersionText(filename).value == Show(ParseVersion(filename).value) <==> VersionText(filename).value[0] != PLUS
  {
    var v := VersionText(filename).value;
    if v[0] != PLUS { ShowDecimal(v); }
  }

  function Named(version: Bytes, description: Bytes): Bytes { [86] + (version + ([95, 95] + description)) }

  lemma NamedVersion(version: Bytes, description: Bytes)
    requires 95 !in version
    ensures VersionText(Named(version, description)) == Some(version)
    ensures Named(version, description)[|version| + 3..] == description
  {
    var f := Named(version, description);
    var tail, pat: Bytes := version + ([95, 95] + description), [95, 95];
    assert f[1..] == tail;
    assert tail[|version|..|version| + 2] == pat;
    forall j | 0 <= j < |version| ensures !OccursAt(tail, pat, j) {
      if j + 2 <= |tail| { assert tail[j..j + 2][0] == version[j]; }
    }
    FindUnique(tail, pat, |version|);
    assert f[1..1 + |version|] == version;
  }

  /** With a plus sign the canonical-spelling test does not see leading zeros: `V+05__a.sql` has version 5. */
  lemma PlusIsNotCanonical(digits: Bytes, description: Bytes)
    requires digits != [] && Digits(digits) && Decimal(digits) < U64_LIMIT && ValidDescription(description)
    ensures ParseVersion(Named([PLUS] + digits, description)) == Some(Decimal(digits))
  {
    NamedVersion([PLUS] + digits, description);
    assert ([PLUS] + digits)[1..] == digits;
  }

  // ---- validation ----------------------------------------------------------------------------------

  predicate ValidLimits(l: Limits) {
    && l.perNamespace > 0 && l.fileBytes > 0 && l.startupBytes > 0 && l.deadlineMs > 0 && l.graceMs > 0
    && l.fileBytes <= l.startupBytes
  }

  predicate ValidFile(f: File, l: Limits) {
    && ValidName(f.namespace) && ValidName(f.moduleName) && f.version > 0
    && ParseVersion(f.filename) == Some(f.version)
    && ValidDigest(f.contentHash)
    && f.length <= l.fileBytes
  }

  /** The order on (namespace, module, version). */
  predicate KeyLess(a: File, b: File) {
    if a.namespace != b.namespace then BytesLess(a.namespace, b.namespace)
    else if a.moduleName != b.moduleName then BytesLess(a.moduleName, b.moduleName)
    else a.version < b.version
  }

  function Key(f: File): (Bytes, Bytes, Word) { (f.namespace, f.moduleName, f.version) }

  function NameKey(f: File): (Bytes, Bytes, Bytes) { (f.namespace, f.moduleName, f.filename) }

  function Length(f: File): nat { f.length }

  function InNamespace(namespace: Bytes): File -> nat { (f: File) => if f.namespace == namespace then 1 else 0 }

  function Total(files: seq<File>): nat { Sum(Length, files) }

  function CountIn(files: seq<File>, namespace: Bytes): nat { Sum(InNamespace(namespace), files) }

  /** What `validate` demands of the files, for given tests of one file and of two neighbours. */
  datatype Rules = Rules(valid: File -> bool, less: (File, File) -> bool, startupBytes: nat, perNamespace: nat)

  ghost predicate Acceptable(r: Rules, files: seq<File>) {
    && (forall i :: 0 <= i < |files| ==> r.valid(files[i]))
    && Total(files) <= r.startupBytes
    && (forall ns :: CountIn(files, ns) <= r.perNamespace)
    && Ascending(r.less, files)
  }

  /** Valid files with one identity or one name are not ordered. */
  ghost predicate Lawful(r: Rules) {
    && StrictOrder(r.less)
    && (forall a, b :: r.valid(a) && r.valid(b) && (Key(a) == Key(b) || NameKey(a) == NameKey(b)) ==> !r.less(a, b))
  }

  lemma PrefixSmaller(weight: File -> nat, files: seq<File>, n: nat)
    requires n <= |files|
    ensures Sum(weight, files[..n]) <= Sum(weight, files)
  {
    SumAppend(weight, files[..n], files[n..]);
    assert files == files[..n] + files[n..];
  }

  lemma AcceptablePrefix(r: Rules, files: seq<File>, n: nat)
    requires Acceptable(r, files) && n <= |files|
    ensures Acceptable(r, files[..n])
  {
    PrefixSmaller(Length, files, n);
    forall ns ensures CountIn(files[..n], ns) <= r.perNamespace {
      PrefixSmaller(InNamespace(ns), files, n);
      assert CountIn(files, ns) <= r.perNamespace;
    }
  }

  lemma OneMore(files: seq<File>, f: File, ns: Bytes)
    ensures Total(files + [f]) == Total(files) + f.length
    ensures CountIn(files + [f], ns) == CountIn(files, ns) + if f.namespace == ns then 1 else 0
  {
    assert (files + [f])[..|files|] == files;
  }

  lemma AscendingStep(less: (File, File) -> bool, files: seq<File>, f: File)
    requires StrictOrder(less) && Ascending(less, files)
    ensures Ascending(less, files + [f]) <==> files == [] || less(files[|files| - 1], f)
  {
    var more := files + [f];
    if files != [] && Ascending(less, more) {
      assert less(more[|files| - 1], more[|files|]);
    }
    if files != [] && less(files[|files| - 1], f) {
      forall i, j | 0 <= i < j < |more| ensures less(more[i], more[j]) {
        if j == |files| && i < j - 1 { assert less(files[i], files[j - 1]); }
      }
    }
  }

  predicate Next(r: Rules, files: seq<File>, f: File) {
    && r.valid(f) && Total(files) + f.length <= r.startupBytes
    && CountIn(files, f.namespace) + 1 <= r.perNamespace
    && (files == [] || r.less(files[|files| - 1], f))
  }

  /** One more file is acceptable exactly when it is valid, fits, and comes after the last one. */
  lemma AcceptableStep(r: Rules, files: seq<File>, f: File)
    requires Lawful(r) && Acceptable(r, files)
    ensures Acceptable(r, files + [f]) <==> Next(r, files, f)
  {
    var more := files + [f];
    AscendingStep(r.less, files, f);
    OneMore(files, f, f.namespace);
    if Acceptable(r, more) {
      assert r.valid(more[|files|]);
    }
    if Next(r, files, f) {
      forall ns ensures CountIn(more, ns) <= r.perNamespace { OneMore(files, f, ns); }
    }
  }

  /** The two duplicate checks never decide: a file after the last one has a new identity and a new name. */
  lemma DuplicatesAreDisorder(r: Rules, files: seq<File>, f: File, i: nat)
    requires Lawful(r) && Acceptable(r, files) && i < |files| && r.valid(f)
    requires Key(files[i]) == Key(f) || NameKey(files[i]) == NameKey(f)
    ensures !Next(r, files, f)
  {
    if i < |files| - 1 { assert r.less(files[i], files[|files| - 1]); }
  }

  function CountOf(counts: map<Bytes, nat>, ns: Bytes): nat { if ns in counts then counts[ns] else 0 }

  ghost predicate Counted(counts: map<Bytes, nat>, files: seq<File>) {
    forall ns :: CountOf(counts, ns) == CountIn(files, ns)
  }

  lemma CountedStep(counts: map<Bytes, nat>, files: seq<File>, f: File)
    requires Counted(counts, files)
    ensures Counted(counts[f.namespace := CountOf(counts, f.namespace) + 1], files + [f])
  {
    var more := counts[f.namespace := CountOf(counts, f.namespace) + 1];
    forall ns ensures CountOf(more, ns) == CountIn(files + [f], ns) {
      OneMore(files, f, ns);
      assert CountOf(counts, ns) == CountIn(files, ns);
    }
  }

  function Keys(files: seq<File>): set<(Bytes, Bytes, Word)> { set j | 0 <= j < |files| :: Key(files[j]) }

  function NameKeys(files: seq<File>): set<(Bytes, Bytes, Bytes)> { set j | 0 <= j < |files| :: NameKey(files[j]) }

  lemma KeysStep(files: seq<File>, f: File)
    ensures Keys(files + [f]) == Keys(files) + {Key(f)} && NameKeys(files + [f]) == NameKeys(files) + {NameKey(f)}
  {
    var more := files + [f];
    forall j | 0 <= j < |files| ensures Key(files[j]) in Keys(more) && NameKey(files[j]) in NameKeys(more) {
      assert more[j] == files[j];
    }
    assert more[|files|] == f;
  }

  lemma SeenBefore(r: Rules, files: seq<File>, f: File)
    requires Lawful(r) && Acceptable(r, files) && r.valid(f) && (Key(f) in Keys(files) || NameKey(f) in NameKeys(files))
    ensures !Next(r, files, f)
  {
    var i :| 0 <= i < |files| && (Key(files[i]) == Key(f) || NameKey(files[i]) == NameKey(f));
    DuplicatesAreDisorder(r, files, f, i);
  }

  /** The locals of the loop of `validate`, after some files. */
  datatype Seen = Seen(identities: set<(Bytes, Bytes, Word)>, names: set<(Bytes, Bytes, Bytes)>,
                       counts: map<Bytes, nat>, total: nat, previous: Option<File>)

  ghost predicate Tracks(s: Seen, files: seq<File>) {
    && s.identities == Keys(files) && s.names == NameKeys(files) && Counted(s.counts, files) && s.total == Total(files)
    && s.previous == if files == [] then None else Some(files[|files| - 1])
  }

  /** One round of the loop. */
  method Admit(r: Rules, s: Seen, ghost files: seq<File>, f: File) returns (ok: bool, t: Seen)
    requires Lawful(r) && Acceptable(r, files) && Tracks(s, files)
    ensures ok <==> Next(r, files, f)
    ensures ok ==> Tracks(t, files + [f])
  {
    t, ok := s, false;
    if !r.valid(f) { return; }
    var total := s.total + f.length;
    if total > r.startupBytes { return; }
    var count := CountOf(s.counts, f.namespace) + 1;
    assert CountOf(s.counts, f.namespace) == CountIn(files, f.namespace);
    if count > r.perNamespace { return; }
    if Key(f) in s.identities || NameKey(f) in s.names {
      SeenBefore(r, files, f);
      return;
    }
    if s.previous.Some? && !r.less(s.previous.value, f) { return; }
    CountedStep(s.counts, files, f);
    KeysStep(files, f);
    OneMore(files, f, f.namespace);
    t := Seen(s.identities + {Key(f)}, s.names + {NameKey(f)}, s.counts[f.namespace := count], total, Some(f));
    ok := true;
  }

  /** The loop of `validate`, with its sets, counts, running total and previous key. */
  method FilesAccepted(r: Rules, files: seq<File>) returns (ok: bool)
    requires Lawful(r)
    ensures ok <==> Acceptable(r, files)
  {
    var seen := Seen({}, {}, map[], 0, None);
    assert Tracks(seen, files[..0]);
    for i := 0 to |files|
      invariant Acceptable(r, files[..i]) && Tracks(seen, files[..i])
    {
      StepAt(r, files, i);
      ok, seen := Admit(r, seen, files[..i], files[i]);
      if !ok { return; }
    }
    assert files[..|files|] == files;
    return true;
  }

  lemma StepAt(r: Rules, files: seq<File>, i: nat)
    requires Lawful(r) && i < |files| && Acceptable(r, files[..i])
    ensures files[..i + 1] == files[..i] + [files[i]]
    ensures Total(files[..i + 1]) == Total(files[..i]) + files[i].length
    ensures Acceptable(r, files[..i + 1]) <==> Next(r, files[..i], files[i])
    ensures Acceptable(r, files) ==> Next(r, files[..i], files[i])
  {
    assert files[..i + 1] == files[..i] + [files[i]];
    OneMore(files[..i], files[i], []);
    AcceptableStep(r, files[..i], files[i]);
    if Acceptable(r, files) { AcceptablePrefix(r, files, i + 1); }
  }

  function RulesOf(l: Limits): Rules {
    Rules(f => ValidFile(f, l), KeyLess, l.startupBytes, l.perNamespace)
  }

  lemma KeyOrder()
    ensures StrictOrder(KeyLess)
    ensures forall a, b :: KeyLess(a, b) || KeyLess(b, a) || Key(a) == Key(b)
  {
    BytesOrder();
  }

  lemma RulesLawful(l: Limits)
    ensures Lawful(RulesOf(l))
  {
    KeyOrder();
    forall a, b | ValidFile(a, l) && ValidFile(b, l) && (Key(a) == Key(b) || NameKey(a) == NameKey(b))
      ensures !KeyLess(a, b)
    {
      assert a.version == b.version;
    }
  }

  // ---- the digest ------------------------------------------------------------------------------------

  predicate FileFits(f: File) {
    |f.namespace| < U32_LIMIT && |f.moduleName| < U32_LIMIT && |f.filename| < U32_LIMIT && |f.contentHash| < U32_LIMIT
  }

  predicate FilesFit(files: seq<File>) { forall i :: 0 <= i < |files| ==> FileFits(files[i]) }

  /** What is hashed for one file, in front of what follows. */
  function FileBytes(f: File, rest: Bytes): Bytes
    requires FileFits(f)
  {
    Str(f.namespace) + (Str(f.moduleName) + (U64(f.version) + (Str(f.filename) + (Str(f.contentHash)
      + (U64(f.length) + rest)))))
  }

  function FilesBytes(files: seq<File>): Bytes
    requires FilesFit(files)
  {
    if files == [] then [] else FileBytes(files[0], FilesBytes(files[1..]))
  }

  function LimitsBytes(l: Limits, rest: Bytes): Bytes {
    U64(l.perNamespace) + (U64(l.fileBytes) + (U64(l.startupBytes) + (U64(l.deadlineMs) + (U64(l.graceMs) + rest))))
  }

  predicate Fits(m: Manifest) { m.format < U32_LIMIT && |m.deployment| < U32_LIMIT && FilesFit(m.files) }

  function Preimage(domain: Bytes, m: Manifest): Bytes
    requires Fits(m)
  {
    domain + (U32(m.format) + (Str(m.deployment) + LimitsBytes(m.limits, FilesBytes(m.files))))
  }

  lemma FileReadsBack(f: File, g: File, r: Bytes, s: Bytes)
    requires FileFits(f) && FileFits(g) && FileBytes(f, r) == FileBytes(g, s)
    ensures f == g && r == s
  {
    var f6, g6 := U64(f.length) + r, U64(g.length) + s;
    var f5, g5 := Str(f.contentHash) + f6, Str(g.contentHash) + g6;
    var f4, g4 := Str(f.filename) + f5, Str(g.filename) + g5;
    var f3, g3 := U64(f.version) + f4, U64(g.version) + g4;
    StrPrefixFree(f.namespace, g.namespace, Str(f.moduleName) + f3, Str(g.moduleName) + g3);
    StrPrefixFree(f.moduleName, g.moduleName, f3, g3);
    U64PrefixFree(f.version, g.version, f4, g4);
    StrPrefixFree(f.filename, g.filename, f5, g5);
    StrPrefixFree(f.contentHash, g.contentHash, f6, g6);
    U64PrefixFree(f.length, g.length, r, s);
  }

  /** Although no count is written, the files can be read back: no file is encoded as nothing. */
  lemma {:induction false} FilesReadBack(a: seq<File>, b: seq<File>)
    requires FilesFit(a) && FilesFit(b) && FilesBytes(a) == FilesBytes(b)
    ensures a == b
  {
    if a != [] && b != [] {
      FileReadsBack(a[0], b[0], FilesBytes(a[1..]), FilesBytes(b[1..]));
      FilesReadBack(a[1..], b[1..]);
      assert a == [a[0]] + a[1..] && b == [b[0]] + b[1..];
    }
  }

  lemma LimitsReadBack(k: Limits, l: Limits, r: Bytes, s: Bytes)
    requires LimitsBytes(k, r) == LimitsBytes(l, s)
    ensures k == l && r == s
  {
    var k5, l5 := U64(k.graceMs) + r, U64(l.graceMs) + s;
    var k4, l4 := U64(k.deadlineMs) + k5, U64(l.deadlineMs) + l5;
    var k3, l3 := U64(k.startupBytes) + k4, U64(l.startupBytes) + l4;
    U64PrefixFree(k.perNamespace, l.perNamespace, U64(k.fileBytes) + k3, U64(l.fileBytes) + l3);
    U64PrefixFree(k.fileBytes, l.fileBytes, k3, l3);
    U64PrefixFree(k.startupBytes, l.startupBytes, k4, l4);
    U64PrefixFree(k.deadlineMs, l.deadlineMs, k5, l5);
    U64PrefixFree(k.graceMs, l.graceMs, r, s);
  }

  /** The hashed bytes determine everything but the recorded digest itself. */
  lemma PreimageDetermines(domain: Bytes, m: Manifest, n: Manifest)
    requires Fits(m) && Fits(n)
    ensures Preimage(domain, m) == Preimage(domain, n) <==> m.(bundle := []) == n.(bundle := [])
  {
    if Preimage(domain, m) == Preimage(domain, n) {
      var x, y := LimitsBytes(m.limits, FilesBytes(m.files)), LimitsBytes(n.limits, FilesBytes(n.files));
      SplitEqual(domain, domain, U32(m.format) + (Str(m.deployment) + x), U32(n.format) + (Str(n.deployment) + y));
      U32PrefixFree(m.format, n.format, Str(m.deployment) + x, Str(n.deployment) + y);
      StrPrefixFree(m.deployment, n.deployment, x, y);
      LimitsReadBack(m.limits, n.limits, FilesBytes(m.files), FilesBytes(n.files));
      FilesReadBack(m.files, n.files);
    }
  }

  function BundleDomain(): Bytes { Ascii("wruntime-migration-bundle-v1") + [0] }

  /** `computed_digest` under a given domain: it fails only for strings of four gibibytes and more. */
  function ComputedUnder(domain: Bytes, sha: Bytes -> Hash, m: Manifest): (r: Option<Bytes>)
    ensures r.Some? ==> ValidDigest(r.value)
  {
    if Fits(m) then Some(DigestText(sha(Preimage(domain, m)))) else None
  }

  lemma FileBytesAppend(buf: Bytes, f: File, rest: Bytes)
    requires FileFits(f)
    ensures buf + FileBytes(f, rest)
         == buf + Str(f.namespace) + Str(f.moduleName) + U64(f.version) + Str(f.filename) + Str(f.contentHash)
            + U64(f.length) + rest
  {
    var b1 := buf + Str(f.namespace);
    var b2 := b1 + Str(f.moduleName);
    var b3 := b2 + U64(f.version);
    var b4 := b3 + Str(f.filename);
    var b5 := b4 + Str(f.contentHash);
    var r5 := U64(f.length) + rest;
    var r4 := Str(f.contentHash) + r5;
    var r3 := Str(f.filename) + r4;
    var r2 := U64(f.version) + r3;
    AppendAssociates(buf, Str(f.namespace), Str(f.moduleName) + r2);
    AppendAssociates(b1, Str(f.moduleName), r2);
    AppendAssociates(b2, U64(f.version), r3);
    AppendAssociates(b3, Str(f.filename), r4);
    AppendAssociates(b4, Str(f.contentHash), r5);
    AppendAssociates(b5, U64(f.length), rest);
  }

  lemma FilesFrom(files: seq<File>, i: nat)
    requires i < |files|
    ensures FilesFit(files[..i]) && FileFits(files[i]) ==> FilesFit(files[..i + 1])
    ensures FilesFit(files) ==>
      FilesFit(files[i + 1..]) && FilesBytes(files[i..]) == FileBytes(files[i], FilesBytes(files[i + 1..]))
  {
    assert files[i..][1..] == files[i + 1..];
  }

  method PushFile(start: Bytes, f: File, ghost rest: Bytes) returns (r: Option<Bytes>)
    ensures r.Some? <==> FileFits(f)
    ensures r.Some? ==> r.value + rest == start + FileBytes(f, rest)
  {
    if |f.namespace| >= U32_LIMIT || |f.moduleName| >= U32_LIMIT { return None; }
    var buf := start + Str(f.namespace) + Str(f.moduleName) + U64(f.version);
    if |f.filename| >= U32_LIMIT || |f.contentHash| >= U32_LIMIT { return None; }
    buf := buf + Str(f.filename) + Str(f.contentHash) + U64(f.length);
    FileBytesAppend(start, f, rest);
    return Some(buf);
  }

  /** The loop that feeds the files to the hash, one after the other. */
  method PushFiles(start: Bytes, files: seq<File>) returns (r: Option<Bytes>)
    ensures r == if FilesFit(files) then Some(start + FilesBytes(files)) else None
  {
    var buf := start;
    var i := 0;
    assert files[0..] == files;
    while i < |files|
      invariant 0 <= i <= |files| && FilesFit(files[..i])
      invariant FilesFit(files) ==> start + FilesBytes(files) == buf + FilesBytes(files[i..])
    {
      FilesFrom(files, i);
      var next := PushFile(buf, files[i], if FilesFit(files) then FilesBytes(files[i + 1..]) else []);
      if next.None? { return None; }
      buf := next.value;
      i := i + 1;
    }
    assert files[..i] == files && files[i..] == [] && buf + [] == buf;
    return Some(buf);
  }

  // ---- accepted manifests ------------------------------------------------------------------------------

  ghost predicate Accepted(sha: Bytes -> Hash, domain: Bytes, m: Manifest) {
    && m.format == FORMAT_VERSION
    && ValidDigest(m.deployment) && ValidDigest(m.bundle) && ValidLimits(m.limits)
    && Acceptable(RulesOf(m.limits), m.files)
    && ComputedUnder(domain, sha, m) == Some(m.bundle)
  }

  /** `validate`. */
  method Validate(sha: Bytes -> Hash, m: Manifest) returns (ok: bool)
    ensures ok <==> Accepted(sha, BundleDomain(), m)
  {
    if m.format != FORMAT_VERSION || !ValidDigest(m.deployment) || !ValidDigest(m.bundle) || !ValidLimits(m.limits) {
      return false;
    }
    RulesLawful(m.limits);
    var files := FilesAccepted(RulesOf(m.limits), m.files);
    if !files { return false; }
    var digest := ComputedDigest(sha, BundleDomain(), m);
    return digest == Some(m.bundle);
  }

  /** `computed_digest`. */
  method ComputedDigest(sha: Bytes -> Hash, domain: Bytes, m: Manifest) returns (r: Option<Bytes>)
    ensures r == ComputedUnder(domain, sha, m)
  {
    if m.format >= U32_LIMIT || |m.deployment| >= U32_LIMIT { return None; }
    var l := m.limits;
    var buf := domain + U32(m.format) + Str(m.deployment);
    buf := buf + U64(l.perNamespace) + U64(l.fileBytes) + U64(l.startupBytes) + U64(l.deadlineMs) + U64(l.graceMs);
    var all := PushFiles(buf, m.files);
    if all.None? { return None; }
    HeaderAppend(domain, m);
    return Some(DigestText(sha(all.value)));
  }

  lemma HeaderAppend(domain: Bytes, m: Manifest)
    requires Fits(m)
    ensures var l := m.limits;
      Preimage(domain, m)
      == domain + U32(m.format) + Str(m.deployment) + U64(l.perNamespace) + U64(l.fileBytes) + U64(l.startupBytes)
         + U64(l.deadlineMs) + U64(l.graceMs) + FilesBytes(m.files)
  {
    var l, rest := m.limits, FilesBytes(m.files);
    var b1 := domain + U32(m.format);
    var b2 := b1 + Str(m.deployment);
    var b3 := b2 + U64(l.perNamespace);
    var b4 := b3 + U64(l.fileBytes);
    var b5 := b4 + U64(l.startupBytes);
    var b6 := b5 + U64(l.deadlineMs);
    var r6 := U64(l.graceMs) + rest;
    var r5 := U64(l.deadlineMs) + r6;
    var r4 := U64(l.startupBytes) + r5;
    var r3 := U64(l.fileBytes) + r4;
    AppendAssociates(domain, U32(m.format), Str(m.deployment) + LimitsBytes(l, rest));
    AppendAssociates(b1, Str(m.deployment), LimitsBytes(l, rest));
    AppendAssociates(b2, U64(l.perNamespace), r3);
    AppendAssociates(b3, U64(l.fileBytes), r4);
    AppendAssociates(b4, U64(l.startupBytes), r5);
    AppendAssociates(b5, U64(l.deadlineMs), r6);
    AppendAssociates(b6, U64(l.graceMs), rest);
  }

  /** Accepted manifests with one bundle digest are one manifest, unless their pre-images are a collision of the hash. */
  lemma DigestIdentifiesBundle(sha: Bytes -> Hash, domain: Bytes, m: Manifest, n: Manifest)
    requires Accepted(sha, domain, m) && Accepted(sha, domain, n)
    ensures m.bundle == n.bundle <==> m == n || Collide(sha, Preimage(domain, m), Preimage(domain, n))
  {
    SameDigest(sha, Preimage(domain, m), Preimage(domain, n));
    PreimageDetermines(domain, m, n);
  }

  // ---- capture from sources ------------------------------------------------------------------------------

  /** `capture_sources` once the directories are read: sort, record the digest, validate. */
  function Captured(sha: Bytes -> Hash, domain: Bytes, deployment: Bytes, limits: Limits, files: seq<File>): Manifest {
    var m := Manifest(FORMAT_VERSION, deployment, [], limits, SortBy(KeyLess, files));
    m.(bundle := match ComputedUnder(domain, sha, m) case None => [] case Some(d) => d)
  }

  predicate DistinctKeys(files: seq<File>) {
    forall i, j :: 0 <= i < j < |files| ==> Key(files[i]) != Key(files[j])
  }

  /** `Acceptable` for a collection of files in any order. */
  ghost predicate Capturable(l: Limits, files: seq<File>) {
    && (forall i :: 0 <= i < |files| ==> ValidFile(files[i], l))
    && Total(files) <= l.startupBytes
    && (forall ns :: CountIn(files, ns) <= l.perNamespace)
    && DistinctKeys(files)
  }

  lemma DistinctIsComparable(files: seq<File>)
    ensures DistinctKeys(files) <==> Comparable(KeyLess, files)
  {
    KeyOrder();
  }

  lemma SortedKeys(files: seq<File>)
    ensures Ascending(KeyLess, SortBy(KeyLess, files)) <==> DistinctKeys(files)
  {
    KeyOrder();
    DistinctIsComparable(files);
    SortByPermutes(KeyLess, files);
    if DistinctKeys(files) {
      SortByAscends(KeyLess, files);
    } else if Ascending(KeyLess, SortBy(KeyLess, files)) {
      ComparablePermutation(KeyLess, SortBy(KeyLess, files), files);
    }
  }

  lemma CapturableSorts(l: Limits, files: seq<File>)
    ensures Acceptable(RulesOf(l), SortBy(KeyLess, files)) <==> Capturable(l, files)
  {
    var sorted := SortBy(KeyLess, files);
    SortByPermutes(KeyLess, files);
    PermutationSameElements(sorted, files);
    SortedKeys(files);
    SumPermutes(Length, sorted, files);
    forall ns ensures CountIn(sorted, ns) == CountIn(files, ns) { SumPermutes(InNamespace(ns), sorted, files); }
    ValidEverywhere(l, sorted, files);
  }

  lemma ValidEverywhere(l: Limits, a: seq<File>, b: seq<File>)
    requires forall f :: f in a <==> f in b
    ensures (forall i :: 0 <= i < |a| ==> ValidFile(a[i], l)) <==> (forall i :: 0 <= i < |b| ==> ValidFile(b[i], l))
  {
    assert (forall f :: f in a ==> ValidFile(f, l)) <==> (forall f :: f in b ==> ValidFile(f, l));
  }

  /** Capture succeeds exactly when the files, in whatever order the directories list them, are valid, within the
      limits and of distinct identities; it never fails its own digest check. */
  lemma CaptureSucceedsExactly(sha: Bytes -> Hash, domain: Bytes, deployment: Bytes, limits: Limits, files: seq<File>)
    requires FilesFit(files)
    ensures Accepted(sha, domain, Captured(sha, domain, deployment, limits, files))
       <==> ValidDigest(deployment) && ValidLimits(limits) && Capturable(limits, files)
  {
    CapturableSorts(limits, files);
    SortByPermutes(KeyLess, files);
    var sorted := SortBy(KeyLess, files);
    PermutationSameElements(sorted, files);
    assert FilesFit(sorted) by {
      forall i | 0 <= i < |sorted| ensures FileFits(sorted[i]) { assert sorted[i] in files; }
    }
  }

  /** The captured bundle does not depend on that order. */
  lemma CaptureIgnoresOrder(sha: Bytes -> Hash, domain: Bytes, deployment: Bytes, limits: Limits, a: seq<File>, b: seq<File>)
    requires multiset(a) == multiset(b) && DistinctKeys(a)
    ensures Captured(sha, domain, deployment, limits, a) == Captured(sha, domain, deployment, limits, b)
  {
    KeyOrder();
    DistinctIsComparable(a);
    SortByOrderInvariant(KeyLess, a, b);
  }
}
