/** Keyset pagination over the job table, while the queue keeps changing. */
module JobListing {
  import opened Ordering
  import opened JobQueue
  import opened QueueSafety
  import Text

  const DEFAULT_PAGE_SIZE: nat := 50
  const MAX_PAGE_SIZE: nat := 200

  datatype JobFilter = JobFilter(
    workerNamespace: Option<string>, workerName: Option<string>, workerVersion: Option<string>,
    jobType: Option<string>, sourceNamespace: Option<string>, sourceModule: Option<string>,
    createdAtFrom: Option<int>, createdAtBefore: Option<int>)

  /** `JobFilter::validate`. */
  predicate ValidFilter(f: JobFilter) {
    && (f.workerName.Some? ==> f.workerNamespace.Some?)
    && (f.workerVersion.Some? ==> f.workerName.Some?)
    && (f.sourceModule.Some? ==> f.sourceNamespace.Some?)
    && (f.createdAtFrom.Some? && f.createdAtBefore.Some? ==> f.createdAtFrom.value < f.createdAtBefore.value)
  }

  predicate Selects<T(==)>(wanted: Option<T>, actual: T) { wanted.None? || wanted.value == actual }

  /** The `WHERE` clause that `filter_predicates` and the status filter build. */
  predicate Matches(f: JobFilter, status: Option<Status>, j: Job) {
    && Selects(f.workerNamespace, j.workerNamespace)
    && Selects(f.workerName, j.workerName)
    && Selects(f.workerVersion, j.workerVersion)
    && Selects(f.jobType, j.jobType)
    && Selects(f.sourceNamespace, j.sourceNamespace)
    && Selects(f.sourceModule, j.sourceModule)
    && (f.createdAtFrom.Some? ==> f.createdAtFrom.value <= j.createdAt)
    && (f.createdAtBefore.Some? ==> j.createdAt < f.createdAtBefore.value)
    && Selects(status, j.status)
  }

  // ---- the order (created_at DESC, job_id DESC) ---------------------------------------------------

  datatype Key = Key(createdAt: int, jobId: JobId)

  predicate CharLess(a: char, b: char) { a < b }

  /** `Newer(a, b)`: `a` is listed before `b`. */
  predicate Newer(a: Key, b: Key) {
    b.createdAt < a.createdAt || (a.createdAt == b.createdAt && LexLess(CharLess, b.jobId, a.jobId))
  }

  lemma NewerOrder()
    ensures StrictTotalOrder(Newer)
  {
    forall a, b ensures Newer(a, b) ==> !Newer(b, a) { LexAsymmetric(CharLess, b.jobId, a.jobId); }
    forall a, b, c ensures Newer(a, b) && Newer(b, c) ==> Newer(a, c) {
      LexTransitive(CharLess, c.jobId, b.jobId, a.jobId);
    }
    forall a, b ensures Newer(a, b) || Newer(b, a) || a == b { LexTotal(CharLess, a.jobId, b.jobId); }
  }

  /** The sort key of a row. */
  function KeyAt(t: Table, id: JobId): Key
    requires id in t
  {
    Key(t[id].createdAt, id)
  }

  lemma {:induction false} NewestExists(keys: set<Key>) returns (k: Key)
    requires keys != {}
    ensures k in keys && forall x :: x in keys && x != k ==> Newer(k, x)
    decreases |keys|
  {
    NewerOrder();
    k :| k in keys;
    var rest := keys - {k};
    if rest != {} {
      var m := NewestExists(rest);
      if Newer(m, k) { k := m; }
      assert forall x :: x in keys && x != k ==> x in rest || Newer(k, x);
    }
  }

  /** The sorted listing of a set of rows. */
  ghost function Enumerate(keys: set<Key>): (r: seq<Key>)
    ensures Ascending(Newer, r)
    ensures forall k :: k in r <==> k in keys
    decreases |keys|
  {
    if keys == {} then []
    else
      assert exists k :: k in keys && forall x :: x in keys && x != k ==> Newer(k, x) by {
        var m := NewestExists(keys);
      }
      var k :| k in keys && forall x :: x in keys && x != k ==> Newer(k, x);
      var r := Enumerate(keys - {k});
      AscendingCons(Newer, k, r);
      [k] + r
  }

  lemma AscendingCons<T>(less: (T, T) -> bool, k: T, r: seq<T>)
    requires Ascending(less, r) && forall x :: x in r ==> less(k, x)
    ensures Ascending(less, [k] + r)
  {
    var s := [k] + r;
    forall i, j | 0 <= i < j < |s| ensures less(s[i], s[j]) {
      assert s[j] == r[j - 1];
      if i > 0 { assert s[i] == r[i - 1]; } else { assert r[j - 1] in r; }
    }
  }

  // ---- cursors --------------------------------------------------------------------------------

  datatype CursorV1 = CursorV1(v: nat, createdAt: Option<int>, jobId: JobId, filter: string)

  /** Base64 over JSON and RFC 3339 are foreign code: abstract, with a round trip.  The paging below holds for every
      way to tell filters apart; the code's own way follows. */
  datatype Codec = Codec(
    encode: CursorV1 -> string, decode: string -> Option<CursorV1>,
    fingerprint: (JobFilter, Option<Status>) -> string)

  ghost predicate FaithfulCodec(c: Codec) {
    forall v :: c.decode(c.encode(v)) == Some(v) && c.encode(v) != ""
  }

  function EncodeCursor(c: Codec, item: JobListItem, f: JobFilter, status: Option<Status>): string {
    c.encode(CursorV1(1, Some(item.createdAt), item.jobId, c.fingerprint(f, status)))
  }

  function DecodeCursor(c: Codec, value: string, f: JobFilter, status: Option<Status>): Result<Option<Key>> {
    if value == "" then Ok(None)
    else match c.decode(value)
      case None => Err(Invalid)
      case Some(cursor) =>
        if cursor.v != 1 || cursor.filter != c.fingerprint(f, status) then Err(Invalid)
        else if cursor.createdAt.None? || cursor.jobId == "" then Err(Invalid)
        else Ok(Some(Key(cursor.createdAt.value, cursor.jobId)))
  }

  /** A cursor is accepted by the queries with the fingerprint of the one it was issued for, and by no others. */
  lemma CursorRoundTrip(c: Codec, item: JobListItem, f: JobFilter, status: Option<Status>, g: JobFilter, wanted: Option<Status>)
    requires FaithfulCodec(c) && item.jobId != ""
    ensures DecodeCursor(c, EncodeCursor(c, item, f, status), g, wanted)
         == if c.fingerprint(f, status) == c.fingerprint(g, wanted)
            then Ok(Some(Key(item.createdAt, item.jobId))) else Err(Invalid)
  {
    var v := CursorV1(1, Some(item.createdAt), item.jobId, c.fingerprint(f, status));
    assert c.decode(c.encode(v)) == Some(v);
  }

  // ---- fingerprints ----------------------------------------------------------------------------------

  /** The character that `fingerprint` puts between the fields. */
  const UNIT_SEPARATOR: char := 0x1f as char

  function TextOf(field: Option<string>): string { if field.None? then "" else field.value }

  /** `JobState::as_str`. */
  function StatusText(s: Status): string {
    match s case Pending => "pending" case Running => "running" case Complete => "complete" case Dead => "dead"
  }

  /** The nine fields; `time` is the RFC 3339 text of a time. */
  function FieldTexts(time: int -> string, f: JobFilter, status: Option<Status>): (r: seq<string>)
    ensures |r| == 9
  {
    [TextOf(f.workerNamespace), TextOf(f.workerName), TextOf(f.workerVersion), TextOf(f.jobType),
     TextOf(f.sourceNamespace), TextOf(f.sourceModule),
     if f.createdAtFrom.None? then "" else time(f.createdAtFrom.value),
     if f.createdAtBefore.None? then "" else time(f.createdAtBefore.value),
     if status.None? then "" else StatusText(status.value)]
  }

  function Normalized(time: int -> string, f: JobFilter, status: Option<Status>): string {
    Text.Join(UNIT_SEPARATOR, FieldTexts(time, f, status))
  }

  /** The codec whose fingerprint is the code's: a digest of the joined fields. */
  function CursorCodec(encode: CursorV1 -> string, decode: string -> Option<CursorV1>, time: int -> string,
                       digest: string -> string): Codec {
    Codec(encode, decode, (f, status) => digest(Normalized(time, f, status)))
  }

  /** Two queries have one normalized text exactly when their fields have the same parts between separators. */
  lemma NormalizedSameExactly(time: int -> string, f: JobFilter, s: Option<Status>, g: JobFilter, t: Option<Status>)
    ensures Normalized(time, f, s) == Normalized(time, g, t)
       <==> Text.Pieces(UNIT_SEPARATOR, FieldTexts(time, f, s)) == Text.Pieces(UNIT_SEPARATOR, FieldTexts(time, g, t))
  {
    Text.JoinedSameExactly(UNIT_SEPARATOR, FieldTexts(time, f, s), FieldTexts(time, g, t));
  }

  /** So a query without a separator in its fields is told apart from every other. */
  lemma NormalizedInjective(time: int -> string, f: JobFilter, s: Option<Status>, g: JobFilter, t: Option<Status>)
    requires Text.Without(UNIT_SEPARATOR, FieldTexts(time, f, s))
    ensures Normalized(time, f, s) == Normalized(time, g, t) <==> FieldTexts(time, f, s) == FieldTexts(time, g, t)
  {
    NormalizedSameExactly(time, f, s, g, t);
    Text.PiecesPlain(UNIT_SEPARATOR, FieldTexts(time, f, s));
    Text.PiecesCount(UNIT_SEPARATOR, FieldTexts(time, g, t));
  }

  /** A cursor is accepted exactly by the queries whose fields have the same parts, unless the two normalized texts are
      a collision of the digest. */
  lemma CursorAcceptedExactly(encode: CursorV1 -> string, decode: string -> Option<CursorV1>, time: int -> string,
                              digest: string -> string, item: JobListItem, f: JobFilter, s: Option<Status>,
                              g: JobFilter, t: Option<Status>)
    requires FaithfulCodec(CursorCodec(encode, decode, time, digest)) && item.jobId != ""
    ensures var c, x, y := CursorCodec(encode, decode, time, digest), Normalized(time, f, s), Normalized(time, g, t);
      DecodeCursor(c, EncodeCursor(c, item, f, s), g, t).Ok?
      <==> || Text.Pieces(UNIT_SEPARATOR, FieldTexts(time, f, s)) == Text.Pieces(UNIT_SEPARATOR, FieldTexts(time, g, t))
           || (x != y && digest(x) == digest(y))
  {
    CursorRoundTrip(CursorCodec(encode, decode, time, digest), item, f, s, g, t);
    NormalizedSameExactly(time, f, s, g, t);
  }

  // ---- keyset scans over sets of keys ---------------------------------------------------------------

  ghost function Below(keys: set<Key>, after: Option<Key>): set<Key> {
    set k | k in keys && (after.Some? ==> Newer(after.value, k))
  }

  /** A page: the newest rows after the cursor, and the last of them as next cursor if any row is left. */
  ghost predicate Serves(keys: set<Key>, after: Option<Key>, page: seq<Key>, next: Option<Key>) {
    var rows := Enumerate(Below(keys, after));
    && page <= rows
    && (next.None? ==> page == rows)
    && (next.Some? ==> page != [] && next.value == page[|page| - 1])
  }

  /** Page `i` is served from the `i`-th set of rows, starting at the cursor of the page before. */
  ghost predicate ServedAt(sets: seq<set<Key>>, pages: seq<seq<Key>>, cursors: seq<Option<Key>>, i: nat)
    requires i < |sets| == |pages| == |cursors| - 1
  {
    && Serves(sets[i], cursors[i], pages[i], cursors[i + 1])
    && sets[0] <= sets[i]
    && (if i == 0 then cursors[i].None? else cursors[i].Some?)
  }

  ghost predicate IsKeyScan(sets: seq<set<Key>>, pages: seq<seq<Key>>, cursors: seq<Option<Key>>) {
    && |sets| == |pages| == |cursors| - 1
    && forall i :: 0 <= i < |pages| ==> ServedAt(sets, pages, cursors, i)
  }

  function Concat(pages: seq<seq<Key>>): seq<Key> {
    if pages == [] then [] else Concat(pages[..|pages| - 1]) + pages[|pages| - 1]
  }

  /** What has been listed is in order, and of the first set only keys older than the cursor are missing. */
  ghost predicate Progress(first: set<Key>, listed: seq<Key>, cursor: Option<Key>, started: bool) {
    && Ascending(Newer, listed)
    && (cursor.Some? ==> listed != [] && cursor.value == listed[|listed| - 1])
    && (started && cursor.None? ==> forall k :: k in first ==> k in listed)
    && (cursor.Some? ==> forall k :: k in first ==> k in listed || Newer(cursor.value, k))
    && (!started ==> listed == [] && cursor.None?)
  }

  lemma PageOrdered(listed: seq<Key>, cursor: Option<Key>, page: seq<Key>)
    requires Ascending(Newer, listed) && Ascending(Newer, page)
    requires if cursor.None? then listed == [] else listed != [] && cursor.value == listed[|listed| - 1]
    requires cursor.Some? ==> forall k :: k in page ==> Newer(cursor.value, k)
    ensures Ascending(Newer, listed + page)
  {
    NewerOrder();
    var all := listed + page;
    forall i, j | 0 <= i < j < |all| ensures Newer(all[i], all[j]) {
      if |listed| <= j {
        assert all[j] == page[j - |listed|];
        if i < |listed| {
          assert all[i] == cursor.value || Newer(all[i], cursor.value);
          assert page[j - |listed|] in page;
        } else {
          assert all[i] == page[i - |listed|];
        }
      }
    }
  }

  lemma PrefixKeeps(rows: seq<Key>, page: seq<Key>, k: Key)
    requires Ascending(Newer, rows) && page <= rows && k in rows
    ensures k in page || page == [] || Newer(page[|page| - 1], k)
  {
    var p :| 0 <= p < |rows| && rows[p] == k;
    if p < |page| {
      assert page[p] == k;
    } else if page != [] {
      assert page[|page| - 1] == rows[|page| - 1];
    }
  }

  lemma ProgressStep(first: set<Key>, now: set<Key>, listed: seq<Key>, cursor: Option<Key>, started: bool,
                     page: seq<Key>, next: Option<Key>)
    requires Progress(first, listed, cursor, started) && first <= now && (started ==> cursor.Some?)
    requires Serves(now, cursor, page, next)
    ensures Progress(first, listed + page, next, true)
  {
    var rows := Enumerate(Below(now, cursor));
    forall k | k in page ensures k in Below(now, cursor) { assert k in rows; }
    assert Ascending(Newer, page);
    PageOrdered(listed, cursor, page);
    forall k | k in first && k !in listed
      ensures k in page || (next.Some? && Newer(next.value, k))
    {
      assert k in Below(now, cursor) && k in rows;
      PrefixKeeps(rows, page, k);
    }
    if next.Some? { assert (listed + page)[|listed + page| - 1] == page[|page| - 1]; }
    assert forall k :: k in page || k in listed ==> k in listed + page;
  }

  lemma {:induction false} ScanProgress(sets: seq<set<Key>>, pages: seq<seq<Key>>, cursors: seq<Option<Key>>, n: nat)
    requires IsKeyScan(sets, pages, cursors) && 0 < n <= |pages|
    ensures Progress(sets[0], Concat(pages[..n]), cursors[n], true)
  {
    var i := n - 1;
    assert pages[..n][..i] == pages[..i];
    assert ServedAt(sets, pages, cursors, i);
    if i == 0 {
      assert pages[..i] == [];
      ProgressStep(sets[0], sets[0], [], None, false, pages[0], cursors[1]);
    } else {
      ScanProgress(sets, pages, cursors, i);
      ProgressStep(sets[0], sets[i], Concat(pages[..i]), cursors[i], true, pages[i], cursors[n]);
    }
  }

  /** Keys that appeared later are newer than all keys of the first set. */
  ghost predicate OnlyNewer(first: set<Key>, now: set<Key>) {
    forall k, x :: k in now && k !in first && x in first ==> Newer(k, x)
  }

  lemma {:induction false} ScanSound(sets: seq<set<Key>>, pages: seq<seq<Key>>, cursors: seq<Option<Key>>, n: nat)
    requires IsKeyScan(sets, pages, cursors) && n <= |pages|
    requires forall i :: 0 <= i < |sets| ==> OnlyNewer(sets[0], sets[i])
    ensures forall k :: k in Concat(pages[..n]) ==> k in sets[0]
    ensures |Concat(pages[..n])| >= if 0 < n && cursors[n].None? then n - 1 else n
  {
    if n > 0 {
      var i := n - 1;
      ScanSound(sets, pages, cursors, i);
      assert pages[..n][..i] == pages[..i];
      assert ServedAt(sets, pages, cursors, i) && OnlyNewer(sets[0], sets[i]);
      if i > 0 {
        ScanProgress(sets, pages, cursors, i);
        assert cursors[i].value in Concat(pages[..i]);
      }
      NewerOrder();
      forall k | k in pages[i] ensures k in sets[0] {
        assert k in Enumerate(Below(sets[i], cursors[i])) && k in Below(sets[i], cursors[i]);
      }
    }
  }

  lemma AscendingTail(a: seq<Key>, k: Key)
    requires a != [] && Ascending(Newer, a)
    ensures k in a[1..] <==> k in a && k != a[0]
  {
    NewerOrder();
    if k in a && k != a[0] {
      var p :| 0 <= p < |a| && a[p] == k;
      assert a[1..][p - 1] == k;
    }
  }

  lemma NoElements(a: seq<Key>)
    ensures (forall k :: k !in a) ==> a == []
  {
    if a != [] { assert a[0] in a; }
  }

  lemma {:induction false} SameElementsSameListing(a: seq<Key>, b: seq<Key>)
    requires Ascending(Newer, a) && Ascending(Newer, b) && forall k :: k in a <==> k in b
    ensures a == b
  {
    NewerOrder();
    if a == [] || b == [] {
      NoElements(a);
      NoElements(b);
    } else {
      assert a[0] in b;
      AscendingSameFirst(Newer, a, b);
      forall k ensures k in a[1..] <==> k in b[1..] {
        AscendingTail(a, k);
        AscendingTail(b, k);
      }
      SameElementsSameListing(a[1..], b[1..]);
      assert a == [a[0]] + a[1..] && b == [b[0]] + b[1..];
    }
  }

  lemma {:induction false} AscendingSubsetShort(a: seq<Key>, s: set<Key>)
    requires Ascending(Newer, a) && forall k :: k in a ==> k in s
    ensures |a| <= |s|
  {
    if a != [] {
      forall k | k in a[1..] ensures k in s - {a[0]} { AscendingTail(a, k); }
      AscendingSubsetShort(a[1..], s - {a[0]});
    }
  }

  /** If later keys are newer, the pages are the sorted listing of the first set, cut into pieces. */
  lemma KeyScanRefines(sets: seq<set<Key>>, pages: seq<seq<Key>>, cursors: seq<Option<Key>>)
    requires IsKeyScan(sets, pages, cursors) && pages != []
    requires forall i :: 0 <= i < |sets| ==> OnlyNewer(sets[0], sets[i])
    ensures cursors[|pages|].None? ==> Concat(pages) == Enumerate(sets[0])
    ensures |pages| <= |sets[0]| + 1
  {
    var n := |pages|;
    ScanProgress(sets, pages, cursors, n);
    ScanSound(sets, pages, cursors, n);
    assert pages[..n] == pages;
    AscendingSubsetShort(Concat(pages), sets[0]);
    if cursors[n].None? { SameElementsSameListing(Concat(pages), Enumerate(sets[0])); }
  }

  // ---- one page of the table ----------------------------------------------------------------------

  function Matching(t: Table, f: JobFilter, status: Option<Status>, after: Option<Key>): set<Key> {
    set id | id in t && Matches(f, status, t[id]) && (after.Some? ==> Newer(after.value, KeyAt(t, id))) :: KeyAt(t, id)
  }

  datatype JobPage = JobPage(jobs: seq<JobListItem>, nextCursor: Option<string>)

  function ItemKeys(items: seq<JobListItem>): seq<Key> {
    seq(|items|, i requires 0 <= i < |items| => Key(items[i].createdAt, items[i].jobId))
  }

  ghost predicate Keyed(t: Table) { forall id :: id in t ==> t[id].jobId == id }

  ghost predicate GoodTable(t: Table) { Keyed(t) && forall id :: id in t ==> id != "" }

  /** Turn selected rows into items; one row that fails `list_item` fails the page. */
  function ListItems(t: Table, keys: seq<Key>): (r: Result<seq<JobListItem>>)
    requires forall i :: 0 <= i < |keys| ==> keys[i].jobId in t
    ensures r.Ok? <==> forall i :: 0 <= i < |keys| ==> ListItem(t[keys[i].jobId]).Ok?
  {
    if keys == [] then Ok([])
    else
      match ListItem(t[keys[0].jobId])
      case Err(e) => Err(e)
      case Ok(item) =>
        assert ListItem(t[keys[0].jobId]).Ok?;
        match ListItems(t, keys[1..])
        case Err(e) => Err(e)
        case Ok(items) => Ok([item] + items)
  }

  /** The tail of `list_jobs`: at most `size` of the selected rows, and a cursor if one more was found. */
  function PageOf(t: Table, c: Codec, f: JobFilter, status: Option<Status>, size: nat, rows: seq<Key>): Result<JobPage>
    requires forall i :: 0 <= i < |rows| ==> rows[i].jobId in t
  {
    var hasMore := |rows| > size;
    match ListItems(t, if hasMore then rows[..size] else rows)
    case Err(e) => Err(e)
    case Ok(items) =>
      Ok(JobPage(items, if hasMore && items != [] then Some(EncodeCursor(c, items[|items| - 1], f, status)) else None))
  }

  function EffectiveSize(pageSize: nat): nat { if pageSize == 0 then DEFAULT_PAGE_SIZE else pageSize }

  lemma MatchingInTable(t: Table, f: JobFilter, status: Option<Status>, after: Option<Key>, rows: seq<Key>)
    requires forall k :: k in rows ==> k in Matching(t, f, status, after)
    ensures forall i :: 0 <= i < |rows| ==> rows[i].jobId in t && KeyAt(t, rows[i].jobId) == rows[i]
  {
    forall i | 0 <= i < |rows| ensures rows[i].jobId in t && KeyAt(t, rows[i].jobId) == rows[i] {
      assert rows[i] in rows;
    }
  }

  ghost function ListJobs(t: Table, c: Codec, f: JobFilter, status: Option<Status>, pageSize: nat, cursor: string): Result<JobPage>
  {
    if !ValidFilter(f) || EffectiveSize(pageSize) > MAX_PAGE_SIZE then Err(Invalid)
    else match DecodeCursor(c, cursor, f, status)
      case Err(e) => Err(e)
      case Ok(after) =>
        var rows := Enumerate(Matching(t, f, status, after));
        MatchingInTable(t, f, status, after, rows);
        PageOf(t, c, f, status, EffectiveSize(pageSize), rows)
  }

  lemma {:induction false} ListItemsKeys(t: Table, keys: seq<Key>)
    requires Keyed(t)
    requires forall i :: 0 <= i < |keys| ==> keys[i].jobId in t && KeyAt(t, keys[i].jobId) == keys[i]
    requires ListItems(t, keys).Ok?
    ensures ItemKeys(ListItems(t, keys).value) == keys
  {
    if keys != [] {
      ListItemsKeys(t, keys[1..]);
      var items := ListItems(t, keys).value;
      assert items[1..] == ListItems(t, keys[1..]).value;
      assert ItemKeys(items) == [keys[0]] + ItemKeys(items[1..]);
      assert keys == [keys[0]] + keys[1..];
    }
  }

  /** The page shows the first of the rows, and ends with them or with a cursor that decodes to the last it shows. */
  ghost predicate Contains(c: Codec, f: JobFilter, status: Option<Status>, page: JobPage, rows: seq<Key>) {
    var keys := ItemKeys(page.jobs);
    && keys <= rows
    && (page.nextCursor.None? ==> keys == rows)
    && (page.nextCursor.Some? ==> page.nextCursor.value != "" && keys != [])
    && (page.nextCursor.Some? ==> DecodeCursor(c, page.nextCursor.value, f, status) == Ok(Some(keys[|keys| - 1])))
  }

  /** What a successful page contains: the newest `size` rows, and a cursor that decodes to the last of them. */
  lemma PageContents(t: Table, c: Codec, f: JobFilter, status: Option<Status>, size: nat, rows: seq<Key>)
    requires FaithfulCodec(c) && GoodTable(t) && 0 < size
    requires forall i :: 0 <= i < |rows| ==> rows[i].jobId in t && KeyAt(t, rows[i].jobId) == rows[i]
    requires PageOf(t, c, f, status, size, rows).Ok?
    ensures Contains(c, f, status, PageOf(t, c, f, status, size, rows).value, rows)
  {
    var shown := if |rows| > size then rows[..size] else rows;
    ListItemsKeys(t, shown);
    var items := ListItems(t, shown).value;
    assert |items| == |ItemKeys(items)| == |shown|;
    if |rows| > size {
      var last := items[|items| - 1];
      assert Key(last.createdAt, last.jobId) == ItemKeys(items)[|items| - 1] == shown[|items| - 1];
      CursorRoundTrip(c, last, f, status, f, status);
      assert c.encode(CursorV1(1, Some(last.createdAt), last.jobId, c.fingerprint(f, status))) != "";
    }
  }

  // ---- following cursors -------------------------------------------------------------------------

  ghost predicate Persists(a: Table, b: Table) {
    forall id :: id in a ==> id in b && SameIdentity(a[id], b[id])
  }

  /** Page `i` answers request `i` on table `i` with no status filter; each request after the first passes on the
      cursor of the page before. */
  ghost predicate Answered(tables: seq<Table>, c: Codec, f: JobFilter, sizes: seq<nat>, pages: seq<JobPage>, i: nat)
    requires i < |tables| == |sizes| == |pages|
  {
    && GoodTable(tables[i])
    && Persists(tables[0], tables[i])
    && (i < |pages| - 1 ==> pages[i].nextCursor.Some?)
    && ListJobs(tables[i], c, f, None, sizes[i], CursorBefore(pages, i)) == Ok(pages[i])
  }

  ghost predicate IsScan(tables: seq<Table>, c: Codec, f: JobFilter, sizes: seq<nat>, pages: seq<JobPage>) {
    && |tables| == |sizes| == |pages|
    && forall i :: 0 <= i < |pages| ==> Answered(tables, c, f, sizes, pages, i)
  }

  function CursorBefore(pages: seq<JobPage>, i: nat): string
    requires i <= |pages|
  {
    if i == 0 || pages[i - 1].nextCursor.None? then "" else pages[i - 1].nextCursor.value
  }

  function PageKeys(pages: seq<JobPage>): seq<seq<Key>> {
    seq(|pages|, i requires 0 <= i < |pages| => ItemKeys(pages[i].jobs))
  }

  /** The job keys of all pages, in the order received. */
  function Listed(pages: seq<JobPage>): seq<Key> { Concat(PageKeys(pages)) }

  ghost function MatchingSets(tables: seq<Table>, f: JobFilter): seq<set<Key>> {
    seq(|tables|, i requires 0 <= i < |tables| => Matching(tables[i], f, None, None))
  }

  /** The position a cursor stands for; the empty cursor is the start. */
  function Position(c: Codec, f: JobFilter, cursor: string): Option<Key> {
    var d := DecodeCursor(c, cursor, f, None); if d.Ok? then d.value else None
  }

  ghost function KeyCursors(c: Codec, f: JobFilter, pages: seq<JobPage>): seq<Option<Key>> {
    seq(|pages| + 1, i requires 0 <= i <= |pages| => Position(c, f, CursorBefore(pages, i)))
  }

  lemma MatchingBelow(t: Table, f: JobFilter, after: Option<Key>)
    ensures Matching(t, f, None, after) == Below(Matching(t, f, None, None), after)
  {
  }

  function NextOf(page: JobPage): string { if page.nextCursor.Some? then page.nextCursor.value else "" }

  lemma RequestContents(t: Table, c: Codec, f: JobFilter, size: nat, cursor: string, page: JobPage)
    requires GoodTable(t) && FaithfulCodec(c) && ListJobs(t, c, f, None, size, cursor) == Ok(page)
    ensures Contains(c, f, None, page, Enumerate(Matching(t, f, None, Position(c, f, cursor))))
  {
    var after := Position(c, f, cursor);
    var rows := Enumerate(Matching(t, f, None, after));
    MatchingInTable(t, f, None, after, rows);
    PageContents(t, c, f, None, EffectiveSize(size), rows);
  }

  /** A successful request serves one page of the matching keys. */
  lemma RequestServes(t: Table, c: Codec, f: JobFilter, size: nat, cursor: string, page: JobPage)
    requires GoodTable(t) && FaithfulCodec(c) && ListJobs(t, c, f, None, size, cursor) == Ok(page)
    ensures Serves(Matching(t, f, None, None), Position(c, f, cursor), ItemKeys(page.jobs), Position(c, f, NextOf(page)))
    ensures Position(c, f, NextOf(page)).Some? <==> page.nextCursor.Some?
  {
    RequestContents(t, c, f, size, cursor, page);
    MatchingBelow(t, f, Position(c, f, cursor));
  }

  /** A scan of the table is a scan of its sets of matching keys. */
  lemma ScanIsKeyScan(tables: seq<Table>, c: Codec, f: JobFilter, sizes: seq<nat>, pages: seq<JobPage>)
    requires IsScan(tables, c, f, sizes, pages) && FaithfulCodec(c) && pages != []
    ensures IsKeyScan(MatchingSets(tables, f), PageKeys(pages), KeyCursors(c, f, pages))
    ensures KeyCursors(c, f, pages)[|pages|].None? <==> pages[|pages| - 1].nextCursor.None?
  {
    var sets, keys, cursors := MatchingSets(tables, f), PageKeys(pages), KeyCursors(c, f, pages);
    forall i | 0 <= i < |keys| ensures ServedAt(sets, keys, cursors, i) {
      PageOfScan(tables, c, f, sizes, pages, i);
      if i > 0 { CursorPassedOn(tables, c, f, sizes, pages, i); }
    }
    PageOfScan(tables, c, f, sizes, pages, |pages| - 1);
  }

  lemma PageOfScan(tables: seq<Table>, c: Codec, f: JobFilter, sizes: seq<nat>, pages: seq<JobPage>, i: nat)
    requires IsScan(tables, c, f, sizes, pages) && FaithfulCodec(c) && i < |pages|
    ensures Serves(Matching(tables[i], f, None, None), Position(c, f, CursorBefore(pages, i)),
                   ItemKeys(pages[i].jobs), Position(c, f, CursorBefore(pages, i + 1)))
    ensures Position(c, f, CursorBefore(pages, i + 1)).Some? <==> pages[i].nextCursor.Some?
    ensures Matching(tables[0], f, None, None) <= Matching(tables[i], f, None, None)
  {
    assert Answered(tables, c, f, sizes, pages, i);
    assert CursorBefore(pages, i + 1) == NextOf(pages[i]);
    RequestServes(tables[i], c, f, sizes[i], CursorBefore(pages, i), pages[i]);
    PersistentMatches(tables[0], tables[i], f);
  }

  lemma CursorPassedOn(tables: seq<Table>, c: Codec, f: JobFilter, sizes: seq<nat>, pages: seq<JobPage>, i: nat)
    requires IsScan(tables, c, f, sizes, pages) && FaithfulCodec(c) && 0 < i < |pages|
    ensures Position(c, f, CursorBefore(pages, i)).Some?
  {
    assert Answered(tables, c, f, sizes, pages, i - 1);
    assert CursorBefore(pages, i) == NextOf(pages[i - 1]);
    RequestServes(tables[i - 1], c, f, sizes[i - 1], CursorBefore(pages, i - 1), pages[i - 1]);
  }

  lemma PersistentMatches(a: Table, b: Table, f: JobFilter)
    requires Persists(a, b)
    ensures Matching(a, f, None, None) <= Matching(b, f, None, None)
  {
    forall k | k in Matching(a, f, None, None) ensures k in Matching(b, f, None, None) {
      var id :| id in a && Matches(f, None, a[id]) && KeyAt(a, id) == k;
      assert id in b && KeyAt(b, id) == k && Matches(f, None, b[id]);
    }
  }

  /** A finished scan lists every matching job of the first table exactly once, newest first, whatever the queue
      did meanwhile and whatever page sizes were asked for. */
  lemma ScanComplete(tables: seq<Table>, c: Codec, f: JobFilter, sizes: seq<nat>, pages: seq<JobPage>, k: Key)
    requires IsScan(tables, c, f, sizes, pages) && FaithfulCodec(c) && pages != []
    requires pages[|pages| - 1].nextCursor.None?
    requires k in Matching(tables[0], f, None, None)
    ensures Ascending(Newer, Listed(pages))
    ensures multiset(Listed(pages))[k] == 1
  {
    ScanIsKeyScan(tables, c, f, sizes, pages);
    ScanProgress(MatchingSets(tables, f), PageKeys(pages), KeyCursors(c, f, pages), |pages|);
    assert PageKeys(pages)[..|pages|] == PageKeys(pages);
    NewerOrder();
    ComparableDistinct(Newer, Listed(pages), k);
    assert k in Listed(pages);
  }

  /** Rows that appeared after the first request were created strictly later than every row present then. */
  ghost predicate InsertedLater(first: Table, t: Table) {
    forall id, prior :: id in t && id !in first && prior in first ==> first[prior].createdAt < t[id].createdAt
  }

  lemma LaterIsNewer(first: Table, t: Table, f: JobFilter)
    requires Persists(first, t) && InsertedLater(first, t)
    ensures OnlyNewer(Matching(first, f, None, None), Matching(t, f, None, None))
  {
    forall k, x | k in Matching(t, f, None, None) && k !in Matching(first, f, None, None) && x in Matching(first, f, None, None)
      ensures Newer(k, x)
    {
      var id :| id in t && Matches(f, None, t[id]) && KeyAt(t, id) == k;
      var prior :| prior in first && KeyAt(first, prior) == x;
      assert id in first ==> Matches(f, None, first[id]) && KeyAt(first, id) == k;
    }
  }

  /** If jobs inserted meanwhile are strictly newer, the scan refines one sorted listing of the first table: the pages
      concatenate to exactly that listing, and a scan has at most one page more than it has rows. */
  lemma ScanRefinesListing(tables: seq<Table>, c: Codec, f: JobFilter, sizes: seq<nat>, pages: seq<JobPage>)
    requires IsScan(tables, c, f, sizes, pages) && FaithfulCodec(c) && pages != []
    requires forall i :: 0 <= i < |tables| ==> InsertedLater(tables[0], tables[i])
    ensures pages[|pages| - 1].nextCursor.None? ==> Listed(pages) == Enumerate(Matching(tables[0], f, None, None))
    ensures |pages| <= |Matching(tables[0], f, None, None)| + 1
  {
    var sets := MatchingSets(tables, f);
    ScanIsKeyScan(tables, c, f, sizes, pages);
    forall i | 0 <= i < |sets| ensures OnlyNewer(sets[0], sets[i]) {
      assert Answered(tables, c, f, sizes, pages, i);
      LaterIsNewer(tables[0], tables[i], f);
    }
    KeyScanRefines(sets, PageKeys(pages), KeyCursors(c, f, pages));
  }

  // ---- scans of a running queue ------------------------------------------------------------------

  /** Tables met along any run persist row by row, and new rows carry the time of their insertion. */
  lemma {:induction false} RunPersists(states: seq<State>, times: seq<int>, events: seq<Event>, i: nat, k: nat)
    requires IsRun(states, times, events) && i <= k < |states|
    ensures Persists(states[i].table, states[k].table)
    ensures states[i].clock <= states[k].clock
    ensures forall id :: id in states[k].table && id !in states[i].table ==>
      exists m :: i <= m < k && states[k].table[id].createdAt == times[m] && events[m].Insert?
    decreases k - i
  {
    if i < k {
      var p := k - 1;
      RunPersists(states, times, events, i, p);
      assert Step(states[p], times[p], events[p], states[k]);
      forall id | id in states[i].table ensures id in states[k].table && SameIdentity(states[i].table[id], states[k].table[id]) {
        StepKeepsIdentity(states[p], times[p], events[p], states[k], id);
      }
      forall id | id in states[k].table && id !in states[i].table
        ensures exists m :: i <= m < k && states[k].table[id].createdAt == times[m] && events[m].Insert?
      {
        StepKeepsIdentity(states[p], times[p], events[p], states[k], id);
        if id !in states[p].table {
          ApplyRowwise(states[p].table, times[p], events[p], id);
          assert events[p].Insert?;
        }
      }
    }
  }

  /** Every table of a run is one that pages can be served from. */
  lemma ReachableTablesGood(states: seq<State>, times: seq<int>, events: seq<Event>, i: nat)
    requires IsRun(states, times, events) && i < |states|
    ensures GoodTable(states[i].table)
  {
    RunInvariant(states, times, events, i);
    forall id | id in states[i].table ensures id != "" {
      assert RowInvariant(states[i].table[id], states[i].clock);
    }
  }

  lemma RunTables(states: seq<State>, times: seq<int>, events: seq<Event>, i: nat, k: nat)
    requires IsRun(states, times, events) && i <= k < |states|
    requires forall m :: i <= m < |events| && events[m].Insert? ==> states[i].clock < times[m]
    ensures GoodTable(states[k].table) && Persists(states[i].table, states[k].table)
    ensures InsertedLater(states[i].table, states[k].table)
  {
    ReachableTablesGood(states, times, events, k);
    RunInvariant(states, times, events, i);
    RunPersists(states, times, events, i, k);
    forall id, prior | id in states[k].table && id !in states[i].table && prior in states[i].table
      ensures states[i].table[prior].createdAt < states[k].table[id].createdAt
    {
      assert RowInvariant(states[i].table[prior], states[i].clock);
    }
  }

  /** Scanning a live queue: page `i` is served from the state at position `at[i]` of any run.  If every later insertion
      happens strictly after the clock of the first request, the pages are exactly the first request's sorted listing. */
  lemma LiveScan(states: seq<State>, times: seq<int>, events: seq<Event>, at: seq<nat>,
                 c: Codec, f: JobFilter, sizes: seq<nat>, pages: seq<JobPage>)
    requires IsRun(states, times, events) && FaithfulCodec(c) && pages != []
    requires |at| == |sizes| == |pages|
    requires forall i :: 0 <= i < |at| ==> at[0] <= at[i] < |states|
    requires forall i :: 0 <= i < |pages| - 1 ==> pages[i].nextCursor.Some?
    requires forall i :: 0 <= i < |pages| ==>
      ListJobs(states[at[i]].table, c, f, None, sizes[i], CursorBefore(pages, i)) == Ok(pages[i])
    requires forall m :: at[0] <= m < |events| && events[m].Insert? ==> states[at[0]].clock < times[m]
    ensures var first := states[at[0]].table;
      && |pages| <= |Matching(first, f, None, None)| + 1
      && (pages[|pages| - 1].nextCursor.None? ==> Listed(pages) == Enumerate(Matching(first, f, None, None)))
  {
    var tables := seq(|at|, i requires 0 <= i < |at| => states[at[i]].table);
    forall i | 0 <= i < |tables|
      ensures Answered(tables, c, f, sizes, pages, i) && InsertedLater(tables[0], tables[i])
    {
      RunTables(states, times, events, at[0], at[i]);
    }
    ScanRefinesListing(tables, c, f, sizes, pages);
  }
}
