/** The durable job queue: rows, the SQL statements that change them, and the row checks of the
    job-admin service.

    Each SQL statement is one atomic step on a table of rows.  Rows locked by other transactions
    appear as an explicit set, because `SKIP LOCKED` makes the outcome of a statement depend on it.
    Times are microseconds.
 */
module JobQueue {

  const MAX_JOB_BLOB_BYTES: nat := 1024 * 1024
  const MAX_JOB_ERROR_BYTES: nat := 1024 * 1024
  const MAX_JOB_METADATA_BYTES: nat := 64 * 1024
  const I32_MAX: int := 0x7fff_ffff
  const JOB_ID_BYTES: nat := 36
  const RETAINED_ERROR_CHARS: nat := MAX_JOB_ERROR_BYTES / 4 - 32
  const SECOND: int := 1_000_000

  datatype Option<+T> = None | Some(value: T)

  datatype Result<+T> = Ok(value: T) | Err(error: JobError)

  datatype JobError = Invalid | NotFound | FailedPrecondition | Database

  // ---- text ------------------------------------------------------------------------------

  /** Bytes of one character in UTF-8. */
  function CharLen(c: char): (n: nat)
    ensures 1 <= n <= 4
  {
    var p := c as int;
    if p < 0x80 then 1 else if p < 0x800 then 2 else if p < 0x1_0000 then 3 else 4
  }

  /** `String::len`: the length in bytes. */
  function ByteLen(s: string): nat {
    if s == [] then 0 else CharLen(s[0]) + ByteLen(s[1..])
  }

  /** PostgreSQL `LEFT(s, n)`: the first `n` characters. */
  function Left(s: string, n: nat): string {
    if |s| <= n then s else s[..n]
  }

  lemma {:induction false} ByteLenBound(s: string)
    ensures |s| <= ByteLen(s) <= 4 * |s|
  {
    if s != [] {
      ByteLenBound(s[1..]);
    }
  }

  /** `char::is_whitespace`. */
  predicate IsWhitespace(c: char) {
    var p := c as int;
    || 9 <= p <= 13 || p == 0x20 || p == 0x85 || p == 0xa0 || p == 0x1680
    || 0x2000 <= p <= 0x200a || p == 0x2028 || p == 0x2029 || p == 0x202f || p == 0x205f || p == 0x3000
  }

  /** `job_id.trim().is_empty()`. */
  predicate Blank(s: string) { forall i :: 0 <= i < |s| ==> IsWhitespace(s[i]) }

  // ---- rows ------------------------------------------------------------------------------

  datatype Status = Pending | Running | Complete | Dead

  type JobId = string
  type ClaimId = nat

  datatype Job = Job(
    jobId: JobId, workerNamespace: string, workerName: string, workerVersion: string, jobType: string,
    payload: seq<bv8>, status: Status, result: Option<seq<bv8>>, errorMessage: Option<string>,
    attempt: int, maxAttempts: int, timeoutSecs: int, createdAt: int, updatedAt: int,
    claimedAt: Option<int>, completedAt: Option<int>, claimedBy: Option<string>,
    sourceNamespace: string, sourceModule: string, claimId: Option<ClaimId>, leaseExpiresAt: Option<int>)

  type Table = map<JobId, Job>

  function Lookup(t: Table, id: JobId): Option<Job> { if id in t then Some(t[id]) else None }

  /** The six fields measured at submission; the job id is not among them. */
  function MetadataBytes(j: Job): nat {
    ByteLen(j.workerNamespace) + ByteLen(j.workerName) + ByteLen(j.workerVersion) + ByteLen(j.jobType)
    + ByteLen(j.sourceNamespace) + ByteLen(j.sourceModule)
  }

  predicate NoClaim(j: Job) {
    j.claimedAt.None? && j.leaseExpiresAt.None? && j.claimedBy.None? && j.claimId.None?
  }

  datatype JobListItem = JobListItem(
    jobId: JobId, workerNamespace: string, workerName: string, workerVersion: string, jobType: string,
    status: Status, attempt: nat, maxAttempts: nat, sourceNamespace: string, sourceModule: string,
    createdAt: int, updatedAt: int)

  datatype JobDetail = JobDetail(
    summary: JobListItem, payload: seq<bv8>, result: seq<bv8>, lastError: string, timeout: nat,
    claimedAt: Option<int>, leaseExpiresAt: Option<int>, completedAt: Option<int>, claimedBy: string)

  /** `list_item`: the checks a row must pass to be listed. */
  function ListItem(j: Job): Result<JobListItem> {
    if j.attempt < 0 || j.maxAttempts <= 0 || j.attempt > j.maxAttempts then Err(Database)
    else if j.status != Pending && j.attempt == 0 then Err(Database)
    else if j.status == Dead && j.attempt != j.maxAttempts then Err(Database)
    else if j.updatedAt < j.createdAt then Err(Database)
    else if ByteLen(j.jobId) + MetadataBytes(j) > MAX_JOB_METADATA_BYTES then Err(Database)
    else Ok(JobListItem(j.jobId, j.workerNamespace, j.workerName, j.workerVersion, j.jobType, j.status,
                        j.attempt, j.maxAttempts, j.sourceNamespace, j.sourceModule, j.createdAt, j.updatedAt))
  }

  predicate RunningConsistent(j: Job) {
    && j.claimedAt.Some? && j.leaseExpiresAt.Some? && j.claimedBy.Some? && j.claimId.Some?
    && j.claimedBy.value != "" && j.completedAt.None? && j.result.None?
    && j.createdAt <= j.claimedAt.value <= j.updatedAt
    && j.claimedAt.value < j.leaseExpiresAt.value
  }

  predicate CompleteConsistent(j: Job) {
    && j.completedAt.Some? && NoClaim(j) && j.result.Some?
    && j.createdAt <= j.completedAt.value <= j.updatedAt
  }

  /** The match on the status in `detail`, with `validate_dead_lifecycle`. */
  predicate LifecycleConsistent(j: Job) {
    match j.status
    case Pending => NoClaim(j) && j.completedAt.None? && j.result.None?
    case Dead =>
      && j.attempt == j.maxAttempts && j.errorMessage.Some? && j.errorMessage.value != ""
      && NoClaim(j) && j.completedAt.None? && j.result.None?
    case Running => RunningConsistent(j)
    case Complete => CompleteConsistent(j)
  }

  /** `detail`: every check on a full row. */
  function Detail(j: Job): Result<JobDetail> {
    match ListItem(j)
    case Err(e) => Err(e)
    case Ok(summary) =>
      if j.timeoutSecs <= 0 then Err(Database)
      else if
        || |j.payload| > MAX_JOB_BLOB_BYTES
        || (j.result.Some? && |j.result.value| > MAX_JOB_BLOB_BYTES)
        || (j.errorMessage.Some? && ByteLen(j.errorMessage.value) > MAX_JOB_ERROR_BYTES)
      then Err(Database)
      else if MetadataBytes(j) > MAX_JOB_METADATA_BYTES then Err(Database)
      else if !LifecycleConsistent(j) then Err(Database)
      else Ok(JobDetail(summary, j.payload,
                        if j.result.Some? then j.result.value else [],
                        if j.errorMessage.Some? then j.errorMessage.value else "",
                        j.timeoutSecs, j.claimedAt, j.leaseExpiresAt, j.completedAt,
                        if j.claimedBy.Some? then j.claimedBy.value else ""))
  }

  // ---- the statements ------------------------------------------------------------------------

  datatype Submission = Submission(
    workerNamespace: string, workerName: string, workerVersion: string, jobType: string, payload: seq<bv8>,
    timeoutSecs: nat, maxAttempts: nat, sourceNamespace: string, sourceModule: string)

  function EffectiveTimeout(r: Submission): nat { if r.timeoutSecs == 0 then 300 else r.timeoutSecs }
  function EffectiveAttempts(r: Submission): nat { if r.maxAttempts == 0 then 3 else r.maxAttempts }

  /** A new row: the inserted columns and the column defaults of the schema. */
  function NewJob(id: JobId, r: Submission, now: int): Job {
    Job(id, r.workerNamespace, r.workerName, r.workerVersion, r.jobType, r.payload, Pending, None, None,
        0, EffectiveAttempts(r), EffectiveTimeout(r), now, now, None, None, None,
        r.sourceNamespace, r.sourceModule, None, None)
  }

  /** What `insert_job` accepts before it reaches the table. */
  predicate Admissible(r: Submission) {
    && |r.payload| <= MAX_JOB_BLOB_BYTES
    && MetadataBytes(NewJob("", r, 0)) <= MAX_JOB_METADATA_BYTES
    && EffectiveTimeout(r) <= I32_MAX
    && EffectiveAttempts(r) <= I32_MAX
  }

  predicate Claimable(j: Job, ns: string, name: string, version: string) {
    && j.workerNamespace == ns && j.workerName == name
    && (j.workerVersion == version || j.workerVersion == "")
    && j.status == Pending
  }

  function Eligible(t: Table, ns: string, name: string, version: string, locked: set<JobId>): set<JobId> {
    set id | id in t && id !in locked && Claimable(t[id], ns, name, version)
  }

  /** `ORDER BY created_at ASC LIMIT 1`: some oldest eligible row, or none if there is none. */
  predicate IsOldest(t: Table, eligible: set<JobId>, chosen: Option<JobId>)
    requires eligible <= t.Keys
  {
    match chosen
    case None => eligible == {}
    case Some(id) => id in eligible && forall other :: other in eligible ==> t[id].createdAt <= t[other].createdAt
  }

  function Claimed(j: Job, engine: string, claim: ClaimId, now: int): Job {
    j.(status := Running, claimedAt := Some(now), leaseExpiresAt := Some(now + j.timeoutSecs * SECOND),
       claimedBy := Some(engine), attempt := j.attempt + 1, claimId := Some(claim), updatedAt := now)
  }

  predicate Holds(t: Table, id: JobId, claim: ClaimId) {
    id in t && t[id].status == Running && t[id].claimId == Some(claim)
  }

  function Released(j: Job, now: int): Job {
    j.(claimedAt := None, claimedBy := None, claimId := None, leaseExpiresAt := None, updatedAt := now)
  }

  function Completed(j: Job, result: seq<bv8>, now: int): Job {
    Released(j, now).(status := Complete, result := Some(result), completedAt := Some(now))
  }

  function Failed(j: Job, message: string, now: int): Job {
    Released(j, now).(status := if j.attempt < j.maxAttempts then Pending else Dead, errorMessage := Some(message))
  }

  const STALE_SUFFIX := " [stale recovery]"

  function StaleMessage(j: Job): string {
    Left(if j.errorMessage.Some? then j.errorMessage.value else "", RETAINED_ERROR_CHARS) + STALE_SUFFIX
  }

  /** Rows one recovery scan takes: expired leases that no other transaction has locked. */
  function Expired(t: Table, locked: set<JobId>, now: int): set<JobId> {
    set id | id in t && id !in locked && t[id].status == Running && t[id].leaseExpiresAt.Some?
             && t[id].leaseExpiresAt.value <= now && t[id].claimId.Some?
  }

  function Retried(j: Job, now: int): Job {
    Released(j, now).(status := Pending, attempt := 0, result := None, completedAt := None)
  }

  /** `retry_dead_job`: the detail check runs inside the transaction, so a row that fails it is
      rolled back. */
  function RetryOutcome(t: Table, id: JobId, now: int): Result<JobDetail> {
    if Blank(id) then Err(Invalid)
    else if id !in t then Err(NotFound)
    else if t[id].status != Dead then Err(FailedPrecondition)
    else Detail(Retried(t[id], now))
  }

  datatype Event =
    | Insert(id: JobId, submission: Submission)
    | Claim(ns: string, name: string, version: string, engine: string, claim: ClaimId,
            locked: set<JobId>, chosen: Option<JobId>)
    | CompleteJob(id: JobId, claim: ClaimId, result: seq<bv8>)
    | FailJob(id: JobId, claim: ClaimId, message: string)
    | Recover(locked: set<JobId>)
    | RetryDead(id: JobId)

  predicate CompletionAdmissible(result: seq<bv8>) { |result| <= MAX_JOB_BLOB_BYTES }

  predicate FailureAdmissible(message: string) { message != "" && ByteLen(message) <= MAX_JOB_ERROR_BYTES }

  /** The table after one statement. */
  function Apply(t: Table, now: int, e: Event): Table {
    match e
    case Insert(id, r) => if Admissible(r) then t[id := NewJob(id, r, now)] else t
    case Claim(_, _, _, engine, claim, _, chosen) =>
      if chosen.Some? && chosen.value in t
      then t[chosen.value := Claimed(t[chosen.value], engine, claim, now)] else t
    case CompleteJob(id, claim, result) =>
      if CompletionAdmissible(result) && Holds(t, id, claim) then t[id := Completed(t[id], result, now)] else t
    case FailJob(id, claim, message) =>
      if FailureAdmissible(message) && Holds(t, id, claim) then t[id := Failed(t[id], message, now)] else t
    case Recover(locked) =>
      var victims := Expired(t, locked, now);
      map id | id in t :: if id in victims then Failed(t[id], StaleMessage(t[id]), now) else t[id]
    case RetryDead(id) => if RetryOutcome(t, id, now).Ok? && id in t then t[id := Retried(t[id], now)] else t
  }

  // ---- runs ----------------------------------------------------------------------------------

  /** What a statement did, kept as history. */
  datatype Entry =
    | Inserted(job: JobId)
    | Issued(job: JobId, claim: ClaimId)
    | Finalized(job: JobId, claim: ClaimId, success: bool)
    | Recovered(victims: map<JobId, ClaimId>)
    | Revived(job: JobId)

  function Record(t: Table, now: int, e: Event): seq<Entry> {
    match e
    case Insert(id, r) => if Admissible(r) then [Inserted(id)] else []
    case Claim(_, _, _, _, claim, _, chosen) =>
      if chosen.Some? && chosen.value in t then [Issued(chosen.value, claim)] else []
    case CompleteJob(id, claim, result) =>
      if CompletionAdmissible(result) && Holds(t, id, claim) then [Finalized(id, claim, true)] else []
    case FailJob(id, claim, message) =>
      if FailureAdmissible(message) && Holds(t, id, claim) then [Finalized(id, claim, false)] else []
    case Recover(locked) =>
      [Recovered(map id | id in Expired(t, locked, now) :: t[id].claimId.value)]
    case RetryDead(id) => if RetryOutcome(t, id, now).Ok? && id in t then [Revived(id)] else []
  }

  datatype State = State(table: Table, clock: int, log: seq<Entry>)

  /** Job ids and claim ids are random UUIDs: 36 bytes of text, never used before. */
  predicate Enabled(s: State, e: Event) {
    match e
    case Insert(id, _) => id !in s.table && ByteLen(id) == JOB_ID_BYTES
    case Claim(ns, name, version, _, claim, locked, chosen) =>
      && (forall i :: 0 <= i < |s.log| && s.log[i].Issued? ==> s.log[i].claim != claim)
      && IsOldest(s.table, Eligible(s.table, ns, name, version, locked), chosen)
    case _ => true
  }

  function Next(s: State, now: int, e: Event): State {
    State(Apply(s.table, now, e), now, s.log + Record(s.table, now, e))
  }

  predicate Step(s: State, now: int, e: Event, s': State) {
    s.clock <= now && Enabled(s, e) && s' == Next(s, now, e)
  }

  ghost predicate IsRun(states: seq<State>, times: seq<int>, events: seq<Event>) {
    && |states| == |events| + 1 && |times| == |events|
    && states[0].table == map[] && states[0].log == []
    && forall i :: 0 <= i < |events| ==> Step(states[i], times[i], events[i], states[i + 1])
  }

  // ---- counting in the history ------------------------------------------------------------------

  datatype Probe =
    | IssuedAs(job: JobId, claim: ClaimId)   // this claim handed out for this job
    | ClosedAs(job: JobId, claim: ClaimId)   // this claim ended by completion, failure or recovery
    | IssuedFor(job: JobId)
    | ClosedFor(job: JobId)
    | RevivedFor(job: JobId)
    | IssuedClaim(claim: ClaimId)

  predicate Hits(e: Entry, p: Probe) {
    match p
    case IssuedAs(j, c) => e == Issued(j, c)
    case ClosedAs(j, c) =>
      || (e.Finalized? && e.job == j && e.claim == c)
      || (e.Recovered? && j in e.victims && e.victims[j] == c)
    case IssuedFor(j) => e.Issued? && e.job == j
    case ClosedFor(j) => (e.Finalized? && e.job == j) || (e.Recovered? && j in e.victims)
    case RevivedFor(j) => e == Revived(j)
    case IssuedClaim(c) => e.Issued? && e.claim == c
  }

  function Count(log: seq<Entry>, p: Probe): nat {
    if log == [] then 0
    else Count(log[..|log| - 1], p) + if Hits(log[|log| - 1], p) then 1 else 0
  }

  /** Claims since the job was inserted or last revived. */
  function ClaimsSinceReset(log: seq<Entry>, j: JobId): nat {
    if log == [] then 0
    else
      var last := log[|log| - 1];
      if last == Inserted(j) || last == Revived(j) then 0
      else ClaimsSinceReset(log[..|log| - 1], j) + if Hits(last, IssuedFor(j)) then 1 else 0
  }

  lemma CountExtend(log: seq<Entry>, e: Entry, p: Probe)
    ensures Count(log + [e], p) == Count(log, p) + if Hits(e, p) then 1 else 0
  {
    assert (log + [e])[..|log|] == log;
  }

  lemma ResetExtend(log: seq<Entry>, e: Entry, j: JobId)
    ensures ClaimsSinceReset(log + [e], j)
         == if e == Inserted(j) || e == Revived(j) then 0
            else ClaimsSinceReset(log, j) + if Hits(e, IssuedFor(j)) then 1 else 0
  {
    assert (log + [e])[..|log|] == log;
  }

  // ---- the invariant -------------------------------------------------------------------------------

  /** What every row looks like, whatever the interleaving. */
  predicate RowInvariant(j: Job, clock: int) {
    && ByteLen(j.jobId) == JOB_ID_BYTES
    && |j.payload| <= MAX_JOB_BLOB_BYTES
    && MetadataBytes(j) <= MAX_JOB_METADATA_BYTES
    && 1 <= j.timeoutSecs <= I32_MAX
    && 1 <= j.maxAttempts <= I32_MAX
    && 0 <= j.attempt <= j.maxAttempts
    && j.createdAt <= j.updatedAt <= clock
    && (j.errorMessage.Some? ==> FailureAdmissible(j.errorMessage.value))
    && (j.result.Some? ==> j.status == Complete && CompletionAdmissible(j.result.value))
    && (j.status != Complete ==> j.completedAt.None?)
    && match j.status
       case Pending => NoClaim(j) && j.attempt < j.maxAttempts
       case Running =>
         && j.claimedAt.Some? && j.leaseExpiresAt.Some? && j.claimedBy.Some? && j.claimId.Some?
         && j.createdAt <= j.claimedAt.value <= j.updatedAt && j.claimedAt.value < j.leaseExpiresAt.value
         && 1 <= j.attempt
       case Complete => CompleteConsistent(j) && 1 <= j.attempt
       case Dead => NoClaim(j) && j.attempt == j.maxAttempts && j.errorMessage.Some?
  }

  /** One job's counters agree with its row: claims handed out are claims ended plus the active one,
      the attempt column is the claims since the last reset, and each life of the job costs at most
      `max_attempts` claims. */
  predicate Balanced(row: Option<Job>, issued: nat, closed: nat, revived: nat, sinceReset: nat) {
    && issued == closed + (if row.Some? && row.value.status == Running then 1 else 0)
    && (row.None? ==> issued == 0 && revived == 0)
    && (row.Some? ==>
         && row.value.attempt == sinceReset
         && issued <= row.value.maxAttempts * revived + row.value.attempt)
  }

  predicate HistoryInvariant(s: State, id: JobId) {
    Balanced(Lookup(s.table, id), Count(s.log, IssuedFor(id)), Count(s.log, ClosedFor(id)),
             Count(s.log, RevivedFor(id)), ClaimsSinceReset(s.log, id))
  }

  predicate ClaimInvariant(s: State, id: JobId, c: ClaimId) {
    Count(s.log, IssuedAs(id, c)) == Count(s.log, ClosedAs(id, c)) + if Holds(s.table, id, c) then 1 else 0
  }

  ghost predicate Invariant(s: State) {
    && (forall id :: id in s.table ==> s.table[id].jobId == id && RowInvariant(s.table[id], s.clock))
    && (forall id :: HistoryInvariant(s, id))
    && (forall id, c :: ClaimInvariant(s, id, c))
    && (forall c :: Count(s.log, IssuedClaim(c)) <= 1)
  }

  /** Recovery truncates by characters; four bytes per character keep the byte bound. */
  lemma StaleMessageAdmissible(j: Job)
    ensures FailureAdmissible(StaleMessage(j))
  {
    TruncationBound(if j.errorMessage.Some? then j.errorMessage.value else "", RETAINED_ERROR_CHARS, STALE_SUFFIX);
    assert |StaleMessage(j)| > 0;
  }

  lemma TruncationBound(s: string, n: nat, suffix: string)
    ensures ByteLen(Left(s, n) + suffix) <= 4 * (n + |suffix|)
  {
    ByteLenBound(Left(s, n) + suffix);
  }

  // ---- what one statement does to one row ---------------------------------------------------------

  datatype Effect =
    | Keep
    | Create(submission: Submission)
    | Take(engine: string, claim: ClaimId)
    | Succeed(claim: ClaimId, result: seq<bv8>)
    | Fall(claim: ClaimId, message: string)
    | Revive

  /** The effect of a statement on one row, read off the statement. */
  function EffectOn(t: Table, now: int, e: Event, id: JobId): Effect {
    match e
    case Insert(i, r) => if i == id && Admissible(r) then Create(r) else Keep
    case Claim(_, _, _, engine, claim, _, chosen) =>
      if chosen == Some(id) && id in t then Take(engine, claim) else Keep
    case CompleteJob(i, claim, result) =>
      if i == id && CompletionAdmissible(result) && Holds(t, i, claim) then Succeed(claim, result) else Keep
    case FailJob(i, claim, message) =>
      if i == id && FailureAdmissible(message) && Holds(t, i, claim) then Fall(claim, message) else Keep
    case Recover(locked) =>
      if id in Expired(t, locked, now) then Fall(t[id].claimId.value, StaleMessage(t[id])) else Keep
    case RetryDead(i) => if i == id && id in t && RetryOutcome(t, i, now).Ok? then Revive else Keep
  }

  function RowAfter(t: Table, now: int, id: JobId, effect: Effect): Option<Job> {
    match effect
    case Create(r) => Some(NewJob(id, r, now))
    case Keep => if id in t then Some(t[id]) else None
    case Take(engine, claim) => if id in t then Some(Claimed(t[id], engine, claim, now)) else None
    case Succeed(_, result) => if id in t then Some(Completed(t[id], result, now)) else None
    case Fall(_, message) => if id in t then Some(Failed(t[id], message, now)) else None
    case Revive => if id in t then Some(Retried(t[id], now)) else None
  }

  lemma ApplyRowwise(t: Table, now: int, e: Event, id: JobId)
    ensures Lookup(Apply(t, now, e), id) == RowAfter(t, now, id, EffectOn(t, now, e, id))
  {
  }

  /** When each effect can happen, in a table that satisfies the row invariant. */
  predicate EffectAllowed(t: Table, id: JobId, effect: Effect) {
    match effect
    case Keep => true
    case Create(r) => id !in t && Admissible(r) && ByteLen(id) == JOB_ID_BYTES
    case Take(_, _) => id in t && t[id].status == Pending
    case Succeed(c, result) => Holds(t, id, c) && CompletionAdmissible(result)
    case Fall(c, message) => Holds(t, id, c) && FailureAdmissible(message)
    case Revive => id in t && t[id].status == Dead
  }

  lemma EffectIsAllowed(s: State, now: int, e: Event, id: JobId)
    requires Enabled(s, e)
    ensures EffectAllowed(s.table, id, EffectOn(s.table, now, e, id))
  {
    if e.Recover? && id in s.table { StaleMessageAdmissible(s.table[id]); }
  }

  /** The history entry of a statement, seen from one row. */
  lemma RecordRowwise(t: Table, now: int, e: Event, id: JobId)
    ensures |Record(t, now, e)| <= 1
    ensures Record(t, now, e) == [] ==> EffectOn(t, now, e, id) == Keep
    ensures Record(t, now, e) != [] ==>
      var r, f := Record(t, now, e)[0], EffectOn(t, now, e, id);
      && (r == Inserted(id) <==> f.Create?)
      && (r == Revived(id) <==> f.Revive?)
      && (Hits(r, IssuedFor(id)) <==> f.Take?)
      && (Hits(r, ClosedFor(id)) <==> f.Succeed? || f.Fall?)
      && (forall c :: Hits(r, IssuedAs(id, c)) <==> f.Take? && f.claim == c)
      && (forall c :: Hits(r, ClosedAs(id, c)) <==> (f.Succeed? || f.Fall?) && f.claim == c)
  {
  }

  lemma RowKept(t: Table, clock: int, now: int, id: JobId, effect: Effect)
    requires clock <= now && EffectAllowed(t, id, effect)
    requires id in t ==> t[id].jobId == id && RowInvariant(t[id], clock)
    ensures var r := RowAfter(t, now, id, effect);
      r.Some? ==> r.value.jobId == id && RowInvariant(r.value, now)
  {
    match effect
    case Create(r) => assert MetadataBytes(NewJob(id, r, now)) == MetadataBytes(NewJob("", r, 0));
    case Take(engine, claim) => assert MetadataBytes(Claimed(t[id], engine, claim, now)) == MetadataBytes(t[id]);
    case Succeed(_, result) => assert MetadataBytes(Completed(t[id], result, now)) == MetadataBytes(t[id]);
    case Fall(_, message) => assert MetadataBytes(Failed(t[id], message, now)) == MetadataBytes(t[id]);
    case Revive => assert MetadataBytes(Retried(t[id], now)) == MetadataBytes(t[id]);
    case Keep =>
  }

  lemma RowsKept(s: State, now: int, e: Event)
    requires Invariant(s) && s.clock <= now && Enabled(s, e)
    ensures var t := Apply(s.table, now, e);
      forall id :: id in t ==> t[id].jobId == id && RowInvariant(t[id], now)
  {
    var t := Apply(s.table, now, e);
    forall id | id in t
      ensures t[id].jobId == id && RowInvariant(t[id], now)
    {
      ApplyRowwise(s.table, now, e, id);
      EffectIsAllowed(s, now, e, id);
      RowKept(s.table, s.clock, now, id, EffectOn(s.table, now, e, id));
      assert Lookup(t, id) == Some(t[id]);
    }
  }

  lemma FreshClaimUncounted(log: seq<Entry>, c: ClaimId)
    requires forall i :: 0 <= i < |log| && log[i].Issued? ==> log[i].claim != c
    ensures Count(log, IssuedClaim(c)) == 0
  {
  }

  /** One statement keeps the whole invariant. */
  lemma StepKeepsInvariant(s: State, now: int, e: Event, s': State)
    requires Invariant(s) && Step(s, now, e, s')
    ensures Invariant(s')
  {
    RowsKept(s, now, e);
    forall id ensures HistoryInvariant(s', id) { HistoryKept(s, now, e, id); }
    forall id, c ensures ClaimInvariant(s', id, c) { ClaimKept(s, now, e, id, c); }
    forall c ensures Count(s'.log, IssuedClaim(c)) <= 1 { ClaimIssuedOnce(s, now, e, c); }
  }

  lemma ClaimIssuedOnce(s: State, now: int, e: Event, c: ClaimId)
    requires Enabled(s, e) && Count(s.log, IssuedClaim(c)) <= 1
    ensures Count(Next(s, now, e).log, IssuedClaim(c)) <= 1
  {
    var r := Record(s.table, now, e);
    if r == [] {
      assert s.log + r == s.log;
    } else {
      assert r == [r[0]];
      CountExtend(s.log, r[0], IssuedClaim(c));
      if Hits(r[0], IssuedClaim(c)) { FreshClaimUncounted(s.log, c); }
    }
  }

  lemma HistoryKept(s: State, now: int, e: Event, id: JobId)
    requires Enabled(s, e) && HistoryInvariant(s, id)
    requires id in s.table ==> RowInvariant(s.table[id], s.clock)
    ensures HistoryInvariant(Next(s, now, e), id)
  {
    ApplyRowwise(s.table, now, e, id);
    EffectIsAllowed(s, now, e, id);
    RecordRowwise(s.table, now, e, id);
    HistoryExtend(s, Next(s, now, e), now, id, EffectOn(s.table, now, e, id), Record(s.table, now, e));
  }

  lemma HistoryExtend(s: State, s': State, now: int, id: JobId, f: Effect, r: seq<Entry>)
    requires HistoryInvariant(s, id) && EffectAllowed(s.table, id, f)
    requires id in s.table ==> s.table[id].attempt <= s.table[id].maxAttempts
    requires Lookup(s'.table, id) == RowAfter(s.table, now, id, f) && s'.log == s.log + r
    requires |r| <= 1 && (r == [] ==> f == Keep)
    requires r != [] ==>
      && (r[0] == Inserted(id) <==> f.Create?)
      && (r[0] == Revived(id) <==> f.Revive?)
      && (Hits(r[0], IssuedFor(id)) <==> f.Take?)
      && (Hits(r[0], ClosedFor(id)) <==> f.Succeed? || f.Fall?)
    ensures HistoryInvariant(s', id)
  {
    BalancedStep(s.table, now, id, f, Count(s.log, IssuedFor(id)), Count(s.log, ClosedFor(id)),
                 Count(s.log, RevivedFor(id)), ClaimsSinceReset(s.log, id));
    CountsAfter(s.log, r, id, f.Take?, f.Succeed? || f.Fall?, f.Revive?, f.Create?);
  }

  lemma CountsAfter(log: seq<Entry>, r: seq<Entry>, id: JobId, take: bool, close: bool, revive: bool, create: bool)
    requires |r| <= 1 && (create <==> r != [] && r[0] == Inserted(id)) && (revive <==> r != [] && r[0] == Revived(id))
    requires take <==> r != [] && Hits(r[0], IssuedFor(id))
    requires close <==> r != [] && Hits(r[0], ClosedFor(id))
    ensures Count(log + r, IssuedFor(id)) == Count(log, IssuedFor(id)) + if take then 1 else 0
    ensures Count(log + r, ClosedFor(id)) == Count(log, ClosedFor(id)) + if close then 1 else 0
    ensures Count(log + r, RevivedFor(id)) == Count(log, RevivedFor(id)) + if revive then 1 else 0
    ensures ClaimsSinceReset(log + r, id)
         == if create || revive then 0 else ClaimsSinceReset(log, id) + if take then 1 else 0
  {
    CountRecord(log, r, IssuedFor(id), take);
    CountRecord(log, r, ClosedFor(id), close);
    CountRecord(log, r, RevivedFor(id), revive);
    ResetRecord(log, r, id, create || revive, take);
  }

  lemma ResetRecord(log: seq<Entry>, r: seq<Entry>, id: JobId, reset: bool, take: bool)
    requires |r| <= 1 && (reset <==> r != [] && (r[0] == Inserted(id) || r[0] == Revived(id)))
    requires take <==> r != [] && Hits(r[0], IssuedFor(id))
    ensures ClaimsSinceReset(log + r, id) == if reset then 0 else ClaimsSinceReset(log, id) + if take then 1 else 0
  {
    if r == [] {
      assert log + r == log;
    } else {
      assert r == [r[0]];
      ResetExtend(log, r[0], id);
    }
  }

  /** The arithmetic of one effect on one job's counters. */
  lemma BalancedStep(t: Table, now: int, id: JobId, f: Effect, issued: nat, closed: nat, revived: nat, since: nat)
    requires Balanced(Lookup(t, id), issued, closed, revived, since) && EffectAllowed(t, id, f)
    requires id in t ==> t[id].attempt <= t[id].maxAttempts
    ensures Balanced(RowAfter(t, now, id, f),
                     issued + (if f.Take? then 1 else 0),
                     closed + (if f.Succeed? || f.Fall? then 1 else 0),
                     revived + (if f.Revive? then 1 else 0),
                     if f.Create? || f.Revive? then 0 else since + if f.Take? then 1 else 0)
  {
    match f
    case Create(_) =>
    case Take(_, _) =>
    case Succeed(_, _) =>
    case Fall(_, _) =>
    case Keep =>
    case Revive => assert t[id].maxAttempts * (revived + 1) == t[id].maxAttempts * revived + t[id].maxAttempts;
  }

  lemma ClaimKept(s: State, now: int, e: Event, id: JobId, c: ClaimId)
    requires Enabled(s, e) && ClaimInvariant(s, id, c)
    ensures ClaimInvariant(Next(s, now, e), id, c)
  {
    var r := Record(s.table, now, e);
    ApplyRowwise(s.table, now, e, id);
    EffectIsAllowed(s, now, e, id);
    RecordRowwise(s.table, now, e, id);
    var f := EffectOn(s.table, now, e, id);
    CountRecord(s.log, r, IssuedAs(id, c), f.Take? && f.claim == c);
    CountRecord(s.log, r, ClosedAs(id, c), (f.Succeed? || f.Fall?) && f.claim == c);
    ClaimRow(s, Next(s, now, e), now, id, c, f);
  }

  lemma CountRecord(log: seq<Entry>, r: seq<Entry>, p: Probe, hit: bool)
    requires |r| <= 1 && (hit <==> r != [] && Hits(r[0], p))
    ensures Count(log + r, p) == Count(log, p) + if hit then 1 else 0
  {
    if r == [] {
      assert log + r == log;
    } else {
      assert r == [r[0]];
      CountExtend(log, r[0], p);
    }
  }

  lemma ClaimRow(s: State, s': State, now: int, id: JobId, c: ClaimId, f: Effect)
    requires ClaimInvariant(s, id, c) && EffectAllowed(s.table, id, f)
    requires Lookup(s'.table, id) == RowAfter(s.table, now, id, f)
    requires Count(s'.log, IssuedAs(id, c)) == Count(s.log, IssuedAs(id, c)) + if f.Take? && f.claim == c then 1 else 0
    requires Count(s'.log, ClosedAs(id, c))
          == Count(s.log, ClosedAs(id, c)) + if (f.Succeed? || f.Fall?) && f.claim == c then 1 else 0
    ensures ClaimInvariant(s', id, c)
  {
  }
}
