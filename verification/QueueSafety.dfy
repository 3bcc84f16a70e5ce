/** What every run of the job queue satisfies, for any number of engines and recovery coordinators. */
module QueueSafety {
  import opened JobQueue

  lemma {:induction false} RunInvariant(states: seq<State>, times: seq<int>, events: seq<Event>, i: nat)
    requires IsRun(states, times, events) && i < |states|
    ensures Invariant(states[i])
  {
    if i == 0 {
      EmptyLog(states[0]);
    } else {
      RunInvariant(states, times, events, i - 1);
      StepKeepsInvariant(states[i - 1], times[i - 1], events[i - 1], states[i]);
    }
  }

  lemma EmptyLog(s: State)
    requires s.table == map[] && s.log == []
    ensures Invariant(s)
  {
  }

  /** A row is listed exactly when its six metadata fields leave room for the job id, and its detail is
      served exactly when, in addition, a running row names its engine.  Every other check of
      `list_item` and `detail` holds in every reachable state. */
  lemma ReachableRowsPassChecks(states: seq<State>, times: seq<int>, events: seq<Event>, i: nat, id: JobId)
    requires IsRun(states, times, events) && i < |states| && id in states[i].table
    ensures var j := states[i].table[id];
      && (ListItem(j).Ok? <==> MetadataBytes(j) <= MAX_JOB_METADATA_BYTES - JOB_ID_BYTES)
      && (Detail(j).Ok? <==> MetadataBytes(j) <= MAX_JOB_METADATA_BYTES - JOB_ID_BYTES
                             && (j.status == Running ==> j.claimedBy != Some("")))
      && (j.status == Pending ==> j.attempt < j.maxAttempts)
      && (j.status == Dead ==> j.attempt == j.maxAttempts && j.errorMessage.Some? && j.errorMessage.value != "")
  {
    RunInvariant(states, times, events, i);
    var j := states[i].table[id];
    assert RowInvariant(j, states[i].clock);
  }

  /** Engine ids are UUIDs, so a claim never names an empty one. */
  ghost predicate EnginesNamed(events: seq<Event>) {
    forall i :: 0 <= i < |events| && events[i].Claim? ==> events[i].engine != ""
  }

  lemma {:induction false} RunningRowsNamed(states: seq<State>, times: seq<int>, events: seq<Event>, i: nat, id: JobId)
    requires IsRun(states, times, events) && EnginesNamed(events) && i < |states|
    requires id in states[i].table && states[i].table[id].status == Running
    ensures states[i].table[id].claimedBy != Some("")
  {
    if i > 0 {
      var s, e := states[i - 1], events[i - 1];
      assert Step(s, times[i - 1], e, states[i]);
      ApplyRowwise(s.table, times[i - 1], e, id);
      EffectIsAllowed(s, times[i - 1], e, id);
      if EffectOn(s.table, times[i - 1], e, id) == Keep { RunningRowsNamed(states, times, events, i - 1, id); }
    }
  }

  /** With such engines, both checks come down to the metadata bound in every reachable state. */
  lemma ReachableDetailsServed(states: seq<State>, times: seq<int>, events: seq<Event>, i: nat, id: JobId)
    requires IsRun(states, times, events) && EnginesNamed(events) && i < |states| && id in states[i].table
    ensures var j := states[i].table[id];
      Detail(j).Ok? <==> MetadataBytes(j) <= MAX_JOB_METADATA_BYTES - JOB_ID_BYTES
  {
    ReachableRowsPassChecks(states, times, events, i, id);
    if states[i].table[id].status == Running { RunningRowsNamed(states, times, events, i, id); }
  }

  /** `insert_job` does not count the 36 bytes of the job id, so it accepts rows that `list_item` refuses:
      exactly those with between 65501 and 65536 metadata bytes. */
  lemma InsertedRowListable(id: JobId, r: Submission, now: int)
    requires ByteLen(id) == JOB_ID_BYTES && Admissible(r)
    ensures var m := MetadataBytes(NewJob(id, r, now));
      && m <= MAX_JOB_METADATA_BYTES
      && (ListItem(NewJob(id, r, now)).Ok? <==> m <= MAX_JOB_METADATA_BYTES - JOB_ID_BYTES)
  {
    assert MetadataBytes(NewJob(id, r, now)) == MetadataBytes(NewJob("", r, 0));
  }

  lemma {:induction false} AsciiByteLen(s: string)
    requires forall i :: 0 <= i < |s| ==> s[i] < 128 as char
    ensures ByteLen(s) == |s|
  {
    if s != [] { AsciiByteLen(s[1..]); }
  }

  lemma AcceptedButUnlistable() returns (id: JobId, r: Submission)
    ensures ByteLen(id) == JOB_ID_BYTES && Admissible(r)
    ensures forall now :: ListItem(NewJob(id, r, now)) == Err(Database)
  {
    id := seq(36, _ => 'a');
    var jobType := seq(MAX_JOB_METADATA_BYTES, _ => 't');
    AsciiByteLen(id);
    AsciiByteLen(jobType);
    r := Submission("", "", "", jobType, [], 0, 0, "", "");
    forall now ensures ListItem(NewJob(id, r, now)) == Err(Database) {
      InsertedRowListable(id, r, now);
    }
  }

  /** `retry_dead_job` succeeds exactly on dead rows that can be listed; otherwise it changes nothing. */
  lemma RetryExactly(states: seq<State>, times: seq<int>, events: seq<Event>, i: nat, id: JobId, now: int)
    requires IsRun(states, times, events) && i < |states| && states[i].clock <= now && !Blank(id)
    ensures var t := states[i].table;
      && (RetryOutcome(t, id, now).Ok? <==>
            id in t && t[id].status == Dead && MetadataBytes(t[id]) <= MAX_JOB_METADATA_BYTES - JOB_ID_BYTES)
      && (RetryOutcome(t, id, now).Err? ==> Apply(t, now, RetryDead(id)) == t)
  {
    RunInvariant(states, times, events, i);
    var t := states[i].table;
    if id in t { RetriedDetail(t[id], states[i].clock, now); }
  }

  lemma RetriedDetail(j: Job, clock: int, now: int)
    requires RowInvariant(j, clock) && clock <= now
    ensures Detail(Retried(j, now)).Ok? <==> MetadataBytes(j) <= MAX_JOB_METADATA_BYTES - JOB_ID_BYTES
  {
    assert MetadataBytes(Retried(j, now)) == MetadataBytes(j);
  }

  /** A finalization changes the table exactly when its claim is the active one and its content is
      admissible; with any other claim it is stale and every row stays as it was. */
  lemma FinalizationFenced(t: Table, now: int, id: JobId, c: ClaimId, result: seq<bv8>, message: string)
    ensures Apply(t, now, CompleteJob(id, c, result)) != t <==> Holds(t, id, c) && CompletionAdmissible(result)
    ensures Apply(t, now, FailJob(id, c, message)) != t <==> Holds(t, id, c) && FailureAdmissible(message)
  {
    if Holds(t, id, c) {
      assert Completed(t[id], result, now).status != Running;
      assert Failed(t[id], message, now).status != Running;
      if CompletionAdmissible(result) { assert Apply(t, now, CompleteJob(id, c, result))[id] != t[id]; }
      if FailureAdmissible(message) { assert Apply(t, now, FailJob(id, c, message))[id] != t[id]; }
    }
  }

  lemma {:induction false} PairCounts(log: seq<Entry>, a: JobId, b: JobId, c: ClaimId)
    requires a != b
    ensures Count(log, IssuedAs(a, c)) + Count(log, IssuedAs(b, c)) <= Count(log, IssuedClaim(c))
  {
    if log != [] { PairCounts(log[..|log| - 1], a, b, c); }
  }

  /** Over a whole run each claim is handed out at most once, for one job, and ended at most once, whether by
      completion, by failure or by any of the recovery coordinators; it is active exactly in between. */
  lemma ClaimsEndOnce(states: seq<State>, times: seq<int>, events: seq<Event>, i: nat, a: JobId, b: JobId, c: ClaimId)
    requires IsRun(states, times, events) && i < |states| && a != b
    ensures var log := states[i].log;
      && Count(log, ClosedAs(a, c)) <= Count(log, IssuedAs(a, c)) <= 1
      && (Count(log, IssuedAs(a, c)) == 1 ==> Count(log, IssuedAs(b, c)) == 0 && Count(log, ClosedAs(b, c)) == 0)
      && (Holds(states[i].table, a, c) <==> Count(log, IssuedAs(a, c)) == 1 && Count(log, ClosedAs(a, c)) == 0)
  {
    RunInvariant(states, times, events, i);
    PairCounts(states[i].log, a, b, c);
    assert ClaimInvariant(states[i], a, c) && ClaimInvariant(states[i], b, c);
    assert Count(states[i].log, IssuedClaim(c)) <= 1;
  }

  /** Claims handed out for a job are its applied finalizations and recoveries, plus one while it runs. */
  lemma ClaimsConserved(states: seq<State>, times: seq<int>, events: seq<Event>, i: nat, id: JobId)
    requires IsRun(states, times, events) && i < |states|
    ensures var s := states[i];
      Count(s.log, IssuedFor(id)) ==
        Count(s.log, ClosedFor(id)) + if id in s.table && s.table[id].status == Running then 1 else 0
  {
    RunInvariant(states, times, events, i);
    assert HistoryInvariant(states[i], id);
  }

  /** The attempt column counts the claims since insertion or the last retry, and a job is delivered at most
      `max_attempts` times per life. */
  lemma DeliveryBounded(states: seq<State>, times: seq<int>, events: seq<Event>, i: nat, id: JobId)
    requires IsRun(states, times, events) && i < |states| && id in states[i].table
    ensures var s, j := states[i], states[i].table[id];
      && j.attempt == ClaimsSinceReset(s.log, id)
      && Count(s.log, IssuedFor(id)) <= j.maxAttempts * (1 + Count(s.log, RevivedFor(id)))
  {
    RunInvariant(states, times, events, i);
    var s, j := states[i], states[i].table[id];
    assert HistoryInvariant(s, id) && RowInvariant(j, s.clock);
    assert j.maxAttempts * (1 + Count(s.log, RevivedFor(id))) == j.maxAttempts + j.maxAttempts * Count(s.log, RevivedFor(id));
  }

  /** No later statement changes a complete row. */
  lemma {:induction false} CompleteRowsFrozen(states: seq<State>, times: seq<int>, events: seq<Event>, i: nat, k: nat, id: JobId)
    requires IsRun(states, times, events) && i <= k < |states|
    requires id in states[i].table && states[i].table[id].status == Complete
    ensures id in states[k].table && states[k].table[id] == states[i].table[id]
    decreases k - i
  {
    if i < k {
      var s, e := states[i], events[i];
      assert Step(s, times[i], e, states[i + 1]);
      ApplyRowwise(s.table, times[i], e, id);
      EffectIsAllowed(s, times[i], e, id);
      assert EffectOn(s.table, times[i], e, id) == Keep;
      CompleteRowsFrozen(states, times, events, i + 1, k, id);
    }
  }

  /** Rows are never deleted and their identity columns never change; a row that appears was created now. */
  predicate SameIdentity(a: Job, b: Job) {
    && a.jobId == b.jobId && a.workerNamespace == b.workerNamespace && a.workerName == b.workerName
    && a.workerVersion == b.workerVersion && a.jobType == b.jobType
    && a.sourceNamespace == b.sourceNamespace && a.sourceModule == b.sourceModule && a.createdAt == b.createdAt
  }

  lemma StepKeepsIdentity(s: State, now: int, e: Event, s': State, id: JobId)
    requires Step(s, now, e, s')
    ensures id in s.table ==> id in s'.table && SameIdentity(s.table[id], s'.table[id])
    ensures id in s'.table && id !in s.table ==> s'.table[id].createdAt == now
  {
    ApplyRowwise(s.table, now, e, id);
    EffectIsAllowed(s, now, e, id);
  }

  function RunningRows(t: Table): set<JobId> { set id | id in t && t[id].status == Running }

  predicate LeaseOver(j: Job, now: int) { j.leaseExpiresAt.Some? && j.leaseExpiresAt.value <= now }

  /** In every run a recovery stops exactly the unlocked rows whose lease is over, and repeating it at once finds
      nothing more to do. */
  lemma RecoveryExact(states: seq<State>, times: seq<int>, events: seq<Event>, i: nat)
    requires IsRun(states, times, events) && i < |events| && events[i].Recover?
    ensures var t, t', now := states[i].table, states[i + 1].table, times[i];
      && (forall id :: id in RunningRows(t') <==>
            id in RunningRows(t) && (id in events[i].locked || !LeaseOver(t[id], now)))
      && Apply(t', now, events[i]) == t'
  {
    RunInvariant(states, times, events, i);
    assert Step(states[i], times[i], events[i], states[i + 1]);
    var t, t', now := states[i].table, states[i + 1].table, times[i];
    forall id | id in t ensures RowInvariant(t[id], states[i].clock) {}
    assert Expired(t', events[i].locked, now) == {};
  }
}
