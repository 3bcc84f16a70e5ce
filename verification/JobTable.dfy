/** The queue operations as the engines call them: methods that update the job table in place. */
module JobTable {
  import opened JobQueue

  datatype Finalization = Applied | Stale

  datatype ClaimedJob = ClaimedJob(jobId: JobId, jobType: string, payload: seq<bv8>, claimId: ClaimId)

  /** The table when the rows in `done` are updated and no others. */
  ghost predicate Updated(before: Table, done: set<JobId>, f: Job -> Job, rows: Table) {
    rows.Keys == before.Keys && forall id :: id in rows ==> rows[id] == if id in done then f(before[id]) else before[id]
  }

  /** One `UPDATE` statement: each of the given rows, one after the other, and how many they were. */
  method Update(before: Table, ids: set<JobId>, f: Job -> Job) returns (rows: Table, count: nat)
    requires ids <= before.Keys
    ensures Updated(before, ids, f, rows) && count == |ids|
  {
    rows, count := before, 0;
    var todo := ids;
    while todo != {}
      invariant todo <= ids && count == |ids| - |todo| && Updated(before, ids - todo, f, rows)
      decreases |todo|
    {
      var id :| id in todo;
      rows := rows[id := f(rows[id])];
      todo := todo - {id};
      count := count + 1;
    }
  }

  class Jobs {
    var rows: Table

    constructor ()
      ensures rows == map[]
    {
      rows := map[];
    }

    /** `insert_job`; the fresh id stands for `Uuid::new_v4()`. */
    method InsertJob(submission: Submission, id: JobId, now: int) returns (r: Result<JobId>)
      requires id !in rows
      modifies this
      ensures r == if Admissible(submission) then Ok(id) else Err(Invalid)
      ensures rows == Apply(old(rows), now, Insert(id, submission))
    {
      if |submission.payload| > MAX_JOB_BLOB_BYTES { return Err(Invalid); }
      var metadata := ByteLen(submission.workerNamespace) + ByteLen(submission.workerName)
        + ByteLen(submission.workerVersion) + ByteLen(submission.jobType)
        + ByteLen(submission.sourceNamespace) + ByteLen(submission.sourceModule);
      if metadata > MAX_JOB_METADATA_BYTES { return Err(Invalid); }
      var timeout := if submission.timeoutSecs == 0 then 300 else submission.timeoutSecs;
      var attempts := if submission.maxAttempts == 0 then 3 else submission.maxAttempts;
      if timeout > I32_MAX || attempts > I32_MAX { return Err(Invalid); }
      rows := rows[id := NewJob(id, submission, now)];
      r := Ok(id);
    }

    /** `claim_job`: the oldest eligible row, skipping locked ones. */
    method ClaimJob(ns: string, name: string, version: string, engine: string, claim: ClaimId,
                    locked: set<JobId>, now: int) returns (r: Option<ClaimedJob>)
      modifies this
      ensures var chosen := if r.Some? then Some(r.value.jobId) else None;
        && IsOldest(old(rows), Eligible(old(rows), ns, name, version, locked), chosen)
        && rows == Apply(old(rows), now, Claim(ns, name, version, engine, claim, locked, chosen))
      ensures r.Some? ==> r.value.jobId in old(rows) && Holds(rows, r.value.jobId, claim)
      ensures r.Some? ==> var row := old(rows)[r.value.jobId];
        r.value == ClaimedJob(r.value.jobId, row.jobType, row.payload, claim)
    {
      var eligible := set id | id in rows && id !in locked && Claimable(rows[id], ns, name, version);
      if eligible == {} { return None; }
      var best :| best in eligible;
      var rest := eligible - {best};
      while rest != {}
        invariant best in eligible && rest <= eligible
        invariant forall id :: id in eligible && id !in rest ==> rows[best].createdAt <= rows[id].createdAt
        decreases |rest|
      {
        var id :| id in rest;
        if rows[id].createdAt < rows[best].createdAt { best := id; }
        rest := rest - {id};
      }
      var row := rows[best];
      rows := rows[best := row.(status := Running, claimedAt := Some(now),
                               leaseExpiresAt := Some(now + row.timeoutSecs * SECOND), claimedBy := Some(engine),
                               attempt := row.attempt + 1, claimId := Some(claim), updatedAt := now)];
      r := Some(ClaimedJob(best, row.jobType, row.payload, claim));
    }

    method CompleteJob(id: JobId, claim: ClaimId, result: seq<bv8>, now: int) returns (r: Result<Finalization>)
      modifies this
      ensures r == if !CompletionAdmissible(result) then Err(Invalid)
                   else Ok(if Holds(old(rows), id, claim) then Applied else Stale)
      ensures rows == Apply(old(rows), now, Event.CompleteJob(id, claim, result))
    {
      if |result| > MAX_JOB_BLOB_BYTES { return Err(Invalid); }
      if id in rows && rows[id].status == Running && rows[id].claimId == Some(claim) {
        rows := rows[id := rows[id].(status := Complete, result := Some(result), claimedAt := None,
                                     claimedBy := None, claimId := None, leaseExpiresAt := None,
                                     completedAt := Some(now), updatedAt := now)];
        r := Ok(Applied);
      } else {
        r := Ok(Stale);
      }
    }

    method FailJob(id: JobId, claim: ClaimId, message: string, now: int) returns (r: Result<Finalization>)
      modifies this
      ensures r == if !FailureAdmissible(message) then Err(Invalid)
                   else Ok(if Holds(old(rows), id, claim) then Applied else Stale)
      ensures rows == Apply(old(rows), now, Event.FailJob(id, claim, message))
    {
      if message == "" || ByteLen(message) > MAX_JOB_ERROR_BYTES { return Err(Invalid); }
      if id in rows && rows[id].status == Running && rows[id].claimId == Some(claim) {
        var row := rows[id];
        rows := rows[id := row.(status := if row.attempt < row.maxAttempts then Pending else Dead,
                                errorMessage := Some(message), claimedAt := None, claimedBy := None,
                                claimId := None, leaseExpiresAt := None, updatedAt := now)];
        r := Ok(Applied);
      } else {
        r := Ok(Stale);
      }
    }

    /** `recover_stale_jobs`: the returned count is the number of rows taken. */
    method RecoverStaleJobs(locked: set<JobId>, now: int) returns (count: nat)
      modifies this
      ensures rows == Apply(old(rows), now, Recover(locked))
      ensures count == |Expired(old(rows), locked, now)|
    {
      var expired := Expired(rows, locked, now);
      rows, count := Update(rows, expired, (row: Job) => Failed(row, StaleMessage(row), now));
    }

    /** `retry_dead_job`: a failing detail check rolls the update back. */
    method RetryDeadJob(id: JobId, now: int) returns (r: Result<JobDetail>)
      modifies this
      ensures r == RetryOutcome(old(rows), id, now)
      ensures rows == Apply(old(rows), now, RetryDead(id))
    {
      if Blank(id) { return Err(Invalid); }
      if id !in rows { return Err(NotFound); }
      if rows[id].status != Dead { return Err(FailedPrecondition); }
      var before := rows;
      rows := rows[id := rows[id].(status := Pending, attempt := 0, result := None, completedAt := None,
                                   claimedAt := None, claimedBy := None, claimId := None,
                                   leaseExpiresAt := None, updatedAt := now)];
      r := Detail(rows[id]);
      if r.Err? { rows := before; }
    }
  }
}
