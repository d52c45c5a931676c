/** The status and the traces of an audit over whole runs, stated over the jobs alone. */
module AuditStatuses {
  import opened Jobs
  import opened Outcomes

  // ----- the status of an audit over whole runs

  ghost predicate HasJob(s: Store, a: string, status: JobStatus) {
    exists j :: j in s.jobs && s.jobs[j].auditId == a && s.jobs[j].status == status
  }

  ghost predicate AllJobs(s: Store, a: string, status: JobStatus) {
    forall j :: j in s.jobs && s.jobs[j].auditId == a ==> s.jobs[j].status == status
  }

  ghost predicate Waiting(s: Store, a: string) {
    HasJob(s, a, Queued) || HasJob(s, a, Running)
  }

  lemma {:induction false} StatusesMean(s: Store, a: string)
    ensures forall status :: status in Statuses(s.jobs, a) <==> HasJob(s, a, status)
    ensures forall status :: AllJobs(s, a, status) <==> forall other :: HasJob(s, a, other) ==> other == status
  {
    forall j | j in s.jobs && s.jobs[j].auditId == a ensures HasJob(s, a, s.jobs[j].status) {}
  }

  lemma {:induction false} SixStatuses(x: JobStatus)
    ensures x == Queued || x == Running || x == Completed || x == Failed || x == Cancelled || x == Interrupted
  {
  }

  /** What a matching status says about the statuses of the jobs. */
  lemma {:induction false} StatusFromSet(status: AuditStatus, statuses: set<JobStatus>, excused: bool)
    requires statuses != {} && (StatusMatches(status, statuses) || (excused && FailedByHand(status, statuses)))
    ensures var waiting := Queued in statuses || Running in statuses;
            && (status == AuditCompleted <==> statuses == {Completed})
            && (status == AuditCancelled <==> Cancelled in statuses && !waiting && Failed !in statuses && Interrupted !in statuses)
            && (status == AuditInterrupted <==> Interrupted in statuses && !waiting && Failed !in statuses)
            && (status == AuditFailed ==> if waiting then excused else Failed in statuses)
            && (Failed in statuses && !waiting ==> status == AuditFailed)
            && (status == AuditRunning ==> waiting)
            && (status == AuditCreated ==> statuses == {Queued})
            && (waiting && !excused ==> status == AuditRunning || status == AuditCreated)
  {
    var some :| some in statuses;
    SixStatuses(some);
    if status == AuditCompleted {
      forall x | x in statuses ensures x == Completed { SixStatuses(x); }
      assert statuses == {Completed};
    }
  }

  lemma {:induction false} AllMeans(s: Store, a: string, status: JobStatus)
    requires Statuses(s.jobs, a) != {}
    ensures AllJobs(s, a, status) <==> Statuses(s.jobs, a) == {status}
  {
    StatusesMean(s, a);
    if AllJobs(s, a, status) {
      forall x ensures x in Statuses(s.jobs, a) <==> x == status {
        if x in Statuses(s.jobs, a) { assert HasJob(s, a, x); }
        var y :| y in Statuses(s.jobs, a);
        assert HasJob(s, a, y);
      }
    }
  }

  /** The status of an audit that has a job, after every run. The one exception is an audit that the run failed by
      hand while it had a job: it may be failed while work is waiting. */
  lemma {:induction false} StatusByJobs(steps: seq<Step>, a: string, j: string)
    requires a in Run(steps).audits && j in Run(steps).jobs && Run(steps).jobs[j].auditId == a
    ensures var s := Run(steps);
            var status := s.audits[a].status;
            && (status == AuditCompleted <==> AllJobs(s, a, Completed))
            && (status == AuditCancelled <==>
                  HasJob(s, a, Cancelled) && !Waiting(s, a) && !HasJob(s, a, Failed) && !HasJob(s, a, Interrupted))
            && (status == AuditInterrupted <==> HasJob(s, a, Interrupted) && !Waiting(s, a) && !HasJob(s, a, Failed))
            && (status == AuditFailed ==> if Waiting(s, a) then a in HandFailed(steps) else HasJob(s, a, Failed))
            && (HasJob(s, a, Failed) && !Waiting(s, a) ==> status == AuditFailed)
            && (status == AuditRunning ==> Waiting(s, a))
            && (status == AuditCreated ==> AllJobs(s, a, Queued))
            && (Waiting(s, a) && a !in HandFailed(steps) ==> status == AuditRunning || status == AuditCreated)
  {
    var s := Run(steps);
    RunKeeps(steps);
    StatusesMean(s, a);
    assert s.jobs[j].status in Statuses(s.jobs, a);
    StatusFromSet(s.audits[a].status, Statuses(s.jobs, a), a in HandFailed(steps));
    AllMeans(s, a, Completed);
    AllMeans(s, a, Queued);
  }

  /** An audit counts as failed by hand only if some step of the run is that failure. */
  lemma {:induction false} HandFailedByStep(steps: seq<Step>, a: string) returns (i: nat)
    requires a in HandFailed(steps)
    ensures i < |steps| && steps[i].StepFailAudit? && steps[i].auditId == a
  {
    var n := |steps| - 1;
    if a in HandFailed(steps[..n]) {
      i := HandFailedByStep(steps[..n], a);
    } else {
      i := n;
    }
  }

  /** An audit carries a finishing time exactly when it is neither created nor running. */
  ghost predicate Stamped(audit: Audit) {
    audit.finishedAt.Some? <==> audit.status != AuditCreated && audit.status != AuditRunning
  }

  ghost predicate AllStamped(s: Store) {
    forall a :: a in s.audits ==> Stamped(s.audits[a])
  }

  lemma {:induction false} RefreshStamps(audit: Audit, statuses: set<JobStatus>, now: int)
    requires Stamped(audit) && Refreshed(audit, statuses, now).Ok?
    ensures Stamped(Refreshed(audit, statuses, now).value)
  {
  }

  /** A recomputed status that is new leaves its traces: a running audit has a starting time, its first; an ended one ends
      now; a failed or interrupted one says that its jobs are the cause. */
  lemma {:induction false} RefreshTraces(audit: Audit, statuses: set<JobStatus>, now: int)
    requires Refreshed(audit, statuses, now).Ok? && Refreshed(audit, statuses, now).value.status != audit.status
    ensures var r := Refreshed(audit, statuses, now).value;
            && (r.startedAt == if audit.startedAt == None && r.status == AuditRunning then Some(now) else audit.startedAt)
            && (r.finishedAt == if r.status == AuditRunning then None else Some(now))
            && (r.error == if r.status == AuditFailed || r.status == AuditInterrupted then Some("job_status") else audit.error)
            && r.summary == audit.summary
  {
  }

  lemma {:induction false} RefreshSettled(audit: Audit, statuses: set<JobStatus>, now: int)
    requires Refreshed(audit, statuses, now).Ok? && Refreshed(audit, statuses, now).value.status == audit.status
    ensures Refreshed(audit, statuses, now).value == audit
  {
  }

  lemma {:induction false} StepStamps(s: Store, step: Step, a: string)
    requires AllStamped(s) && Attempt(s, step).Ok? && a in Attempt(s, step).value.audits
    ensures Stamped(Attempt(s, step).value.audits[a])
  {
    match step {
      case StepFinish(jobId, outcome, summary, now) => FinishStamps(s, jobId, outcome, summary, now, a);
      case StepRequestCancel(jobId, now) =>
        if s.jobs[jobId].status == Queued && s.jobs[jobId].auditId == a {
          RefreshStamps(s.audits[a], Statuses(s.jobs[jobId := Moved(s.jobs[jobId], Cancelled)], a), now);
        }
      case StepRecover(now) =>
        if HasRunning(s.jobs, a) { RefreshStamps(s.audits[a], Statuses(InterruptedJobs(s.jobs), a), now); }
      case _ =>
    }
  }

  lemma {:induction false} FinishStamps(s: Store, jobId: string, outcome: JobStatus, summary: map<string, Option<string>>, now: int, a: string)
    requires AllStamped(s) && Finish(s, jobId, outcome, summary, now).Ok? && a in Finish(s, jobId, outcome, summary, now).value.audits
    ensures Stamped(Finish(s, jobId, outcome, summary, now).value.audits[a])
  {
    if s.jobs[jobId].auditId == a {
      var audit := s.audits[a];
      var noted := if outcome == Failed then audit else audit.(summary := audit.summary + summary);
      RefreshStamps(noted, Statuses(s.jobs[jobId := Moved(s.jobs[jobId], outcome)], a), now);
    }
  }

  lemma {:induction false} RunStamps(steps: seq<Step>)
    ensures AllStamped(Run(steps))
  {
    if steps != [] {
      var s, step := Run(steps[..|steps| - 1]), steps[|steps| - 1];
      RunStamps(steps[..|steps| - 1]);
      if Attempt(s, step).Ok? {
        forall a | a in Attempt(s, step).value.audits { StepStamps(s, step, a); }
      }
    }
  }
}
