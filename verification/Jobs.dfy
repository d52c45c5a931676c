/** Audits, their jobs, and the operations of the job service, the worker and the recovery service. */
module Jobs {
  import opened Outcomes

  datatype AuditStatus = AuditCreated | AuditRunning | AuditCompleted | AuditFailed | AuditCancelled | AuditInterrupted
  datatype JobStatus = Queued | Running | Completed | Failed | Cancelled | Interrupted

  // ----- the transition tables

  predicate JobMayBecome(current: JobStatus, next: JobStatus) {
    match current
    case Queued => next in {Running, Cancelled}
    case Running => next in {Completed, Failed, Cancelled, Interrupted}
    case _ => false
  }

  predicate AuditMayBecome(current: AuditStatus, next: AuditStatus) {
    match current
    case AuditCreated => next in {AuditRunning, AuditCancelled, AuditFailed}
    case AuditRunning => next in {AuditCompleted, AuditFailed, AuditCancelled, AuditInterrupted}
    case _ => next == AuditRunning
  }

  predicate AcceptsJobs(status: AuditStatus) {
    status in {AuditCreated, AuditRunning, AuditCompleted}
  }

  predicate Pending(status: JobStatus) {
    status in {Queued, Running}
  }

  // ----- tables

  datatype JobSpec = JobSpec(
    priority: int, target: Option<string>, parameters: map<string, string>,
    resourceKey: Option<string>, resourceGroup: Option<string>, resourceLimit: Option<int>)

  datatype Job = Job(
    auditId: string, kind: string, status: JobStatus, spec: JobSpec, progress: nat, stage: string, message: string,
    cancelRequested: bool, attempt: nat)

  datatype Audit = Audit(
    status: AuditStatus, startedAt: Option<int>, finishedAt: Option<int>, error: Option<string>,
    summary: map<string, Option<string>>)

  datatype JobEvent = JobEvent(auditId: string, jobId: string, kind: string, related: Option<string>, actor: Option<string>)

  datatype Store = Store(audits: map<string, Audit>, jobs: map<string, Job>, events: seq<JobEvent>)

  datatype Refusal = NotFound | InvalidTransition | RetryNotAllowed | AuditBusy | KeyTaken | PcapUnavailable | SourceNotReady

  // ----- the audit status derived from its jobs

  ghost function Statuses(jobs: map<string, Job>, auditId: string): set<JobStatus> {
    set j | j in jobs && jobs[j].auditId == auditId :: jobs[j].status
  }

  ghost function Desired(statuses: set<JobStatus>): AuditStatus {
    if Queued in statuses || Running in statuses then AuditRunning
    else if Failed in statuses then AuditFailed
    else if Interrupted in statuses then AuditInterrupted
    else if Cancelled in statuses then AuditCancelled
    else AuditCompleted
  }

  /** `_refresh_audit`: the audit row after its status has been recomputed from its jobs. */
  ghost function Refreshed(audit: Audit, statuses: set<JobStatus>, now: int): Result<Audit, Refusal> {
    var desired := Desired(statuses);
    if statuses == {} || audit.status == desired then Ok(audit)
    else if !AuditMayBecome(audit.status, desired) then Err(InvalidTransition)
    else
      var moved :=
        if desired == AuditRunning then
          audit.(status := desired, startedAt := if audit.startedAt.None? then Some(now) else audit.startedAt, finishedAt := None)
        else audit.(status := desired, finishedAt := Some(now));
      Ok(if desired == AuditFailed || desired == AuditInterrupted then
           moved.(error := Some("job_status")) else moved)
  }

  ghost function Refresh(s: Store, auditId: string, now: int): Result<Store, Refusal> {
    if auditId !in s.audits then Err(NotFound)
    else
      var audit := Refreshed(s.audits[auditId], Statuses(s.jobs, auditId), now);
      if audit.Err? then Err(audit.error) else Ok(s.(audits := s.audits[auditId := audit.value]))
  }

  // ----- operations

  function NameOf(status: JobStatus): string {
    match status
    case Queued => "queued"
    case Running => "running"
    case Completed => "completed"
    case Failed => "failed"
    case Cancelled => "cancelled"
    case Interrupted => "interrupted"
  }

  /** `_transition_job`: the job enters its next status, and an event records it. */
  function MoveJob(s: Store, jobId: string, next: JobStatus): Result<Store, Refusal> {
    if jobId !in s.jobs then Err(NotFound)
    else
      var job := s.jobs[jobId];
      if !JobMayBecome(job.status, next) then Err(InvalidTransition)
      else
        Ok(s.(jobs := s.jobs[jobId := Moved(job, next)],
              events := s.events + [JobEvent(job.auditId, jobId, "job_" + NameOf(next), None, None)]))
  }

  function Moved(job: Job, next: JobStatus): Job {
    job.(status := next,
         stage := if next == Running then "starting" else NameOf(next),
         progress := if next == Completed then 100 else if next == Running && job.progress == 0 then 1 else job.progress)
  }

  function CreateAudit(s: Store, auditId: string): Result<Store, Refusal> {
    if auditId in s.audits then Err(KeyTaken)
    else Ok(s.(audits := s.audits[auditId := Audit(AuditCreated, None, None, None, map[])]))
  }

  function FailAudit(s: Store, auditId: string, error: string, now: int): Result<Store, Refusal> {
    if auditId !in s.audits then Err(NotFound)
    else if !AuditMayBecome(s.audits[auditId].status, AuditFailed) then Err(InvalidTransition)
    else Ok(s.(audits := s.audits[auditId := s.audits[auditId].(status := AuditFailed, finishedAt := Some(now), error := Some(error))]))
  }

  function CreateJob(s: Store, jobId: string, auditId: string, kind: string, spec: JobSpec): Result<Store, Refusal> {
    if jobId in s.jobs then Err(KeyTaken)
    else if auditId !in s.audits then Err(NotFound)
    else
      var audit := s.audits[auditId];
      if !AcceptsJobs(audit.status) then Err(InvalidTransition)
      else
        var reopened := if audit.status == AuditCompleted then audit.(status := AuditRunning, finishedAt := None) else audit;
        Ok(Store(s.audits[auditId := reopened],
                 s.jobs[jobId := Job(auditId, kind, Queued, spec, 0, "queued", "Job queued", false, 0)],
                 s.events + [JobEvent(auditId, jobId, "job_queued", None, None)]))
  }

  /** A worker takes a queued job; the audit starts running unless it already is. */
  function Claim(s: Store, jobId: string, now: int): Result<Store, Refusal> {
    var moved := MoveJob(s, jobId, Running);
    if moved.Err? then moved
    else
      var job := moved.value.jobs[jobId];
      if job.auditId !in s.audits then Err(NotFound)
      else
        var audit := s.audits[job.auditId];
        var started := if audit.status in {AuditCreated, AuditCompleted} then
            audit.(status := AuditRunning, startedAt := if audit.startedAt.None? then Some(now) else audit.startedAt, finishedAt := None)
          else audit;
        Ok(moved.value.(audits := s.audits[job.auditId := started],
                        jobs := moved.value.jobs[jobId := job.(attempt := job.attempt + 1)]))
  }

  /** A worker reports the end of a job; a failure brings no summary. */
  ghost function Finish(s: Store, jobId: string, outcome: JobStatus, summary: map<string, Option<string>>, now: int): Result<Store, Refusal> {
    var moved := MoveJob(s, jobId, outcome);
    if moved.Err? then moved
    else if outcome !in {Completed, Failed, Cancelled} then Err(InvalidTransition)
    else
      var id := s.jobs[jobId].auditId;
      if id !in s.audits then Err(NotFound)
      else
        var audit := s.audits[id];
        var noted := if outcome == Failed then audit else audit.(summary := audit.summary + summary);
        Refresh(moved.value.(audits := s.audits[id := noted]), id, now)
  }

  /** The operator cancels: a queued job at once, a running one by request only. */
  ghost function RequestCancel(s: Store, jobId: string, now: int): Result<Store, Refusal> {
    if jobId !in s.jobs then Err(NotFound)
    else
      var job := s.jobs[jobId];
      if job.status == Queued then Refresh(MoveJob(s, jobId, Cancelled).value, job.auditId, now)
      else if job.status == Running && !job.cancelRequested then
        Ok(s.(jobs := s.jobs[jobId := job.(cancelRequested := true)],
              events := s.events + [JobEvent(job.auditId, jobId, "cancellation_requested", None, None)]))
      else Ok(s)
  }

  ghost function InterruptedJobs(jobs: map<string, Job>): map<string, Job> {
    map j | j in jobs :: if jobs[j].status == Running then Moved(jobs[j], Interrupted) else jobs[j]
  }

  /** One event for each of the jobs, in an order that is left open. */
  ghost function Interruptions(jobs: map<string, Job>, ids: set<string>): (r: seq<JobEvent>)
    requires ids <= jobs.Keys
    ensures |r| == |ids|
    ensures forall e :: e in r <==> e.jobId in ids && e == JobEvent(jobs[e.jobId].auditId, e.jobId, "job_interrupted", None, None)
  {
    if ids == {} then []
    else
      var j :| j in ids;
      Interruptions(jobs, ids - {j}) + [JobEvent(jobs[j].auditId, j, "job_interrupted", None, None)]
  }

  ghost predicate HasRunning(jobs: map<string, Job>, auditId: string) {
    Running in Statuses(jobs, auditId)
  }

  /** After a restart every running job is interrupted and the audits of those jobs are refreshed. */
  ghost function Recover(s: Store, now: int): Result<Store, Refusal> {
    var jobs := InterruptedJobs(s.jobs);
    if exists a :: a in s.audits && HasRunning(s.jobs, a) && Refreshed(s.audits[a], Statuses(jobs, a), now).Err? then
      Err(InvalidTransition)
    else
      Ok(Store(map a | a in s.audits ::
                 if HasRunning(s.jobs, a) then Refreshed(s.audits[a], Statuses(jobs, a), now).value else s.audits[a],
               jobs, s.events + Interruptions(s.jobs, set j | j in s.jobs && s.jobs[j].status == Running)))
  }

  const CREDENTIALED := {"snmp_topology", "ssh_topology"}

  predicate Retryable(status: JobStatus) {
    status in {Failed, Interrupted, Cancelled}
  }

  /** Some queued or running job of the audit has this type. */
  predicate HasPendingOfKind(jobs: map<string, Job>, auditId: string, kind: string) {
    exists j | j in jobs :: jobs[j].auditId == auditId && jobs[j].kind == kind && Pending(jobs[j].status)
  }

  /** `RecoveryService.retry`: a new queued job with the parameters of a failed, interrupted or cancelled one. */
  function Retry(s: Store, jobId: string, newId: string, actor: Option<string>, now: int): Result<Store, Refusal> {
    if jobId !in s.jobs then Err(NotFound)
    else
      var source := s.jobs[jobId];
      if !Retryable(source.status) || source.kind in CREDENTIALED then Err(RetryNotAllowed)
      else if HasPendingOfKind(s.jobs, source.auditId, source.kind) then Err(RetryNotAllowed)
      else if source.auditId !in s.audits then Err(NotFound)
      else
        var audit := s.audits[source.auditId];
        if audit.status != AuditRunning && !AuditMayBecome(audit.status, AuditRunning) then Err(InvalidTransition)
        else if newId in s.jobs then Err(KeyTaken)
        else
          var running := if audit.status == AuditRunning then audit else audit.(status := AuditRunning, finishedAt := None, error := None);
          Ok(Store(s.audits[source.auditId := running.(startedAt := if running.startedAt.None? then Some(now) else running.startedAt)],
                   s.jobs[newId := Job(source.auditId, source.kind, Queued, source.spec, 0, "queued", "Retry queued for " + jobId, false, 0)],
                   s.events + [JobEvent(source.auditId, newId, "job_retried", Some(jobId), actor),
                               JobEvent(source.auditId, jobId, "retry_scheduled", Some(newId), actor)]))
  }

  /** Queued or running work of an audit. */
  predicate HasPending(jobs: map<string, Job>, auditId: string) {
    exists j | j in jobs :: jobs[j].auditId == auditId && Pending(jobs[j].status)
  }

  const ANALYSIS := "traffic_analysis"

  /** The parameters an analysis job is recognised by. */
  function AnalysisParameters(captureId: string, pcapId: string, version: string): map<string, string> {
    map["source_capture_job_id" := captureId, "pcap_artifact_id" := pcapId, "analyzer_version" := version]
  }

  predicate Reusable(job: Job, auditId: string, wanted: map<string, string>) {
    && job.auditId == auditId && job.kind == ANALYSIS && job.status in {Queued, Running, Completed}
    && forall key | key in wanted :: key in job.spec.parameters && job.spec.parameters[key] == wanted[key]
  }

  /** `TrafficAnalysisJobService.enqueue`: reuses an analysis of this capture, or reopens the finished audit for a
      new one. Whether the capture's packets are still there is a parameter. */
  function Analyse(s: Store, newId: string, auditId: string, captureId: string, pcapId: string, pcapPresent: bool, version: string): Result<Store, Refusal> {
    var wanted := AnalysisParameters(captureId, pcapId, version);
    if auditId !in s.audits then Err(NotFound)
    else if captureId !in s.jobs || s.jobs[captureId].auditId != auditId || s.jobs[captureId].kind != "packet_capture" then Err(NotFound)
    else if !pcapPresent then Err(PcapUnavailable)
    else if exists j | j in s.jobs :: Reusable(s.jobs[j], auditId, wanted) then Ok(s)
    else if HasPending(s.jobs, auditId) || s.audits[auditId].status in {AuditCreated, AuditRunning} then Err(SourceNotReady)
    else if newId in s.jobs then Err(KeyTaken)
    else
      var spec := JobSpec(0, Some(captureId), wanted, Some("pcap-analysis:" + pcapId), Some(ANALYSIS), Some(1));
      Ok(Store(s.audits[auditId := s.audits[auditId].(status := AuditRunning, finishedAt := None)],
               s.jobs[newId := Job(auditId, ANALYSIS, Queued, spec, 0, "queued", "Traffic analysis queued", false, 0)],
               s.events + [JobEvent(auditId, newId, "job_queued", None, None)]))
  }

  /** The commit of `AuditDeletionService.delete`, with the cascade to jobs and events. */
  function DeleteAudit(s: Store, auditId: string): Result<Store, Refusal> {
    if auditId !in s.audits then Err(NotFound)
    else if HasPending(s.jobs, auditId) || s.audits[auditId].status == AuditRunning then Err(AuditBusy)
    else
      Ok(Store(s.audits - {auditId},
               s.jobs - (set j | j in s.jobs && s.jobs[j].auditId == auditId),
               WithoutAudit(s.events, auditId)))
  }

  function WithoutAudit(events: seq<JobEvent>, auditId: string): (r: seq<JobEvent>)
    ensures forall e :: e in r <==> e in events && e.auditId != auditId
  {
    if events == [] then []
    else if events[0].auditId == auditId then WithoutAudit(events[1..], auditId)
    else [events[0]] + WithoutAudit(events[1..], auditId)
  }

  // ----- the invariant

  /** The stored status is the derived one; only an audit whose jobs all still wait may be `created`,
      and an audit without jobs is `created` or was failed at its creation. */
  ghost predicate StatusMatches(status: AuditStatus, statuses: set<JobStatus>) {
    if statuses == {} then status in {AuditCreated, AuditFailed}
    else status == Desired(statuses) || (status == AuditCreated && statuses == {Queued})
  }

  /** Each job and event belongs to an existing audit. */
  ghost predicate References(s: Store) {
    && (forall j :: j in s.jobs ==> s.jobs[j].auditId in s.audits)
    && (forall e :: e in s.events ==> e.jobId in s.jobs && s.jobs[e.jobId].auditId == e.auditId)
  }

  /** Failed, although work is queued or running: only `fail_audit` leaves an audit like that. */
  ghost predicate FailedByHand(status: AuditStatus, statuses: set<JobStatus>) {
    status == AuditFailed && (Queued in statuses || Running in statuses)
  }

  /** Every status matches, except that the excused audits may have been failed by hand with work pending. */
  ghost predicate ConsistentBut(s: Store, excused: set<string>) {
    && References(s)
    && forall a :: a in s.audits ==>
         StatusMatches(s.audits[a].status, Statuses(s.jobs, a)) || (a in excused && FailedByHand(s.audits[a].status, Statuses(s.jobs, a)))
  }

  ghost predicate Consistent(s: Store) {
    ConsistentBut(s, {})
  }

  /** A job whose status changes affects the status set of its own audit only. */
  lemma StatusesAfterMove(jobs: map<string, Job>, jobId: string, job: Job, a: string)
    requires jobId in jobs ==> jobs[jobId].auditId == job.auditId
    ensures a != job.auditId ==> Statuses(jobs[jobId := job], a) == Statuses(jobs, a)
    ensures a == job.auditId ==> job.status in Statuses(jobs[jobId := job], a)
    ensures a == job.auditId ==> Statuses(jobs[jobId := job], a) <= Statuses(jobs, a) + {job.status}
    ensures a == job.auditId && jobId !in jobs ==> Statuses(jobs[jobId := job], a) == Statuses(jobs, a) + {job.status}
    ensures a == job.auditId && jobId in jobs ==> Statuses(jobs, a) <= Statuses(jobs[jobId := job], a) + {jobs[jobId].status}
  {
    var after := jobs[jobId := job];
    assert jobId in after && after[jobId] == job;
    forall x | x in Statuses(after, a) ensures x in Statuses(jobs, a) || (a == job.auditId && x == job.status) {
      var j :| j in after && after[j].auditId == a && after[j].status == x;
    }
    forall x | x in Statuses(jobs, a) ensures x in Statuses(after, a) || (jobId in jobs && jobs[jobId].auditId == a && x == jobs[jobId].status) {
      var j :| j in jobs && jobs[j].auditId == a && jobs[j].status == x;
      assert j != jobId ==> after[j] == jobs[j];
    }
  }

  /** Recomputing a status from jobs of which none has come back to life is refused in one case only: the audit
      was failed by hand and no job is queued, running or failed any more. */
  lemma RefreshIff(audit: Audit, before: set<JobStatus>, after: set<JobStatus>, now: int)
    requires StatusMatches(audit.status, before) || FailedByHand(audit.status, before)
    requires Queued in before || Running in before
    requires after != {} && (audit.status == AuditCreated ==> after <= {Queued, Cancelled})
    ensures Refreshed(audit, after, now).Ok? <==> audit.status != AuditFailed || Queued in after || Running in after || Failed in after
    ensures Refreshed(audit, after, now).Ok? ==> Refreshed(audit, after, now).value.status == Desired(after)
  {
  }

  // ----- each operation keeps the invariant, and when it is refused

  /** Some other job of the audit is queued, running or failed. */
  ghost predicate Held(s: Store, jobId: string)
    requires jobId in s.jobs
  {
    exists other :: other in s.jobs && other != jobId && s.jobs[other].auditId == s.jobs[jobId].auditId
                    && s.jobs[other].status in {Queued, Running, Failed}
  }

  /** A job may end so unless its audit has been failed by hand and nothing would be left to keep it failed or running. */
  ghost predicate MayEnd(s: Store, jobId: string, outcome: JobStatus)
    requires jobId in s.jobs && s.jobs[jobId].auditId in s.audits
  {
    s.audits[s.jobs[jobId].auditId].status != AuditFailed || outcome == Failed || Held(s, jobId)
  }

  lemma HeldStatuses(s: Store, jobId: string, job: Job)
    requires jobId in s.jobs && job.auditId == s.jobs[jobId].auditId && job.status !in {Queued, Running}
    ensures var after := Statuses(s.jobs[jobId := job], job.auditId);
            (Queued in after || Running in after || Failed in after) <==> job.status == Failed || Held(s, jobId)
  {
    var jobs := s.jobs[jobId := job];
    assert jobs[jobId] == job;
    if Held(s, jobId) {
      var other :| other in s.jobs && other != jobId && s.jobs[other].auditId == job.auditId && s.jobs[other].status in {Queued, Running, Failed};
      assert jobs[other].status in Statuses(jobs, job.auditId);
    }
  }

  /** Ending a job changes the statuses of its own audit only; recomputing that audit is refused when it may not end so. */
  lemma MoveRefreshes(s: Store, excused: set<string>, jobId: string, next: JobStatus, now: int)
    requires ConsistentBut(s, excused) && MoveJob(s, jobId, next).Ok? && next != Running
    ensures var moved, a := MoveJob(s, jobId, next).value, s.jobs[jobId].auditId;
            var r := Refreshed(s.audits[a], Statuses(moved.jobs, a), now);
            && (r.Ok? <==> MayEnd(s, jobId, next))
            && Statuses(moved.jobs, a) != {} && (r.Ok? ==> r.value.status == Desired(Statuses(moved.jobs, a)))
  {
    var job, moved := s.jobs[jobId], Moved(s.jobs[jobId], next);
    var a := job.auditId;
    StatusesAfterMove(s.jobs, jobId, moved, a);
    assert job.status in Statuses(s.jobs, a);
    HeldStatuses(s, jobId, moved);
    RefreshIff(s.audits[a], Statuses(s.jobs, a), Statuses(s.jobs[jobId := moved], a), now);
  }

  lemma MoveKeeps(s: Store, excused: set<string>, jobId: string, next: JobStatus, now: int)
    requires ConsistentBut(s, excused) && MoveJob(s, jobId, next).Ok? && next != Running
    ensures var moved, a := MoveJob(s, jobId, next).value, s.jobs[jobId].auditId;
            && (Refresh(moved, a, now).Ok? <==> MayEnd(s, jobId, next))
            && (Refresh(moved, a, now).Ok? ==> ConsistentBut(Refresh(moved, a, now).value, excused))
  {
    MoveRefreshes(s, excused, jobId, next, now);
    forall b { StatusesAfterMove(s.jobs, jobId, Moved(s.jobs[jobId], next), b); }
  }

  /** Cancelling a queued job is refused exactly when the job may not end so; cancelling any other never is. */
  lemma RequestCancelKeeps(s: Store, excused: set<string>, jobId: string, now: int)
    requires ConsistentBut(s, excused) && jobId in s.jobs
    ensures RequestCancel(s, jobId, now).Ok? <==> (s.jobs[jobId].status == Queued ==> MayEnd(s, jobId, Cancelled))
    ensures RequestCancel(s, jobId, now).Ok? ==> ConsistentBut(RequestCancel(s, jobId, now).value, excused)
  {
    if s.jobs[jobId].status == Queued {
      MoveKeeps(s, excused, jobId, Cancelled, now);
    } else if s.jobs[jobId].status == Running {
      forall b { StatusesAfterMove(s.jobs, jobId, s.jobs[jobId].(cancelRequested := true), b); }
    }
  }

  /** Finishing a job, in a status from which it may end so, is refused exactly when the job may not end so. */
  lemma FinishKeeps(s: Store, excused: set<string>, jobId: string, outcome: JobStatus, summary: map<string, Option<string>>, now: int)
    requires ConsistentBut(s, excused) && jobId in s.jobs && JobMayBecome(s.jobs[jobId].status, outcome) && outcome in {Completed, Failed, Cancelled}
    ensures Finish(s, jobId, outcome, summary, now).Ok? <==> MayEnd(s, jobId, outcome)
    ensures Finish(s, jobId, outcome, summary, now).Ok? ==> ConsistentBut(Finish(s, jobId, outcome, summary, now).value, excused)
  {
    var a := s.jobs[jobId].auditId;
    var noted := s.(audits := s.audits[a := if outcome == Failed then s.audits[a] else s.audits[a].(summary := s.audits[a].summary + summary)]);
    assert ConsistentBut(noted, excused);
    MoveKeeps(noted, excused, jobId, outcome, now);
    assert Held(noted, jobId) <==> Held(s, jobId);
    assert Finish(s, jobId, outcome, summary, now) == Refresh(MoveJob(noted, jobId, outcome).value, a, now);
  }

  /** A queued job can always be claimed. */
  lemma ClaimKeeps(s: Store, excused: set<string>, jobId: string, now: int)
    requires ConsistentBut(s, excused) && jobId in s.jobs && s.jobs[jobId].status == Queued
    ensures Claim(s, jobId, now).Ok? && ConsistentBut(Claim(s, jobId, now).value, excused)
  {
    var after, a := Claim(s, jobId, now).value, s.jobs[jobId].auditId;
    assert after.jobs == s.jobs[jobId := after.jobs[jobId]];
    assert Queued in Statuses(s.jobs, a);
    forall b | b in after.audits
      ensures StatusMatches(after.audits[b].status, Statuses(after.jobs, b)) || (b in excused && FailedByHand(after.audits[b].status, Statuses(after.jobs, b)))
    {
      StatusesAfterMove(s.jobs, jobId, after.jobs[jobId], b);
    }
  }

  /** A new queued job under an audit that is created or running afterwards. */
  lemma AddJobKeeps(s: Store, excused: set<string>, after: Store, jobId: string)
    requires ConsistentBut(s, excused) && References(after) && jobId !in s.jobs && jobId in after.jobs
    requires after.jobs == s.jobs[jobId := after.jobs[jobId]] && after.jobs[jobId].status == Queued
    requires var a := after.jobs[jobId].auditId;
             && a in s.audits && after.audits == s.audits[a := after.audits[a]]
             && (after.audits[a].status == AuditRunning || (after.audits[a].status == s.audits[a].status == AuditCreated))
    ensures ConsistentBut(after, excused)
  {
    forall b | b in after.audits
      ensures StatusMatches(after.audits[b].status, Statuses(after.jobs, b)) || (b in excused && FailedByHand(after.audits[b].status, Statuses(after.jobs, b)))
    {
      StatusesAfterMove(s.jobs, jobId, after.jobs[jobId], b);
    }
  }

  lemma CreateJobKeeps(s: Store, excused: set<string>, jobId: string, auditId: string, kind: string, spec: JobSpec)
    requires ConsistentBut(s, excused) && CreateJob(s, jobId, auditId, kind, spec).Ok?
    ensures ConsistentBut(CreateJob(s, jobId, auditId, kind, spec).value, excused)
  {
    AddJobKeeps(s, excused, CreateJob(s, jobId, auditId, kind, spec).value, jobId);
  }

  lemma AnalyseKeeps(s: Store, excused: set<string>, newId: string, auditId: string, captureId: string, pcapId: string, pcapPresent: bool, version: string)
    requires ConsistentBut(s, excused) && Analyse(s, newId, auditId, captureId, pcapId, pcapPresent, version).Ok?
    ensures ConsistentBut(Analyse(s, newId, auditId, captureId, pcapId, pcapPresent, version).value, excused)
  {
    var after := Analyse(s, newId, auditId, captureId, pcapId, pcapPresent, version).value;
    if after != s { AddJobKeeps(s, excused, after, newId); }
  }

  lemma CreateAuditKeeps(s: Store, excused: set<string>, auditId: string)
    requires ConsistentBut(s, excused) && CreateAudit(s, auditId).Ok?
    ensures ConsistentBut(CreateAudit(s, auditId).value, excused)
  {
    assert Statuses(s.jobs, auditId) == {};
  }

  /** Failing an audit by hand keeps every status matching exactly when the audit has no job. The handler that
      creates audits commits the audit first, so another request may have queued a job by then. */
  lemma FailAuditKeeps(s: Store, auditId: string, error: string, now: int)
    requires Consistent(s) && FailAudit(s, auditId, error, now).Ok?
    ensures Consistent(FailAudit(s, auditId, error, now).value) <==> Statuses(s.jobs, auditId) == {}
  {
    var after := FailAudit(s, auditId, error, now).value;
    assert after.jobs == s.jobs && after.audits[auditId].status == AuditFailed;
  }

  /** In any case the audit is then excused only if it has a job, which is then pending. */
  lemma FailAuditExcuses(s: Store, excused: set<string>, auditId: string, error: string, now: int)
    requires ConsistentBut(s, excused) && FailAudit(s, auditId, error, now).Ok?
    ensures ConsistentBut(FailAudit(s, auditId, error, now).value, excused + if Statuses(s.jobs, auditId) == {} then {} else {auditId})
  {
    var after := FailAudit(s, auditId, error, now).value;
    assert after.jobs == s.jobs && after.audits[auditId].status == AuditFailed;
  }

  lemma InterruptedStatuses(jobs: map<string, Job>, a: string)
    ensures Statuses(InterruptedJobs(jobs), a)
         == if Running in Statuses(jobs, a) then Statuses(jobs, a) - {Running} + {Interrupted} else Statuses(jobs, a)
  {
    var after := InterruptedJobs(jobs);
    forall x ensures x in Statuses(after, a) <==>
      (x in Statuses(jobs, a) && x != Running) || (x == Interrupted && Running in Statuses(jobs, a))
    {
      if x in Statuses(after, a) {
        var j :| j in after && after[j].auditId == a && after[j].status == x;
        assert jobs[j].status in Statuses(jobs, a);
      }
      if y :| y in Statuses(jobs, a) && x == (if y == Running then Interrupted else y) {
        var j :| j in jobs && jobs[j].auditId == a && jobs[j].status == y;
        assert after[j].status == x;
      }
    }
  }

  /** The audit has been failed by hand and nothing but running jobs would keep it from ending otherwise. */
  ghost predicate BlocksRecovery(s: Store, a: string) {
    && a in s.audits && s.audits[a].status == AuditFailed && HasRunning(s.jobs, a)
    && Queued !in Statuses(s.jobs, a) && Failed !in Statuses(s.jobs, a)
  }

  lemma AuditRecovers(s: Store, excused: set<string>, a: string, now: int)
    requires ConsistentBut(s, excused) && a in s.audits
    ensures var statuses := Statuses(InterruptedJobs(s.jobs), a);
            var r := Refreshed(s.audits[a], statuses, now);
            if HasRunning(s.jobs, a) then (r.Ok? <==> !BlocksRecovery(s, a)) && (r.Ok? ==> StatusMatches(r.value.status, statuses))
            else statuses == Statuses(s.jobs, a)
  {
    InterruptedStatuses(s.jobs, a);
    if HasRunning(s.jobs, a) {
      var after := Statuses(InterruptedJobs(s.jobs), a);
      assert Interrupted in after;
      RefreshIff(s.audits[a], Statuses(s.jobs, a), after, now);
    }
  }

  /** Recovery after a restart succeeds exactly when every failed audit with a running job also has a queued or a
      failed one; it then leaves no job running. */
  lemma {:induction false} RecoverKeeps(s: Store, excused: set<string>, now: int)
    requires ConsistentBut(s, excused)
    ensures Recover(s, now).Ok? <==> forall a :: a in s.audits ==> !BlocksRecovery(s, a)
    ensures Recover(s, now).Ok? ==>
              ConsistentBut(Recover(s, now).value, excused)
              && forall j :: j in Recover(s, now).value.jobs ==> Recover(s, now).value.jobs[j].status != Running
  {
    forall a | a in s.audits { AuditRecovers(s, excused, a, now); }
  }

  /** A retry is never refused for the audit's sake: it succeeds exactly when the source job has failed, been
      interrupted or been cancelled, needs no fresh credentials, and has no equivalent queued or running job. */
  lemma RetryAllowedIff(s: Store, jobId: string, newId: string, actor: Option<string>, now: int)
    requires References(s) && newId !in s.jobs
    ensures Retry(s, jobId, newId, actor, now).Ok? <==>
              && jobId in s.jobs && Retryable(s.jobs[jobId].status) && s.jobs[jobId].kind !in CREDENTIALED
              && !HasPendingOfKind(s.jobs, s.jobs[jobId].auditId, s.jobs[jobId].kind)
  {
  }

  /** What a retry adds: one queued job with the source's work, audit and type; the source row is unchanged. */
  lemma RetryAddsOneJob(s: Store, jobId: string, newId: string, actor: Option<string>, now: int)
    requires Retry(s, jobId, newId, actor, now).Ok?
    ensures var after, source := Retry(s, jobId, newId, actor, now).value, s.jobs[jobId];
            && newId !in s.jobs && newId in after.jobs && after.jobs == s.jobs[newId := after.jobs[newId]]
            && after.jobs[newId].status == Queued && after.jobs[newId].spec == source.spec
            && after.jobs[newId].auditId == source.auditId && after.jobs[newId].kind == source.kind
            && source.kind !in CREDENTIALED
            && after.audits[source.auditId].status == AuditRunning
  {
  }

  lemma RetryKeeps(s: Store, excused: set<string>, jobId: string, newId: string, actor: Option<string>, now: int)
    requires ConsistentBut(s, excused) && Retry(s, jobId, newId, actor, now).Ok?
    ensures ConsistentBut(Retry(s, jobId, newId, actor, now).value, excused)
  {
    RetryAddsOneJob(s, jobId, newId, actor, now);
    AddJobKeeps(s, excused, Retry(s, jobId, newId, actor, now).value, newId);
  }

  /** An audit can be deleted exactly when it has no queued or running job. */
  lemma DeletableIffIdle(s: Store, excused: set<string>, auditId: string)
    requires ConsistentBut(s, excused) && auditId in s.audits
    ensures DeleteAudit(s, auditId).Ok? <==> !HasPending(s.jobs, auditId)
  {
    if s.audits[auditId].status == AuditRunning {
      var x :| x in Statuses(s.jobs, auditId) && Pending(x);
      var j :| j in s.jobs && s.jobs[j].auditId == auditId && s.jobs[j].status == x;
    }
  }

  lemma StatusesAfterDelete(jobs: map<string, Job>, auditId: string, a: string)
    requires a != auditId
    ensures Statuses(jobs - (set j | j in jobs && jobs[j].auditId == auditId), a) == Statuses(jobs, a)
  {
    var after := jobs - (set j | j in jobs && jobs[j].auditId == auditId);
    forall x | x in Statuses(jobs, a) ensures x in Statuses(after, a) {
      var j :| j in jobs && jobs[j].auditId == a && jobs[j].status == x;
      assert j in after && after[j] == jobs[j];
    }
  }

  /** Deleting an audit removes its jobs and events with it and leaves every other audit as it was. */
  lemma DeleteAuditKeeps(s: Store, excused: set<string>, auditId: string)
    requires ConsistentBut(s, excused) && DeleteAudit(s, auditId).Ok?
    ensures ConsistentBut(DeleteAudit(s, auditId).value, excused)
  {
    var after := DeleteAudit(s, auditId).value;
    forall a | a in after.audits ensures Statuses(after.jobs, a) == Statuses(s.jobs, a) {
      StatusesAfterDelete(s.jobs, auditId, a);
    }
    forall e | e in after.events ensures e.jobId in after.jobs && after.jobs[e.jobId].auditId == e.auditId {
      assert e in s.events;
    }
  }

  // ----- whole runs

  datatype Step =
    | StepCreateAudit(auditId: string)
    | StepFailAudit(auditId: string, error: string, now: int)
    | StepCreateJob(jobId: string, auditId: string, kind: string, spec: JobSpec)
    | StepClaim(jobId: string, now: int)
    | StepFinish(jobId: string, outcome: JobStatus, summary: map<string, Option<string>>, now: int)
    | StepRequestCancel(jobId: string, now: int)
    | StepRecover(now: int)
    | StepRetry(jobId: string, newId: string, actor: Option<string>, now: int)
    | StepAnalyse(newId: string, auditId: string, captureId: string, pcapId: string, pcapPresent: bool, version: string)
    | StepDeleteAudit(auditId: string)

  ghost function Attempt(s: Store, step: Step): Result<Store, Refusal> {
    match step
    case StepCreateAudit(auditId) => CreateAudit(s, auditId)
    case StepFailAudit(auditId, error, now) => FailAudit(s, auditId, error, now)
    case StepCreateJob(jobId, auditId, kind, spec) => CreateJob(s, jobId, auditId, kind, spec)
    case StepClaim(jobId, now) => Claim(s, jobId, now)
    case StepFinish(jobId, outcome, summary, now) => Finish(s, jobId, outcome, summary, now)
    case StepRequestCancel(jobId, now) => RequestCancel(s, jobId, now)
    case StepRecover(now) => Recover(s, now)
    case StepRetry(jobId, newId, actor, now) => Retry(s, jobId, newId, actor, now)
    case StepAnalyse(newId, auditId, captureId, pcapId, present, version) => Analyse(s, newId, auditId, captureId, pcapId, present, version)
    case StepDeleteAudit(auditId) => DeleteAudit(s, auditId)
  }

  /** A refused step rolls back. */
  ghost function Next(s: Store, step: Step): Store {
    var r := Attempt(s, step);
    if r.Ok? then r.value else s
  }

  ghost function Run(steps: seq<Step>): Store {
    if steps == [] then Store(map[], map[], []) else Next(Run(steps[..|steps| - 1]), steps[|steps| - 1])
  }

  /** The audit, if any, that the step fails by hand although it has a job. */
  ghost function HandFails(s: Store, step: Step): set<string> {
    if step.StepFailAudit? && Attempt(s, step).Ok? && Statuses(s.jobs, step.auditId) != {} then {step.auditId} else {}
  }

  /** The audits that a run has failed by hand when they had a job. */
  ghost function HandFailed(steps: seq<Step>): set<string> {
    if steps == [] then {}
    else HandFailed(steps[..|steps| - 1]) + HandFails(Run(steps[..|steps| - 1]), steps[|steps| - 1])
  }

  lemma {:induction false} StepKeeps(s: Store, excused: set<string>, step: Step)
    requires ConsistentBut(s, excused)
    ensures ConsistentBut(Next(s, step), excused + HandFails(s, step))
  {
    assert excused + {} == excused;
    if Attempt(s, step).Ok? {
      match step
      case StepFailAudit(auditId, error, now) => FailAuditExcuses(s, excused, auditId, error, now);
      case _ => OtherStepKeeps(s, excused, step);
    }
  }

  lemma OtherStepKeeps(s: Store, excused: set<string>, step: Step)
    requires ConsistentBut(s, excused) && Attempt(s, step).Ok? && !step.StepFailAudit?
    ensures ConsistentBut(Attempt(s, step).value, excused)
  {
    match step {
      case StepCreateAudit(auditId) => CreateAuditKeeps(s, excused, auditId);
      case StepRecover(now) => RecoverKeeps(s, excused, now);
      case StepDeleteAudit(auditId) => DeleteAuditKeeps(s, excused, auditId);
      case StepClaim(_, _) => JobStepKeeps(s, excused, step);
      case StepFinish(_, _, _, _) => JobStepKeeps(s, excused, step);
      case StepRequestCancel(_, _) => JobStepKeeps(s, excused, step);
      case _ => AddingStepKeeps(s, excused, step);
    }
  }

  lemma JobStepKeeps(s: Store, excused: set<string>, step: Step)
    requires ConsistentBut(s, excused) && Attempt(s, step).Ok? && (step.StepClaim? || step.StepFinish? || step.StepRequestCancel?)
    ensures ConsistentBut(Attempt(s, step).value, excused)
  {
    match step {
      case StepClaim(jobId, now) => ClaimKeeps(s, excused, jobId, now);
      case StepFinish(jobId, outcome, summary, now) => FinishKeeps(s, excused, jobId, outcome, summary, now);
      case StepRequestCancel(jobId, now) => RequestCancelKeeps(s, excused, jobId, now);
    }
  }

  lemma {:induction false} AddingStepKeeps(s: Store, excused: set<string>, step: Step)
    requires ConsistentBut(s, excused) && Attempt(s, step).Ok? && (step.StepCreateJob? || step.StepRetry? || step.StepAnalyse?)
    ensures ConsistentBut(Attempt(s, step).value, excused)
  {
    match step {
      case StepCreateJob(jobId, auditId, kind, spec) => CreateJobKeeps(s, excused, jobId, auditId, kind, spec);
      case StepRetry(jobId, newId, actor, now) => RetryKeeps(s, excused, jobId, newId, actor, now);
      case StepAnalyse(newId, auditId, captureId, pcapId, present, version) =>
        AnalyseKeeps(s, excused, newId, auditId, captureId, pcapId, present, version);
    }
  }

  /** After every run each job and event belongs to an existing audit, and each stored audit status is the one
      derived from its jobs, except for audits that the run failed by hand and that still have work pending. */
  lemma {:induction false} RunKeeps(steps: seq<Step>)
    ensures ConsistentBut(Run(steps), HandFailed(steps))
  {
    if steps != [] {
      var front := steps[..|steps| - 1];
      RunKeeps(front);
      StepKeeps(Run(front), HandFailed(front), steps[|steps| - 1]);
    }
  }

  /** After every run: claiming a queued job is never refused; ending a job and recovery are refused exactly in the
      stated cases. */
  lemma {:induction false} WorkerRefusedIff(steps: seq<Step>, jobId: string, outcome: JobStatus, summary: map<string, Option<string>>, now: int)
    requires outcome in {Completed, Failed, Cancelled}
    ensures var s := Run(steps);
            && (Recover(s, now).Ok? <==> forall a :: a in s.audits ==> !BlocksRecovery(s, a))
            && (jobId in s.jobs ==>
                  && s.jobs[jobId].auditId in s.audits
                  && (RequestCancel(s, jobId, now).Ok? <==> (s.jobs[jobId].status == Queued ==> MayEnd(s, jobId, Cancelled)))
                  && (s.jobs[jobId].status == Queued ==> Claim(s, jobId, now).Ok?)
                  && (JobMayBecome(s.jobs[jobId].status, outcome) ==> (Finish(s, jobId, outcome, summary, now).Ok? <==> MayEnd(s, jobId, outcome))))
  {
    var s, excused := Run(steps), HandFailed(steps);
    RunKeeps(steps);
    RecoverKeeps(s, excused, now);
    if jobId in s.jobs {
      RequestCancelKeeps(s, excused, jobId, now);
      if s.jobs[jobId].status == Queued { ClaimKeeps(s, excused, jobId, now); }
      if JobMayBecome(s.jobs[jobId].status, outcome) { FinishKeeps(s, excused, jobId, outcome, summary, now); }
    }
  }

  /** So only jobs of audits that the run failed by hand can be refused their end. */
  lemma {:induction false} JobNeverStuck(steps: seq<Step>, jobId: string, outcome: JobStatus, summary: map<string, Option<string>>, now: int)
    requires outcome in {Completed, Failed, Cancelled}
    requires jobId in Run(steps).jobs && Run(steps).jobs[jobId].auditId !in HandFailed(steps)
    ensures RequestCancel(Run(steps), jobId, now).Ok?
    ensures JobMayBecome(Run(steps).jobs[jobId].status, outcome) ==> Finish(Run(steps), jobId, outcome, summary, now).Ok?
  {
    var s, excused := Run(steps), HandFailed(steps);
    RunKeeps(steps);
    if Pending(s.jobs[jobId].status) {
      PendingMayEnd(s, excused, jobId, Cancelled);
      PendingMayEnd(s, excused, jobId, outcome);
    }
    RequestCancelKeeps(s, excused, jobId, now);
    if JobMayBecome(s.jobs[jobId].status, outcome) { FinishKeeps(s, excused, jobId, outcome, summary, now); }
  }

  /** And recovery is refused only if the run failed an audit by hand that had a job. */
  lemma {:induction false} RecoveryNeverRefused(steps: seq<Step>, now: int)
    requires HandFailed(steps) == {}
    ensures Recover(Run(steps), now).Ok?
  {
    var s := Run(steps);
    RunKeeps(steps);
    RecoverKeeps(s, {}, now);
    forall a | a in s.audits ensures !BlocksRecovery(s, a) { MatchingDoesNotBlock(s, a); }
  }

  lemma MatchingDoesNotBlock(s: Store, a: string)
    requires a in s.audits && StatusMatches(s.audits[a].status, Statuses(s.jobs, a))
    ensures !BlocksRecovery(s, a)
  {
  }

  lemma PendingMayEnd(s: Store, excused: set<string>, jobId: string, outcome: JobStatus)
    requires ConsistentBut(s, excused) && jobId in s.jobs && s.jobs[jobId].auditId !in excused && Pending(s.jobs[jobId].status)
    ensures MayEnd(s, jobId, outcome)
  {
    assert s.jobs[jobId].status in Statuses(s.jobs, s.jobs[jobId].auditId);
  }

  lemma RunSnoc(steps: seq<Step>, step: Step)
    ensures Run(steps + [step]) == Next(Run(steps), step)
  {
    assert (steps + [step])[..|steps|] == steps;
  }

  lemma SingleJob(jobId: string, job: Job)
    ensures Statuses(map[jobId := job], job.auditId) == {job.status}
  {
    var jobs := map[jobId := job];
    assert jobId in jobs && jobs[jobId].status in Statuses(jobs, job.auditId);
  }

  /** A run that gets stuck: an audit is created, a job queued, the audit failed by hand, the job claimed. */
  function StuckRun(a: string, j: string, kind: string, spec: JobSpec, error: string, now: int): seq<Step> {
    [StepCreateAudit(a)] + [StepCreateJob(j, a, kind, spec)] + [StepFailAudit(a, error, now)] + [StepClaim(j, now)]
  }

  lemma StuckRunEnds(a: string, j: string, kind: string, spec: JobSpec, error: string, now: int)
    ensures var s := Run(StuckRun(a, j, kind, spec, error, now));
            j in s.jobs && s.jobs == map[j := s.jobs[j]] && s.jobs[j].auditId == a && s.jobs[j].status == Running
            && a in s.audits && s.audits[a].status == AuditFailed
  {
    var first := [StepCreateAudit(a)];
    var second := first + [StepCreateJob(j, a, kind, spec)];
    var third := second + [StepFailAudit(a, error, now)];
    RunSnoc([], StepCreateAudit(a));
    assert [] + [StepCreateAudit(a)] == first;
    RunSnoc(first, StepCreateJob(j, a, kind, spec));
    RunSnoc(second, StepFailAudit(a, error, now));
    RunSnoc(third, StepClaim(j, now));
  }

  /** After it recovery is refused, and so is every end of the job but a failure. */
  lemma StuckRunBlocks(a: string, j: string, kind: string, spec: JobSpec, error: string, now: int, outcome: JobStatus, later: int)
    requires outcome in {Completed, Failed, Cancelled}
    ensures var s := Run(StuckRun(a, j, kind, spec, error, now));
            && Recover(s, later) == Err(InvalidTransition)
            && (Finish(s, j, outcome, map[], later).Ok? <==> outcome == Failed)
  {
    var s := Run(StuckRun(a, j, kind, spec, error, now));
    StuckRunEnds(a, j, kind, spec, error, now);
    SingleJob(j, s.jobs[j]);
    assert BlocksRecovery(s, a) && !Held(s, j);
    WorkerRefusedIff(StuckRun(a, j, kind, spec, error, now), j, outcome, map[], later);
  }

  /** Every status matches or its audit was failed by hand with work pending: what all steps keep. */
  ghost predicate Tolerable(s: Store) {
    ConsistentBut(s, s.audits.Keys)
  }

  lemma {:induction false} TolerableKept(s: Store, step: Step)
    requires Tolerable(s)
    ensures Tolerable(Next(s, step))
  {
    StepKeeps(s, s.audits.Keys, step);
  }

  // ----- two steps compared

  /** The job that a step adds, if any. */
  function Added(step: Step): Option<string> {
    match step
    case StepCreateJob(jobId, _, _, _) => Some(jobId)
    case StepRetry(_, newId, _, _) => Some(newId)
    case StepAnalyse(newId, _, _, _, _, _) => Some(newId)
    case _ => None
  }

  /** A finished job never changes again; it can only disappear, with its audit. */
  ghost predicate FinishedFrozen(s: Store, step: Step) {
    forall j :: j in s.jobs && !Pending(s.jobs[j].status) ==>
      var after := Next(s, step);
      if j in after.jobs then after.jobs[j] == s.jobs[j] else step == StepDeleteAudit(s.jobs[j].auditId)
  }

  lemma FinishedNeverChange(s: Store, step: Step)
    ensures FinishedFrozen(s, step)
  {
  }

  /** A queued or running job was queued or running before, as the same work, unless the step added it. */
  lemma PendingOrigin(s: Store, step: Step, j: string)
    requires j in Next(s, step).jobs && Pending(Next(s, step).jobs[j].status) && Added(step) != Some(j)
    ensures j in s.jobs && Pending(s.jobs[j].status)
    ensures s.jobs[j].auditId == Next(s, step).jobs[j].auditId && s.jobs[j].kind == Next(s, step).jobs[j].kind
  {
  }

  /** At most one queued or running job per audit and type. */
  ghost predicate OnePending(jobs: map<string, Job>) {
    forall j, k | j in jobs && k in jobs && Pending(jobs[j].status) && Pending(jobs[k].status) ::
      jobs[j].auditId == jobs[k].auditId && jobs[j].kind == jobs[k].kind ==> j == k
  }

  /** No step but a plain job creation can break it, and that one only when an equivalent job is pending. */
  lemma OnePendingKept(s: Store, step: Step)
    requires OnePending(s.jobs)
    requires step.StepCreateJob? ==> !HasPendingOfKind(s.jobs, step.auditId, step.kind)
    ensures OnePending(Next(s, step).jobs)
  {
    var after := Next(s, step).jobs;
    forall j, k | j in after && k in after && Pending(after[j].status) && Pending(after[k].status)
      && after[j].auditId == after[k].auditId && after[j].kind == after[k].kind
      ensures j == k
    {
      if Added(step) != Some(j) { PendingOrigin(s, step, j); }
      if Added(step) != Some(k) { PendingOrigin(s, step, k); }
    }
  }
}
