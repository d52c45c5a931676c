/** When the operations on audits and jobs are accepted, and what they do, stated over the rows. */
module JobRows {
  import opened AuditStatuses
  import opened Jobs
  import opened Outcomes

  // ----- when an operation is accepted, and what it does to the rows

  /** No row but the named job's has changed, and no audit has come or gone. */
  ghost predicate OnlyJob(s: Store, after: Store, jobId: string) {
    && after.jobs.Keys == s.jobs.Keys && after.audits.Keys == s.audits.Keys
    && (forall j :: j in s.jobs && j != jobId ==> after.jobs[j] == s.jobs[j])
    && (forall a :: a in s.audits && jobId in s.jobs && a != s.jobs[jobId].auditId ==> after.audits[a] == s.audits[a])
  }

  lemma {:induction false} CreateAuditRows(s: Store, auditId: string)
    ensures CreateAudit(s, auditId).Ok? <==> auditId !in s.audits
    ensures CreateAudit(s, auditId).Ok? ==>
              var after := CreateAudit(s, auditId).value;
              after.audits.Keys == s.audits.Keys + {auditId} && after.audits[auditId].status == AuditCreated
              && after.audits[auditId].summary == map[] && after.jobs == s.jobs && after.events == s.events
  {
  }

  lemma {:induction false} FailAuditRows(s: Store, auditId: string, error: string, now: int)
    ensures FailAudit(s, auditId, error, now).Ok? <==>
              auditId in s.audits && (s.audits[auditId].status == AuditCreated || s.audits[auditId].status == AuditRunning)
    ensures FailAudit(s, auditId, error, now).Ok? ==>
              var after := FailAudit(s, auditId, error, now).value;
              && after.audits[auditId].status == AuditFailed && after.audits[auditId].error == Some(error)
              && after.jobs == s.jobs && after.events == s.events && after.audits - {auditId} == s.audits - {auditId}
  {
  }

  /** A new job is queued, reopening a completed audit; failed, cancelled and interrupted audits accept none. */
  lemma {:induction false} CreateJobRows(s: Store, jobId: string, auditId: string, kind: string, spec: JobSpec)
    ensures CreateJob(s, jobId, auditId, kind, spec).Ok? <==>
              && jobId !in s.jobs && auditId in s.audits && s.audits[auditId].status != AuditFailed
              && s.audits[auditId].status != AuditCancelled && s.audits[auditId].status != AuditInterrupted
    ensures CreateJob(s, jobId, auditId, kind, spec).Ok? ==>
              var after := CreateJob(s, jobId, auditId, kind, spec).value;
              && after.jobs.Keys == s.jobs.Keys + {jobId} && after.jobs - {jobId} == s.jobs
              && after.jobs[jobId].auditId == auditId && after.jobs[jobId].kind == kind && after.jobs[jobId].spec == spec
              && after.jobs[jobId].status == Queued && after.jobs[jobId].attempt == 0 && !after.jobs[jobId].cancelRequested
              && after.jobs[jobId].stage == "queued" && after.jobs[jobId].message == "Job queued" && after.jobs[jobId].progress == 0
              && after.events == s.events + [JobEvent(auditId, jobId, "job_queued", None, None)]
              && after.audits - {auditId} == s.audits - {auditId}
              && (after.audits[auditId].status == if s.audits[auditId].status == AuditCompleted then AuditRunning else s.audits[auditId].status)
  {
  }

  /** Claiming takes queued jobs only; a created or completed audit starts running, a failed one stays so. */
  lemma {:induction false} ClaimRows(s: Store, jobId: string, now: int)
    requires References(s)
    ensures Claim(s, jobId, now).Ok? <==> jobId in s.jobs && s.jobs[jobId].status == Queued
    ensures Claim(s, jobId, now).Ok? ==>
              var after, job := Claim(s, jobId, now).value, s.jobs[jobId];
              && OnlyJob(s, after, jobId)
              && after.jobs[jobId].status == Running && after.jobs[jobId].attempt == job.attempt + 1
              && after.jobs[jobId].stage == "starting" && after.jobs[jobId].progress == (if job.progress > 1 then job.progress else 1)
              && after.jobs[jobId].spec == job.spec && after.jobs[jobId].auditId == job.auditId && after.jobs[jobId].kind == job.kind
              && (after.audits[job.auditId].status == match s.audits[job.auditId].status
                                                      case AuditCreated => AuditRunning
                                                      case AuditCompleted => AuditRunning
                                                      case other => other)
              && after.events == s.events + [JobEvent(job.auditId, jobId, "job_running", None, None)]
  {
    EventKinds();
  }

  lemma {:induction false} EventKinds()
    ensures "job_" + NameOf(Running) == "job_running" && "job_" + NameOf(Completed) == "job_completed"
    ensures "job_" + NameOf(Failed) == "job_failed" && "job_" + NameOf(Cancelled) == "job_cancelled"
  {
  }

  /** Completing and failing end running jobs only, cancelling also queued ones, and the job ends with that outcome. */
  lemma {:induction false} FinishRows(s: Store, jobId: string, outcome: JobStatus, summary: map<string, Option<string>>, now: int)
    requires Finish(s, jobId, outcome, summary, now).Ok?
    ensures var after, job := Finish(s, jobId, outcome, summary, now).value, s.jobs[jobId];
            && OnlyJob(s, after, jobId)
            && (outcome == Completed || outcome == Failed || outcome == Cancelled)
            && (job.status == Running || (job.status == Queued && outcome == Cancelled))
            && after.jobs[jobId].status == outcome && after.jobs[jobId].spec == job.spec && after.jobs[jobId].attempt == job.attempt
            && after.jobs[jobId].progress == (if outcome == Completed then 100 else job.progress)
            && after.jobs[jobId].stage == EndName(outcome)
  {
  }

  /** The name of an outcome, in the stage of the job and in the event. */
  function EndName(outcome: JobStatus): string {
    if outcome == Completed then "completed" else if outcome == Failed then "failed" else "cancelled"
  }

  /** The end is recorded by one event, and only a failure leaves the summary of the audit as it was. */
  lemma {:induction false} FinishTraces(s: Store, jobId: string, outcome: JobStatus, summary: map<string, Option<string>>, now: int)
    requires Finish(s, jobId, outcome, summary, now).Ok?
    ensures var after, job := Finish(s, jobId, outcome, summary, now).value, s.jobs[jobId];
            && after.audits[job.auditId].summary ==
                 (if outcome == Failed then s.audits[job.auditId].summary else s.audits[job.auditId].summary + summary)
            && after.events == s.events + [JobEvent(job.auditId, jobId, "job_" + EndName(outcome), None, None)]
  {
  }

  /** Which jobs a worker may end so: the other half of the acceptance, beside `MayEnd`. */
  lemma {:induction false} FinishAccepts(s: Store, excused: set<string>, jobId: string, outcome: JobStatus, summary: map<string, Option<string>>, now: int)
    requires ConsistentBut(s, excused)
    ensures Finish(s, jobId, outcome, summary, now).Ok? <==>
              && jobId in s.jobs
              && ((s.jobs[jobId].status == Running && (outcome == Completed || outcome == Failed || outcome == Cancelled))
                  || (s.jobs[jobId].status == Queued && outcome == Cancelled))
              && MayEnd(s, jobId, outcome)
  {
    if jobId in s.jobs && JobMayBecome(s.jobs[jobId].status, outcome) && outcome in {Completed, Failed, Cancelled} {
      FinishKeeps(s, excused, jobId, outcome, summary, now);
    }
  }

  /** Cancelling ends a queued job, asks a running one to stop, and leaves an ended one alone. */
  lemma {:induction false} RequestCancelRows(s: Store, jobId: string, now: int)
    requires RequestCancel(s, jobId, now).Ok?
    ensures var after := RequestCancel(s, jobId, now).value;
            && jobId in s.jobs && OnlyJob(s, after, jobId)
            && (after.jobs[jobId].status == if s.jobs[jobId].status == Queued then Cancelled else s.jobs[jobId].status)
            && (s.jobs[jobId].status == Queued ==>
                  after.events == s.events + [JobEvent(s.jobs[jobId].auditId, jobId, "job_cancelled", None, None)])
            && (s.jobs[jobId].status == Running ==> after.jobs[jobId].cancelRequested && after.audits == s.audits)
            && (s.jobs[jobId].status == Running && !s.jobs[jobId].cancelRequested ==>
                  after.events == s.events + [JobEvent(s.jobs[jobId].auditId, jobId, "cancellation_requested", None, None)])
            && (s.jobs[jobId].status == Running && s.jobs[jobId].cancelRequested ==> after == s)
            && (s.jobs[jobId].status != Queued && s.jobs[jobId].status != Running ==> after == s)
  {
    EventKinds();
  }

  /** Recovery interrupts the running jobs, and touches only their audits. */
  lemma {:induction false} RecoverRows(s: Store, now: int)
    requires Recover(s, now).Ok?
    ensures var after := Recover(s, now).value;
            && after.jobs.Keys == s.jobs.Keys && after.audits.Keys == s.audits.Keys
            && (forall j :: j in s.jobs ==>
                  if s.jobs[j].status == Running then after.jobs[j] == s.jobs[j].(status := Interrupted, stage := "interrupted")
                  else after.jobs[j] == s.jobs[j])
            && (forall a :: a in s.audits && !HasJob(s, a, Running) ==> after.audits[a] == s.audits[a])
  {
    forall a { StatusesMean(s, a); }
  }

  /** It records one event for each of them. */
  lemma {:induction false} RecoverEvents(s: Store, now: int, j: string)
    requires Recover(s, now).Ok? && j in s.jobs && s.jobs[j].status == Running
    ensures s.events <= Recover(s, now).value.events
    ensures JobEvent(s.jobs[j].auditId, j, "job_interrupted", None, None) in Recover(s, now).value.events[|s.events|..]
  {
    var ids := set i | i in s.jobs && s.jobs[i].status == Running;
    var news := Interruptions(s.jobs, ids);
    assert JobEvent(s.jobs[j].auditId, j, "job_interrupted", None, None) in news;
    assert Recover(s, now).value.events == s.events + news;
    assert (s.events + news)[|s.events|..] == news;
  }

  /** Besides the conditions of `RetryAllowedIff` in its own words: which statuses and which types. */
  lemma {:induction false} RetryRows(s: Store, jobId: string, newId: string, actor: Option<string>, now: int)
    requires Retry(s, jobId, newId, actor, now).Ok?
    ensures var after, source := Retry(s, jobId, newId, actor, now).value, s.jobs[jobId];
            && (source.status == Failed || source.status == Interrupted || source.status == Cancelled)
            && source.kind != "snmp_topology" && source.kind != "ssh_topology"
            && (forall j :: j in s.jobs && s.jobs[j].auditId == source.auditId && s.jobs[j].kind == source.kind ==>
                  s.jobs[j].status != Queued && s.jobs[j].status != Running)
            && after.audits[source.auditId].status == AuditRunning && after.audits[source.auditId].startedAt.Some?
            && after.audits[source.auditId].summary == s.audits[source.auditId].summary
            && after.audits - {source.auditId} == s.audits - {source.auditId}
            && after.jobs[newId] ==
                 Job(source.auditId, source.kind, Queued, source.spec, 0, "queued", "Retry queued for " + jobId, false, 0)
            && (s.audits[source.auditId].status == AuditRunning ==>
                  after.audits[source.auditId].finishedAt == s.audits[source.auditId].finishedAt
                  && after.audits[source.auditId].error == s.audits[source.auditId].error)
            && (s.audits[source.auditId].status != AuditRunning ==>
                  after.audits[source.auditId].finishedAt == None && after.audits[source.auditId].error == None)
            && (s.audits[source.auditId].startedAt.Some? ==>
                  after.audits[source.auditId].startedAt == s.audits[source.auditId].startedAt)
            && after.events == s.events + [JobEvent(source.auditId, newId, "job_retried", Some(jobId), actor),
                                           JobEvent(source.auditId, jobId, "retry_scheduled", Some(newId), actor)]
  {
  }

  /** Conversely nothing else stands in the way of a retry. */
  lemma {:induction false} RetryAccepts(s: Store, jobId: string, newId: string, actor: Option<string>, now: int)
    requires References(s) && jobId in s.jobs && newId !in s.jobs
    requires s.jobs[jobId].status == Failed || s.jobs[jobId].status == Interrupted || s.jobs[jobId].status == Cancelled
    requires s.jobs[jobId].kind != "snmp_topology" && s.jobs[jobId].kind != "ssh_topology"
    requires forall j :: j in s.jobs && s.jobs[j].auditId == s.jobs[jobId].auditId && s.jobs[j].kind == s.jobs[jobId].kind ==>
               s.jobs[j].status != Queued && s.jobs[j].status != Running
    ensures Retry(s, jobId, newId, actor, now).Ok?
  {
  }

  /** A job that analyses this capture with this version: queued, running or completed. */
  ghost predicate Analyses(job: Job, auditId: string, captureId: string, pcapId: string, version: string) {
    && job.auditId == auditId && job.kind == "traffic_analysis"
    && (job.status == Queued || job.status == Running || job.status == Completed)
    && "source_capture_job_id" in job.spec.parameters && job.spec.parameters["source_capture_job_id"] == captureId
    && "pcap_artifact_id" in job.spec.parameters && job.spec.parameters["pcap_artifact_id"] == pcapId
    && "analyzer_version" in job.spec.parameters && job.spec.parameters["analyzer_version"] == version
  }

  lemma {:induction false} ReusableMeans(job: Job, auditId: string, captureId: string, pcapId: string, version: string)
    ensures Reusable(job, auditId, AnalysisParameters(captureId, pcapId, version)) <==> Analyses(job, auditId, captureId, pcapId, version)
  {
    var wanted := AnalysisParameters(captureId, pcapId, version);
    assert wanted.Keys == {"source_capture_job_id", "pcap_artifact_id", "analyzer_version"};
    assert "source_capture_job_id" in wanted && "pcap_artifact_id" in wanted && "analyzer_version" in wanted;
  }

  /** There is an analysis to reuse. */
  ghost predicate HasAnalysis(s: Store, auditId: string, captureId: string, pcapId: string, version: string) {
    exists j :: j in s.jobs && Analyses(s.jobs[j], auditId, captureId, pcapId, version)
  }

  lemma {:induction false} HasAnalysisMeans(s: Store, auditId: string, captureId: string, pcapId: string, version: string)
    ensures HasAnalysis(s, auditId, captureId, pcapId, version)
       <==> exists j | j in s.jobs :: Reusable(s.jobs[j], auditId, AnalysisParameters(captureId, pcapId, version))
    ensures HasPending(s.jobs, auditId) <==> Waiting(s, auditId)
  {
    forall job: Job { ReusableMeans(job, auditId, captureId, pcapId, version); }
  }

  /** An analysis is accepted for a capture of the audit whose packets are there, if there is one to reuse or if the
      audit has ended with nothing waiting. */
  lemma {:induction false} AnalyseRows(s: Store, newId: string, auditId: string, captureId: string, pcapId: string, pcapPresent: bool, version: string)
    requires newId !in s.jobs
    ensures Analyse(s, newId, auditId, captureId, pcapId, pcapPresent, version).Ok? <==>
              && auditId in s.audits && pcapPresent && captureId in s.jobs && s.jobs[captureId].auditId == auditId
              && s.jobs[captureId].kind == "packet_capture"
              && (HasAnalysis(s, auditId, captureId, pcapId, version)
                  || (!Waiting(s, auditId) && s.audits[auditId].status != AuditCreated && s.audits[auditId].status != AuditRunning))
  {
    HasAnalysisMeans(s, auditId, captureId, pcapId, version);
  }

  /** Reusing changes nothing; otherwise one queued analysis is added, and the audit runs again. */
  lemma {:induction false} AnalyseTraces(s: Store, newId: string, auditId: string, captureId: string, pcapId: string, pcapPresent: bool, version: string)
    requires newId !in s.jobs && Analyse(s, newId, auditId, captureId, pcapId, pcapPresent, version).Ok?
    ensures var after := Analyse(s, newId, auditId, captureId, pcapId, pcapPresent, version).value;
            if HasAnalysis(s, auditId, captureId, pcapId, version) then after == s
            else
              && after.jobs - {newId} == s.jobs && newId in after.jobs
              && Analyses(after.jobs[newId], auditId, captureId, pcapId, version) && after.jobs[newId].status == Queued
              && after.audits == s.audits[auditId := s.audits[auditId].(status := AuditRunning, finishedAt := None)]
              && after.events == s.events + [JobEvent(auditId, newId, "job_queued", None, None)]
  {
    HasAnalysisMeans(s, auditId, captureId, pcapId, version);
    var after := Analyse(s, newId, auditId, captureId, pcapId, pcapPresent, version).value;
    if !HasAnalysis(s, auditId, captureId, pcapId, version) {
      assert after.jobs - {newId} == s.jobs;
      var wanted := AnalysisParameters(captureId, pcapId, version);
      assert wanted["source_capture_job_id"] == captureId && wanted["pcap_artifact_id"] == pcapId && wanted["analyzer_version"] == version;
    }
  }

  /** The row of a new analysis: one at a time, keyed by the packets it reads. */
  lemma {:induction false} AnalysisRow(s: Store, newId: string, auditId: string, captureId: string, pcapId: string, pcapPresent: bool, version: string)
    requires newId !in s.jobs && Analyse(s, newId, auditId, captureId, pcapId, pcapPresent, version).Ok?
    requires newId in Analyse(s, newId, auditId, captureId, pcapId, pcapPresent, version).value.jobs
    ensures var job := Analyse(s, newId, auditId, captureId, pcapId, pcapPresent, version).value.jobs[newId];
            && job.progress == 0 && job.stage == "queued" && job.message == "Traffic analysis queued"
            && !job.cancelRequested && job.attempt == 0 && job.spec.priority == 0 && job.spec.target == Some(captureId)
            && |job.spec.parameters| == 3 && job.spec.resourceKey == Some("pcap-analysis:" + pcapId)
            && job.spec.resourceGroup == Some("traffic_analysis") && job.spec.resourceLimit == Some(1)
  {
  }

  /** An audit can be deleted when none of its jobs waits and it is not running; with it go its jobs and events only. */
  lemma {:induction false} DeleteAuditRows(s: Store, auditId: string)
    ensures DeleteAudit(s, auditId).Ok? <==> auditId in s.audits && !Waiting(s, auditId) && s.audits[auditId].status != AuditRunning
    ensures DeleteAudit(s, auditId).Ok? ==>
              var after := DeleteAudit(s, auditId).value;
              && after.audits == s.audits - {auditId}
              && (forall j :: j in after.jobs <==> j in s.jobs && s.jobs[j].auditId != auditId)
              && (forall j :: j in after.jobs ==> after.jobs[j] == s.jobs[j])
              && (forall e :: e in after.events <==> e in s.events && e.auditId != auditId)
  {
    assert HasPending(s.jobs, auditId) <==> Waiting(s, auditId);
  }

  // ----- why an operation is refused

  /** What does not exist is not found; what is taken is taken; everything else is the wrong moment. */
  lemma {:induction false} RefusalCodes(s: Store, jobId: string, auditId: string, kind: string, spec: JobSpec, error: string, now: int)
    requires References(s)
    ensures CreateAudit(s, auditId).Err? ==> CreateAudit(s, auditId) == Err(KeyTaken)
    ensures FailAudit(s, auditId, error, now).Err? ==>
              FailAudit(s, auditId, error, now) == Err(if auditId !in s.audits then NotFound else InvalidTransition)
    ensures CreateJob(s, jobId, auditId, kind, spec).Err? ==>
              CreateJob(s, jobId, auditId, kind, spec) ==
                Err(if jobId in s.jobs then KeyTaken else if auditId !in s.audits then NotFound else InvalidTransition)
    ensures Claim(s, jobId, now).Err? ==> Claim(s, jobId, now) == Err(if jobId !in s.jobs then NotFound else InvalidTransition)
    ensures RequestCancel(s, jobId, now).Err? ==>
              RequestCancel(s, jobId, now) == Err(if jobId !in s.jobs then NotFound else InvalidTransition)
    ensures Recover(s, now).Err? ==> Recover(s, now) == Err(InvalidTransition)
    ensures DeleteAudit(s, auditId).Err? ==> DeleteAudit(s, auditId) == Err(if auditId !in s.audits then NotFound else AuditBusy)
  {
  }

  lemma {:induction false} FinishRefusalCodes(s: Store, jobId: string, outcome: JobStatus, summary: map<string, Option<string>>, now: int)
    requires References(s) && Finish(s, jobId, outcome, summary, now).Err?
    ensures Finish(s, jobId, outcome, summary, now) == Err(if jobId !in s.jobs then NotFound else InvalidTransition)
  {
  }

  lemma {:induction false} RetryRefusalCodes(s: Store, jobId: string, newId: string, actor: Option<string>, now: int)
    requires References(s) && newId !in s.jobs && Retry(s, jobId, newId, actor, now).Err?
    ensures Retry(s, jobId, newId, actor, now) == Err(if jobId !in s.jobs then NotFound else RetryNotAllowed)
  {
  }

  lemma {:induction false} AnalyseRefusalCodes(s: Store, newId: string, auditId: string, captureId: string, pcapId: string, pcapPresent: bool, version: string)
    requires newId !in s.jobs && Analyse(s, newId, auditId, captureId, pcapId, pcapPresent, version).Err?
    ensures var known := auditId in s.audits && captureId in s.jobs && s.jobs[captureId].auditId == auditId
                         && s.jobs[captureId].kind == "packet_capture";
            Analyse(s, newId, auditId, captureId, pcapId, pcapPresent, version) ==
              Err(if !known then NotFound else if !pcapPresent then PcapUnavailable else SourceNotReady)
  {
  }

  /** A taken id refuses a new job, whatever else holds. */
  lemma {:induction false} TakenIds(s: Store, jobId: string, newId: string, actor: Option<string>, now: int)
    requires newId in s.jobs
    ensures Retry(s, jobId, newId, actor, now).Err?
  {
  }
}
