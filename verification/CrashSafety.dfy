/** Interleavings of database transactions with the file operations that surround them, with crashes. */
module CrashSafety {
  import opened Evidence
  import opened Jobs
  import opened Lists
  import opened Outcomes

  /** A file that has been written for an audit and whose row is not registered yet. */
  datatype Written = Written(auditId: string, path: Path)

  /** The durable state, what running requests still intend to do, which files retention cleanup has removed ahead
      of their rows, and which names have ever been used. */
  datatype Site = Site(
    vault: Vault, treesToRemove: set<string>, filesToRemove: set<Path>, filesToClean: set<Path>, written: set<Written>,
    cleaned: set<Path>, usedAudits: set<string>, usedPaths: set<Path>)

  datatype Step =
    | Transaction(step: Jobs.Step)                             // any job-service, worker, retry or analysis transaction
    | WriteFile(auditId: string, path: Path)
    | Register(artifact: Artifact)
    | CommitAuditDeletion(auditId: string)
    | RemoveSome(auditId: string, removed: set<Path>)          // part of removing a deleted audit's tree
    | CommitPcapDeletion(jobId: string, actor: Option<string>, stamp: string)
    | CommitReportDeletion(auditId: string, ids: set<string>)  // the artifact rows of a deleted report
    | Unlink(path: Path)
    | CollectCandidates(rows: set<Artifact>)                   // retention cleanup: which rows are due,
    | CleanFile(path: Path)                                    // then their files one by one,
    | CommitCleanup(ids: set<string>)                          // then the rows
    | Crash                                                    // requests in flight are lost

  /** Identifiers are fresh, and files are written in the directory of an audit. */
  ghost predicate Enabled(root: Path, s: Site, step: Step) {
    match step
    case Transaction(t) =>
      !t.StepDeleteAudit? && (t.StepCreateAudit? ==> t.auditId !in s.usedAudits)
    case WriteFile(auditId, path) =>
      auditId in s.usedAudits && path !in s.usedPaths && Inside(AuditDirectory(root, auditId), path)
    case Register(a) =>
      && a.auditId in s.vault.store.audits
      && (a.jobId.Some? ==> a.jobId.value in s.vault.store.jobs && s.vault.store.jobs[a.jobId.value].auditId == a.auditId)
      && Written(a.auditId, PathOf(root, a)) in s.written
    case CommitAuditDeletion(auditId) => DeleteAuditRows(s.vault, auditId).Ok?
    case RemoveSome(auditId, removed) =>
      auditId in s.treesToRemove && forall p :: p in removed ==> Inside(AuditDirectory(root, auditId), p)
    case CommitPcapDeletion(jobId, actor, stamp) => DeletePcap(s.vault, root, jobId, actor, stamp).Ok?
    case Unlink(path) => path in s.filesToRemove
    case CollectCandidates(rows) => forall a :: a in rows ==> a in s.vault.artifacts
    case CleanFile(path) => path in s.filesToClean
    case _ => true
  }

  ghost function Next(root: Path, s: Site, step: Step): Site
    requires Enabled(root, s, step)
  {
    match step
    case Transaction(t) =>
      s.(vault := s.vault.(store := Jobs.Next(s.vault.store, t)),
         usedAudits := if t.StepCreateAudit? then s.usedAudits + {t.auditId} else s.usedAudits)
    case WriteFile(auditId, path) =>
      s.(vault := s.vault.(files := s.vault.files + {path}), written := s.written + {Written(auditId, path)},
         usedPaths := s.usedPaths + {path})
    case Register(a) =>
      s.(vault := s.vault.(artifacts := s.vault.artifacts + [a]), written := s.written - {Written(a.auditId, PathOf(root, a))})
    case CommitAuditDeletion(auditId) =>
      s.(vault := DeleteAuditRows(s.vault, auditId).value, treesToRemove := s.treesToRemove + {auditId})
    case RemoveSome(_, removed) => s.(vault := s.vault.(files := s.vault.files - removed))
    case CommitPcapDeletion(jobId, actor, stamp) =>
      var rows := PcapRows(s.vault.artifacts, s.vault.store.jobs[jobId].auditId, jobId);
      s.(vault := DeletePcap(s.vault, root, jobId, actor, stamp).value, filesToRemove := s.filesToRemove + PathsOf(root, rows))
    case Unlink(path) => s.(vault := s.vault.(files := s.vault.files - {path}))
    case CommitReportDeletion(auditId, ids) =>
      var rows := Filter(s.vault.artifacts, (a: Artifact) => a.auditId == auditId && a.id in ids);
      s.(vault := s.vault.(artifacts := Filter(s.vault.artifacts, (a: Artifact) => !(a.auditId == auditId && a.id in ids))),
         filesToRemove := s.filesToRemove + PathsOf(root, rows))
    case CollectCandidates(rows) => s.(filesToClean := s.filesToClean + set a | a in rows :: PathOf(root, a))
    case CleanFile(path) => s.(vault := s.vault.(files := s.vault.files - {path}), cleaned := s.cleaned + {path})
    case CommitCleanup(ids) => s.(vault := s.vault.(artifacts := Filter(s.vault.artifacts, (a: Artifact) => a.id !in ids)))
    case Crash => s.(treesToRemove := {}, filesToRemove := {}, filesToClean := {}, written := {})
  }

  // ----- what holds at every point

  /** The row belongs to an existing audit and job, and its file is present in the audit's directory. */
  ghost predicate RowBacked(root: Path, v: Vault, a: Artifact) {
    && a.auditId in v.store.audits
    && (a.jobId.Some? ==> a.jobId.value in v.store.jobs && v.store.jobs[a.jobId.value].auditId == a.auditId)
    && PathOf(root, a) in v.files
    && Inside(AuditDirectory(root, a.auditId), PathOf(root, a))
  }

  ghost predicate Backed(root: Path, v: Vault) {
    forall a :: a in v.artifacts ==> RowBacked(root, v, a)
  }

  ghost predicate DistinctPaths(root: Path, rows: seq<Artifact>) {
    forall i, j :: 0 <= i < j < |rows| ==> PathOf(root, rows[i]) != PathOf(root, rows[j])
  }

  /** The vault with the files that cleanup has taken put back. */
  function Restored(s: Site): Vault {
    s.vault.(files := s.vault.files + s.cleaned)
  }

  /** The file operations still to come touch no registered file, other than those of cleanup. */
  ghost predicate IntentionsSafe(root: Path, s: Site) {
    && s.treesToRemove !! s.vault.store.audits.Keys
    && (forall a :: a in s.vault.artifacts ==> PathOf(root, a) !in s.filesToRemove)
    && s.filesToRemove <= s.usedPaths && s.filesToClean <= s.usedPaths && PathsOf(root, s.vault.artifacts) <= s.usedPaths
    && s.treesToRemove <= s.usedAudits && s.vault.store.audits.Keys <= s.usedAudits
  }

  ghost predicate WritesSafe(root: Path, s: Site) {
    && (forall w :: w in s.written ==>
          && w.auditId in s.usedAudits && w.path in s.usedPaths && Inside(AuditDirectory(root, w.auditId), w.path)
          && (w.auditId in s.vault.store.audits ==> w.path in s.vault.files)
          && w.path !in s.filesToRemove && w.path !in s.filesToClean)
    && (forall w, a :: w in s.written && a in s.vault.artifacts ==> w.path != PathOf(root, a))
  }

  ghost predicate Sound(root: Path, s: Site) {
    && Tolerable(s.vault.store)
    && Backed(root, Restored(s))
    && s.cleaned !! s.vault.files && s.cleaned <= s.usedPaths
    && DistinctPaths(root, s.vault.artifacts)
    && IntentionsSafe(root, s)
    && WritesSafe(root, s)
  }

  /** Directories of different audits share no file. */
  lemma DirectoriesDisjoint(root: Path, a: string, b: string, p: Path)
    requires Inside(AuditDirectory(root, a), p) && Inside(AuditDirectory(root, b), p)
    ensures a == b
  {
    assert p[|root|] == AuditDirectory(root, a)[|root|] == a;
    assert p[|root|] == AuditDirectory(root, b)[|root|] == b;
  }

  /** A transaction keeps audits, and adds at most the audit it creates. */
  lemma TransactionKeepsAudits(s: Store, t: Jobs.Step)
    requires !t.StepDeleteAudit?
    ensures s.audits.Keys <= Jobs.Next(s, t).audits.Keys
    ensures forall a :: a in Jobs.Next(s, t).audits ==> a in s.audits || (t.StepCreateAudit? && t.auditId == a)
  {
  }

  /** It keeps jobs, each with its audit. */
  lemma TransactionKeepsJobs(s: Store, t: Jobs.Step, j: string)
    requires !t.StepDeleteAudit? && j in s.jobs
    ensures j in Jobs.Next(s, t).jobs && Jobs.Next(s, t).jobs[j].auditId == s.jobs[j].auditId
  {
    if Jobs.Attempt(s, t).Ok? {
      var after := Jobs.Attempt(s, t).value.jobs;
      match t
      case StepRecover(_) => assert after == InterruptedJobs(s.jobs);
      case StepFinish(jobId, outcome, _, _) => assert after == s.jobs[jobId := Moved(s.jobs[jobId], outcome)];
      case StepRequestCancel(jobId, _) => assert after == s.jobs || after == s.jobs[jobId := after[jobId]];
      case _ =>
    }
  }

  lemma {:induction false} TransactionSound(root: Path, s: Site, t: Jobs.Step)
    requires Sound(root, s) && Enabled(root, s, Transaction(t))
    ensures Sound(root, Next(root, s, Transaction(t)))
  {
    TolerableKept(s.vault.store, t);
    TransactionKeepsAudits(s.vault.store, t);
    forall j | j in s.vault.store.jobs { TransactionKeepsJobs(s.vault.store, t, j); }
  }

  lemma FileStepsSound(root: Path, s: Site, step: Step)
    requires Sound(root, s) && Enabled(root, s, step) && (step.WriteFile? || step.Unlink? || step.CollectCandidates? || step.CleanFile? || step.Crash?)
    ensures Sound(root, Next(root, s, step))
  {
    var after := Next(root, s, step);
    forall a | a in after.vault.artifacts ensures RowBacked(root, Restored(after), a) {
      assert RowBacked(root, Restored(s), a);
    }
    forall a | a in s.vault.artifacts ensures PathOf(root, a) in s.usedPaths {
      assert PathOf(root, a) in PathsOf(root, s.vault.artifacts);
    }
  }

  lemma RemoveSomeSound(root: Path, s: Site, auditId: string, removed: set<Path>)
    requires Sound(root, s) && Enabled(root, s, RemoveSome(auditId, removed))
    ensures Sound(root, Next(root, s, RemoveSome(auditId, removed)))
  {
    var after := Next(root, s, RemoveSome(auditId, removed));
    forall a | a in s.vault.artifacts ensures RowBacked(root, Restored(after), a) {
      assert RowBacked(root, Restored(s), a);
      if PathOf(root, a) in removed { DirectoriesDisjoint(root, a.auditId, auditId, PathOf(root, a)); }
    }
    forall w | w in s.written && w.auditId in s.vault.store.audits ensures w.path in after.vault.files {
      if w.path in removed { DirectoriesDisjoint(root, w.auditId, auditId, w.path); }
    }
  }

  lemma RegisterSound(root: Path, s: Site, a: Artifact)
    requires Sound(root, s) && Enabled(root, s, Register(a))
    ensures Sound(root, Next(root, s, Register(a)))
  {
    var after := Next(root, s, Register(a));
    forall b | b in after.vault.artifacts ensures RowBacked(root, Restored(after), b) {
      if b in s.vault.artifacts { assert RowBacked(root, Restored(s), b); }
    }
    PathsSnoc(root, s.vault.artifacts, a);
    forall w, b | w in after.written && b in after.vault.artifacts ensures w.path != PathOf(root, b) {
      assert w in s.written;
      if b !in s.vault.artifacts {
        assert b == a;
        if w.path == PathOf(root, a) { SameWriter(root, s, w, Written(a.auditId, PathOf(root, a))); }
      }
    }
  }

  /** Two pending writes of the same path are the same write. */
  lemma SameWriter(root: Path, s: Site, w: Written, u: Written)
    requires WritesSafe(root, s) && w in s.written && u in s.written && w.path == u.path
    ensures w == u
  {
    DirectoriesDisjoint(root, w.auditId, u.auditId, w.path);
  }

  /** Dropping rows, without touching files, keeps the rest backed. */
  lemma {:induction false} FilterDistinct(root: Path, rows: seq<Artifact>, keep: Artifact -> bool)
    requires DistinctPaths(root, rows)
    ensures DistinctPaths(root, Filter(rows, keep))
  {
    if rows != [] {
      var k := |rows| - 1;
      FilterDistinct(root, rows[..k], keep);
      var kept := Filter(rows[..k], keep);
      forall i | 0 <= i < |kept| ensures PathOf(root, kept[i]) != PathOf(root, rows[k]) {
        FilterMember(rows[..k], keep, kept[i]);
        var j :| 0 <= j < k && rows[j] == kept[i];
      }
    }
  }

  lemma AuditDeletionSound(root: Path, s: Site, auditId: string)
    requires Sound(root, s) && Enabled(root, s, CommitAuditDeletion(auditId))
    ensures Sound(root, Next(root, s, CommitAuditDeletion(auditId)))
  {
    var after := Next(root, s, CommitAuditDeletion(auditId));
    DeleteAuditKeeps(s.vault.store, s.vault.store.audits.Keys, auditId);
    FilterDistinct(root, s.vault.artifacts, (a: Artifact) => a.auditId != auditId);
    forall a ensures a in after.vault.artifacts <==> a in s.vault.artifacts && a.auditId != auditId {
      FilterMember(s.vault.artifacts, (a: Artifact) => a.auditId != auditId, a);
    }
    forall a | a in after.vault.artifacts ensures RowBacked(root, Restored(after), a) {
      assert RowBacked(root, Restored(s), a);
    }
  }

  /** Dropping rows, and intending to remove files of dropped rows only, keeps everything sound. */
  lemma DroppingSound(root: Path, s: Site, keep: Artifact -> bool, gone: seq<Artifact>)
    requires Sound(root, s) && forall a :: a in gone ==> a in s.vault.artifacts && !keep(a)
    ensures Sound(root, s.(vault := s.vault.(artifacts := Filter(s.vault.artifacts, keep)), filesToRemove := s.filesToRemove + PathsOf(root, gone)))
  {
    var after := s.(vault := s.vault.(artifacts := Filter(s.vault.artifacts, keep)), filesToRemove := s.filesToRemove + PathsOf(root, gone));
    FilterDistinct(root, s.vault.artifacts, keep);
    forall a ensures a in after.vault.artifacts <==> a in s.vault.artifacts && keep(a) {
      FilterMember(s.vault.artifacts, keep, a);
    }
    forall a | a in after.vault.artifacts
      ensures RowBacked(root, Restored(after), a) && PathOf(root, a) !in after.filesToRemove
    {
      assert RowBacked(root, Restored(s), a);
      forall b | b in gone ensures PathOf(root, b) != PathOf(root, a) {
        PathsTellRows(root, s.vault.artifacts, a, b);
      }
    }
    forall a | a in gone ensures PathOf(root, a) in s.usedPaths {
      assert PathOf(root, a) in PathsOf(root, s.vault.artifacts);
    }
  }

  lemma PcapDeletionSound(root: Path, s: Site, jobId: string, actor: Option<string>, stamp: string)
    requires Sound(root, s) && Enabled(root, s, CommitPcapDeletion(jobId, actor, stamp))
    ensures Sound(root, Next(root, s, CommitPcapDeletion(jobId, actor, stamp)))
  {
    var after := Next(root, s, CommitPcapDeletion(jobId, actor, stamp));
    var auditId := s.vault.store.jobs[jobId].auditId;
    var gone := PcapRows(s.vault.artifacts, auditId, jobId);
    var noted := s.(vault := s.vault.(store := after.vault.store));
    forall a | a in noted.vault.artifacts ensures RowBacked(root, Restored(noted), a) {
      assert RowBacked(root, Restored(s), a);
    }
    forall a ensures a in gone <==> a in s.vault.artifacts && IsPcapOf(a, auditId, jobId) {
      FilterMember(s.vault.artifacts, (a: Artifact) => IsPcapOf(a, auditId, jobId), a);
    }
    DroppingSound(root, noted, (a: Artifact) => !IsPcapOf(a, auditId, jobId), gone);
  }

  lemma ReportDeletionSound(root: Path, s: Site, auditId: string, ids: set<string>)
    requires Sound(root, s)
    ensures Sound(root, Next(root, s, CommitReportDeletion(auditId, ids)))
  {
    var gone := Filter(s.vault.artifacts, (a: Artifact) => a.auditId == auditId && a.id in ids);
    forall a ensures a in gone <==> a in s.vault.artifacts && a.auditId == auditId && a.id in ids {
      FilterMember(s.vault.artifacts, (a: Artifact) => a.auditId == auditId && a.id in ids, a);
    }
    DroppingSound(root, s, (a: Artifact) => !(a.auditId == auditId && a.id in ids), gone);
  }

  lemma CleanupCommitSound(root: Path, s: Site, ids: set<string>)
    requires Sound(root, s)
    ensures Sound(root, Next(root, s, CommitCleanup(ids)))
  {
    DroppingSound(root, s, (a: Artifact) => a.id !in ids, []);
    assert PathsOf(root, []) == {};
    assert s.filesToRemove + {} == s.filesToRemove;
  }

  lemma PathsTellRows(root: Path, rows: seq<Artifact>, a: Artifact, b: Artifact)
    requires DistinctPaths(root, rows) && a in rows && b in rows && a != b
    ensures PathOf(root, a) != PathOf(root, b)
  {
    var i :| 0 <= i < |rows| && rows[i] == a;
    var j :| 0 <= j < |rows| && rows[j] == b;
  }

  lemma {:induction false} StepSound(root: Path, s: Site, step: Step)
    requires Sound(root, s) && Enabled(root, s, step)
    ensures Sound(root, Next(root, s, step))
  {
    match step
    case Transaction(t) => TransactionSound(root, s, t);
    case Register(a) => RegisterSound(root, s, a);
    case CommitAuditDeletion(auditId) => AuditDeletionSound(root, s, auditId);
    case RemoveSome(auditId, removed) => RemoveSomeSound(root, s, auditId, removed);
    case CommitPcapDeletion(jobId, actor, stamp) => PcapDeletionSound(root, s, jobId, actor, stamp);
    case CommitReportDeletion(auditId, ids) => ReportDeletionSound(root, s, auditId, ids);
    case CommitCleanup(ids) => CleanupCommitSound(root, s, ids);
    case _ => FileStepsSound(root, s, step);
  }

  // ----- whole runs

  const EMPTY := Site(Vault(Store(map[], map[], []), [], {}), {}, {}, {}, {}, {}, {}, {})

  /** Steps that are not possible at their turn do not happen. */
  ghost function Run(root: Path, steps: seq<Step>): Site {
    if steps == [] then EMPTY
    else
      var before, step := Run(root, steps[..|steps| - 1]), steps[|steps| - 1];
      if Enabled(root, before, step) then Next(root, before, step) else before
  }

  lemma {:induction false} RunSound(root: Path, steps: seq<Step>)
    ensures Sound(root, Run(root, steps))
  {
    if steps != [] {
      var before, step := Run(root, steps[..|steps| - 1]), steps[|steps| - 1];
      RunSound(root, steps[..|steps| - 1]);
      if Enabled(root, before, step) { StepSound(root, before, step); }
    }
  }

  /** At every point of every interleaving of these steps, crashes included: each job and artifact belongs to an
      existing audit, and the file of an artifact row is there exactly when retention cleanup has not removed it. */
  lemma EveryRowHasItsFile(root: Path, steps: seq<Step>, a: Artifact)
    ensures var s := Run(root, steps);
            && References(s.vault.store)
            && (a in s.vault.artifacts ==>
                  && a.auditId in s.vault.store.audits
                  && (PathOf(root, a) in s.vault.files <==> PathOf(root, a) !in s.cleaned))
  {
    RunSound(root, steps);
    var s := Run(root, steps);
    if a in s.vault.artifacts { assert RowBacked(root, Restored(s), a); }
  }

  lemma RunSnoc(root: Path, steps: seq<Step>, step: Step)
    ensures Run(root, steps + [step])
         == if Enabled(root, Run(root, steps), step) then Next(root, Run(root, steps), step) else Run(root, steps)
  {
    assert (steps + [step])[..|steps|] == steps;
  }

  /** The steps of a cleanup that removes one file and then gets no further. */
  function AbortedCleanup(root: Path, steps: seq<Step>, rows: set<Artifact>, a: Artifact): seq<Step> {
    steps + [CollectCandidates(rows)] + [CleanFile(PathOf(root, a))] + [Crash]
  }

  /** After any run, a cleanup that takes a row and is cut off leaves the row without its file. */
  lemma AbortedCleanupLosesFile(root: Path, steps: seq<Step>, rows: set<Artifact>, a: Artifact)
    requires a in rows && forall b :: b in rows ==> b in Run(root, steps).vault.artifacts
    ensures var s := Run(root, AbortedCleanup(root, steps, rows, a));
            s.vault.artifacts == Run(root, steps).vault.artifacts && PathOf(root, a) !in s.vault.files
  {
    var collected := steps + [CollectCandidates(rows)];
    var cleaned := collected + [CleanFile(PathOf(root, a))];
    RunSnoc(root, steps, CollectCandidates(rows));
    RunSnoc(root, collected, CleanFile(PathOf(root, a)));
    RunSnoc(root, cleaned, Crash);
  }

  /** Without cleanup every row has its file. */
  lemma {:induction false} OnlyCleanupLosesFiles(root: Path, steps: seq<Step>)
    requires forall i :: 0 <= i < |steps| ==> !steps[i].CleanFile?
    ensures Run(root, steps).cleaned == {} && Backed(root, Run(root, steps).vault)
  {
    RunSound(root, steps);
    if steps != [] { OnlyCleanupLosesFiles(root, steps[..|steps| - 1]); }
    assert Restored(Run(root, steps)) == Run(root, steps).vault;
  }

  /** No deletion that happens in a run removes an audit with queued or running work, and no idle audit is kept. */
  lemma DeletionsSpareWork(root: Path, steps: seq<Step>, auditId: string)
    requires auditId in Run(root, steps).vault.store.audits
    ensures Enabled(root, Run(root, steps), CommitAuditDeletion(auditId)) <==> !HasPending(Run(root, steps).vault.store.jobs, auditId)
  {
    RunSound(root, steps);
    var store := Run(root, steps).vault.store;
    DeletableIffIdle(store, store.audits.Keys, auditId);
  }
}
