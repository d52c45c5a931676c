/** Artifact rows and the files behind them: deleting audits and deleting captured packets. */
module Evidence {
  import opened Jobs
  import opened Lists
  import opened Outcomes

  // ----- paths

  /** An absolute path as its components. */
  type Path = seq<string>

  /** The text stored in an artifact row, split at the slashes. */
  datatype Location = Relative(parts: seq<string>) | Absolute(parts: seq<string>)

  function Enter(at: Path, part: string): Path {
    if part == "" || part == "." then at
    else if part == ".." then (if at == [] then [] else at[..|at| - 1])
    else at + [part]
  }

  function Walk(at: Path, parts: seq<string>): Path
    decreases |parts|
  {
    if parts == [] then at else Walk(Enter(at, parts[0]), parts[1..])
  }

  /** `(root / relative_path).resolve()`, for a tree without symbolic links. */
  function Resolve(root: Path, location: Location): Path {
    match location
    case Relative(parts) => Walk(root, parts)
    case Absolute(parts) => Walk([], parts)
  }

  predicate Inside(root: Path, p: Path) { root <= p }

  predicate Plain(parts: seq<string>) {
    forall i :: 0 <= i < |parts| ==> parts[i] !in {"", ".", ".."}
  }

  /** A path without dot components resolves to itself below the root, so it never escapes. */
  lemma {:induction false} PlainResolves(root: Path, parts: seq<string>)
    requires Plain(parts)
    ensures Walk(root, parts) == root + parts
    decreases |parts|
  {
    if parts != [] {
      PlainResolves(root + [parts[0]], parts[1..]);
      assert root + [parts[0]] + parts[1..] == root + parts;
    } else {
      assert root + parts == root;
    }
  }

  // ----- tables and files

  datatype Artifact = Artifact(
    id: string, auditId: string, jobId: Option<string>, kind: string, location: Location, size: nat,
    createdAt: int, retention: string)

  datatype Vault = Vault(store: Store, artifacts: seq<Artifact>, files: set<Path>)

  function PathOf(root: Path, a: Artifact): Path { Resolve(root, a.location) }

  ghost function Image<A, B>(rows: seq<A>, f: A -> B): set<B> {
    set a | a in rows :: f(a)
  }

  lemma ImageSnoc<A, B>(rows: seq<A>, a: A, f: A -> B)
    ensures Image(rows + [a], f) == Image(rows, f) + {f(a)}
  {
    assert forall x :: x in rows + [a] <==> x in rows || x == a;
  }

  ghost function PathsOf(root: Path, rows: seq<Artifact>): set<Path> {
    Image(rows, (a: Artifact) => PathOf(root, a))
  }

  lemma PathsSnoc(root: Path, rows: seq<Artifact>, a: Artifact)
    ensures PathsOf(root, rows + [a]) == PathsOf(root, rows) + {PathOf(root, a)}
  {
    ImageSnoc(rows, a, (a: Artifact) => PathOf(root, a));
  }

  /** Removes one file if it is there; says how many were removed. */
  method Discard<P(==)>(files: set<P>, path: P) returns (files': set<P>, removed: nat)
    ensures files' == files - {path} && removed == |files| - |files'|
  {
    files', removed := files - {path}, if path in files then 1 else 0;
  }

  function Remaining<A, P>(rows: seq<A>, files: set<P>, passes: A -> bool, locate: A -> P): set<P> {
    if rows == [] then files
    else
      var left, last := Remaining(rows[..|rows| - 1], files, passes, locate), rows[|rows| - 1];
      if passes(last) then left - {locate(last)} else left
  }

  /** What remains is everything but the files of the rows that pass. */
  lemma {:induction false} RemainingCorrect<A, P>(rows: seq<A>, files: set<P>, passes: A -> bool, locate: A -> P)
    ensures Remaining(rows, files, passes, locate) == files - Image(Filter(rows, passes), locate)
  {
    if rows == [] {
      assert Image(Filter(rows, passes), locate) == {};
    } else {
      var k := |rows| - 1;
      RemainingCorrect(rows[..k], files, passes, locate);
      if passes(rows[k]) {
        ImageSnoc(Filter(rows[..k], passes), rows[k], locate);
      } else {
        assert Filter(rows, passes) == Filter(rows[..k], passes);
      }
    }
  }

  /** Goes through the rows and removes the file of each one that passes; a file that is not there is no failure. */
  method RemoveEach<A, P(==)>(rows: seq<A>, files: set<P>, passes: A -> bool, locate: A -> P)
    returns (gone: seq<A>, files': set<P>, removed: nat, skipped: nat)
    ensures gone == Filter(rows, passes) && files' == Remaining(rows, files, passes, locate)
    ensures removed == |files| - |files'| && skipped == |rows| - |gone|
  {
    gone, files', removed, skipped := [], files, 0, 0;
    for i := 0 to |rows|
      invariant gone == Filter(rows[..i], passes) && files' == Remaining(rows[..i], files, passes, locate)
      invariant removed == |files| - |files'| && skipped == i - |gone|
    {
      assert rows[..i + 1][..i] == rows[..i];
      if passes(rows[i]) {
        var n;
        files', n := Discard(files', locate(rows[i]));
        removed := removed + n;
        gone := gone + [rows[i]];
      } else {
        skipped := skipped + 1;
      }
    }
    assert rows[..|rows|] == rows;
  }

  function TotalSize(rows: seq<Artifact>): nat {
    if rows == [] then 0 else TotalSize(rows[..|rows| - 1]) + rows[|rows| - 1].size
  }

  function AuditDirectory(root: Path, auditId: string): Path { root + [auditId] }

  // ----- deleting the raw packets of one capture

  predicate IsPcapOf(a: Artifact, auditId: string, jobId: string) {
    a.auditId == auditId && a.jobId == Some(jobId) && a.kind == "packet_capture"
  }

  function PcapRows(artifacts: seq<Artifact>, auditId: string, jobId: string): seq<Artifact> {
    Filter(artifacts, (a: Artifact) => IsPcapOf(a, auditId, jobId))
  }

  function WithoutPcap(artifacts: seq<Artifact>, auditId: string, jobId: string): seq<Artifact> {
    Filter(artifacts, (a: Artifact) => !IsPcapOf(a, auditId, jobId))
  }

  type Summary = map<string, Option<string>>

  predicate Truthy(value: Option<string>) { value.Some? && value.value != "" }

  predicate HasReference(summary: Summary) {
    "pcap_artifact_id" in summary && Truthy(summary["pcap_artifact_id"])
  }

  function SetDefault(summary: Summary, key: string, value: string): Summary {
    if key in summary then summary else summary[key := Some(value)]
  }

  /** The summary of the audit after its packets have been deleted, given whether anything changed. */
  function DeletedSummary(summary: Summary, changed: bool, actor: Option<string>, stamp: string): Summary {
    if !changed then summary
    else
      var cleared := if HasReference(summary) then summary["pcap_artifact_id" := None] else summary;
      var stamped := SetDefault(cleared, "pcap_deleted_at", stamp);
      if Truthy(actor) then SetDefault(stamped, "pcap_deleted_by", actor.value) else stamped
  }

  datatype PcapRefusal = CaptureNotFound | CaptureBusy | UnsafePath

  /** The commit of `CapturePcapDeletionService.delete`. */
  function DeletePcap(v: Vault, root: Path, jobId: string, actor: Option<string>, stamp: string): Result<Vault, PcapRefusal> {
    if jobId !in v.store.jobs || v.store.jobs[jobId].kind != "packet_capture" then Err(CaptureNotFound)
    else
      var auditId := v.store.jobs[jobId].auditId;
      if HasPending(v.store.jobs, auditId) then Err(CaptureBusy)
      else if auditId !in v.store.audits then Err(CaptureNotFound)
      else
        var rows := PcapRows(v.artifacts, auditId, jobId);
        if exists i | 0 <= i < |rows| :: !Inside(root, PathOf(root, rows[i])) then Err(UnsafePath)
        else
          var audit := v.store.audits[auditId];
          var changed := rows != [] || HasReference(audit.summary);
          Ok(v.(store := v.store.(audits := v.store.audits[auditId := audit.(summary := DeletedSummary(audit.summary, changed, actor, stamp))]),
                artifacts := WithoutPcap(v.artifacts, auditId, jobId)))
  }

  /** The commit of `AuditDeletionService.delete`, cascading to the artifact rows. */
  function DeleteAuditRows(v: Vault, auditId: string): Result<Vault, Refusal> {
    var r := DeleteAudit(v.store, auditId);
    if r.Err? then Err(r.error)
    else Ok(v.(store := r.value, artifacts := Filter(v.artifacts, (a: Artifact) => a.auditId != auditId)))
  }

  /** Deleting a capture's packets leaves every other row alone and keeps every earlier stamp. */
  lemma PcapDeletionLeavesRest(v: Vault, root: Path, jobId: string, actor: Option<string>, stamp: string)
    requires DeletePcap(v, root, jobId, actor, stamp).Ok?
    ensures var after, auditId := DeletePcap(v, root, jobId, actor, stamp).value, v.store.jobs[jobId].auditId;
            && (forall a :: a in after.artifacts <==> a in v.artifacts && !IsPcapOf(a, auditId, jobId))
            && after.files == v.files && after.store.jobs == v.store.jobs && after.store.events == v.store.events
            && (forall x :: x in v.store.audits && x != auditId ==> after.store.audits[x] == v.store.audits[x])
            && (forall key :: key in {"pcap_deleted_at", "pcap_deleted_by"} && key in v.store.audits[auditId].summary ==>
                  key in after.store.audits[auditId].summary
                  && after.store.audits[auditId].summary[key] == v.store.audits[auditId].summary[key])
            && !HasReference(after.store.audits[auditId].summary)
  {
    var auditId := v.store.jobs[jobId].auditId;
    forall a { FilterMember(v.artifacts, (a: Artifact) => !IsPcapOf(a, auditId, jobId), a); }
  }

  /** A second deletion, by anyone at any time, changes nothing. */
  lemma PcapDeletionIdempotent(v: Vault, root: Path, jobId: string, actor: Option<string>, stamp: string,
                               actor2: Option<string>, stamp2: string)
    requires DeletePcap(v, root, jobId, actor, stamp).Ok?
    ensures var once := DeletePcap(v, root, jobId, actor, stamp).value;
            DeletePcap(once, root, jobId, actor2, stamp2) == Ok(once)
  {
    var once, auditId := DeletePcap(v, root, jobId, actor, stamp).value, v.store.jobs[jobId].auditId;
    PcapDeletionLeavesRest(v, root, jobId, actor, stamp);
    FilterTwice(v.artifacts, (a: Artifact) => !IsPcapOf(a, auditId, jobId), (a: Artifact) => !IsPcapOf(a, auditId, jobId),
                (a: Artifact) => !IsPcapOf(a, auditId, jobId));
    var again := PcapRows(once.artifacts, auditId, jobId);
    if again != [] {
      FilterMember(once.artifacts, (a: Artifact) => IsPcapOf(a, auditId, jobId), again[0]);
      assert false;
    }
    assert once.store.audits[auditId := once.store.audits[auditId]] == once.store.audits;
  }

  // ----- the services

  datatype PcapReport = PcapReport(deleted: bool, alreadyAbsent: bool, artifactCount: nat, bytes: nat, cleanupPending: nat)
  datatype AuditReport = AuditReport(artifactCount: nat, deletedFiles: nat, directoryRemoved: bool, cleanupPending: bool)

  /** How removing a directory goes: all of it, not even listed, or stopped after some of the files. A stop may come
      after the last file, at a directory that cannot be removed. */
  datatype TreeRemoval = Complete | NotListed | Stopped(removed: set<Path>)

  function FilesUnder(files: set<Path>, directory: Path): (r: set<Path>)
    ensures forall p :: p in r <==> p in files && directory <= p
  {
    set p | p in files && Inside(directory, p)
  }

  class Appliance {
    const root: Path
    var store: Store
    var artifacts: seq<Artifact>
    var files: set<Path>

    ghost function View(): Vault reads this { Vault(store, artifacts, files) }

    constructor (root: Path)
      ensures this.root == root && View() == Vault(Store(map[], map[], []), [], {})
    {
      this.root := root;
      store, artifacts, files := Store(map[], map[], []), [], {};
    }

    /** `RecoveryService.retry`. */
    method RetryJob(jobId: string, newId: string, actor: Option<string>, now: int) returns (refusal: Option<Refusal>)
      modifies this`store
      ensures var outcome := Retry(old(store), jobId, newId, actor, now);
              match outcome
              case Ok(s) => refusal == None && store == s
              case Err(e) => refusal == Some(e) && store == old(store)
    {
      if jobId !in store.jobs { return Some(NotFound); }
      var source := store.jobs[jobId];
      if !Retryable(source.status) { return Some(RetryNotAllowed); }
      if source.kind in CREDENTIALED { return Some(RetryNotAllowed); }
      if HasPendingOfKind(store.jobs, source.auditId, source.kind) { return Some(RetryNotAllowed); }
      if source.auditId !in store.audits { return Some(NotFound); }
      var audit := store.audits[source.auditId];
      if audit.status != AuditRunning {
        if !AuditMayBecome(audit.status, AuditRunning) { return Some(InvalidTransition); }
        audit := audit.(status := AuditRunning, finishedAt := None, error := None);
      }
      if newId in store.jobs { return Some(KeyTaken); }
      var retried := Job(source.auditId, source.kind, Queued, source.spec, 0, "queued", "Retry queued for " + jobId, false, 0);
      var events := store.events + [JobEvent(source.auditId, newId, "job_retried", Some(jobId), actor)];
      events := events + [JobEvent(source.auditId, jobId, "retry_scheduled", Some(newId), actor)];
      if audit.startedAt.None? { audit := audit.(startedAt := Some(now)); }
      store := Store(store.audits[source.auditId := audit], store.jobs[newId := retried], events);
      return None;
    }

    /** `AuditDeletionService.delete`. The rows go first, in one transaction; how far the removal of the audit's
        directory then gets is up to the file system. */
    method DeleteWholeAudit(auditId: string, removal: TreeRemoval) returns (r: Result<AuditReport, Refusal>)
      modifies this
      ensures var commit := DeleteAuditRows(old(View()), auditId);
              match commit
              case Err(e) => r == Err(e) && View() == old(View())
              case Ok(v) =>
                var tree := FilesUnder(old(files), AuditDirectory(root, auditId));
                && store == v.store && artifacts == v.artifacts
                && files == (match removal
                             case Complete => old(files) - tree
                             case NotListed => old(files)
                             case Stopped(removed) => old(files) - removed * tree)
                && r.Ok? && r.value.artifactCount == |Filter(old(artifacts), (a: Artifact) => a.auditId == auditId)|
                && r.value.deletedFiles == (if removal.NotListed? then 0 else |tree|)
                && (r.value.directoryRemoved <==> removal.Complete?) && (r.value.cleanupPending <==> !removal.Complete?)
      // no file outside the audit's directory goes, and after a complete removal none is left in it
      ensures files <= old(files) && forall p :: p in old(files) && !(root + [auditId] <= p) ==> p in files
      ensures r.Ok? && removal.Complete? ==> forall p :: p in files ==> !(root + [auditId] <= p)
    {
      var outcome := DeleteAudit(store, auditId);
      if outcome.Err? { return Err(outcome.error); }
      var count := |Filter(artifacts, (a: Artifact) => a.auditId == auditId)|;
      store := outcome.value;
      artifacts := Filter(artifacts, (a: Artifact) => a.auditId != auditId);
      var tree := FilesUnder(files, AuditDirectory(root, auditId));
      var deletedFiles, cleanupPending, directoryRemoved := 0, false, false;
      match removal {
        case Complete =>
          deletedFiles := |tree|;
          files := files - tree;
          directoryRemoved := true;
        case NotListed =>
          cleanupPending := true;
        case Stopped(removed) =>
          deletedFiles := |tree|;
          files := files - removed * tree;
          cleanupPending := true;
      }
      return Ok(AuditReport(count, deletedFiles, directoryRemoved, cleanupPending));
    }

    /** The transaction of `CapturePcapDeletionService.delete`: rows and summary, no files yet. */
    method CommitPcapDeletion(jobId: string, actor: Option<string>, stamp: string)
      returns (r: Result<seq<Artifact>, PcapRefusal>, changed: bool)
      modifies this`store, this`artifacts
      ensures var commit := DeletePcap(old(View()), root, jobId, actor, stamp);
              match commit
              case Err(e) => r == Err(e) && View() == old(View())
              case Ok(v) =>
                var auditId := old(store).jobs[jobId].auditId;
                && View() == v
                && r == Ok(PcapRows(old(artifacts), auditId, jobId))
                && changed == (r.value != [] || HasReference(old(store).audits[auditId].summary))
    {
      changed := false;
      if jobId !in store.jobs || store.jobs[jobId].kind != "packet_capture" { return Err(CaptureNotFound), false; }
      var auditId := store.jobs[jobId].auditId;
      if HasPending(store.jobs, auditId) { return Err(CaptureBusy), false; }
      if auditId !in store.audits { return Err(CaptureNotFound), false; }
      var rows := PcapRows(artifacts, auditId, jobId);
      // every path is checked before anything is changed
      if exists i | 0 <= i < |rows| :: !Inside(root, PathOf(root, rows[i])) { return Err(UnsafePath), false; }
      var audit := store.audits[auditId];
      var hadReference := HasReference(audit.summary);
      changed := rows != [] || hadReference;
      RemoveRows(auditId, jobId, rows);
      if changed {
        var summary := audit.summary;
        if hadReference { summary := summary["pcap_artifact_id" := None]; }
        summary := SetDefault(summary, "pcap_deleted_at", stamp);
        if Truthy(actor) { summary := SetDefault(summary, "pcap_deleted_by", actor.value); }
        audit := audit.(summary := summary);
      }
      store := store.(audits := store.audits[auditId := audit]);
      r := Ok(rows);
    }

    /** `CapturePcapDeletionService.delete`. A file whose removal fails stays behind and is counted. */
    method DeleteCapturePcap(jobId: string, actor: Option<string>, stamp: string, unlinkable: Path -> bool)
      returns (r: Result<PcapReport, PcapRefusal>)
      modifies this
      ensures var commit := DeletePcap(old(View()), root, jobId, actor, stamp);
              match commit
              case Err(e) => r == Err(e) && View() == old(View())
              case Ok(v) =>
                var auditId := old(store).jobs[jobId].auditId;
                var rows := PcapRows(old(artifacts), auditId, jobId);
                var unlinked := Filter(rows, (a: Artifact) => unlinkable(PathOf(root, a)));
                && store == v.store && artifacts == v.artifacts
                && files == old(files) - PathsOf(root, unlinked)
                && r.Ok? && r.value.alreadyAbsent == (rows == [])
                && r.value.deleted == (rows != [] || HasReference(old(store).audits[auditId].summary))
                && r.value.artifactCount == |rows| && r.value.bytes == TotalSize(rows)
                && r.value.cleanupPending == |rows| - |unlinked|
    {
      var rows, changed := CommitPcapDeletion(jobId, actor, stamp);
      if rows.Err? { return Err(rows.error); }
      var unlinked, left, removed, pending :=
        RemoveEach(rows.value, files, (a: Artifact) => unlinkable(PathOf(root, a)), (a: Artifact) => PathOf(root, a));
      RemainingCorrect(rows.value, files, (a: Artifact) => unlinkable(PathOf(root, a)), (a: Artifact) => PathOf(root, a));
      files := left;
      return Ok(PcapReport(changed, rows.value == [], |rows.value|, TotalSize(rows.value), pending));
    }

    /** Deletes the selected rows one after the other. */
    method RemoveRows(auditId: string, jobId: string, rows: seq<Artifact>)
      requires rows == PcapRows(artifacts, auditId, jobId)
      modifies this`artifacts
      ensures artifacts == WithoutPcap(old(artifacts), auditId, jobId)
    {
      FilterAll(artifacts, (a: Artifact) => a !in rows[..0]);
      for i := 0 to |rows|
        invariant artifacts == Filter(old(artifacts), (a: Artifact) => a !in rows[..i])
      {
        var row := rows[i];
        FilterTwice(old(artifacts), (a: Artifact) => a !in rows[..i], (a: Artifact) => a != row, (a: Artifact) => a !in rows[..i + 1]);
        artifacts := Filter(artifacts, (a: Artifact) => a != row);
      }
      assert rows[..|rows|] == rows;
      forall a | a in old(artifacts) ensures a !in rows <==> !IsPcapOf(a, auditId, jobId) {
        FilterMember(old(artifacts), (a: Artifact) => IsPcapOf(a, auditId, jobId), a);
      }
      FilterAgree(old(artifacts), (a: Artifact) => a !in rows[..|rows|], (a: Artifact) => !IsPcapOf(a, auditId, jobId));
    }
  }

  // ----- paths and packet rows, spelled out

  /** A dot-dot component takes back the one before it, and at the root of the tree changes nothing; empty and single-dot
      components change nothing; any other goes one level down. */
  lemma StepsOfWalk(at: Path, part: string, rest: seq<string>)
    ensures Walk(at, [part] + rest) ==
              Walk(if part == "" || part == "." then at else if part != ".." then at + [part] else if at == [] then [] else at[..|at| - 1], rest)
  {
    assert ([part] + rest)[0] == part && ([part] + rest)[1..] == rest;
  }

  /** So a path that starts by going up leaves a root that is not the top of the tree, unless it comes back into it. */
  lemma GoingUpEscapes(root: Path, rest: seq<string>)
    requires root != [] && Plain(rest)
    ensures root <= Resolve(root, Relative([".."] + rest)) <==> rest != [] && rest[0] == root[|root| - 1]
  {
    StepsOfWalk(root, "..", rest);
    var up := root[..|root| - 1];
    PlainResolves(up, rest);
    assert Resolve(root, Relative([".."] + rest)) == up + rest;
    if rest != [] && rest[0] == root[|root| - 1] {
      assert up + rest == root + rest[1..];
    } else if rest != [] {
      assert (up + rest)[|root| - 1] == rest[0];
    }
  }

  /** An absolute path does not depend on the root. */
  lemma AbsoluteResolves(root: Path, parts: seq<string>)
    requires Plain(parts)
    ensures Resolve(root, Absolute(parts)) == parts
  {
    PlainResolves([], parts);
    assert [] + parts == parts;
  }

  /** A packet deletion is accepted for a capture job whose audit has nothing queued or running and whose packet rows all
      stay below the root. */
  lemma DeletePcapAccepts(v: Vault, root: Path, jobId: string, actor: Option<string>, stamp: string)
    ensures DeletePcap(v, root, jobId, actor, stamp).Ok? <==>
              && jobId in v.store.jobs && v.store.jobs[jobId].kind == "packet_capture" && v.store.jobs[jobId].auditId in v.store.audits
              && (forall j :: j in v.store.jobs && v.store.jobs[j].auditId == v.store.jobs[jobId].auditId ==>
                    v.store.jobs[j].status != Queued && v.store.jobs[j].status != Running)
              && (forall a ::
                    a in v.artifacts && a.auditId == v.store.jobs[jobId].auditId && a.jobId == Some(jobId) && a.kind == "packet_capture" ==>
                      root <= PathOf(root, a))
  {
    if jobId in v.store.jobs {
      var auditId := v.store.jobs[jobId].auditId;
      forall a { FilterMember(v.artifacts, (a: Artifact) => IsPcapOf(a, auditId, jobId), a); }
      var rows := PcapRows(v.artifacts, auditId, jobId);
      if a :| a in rows && !(root <= PathOf(root, a)) {
        var i :| 0 <= i < |rows| && rows[i] == a;
      }
    }
  }

  /** When there were packet rows or a reference: the reference is cleared, the first stamp and the first actor are
      recorded, and every other entry of the summary stays. Otherwise nothing changes. */
  lemma DeletedSummaryMeans(summary: Summary, changed: bool, actor: Option<string>, stamp: string)
    ensures var r := DeletedSummary(summary, changed, actor, stamp);
            && (!changed ==> r == summary)
            && (changed ==>
                  && "pcap_deleted_at" in r
                  && r["pcap_deleted_at"] == (if "pcap_deleted_at" in summary then summary["pcap_deleted_at"] else Some(stamp))
                  && ("pcap_deleted_by" in r <==> "pcap_deleted_by" in summary || (actor.Some? && actor.value != ""))
                  && ("pcap_deleted_by" in r ==>
                        r["pcap_deleted_by"] == if "pcap_deleted_by" in summary then summary["pcap_deleted_by"] else actor)
                  && ("pcap_artifact_id" in r <==> "pcap_artifact_id" in summary)
                  && ("pcap_artifact_id" in summary ==>
                        r["pcap_artifact_id"] == if summary["pcap_artifact_id"] == Some("") then Some("") else None)
                  && (forall key :: key !in {"pcap_deleted_at", "pcap_deleted_by", "pcap_artifact_id"} ==>
                        (key in r <==> key in summary) && (key in r && key in summary ==> r[key] == summary[key])))
  {
  }
}
