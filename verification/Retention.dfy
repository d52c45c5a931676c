/** Retention cleanup: which artifacts are due, what a preview reports, and what a confirmed run removes. */
module Retention {
  import opened CrashSafety
  import opened Evidence
  import opened Jobs
  import opened Lists
  import opened Outcomes
  import opened Tables

  datatype Policy = Policy(temporaryHours: nat, debugDays: nat, packetCaptureDays: nat, rawProviderDays: nat)

  const HOUR := 3600
  const DAY := 86400

  /** Whether an artifact is past its retention; raw evidence counts only when asked for. */
  predicate Due(a: Artifact, now: int, policy: Policy, includeRaw: bool) {
    || (a.retention == "temporary" && a.createdAt < now - policy.temporaryHours * HOUR)
    || (a.retention == "debug" && a.createdAt < now - policy.debugDays * DAY)
    || (includeRaw && a.kind == "packet_capture" && a.createdAt < now - policy.packetCaptureDays * DAY)
    || (includeRaw && a.kind in {"nmap_xml", "protocol_tool_output"} && a.createdAt < now - policy.rawProviderDays * DAY)
  }

  function Candidates(artifacts: seq<Artifact>, now: int, policy: Policy, includeRaw: bool): seq<Artifact> {
    Filter(artifacts, (a: Artifact) => Due(a, now, policy, includeRaw))
  }

  /** The candidates grow with time and with the inclusion of raw evidence, and never reach an artifact that is
      neither temporary, nor debug, nor (when asked for) raw. */
  lemma CandidatesGrow(artifacts: seq<Artifact>, now: int, later: int, policy: Policy, includeRaw: bool, more: bool, a: Artifact)
    requires now <= later && (includeRaw ==> more)
    ensures a in Candidates(artifacts, now, policy, includeRaw) ==> a in Candidates(artifacts, later, policy, more)
    ensures a in Candidates(artifacts, now, policy, includeRaw) ==>
              || a.retention in {"temporary", "debug"}
              || (includeRaw && a.kind in {"packet_capture", "nmap_xml", "protocol_tool_output"})
  {
    FilterMember(artifacts, (a: Artifact) => Due(a, now, policy, includeRaw), a);
    FilterMember(artifacts, (a: Artifact) => Due(a, later, policy, more), a);
  }

  // ----- the preview

  datatype Bucket = Bucket(count: nat, bytes: nat)

  function OfKind(rows: seq<Artifact>, kind: string): seq<Artifact> {
    Filter(rows, (a: Artifact) => a.kind == kind)
  }

  function BucketOf(rows: seq<Artifact>, kind: string): Bucket {
    Bucket(|OfKind(rows, kind)|, TotalSize(OfKind(rows, kind)))
  }

  lemma TotalSizeSnoc(rows: seq<Artifact>, a: Artifact)
    ensures TotalSize(rows + [a]) == TotalSize(rows) + a.size
  {
    assert (rows + [a])[..|rows|] == rows;
  }

  lemma BucketSnoc(rows: seq<Artifact>, a: Artifact, kind: string)
    ensures BucketOf(rows + [a], kind)
         == if a.kind == kind then Bucket(BucketOf(rows, kind).count + 1, BucketOf(rows, kind).bytes + a.size)
            else BucketOf(rows, kind)
  {
    FilterSnoc(rows, a, (a: Artifact) => a.kind == kind);
    TotalSizeSnoc(OfKind(rows, kind), a);
  }

  function Count(byType: map<string, Bucket>, a: Artifact): map<string, Bucket> {
    var bucket := if a.kind in byType then byType[a.kind] else Bucket(0, 0);
    byType[a.kind := Bucket(bucket.count + 1, bucket.bytes + a.size)]
  }

  function Tally(rows: seq<Artifact>): map<string, Bucket> {
    if rows == [] then map[] else Count(Tally(rows[..|rows| - 1]), rows[|rows| - 1])
  }

  /** `_candidate_snapshot`: the totals, and one bucket per artifact type. */
  method Snapshot(rows: seq<Artifact>) returns (count: nat, bytes: nat, byType: map<string, Bucket>)
    ensures count == |rows| && bytes == TotalSize(rows) && byType == Tally(rows)
  {
    count, bytes, byType := |rows|, 0, map[];
    for i := 0 to |rows|
      invariant bytes == TotalSize(rows[..i]) && byType == Tally(rows[..i])
    {
      assert rows[..i + 1][..i] == rows[..i];
      var row := rows[i];
      if row.kind !in byType { byType := byType[row.kind := Bucket(0, 0)]; }
      byType := byType[row.kind := Bucket(byType[row.kind].count + 1, byType[row.kind].bytes + row.size)];
      bytes := bytes + row.size;
    }
    assert rows[..|rows|] == rows;
  }

  /** The bucket of a type is there when the type occurs, and then counts exactly its rows. */
  ghost predicate Tallied(rows: seq<Artifact>, kind: string) {
    && (kind in Tally(rows) <==> OfKind(rows, kind) != [])
    && (kind in Tally(rows) ==> Tally(rows)[kind] == BucketOf(rows, kind))
  }

  /** Each bucket counts exactly the rows of its type. */
  lemma {:induction false} TallyCorrect(rows: seq<Artifact>, kind: string)
    ensures Tallied(rows, kind)
  {
    if rows != [] {
      var front, last := rows[..|rows| - 1], rows[|rows| - 1];
      TallyCorrect(front, kind);
      assert rows == front + [last];
      TallyStep(front, last, kind);
    }
  }

  lemma TallyStep(rows: seq<Artifact>, a: Artifact, kind: string)
    requires Tallied(rows, kind)
    ensures Tallied(rows + [a], kind)
  {
    assert Tally(rows + [a]) == Count(Tally(rows), a) by { assert (rows + [a])[..|rows|] == rows; }
    BucketSnoc(rows, a, kind);
    FilterSnoc(rows, a, (a: Artifact) => a.kind == kind);
  }

  function Sum(buckets: string -> Bucket, kinds: seq<string>): Bucket {
    if kinds == [] then Bucket(0, 0)
    else
      var init, last := Sum(buckets, kinds[..|kinds| - 1]), buckets(kinds[|kinds| - 1]);
      Bucket(init.count + last.count, init.bytes + last.bytes)
  }

  function SumBuckets(rows: seq<Artifact>, kinds: seq<string>): Bucket {
    Sum((kind: string) => BucketOf(rows, kind), kinds)
  }

  /** One more item in one bucket is one more item in the sum, if that bucket is summed. */
  lemma {:induction false} SumWithOneMore(before: string -> Bucket, after: string -> Bucket, kind: string, size: nat, kinds: seq<string>)
    requires forall i, j :: 0 <= i < j < |kinds| ==> kinds[i] != kinds[j]
    requires forall k :: after(k) == if k == kind then Bucket(before(k).count + 1, before(k).bytes + size) else before(k)
    ensures var s := Sum(before, kinds);
            Sum(after, kinds) == if kind in kinds then Bucket(s.count + 1, s.bytes + size) else s
  {
    if kinds != [] {
      var k := |kinds| - 1;
      SumWithOneMore(before, after, kind, size, kinds[..k]);
      assert kind in kinds <==> kind in kinds[..k] || kind == kinds[k];
      assert kinds[k] !in kinds[..k];
    }
  }

  lemma SumBucketsSnoc(rows: seq<Artifact>, a: Artifact, kinds: seq<string>)
    requires forall i, j :: 0 <= i < j < |kinds| ==> kinds[i] != kinds[j]
    ensures SumBuckets(rows + [a], kinds)
         == if a.kind in kinds then Bucket(SumBuckets(rows, kinds).count + 1, SumBuckets(rows, kinds).bytes + a.size)
            else SumBuckets(rows, kinds)
  {
    var before, after := (kind: string) => BucketOf(rows, kind), (kind: string) => BucketOf(rows + [a], kind);
    forall kind { BucketSnoc(rows, a, kind); }
    SumWithOneMore(before, after, a.kind, a.size, kinds);
  }

  /** The buckets of the types that occur add up to the totals. */
  lemma {:induction false} BucketsSumToTotals(rows: seq<Artifact>, kinds: seq<string>)
    requires forall i, j :: 0 <= i < j < |kinds| ==> kinds[i] != kinds[j]
    requires forall i :: 0 <= i < |rows| ==> rows[i].kind in kinds
    ensures SumBuckets(rows, kinds) == Bucket(|rows|, TotalSize(rows))
  {
    if rows == [] {
      EmptyBuckets(kinds);
    } else {
      var k := |rows| - 1;
      BucketsSumToTotals(rows[..k], kinds);
      assert rows == rows[..k] + [rows[k]];
      SumBucketsSnoc(rows[..k], rows[k], kinds);
    }
  }

  lemma {:induction false} EmptyBuckets(kinds: seq<string>)
    ensures SumBuckets([], kinds) == Bucket(0, 0)
  {
    if kinds != [] { EmptyBuckets(kinds[..|kinds| - 1]); }
  }

  // ----- the confirmed run

  predicate Removable(root: Path, a: Artifact, now: int, policy: Policy, includeRaw: bool) {
    Due(a, now, policy, includeRaw) && Inside(root, PathOf(root, a))
  }

  function RemovableRows(root: Path, artifacts: seq<Artifact>, now: int, policy: Policy, includeRaw: bool): seq<Artifact> {
    Filter(artifacts, (a: Artifact) => Removable(root, a, now, policy, includeRaw))
  }

  function KeptRows(root: Path, artifacts: seq<Artifact>, now: int, policy: Policy, includeRaw: bool): seq<Artifact> {
    Filter(artifacts, (a: Artifact) => !Removable(root, a, now, policy, includeRaw))
  }

  function WithoutIds(artifacts: seq<Artifact>, ids: seq<string>): seq<Artifact> {
    Filter(artifacts, (a: Artifact) => a.id !in ids)
  }

  ghost predicate UniqueIds(artifacts: seq<Artifact>) {
    forall a, b :: a in artifacts && b in artifacts && a.id == b.id ==> a == b
  }

  class LifecycleService {
    const appliance: Appliance

    constructor (appliance: Appliance)
      ensures this.appliance == appliance
    {
      this.appliance := appliance;
    }

    /** `_delete_candidates`: files first, then the rows in one transaction. `ids` is the primary key, hence unique. */
    method DeleteCandidates(now: int, policy: Policy, includeRaw: bool, unlinkable: Path -> bool)
      returns (r: Result<(nat, nat), Path>)
      requires UniqueIds(appliance.artifacts)
      modifies appliance
      ensures appliance.store == old(appliance.store)
      ensures CleanedUp(appliance.root, old(appliance.artifacts), old(appliance.files), Candidates(old(appliance.artifacts), now, policy, includeRaw),
                        unlinkable, appliance.artifacts, appliance.files, r)
      ensures r.Ok? ==> appliance.artifacts == KeptRows(appliance.root, old(appliance.artifacts), now, policy, includeRaw)
    {
      var candidates := Candidates(appliance.artifacts, now, policy, includeRaw);
      CompletedRun(appliance.root, appliance.artifacts, now, policy, includeRaw);
      var artifacts, files;
      artifacts, files, r := CleanUp(appliance.root, appliance.artifacts, appliance.files, candidates, unlinkable);
      appliance.artifacts, appliance.files := artifacts, files;
    }
  }

  /** What a run over the candidates does. Rows whose path leaves the root are skipped. A file that cannot be unlinked
      ends the run before any row is deleted, and its path is returned; otherwise the rows are deleted, and they and
      the files that were there are counted. */
  ghost predicate CleanedUp(root: Path, artifacts: seq<Artifact>, files: set<Path>, candidates: seq<Artifact>, unlinkable: Path -> bool,
                            artifacts': seq<Artifact>, files': set<Path>, r: Result<(nat, nat), Path>)
  {
    var stop := StopAt(root, files, candidates, unlinkable);
    var gone := InsideRows(root, candidates[..stop]);
    && files' == files - PathsOf(root, gone)
    && if stop < |candidates| then r == Err(PathOf(root, candidates[stop])) && artifacts' == artifacts
       else
         && gone == InsideRows(root, candidates)
         && r == Ok((|gone|, |files| - |files'|))
         && artifacts' == if gone == [] then artifacts else WithoutIds(artifacts, IdsOf(gone))
  }

  method CleanUp(root: Path, artifacts: seq<Artifact>, files: set<Path>, candidates: seq<Artifact>, unlinkable: Path -> bool)
    returns (artifacts': seq<Artifact>, files': set<Path>, r: Result<(nat, nat), Path>)
    ensures CleanedUp(root, artifacts, files, candidates, unlinkable, artifacts', files', r)
  {
    var stop, gone, left, removedFiles := CleanRows(root, candidates, files, unlinkable);
    artifacts', files' := artifacts, left;
    if stop < |candidates| { return artifacts', files', Err(PathOf(root, candidates[stop])); }
    assert candidates[..stop] == candidates;
    var ids := IdsOf(gone);
    if ids != [] { artifacts' := WithoutIds(artifacts, ids); }
    r := Ok((|ids|, removedFiles));
  }

  /** The first row whose file is there, below the root, and cannot be unlinked; or the number of rows. */
  function StopAt(root: Path, files: set<Path>, rows: seq<Artifact>, unlinkable: Path -> bool): (r: nat)
    ensures r <= |rows|
  {
    var passes, locate := (a: Artifact) => Inside(root, PathOf(root, a)), (a: Artifact) => PathOf(root, a);
    FirstIndex(rows, (a: Artifact) => passes(a) && locate(a) in files && !unlinkable(locate(a)))
  }

  function InsideRows(root: Path, rows: seq<Artifact>): seq<Artifact> {
    Filter(rows, (a: Artifact) => Inside(root, PathOf(root, a)))
  }

  /** What a run that is not stopped goes through, and what deleting by id leaves. */
  lemma CompletedRun(root: Path, artifacts: seq<Artifact>, now: int, policy: Policy, includeRaw: bool)
    requires UniqueIds(artifacts)
    ensures var gone, kept := InsideRows(root, Candidates(artifacts, now, policy, includeRaw)), KeptRows(root, artifacts, now, policy, includeRaw);
            && gone == RemovableRows(root, artifacts, now, policy, includeRaw)
            && kept == if gone == [] then artifacts else WithoutIds(artifacts, IdsOf(gone))
  {
    var gone := InsideRows(root, Candidates(artifacts, now, policy, includeRaw));
    FilterTwice(artifacts, (a: Artifact) => Due(a, now, policy, includeRaw), (a: Artifact) => Inside(root, PathOf(root, a)),
                (a: Artifact) => Removable(root, a, now, policy, includeRaw));
    RowsByIds(root, artifacts, IdsOf(gone), gone, now, policy, includeRaw);
    if gone == [] {
      forall a | a in artifacts { FilterMember(artifacts, (a: Artifact) => Removable(root, a, now, policy, includeRaw), a); }
      FilterAll(artifacts, (a: Artifact) => !Removable(root, a, now, policy, includeRaw));
    }
  }

  /** The loop over the candidates: rows that do not pass are skipped, the file of each other row is removed if it is
      there, and the first one that cannot be unlinked ends the loop. */
  method CleanEach<A, P(==)>(rows: seq<A>, files: set<P>, passes: A -> bool, locate: A -> P, unlinkable: P -> bool)
    returns (stop: nat, gone: seq<A>, files': set<P>, removed: nat)
    ensures stop == FirstIndex(rows, (a: A) => passes(a) && locate(a) in files && !unlinkable(locate(a)))
    ensures gone == Filter(rows[..stop], passes) && files' == Remaining(rows[..stop], files, passes, locate)
    ensures removed == |files| - |files'|
  {
    ghost var fails := (a: A) => passes(a) && locate(a) in files && !unlinkable(locate(a));
    stop, gone, files', removed := 0, [], files, 0;
    while stop < |rows|
      invariant stop <= |rows| && forall j :: 0 <= j < stop ==> !fails(rows[j])
      invariant gone == Filter(rows[..stop], passes) && files' == Remaining(rows[..stop], files, passes, locate)
      invariant removed == |files| - |files'| && files' <= files
      invariant forall p :: p in files && p !in files' ==> unlinkable(p)
    {
      assert rows[..stop + 1][..stop] == rows[..stop];
      if passes(rows[stop]) {
        var path := locate(rows[stop]);
        if path in files' && !unlinkable(path) { break; }
        var n;
        files', n := Discard(files', path);
        removed := removed + n;
        gone := gone + [rows[stop]];
      }
      stop := stop + 1;
    }
    assert forall j :: 0 <= j < stop ==> !fails(rows[j]);
  }

  method CleanRows(root: Path, rows: seq<Artifact>, files: set<Path>, unlinkable: Path -> bool)
    returns (stop: nat, gone: seq<Artifact>, files': set<Path>, removed: nat)
    ensures stop == StopAt(root, files, rows, unlinkable)
    ensures gone == InsideRows(root, rows[..stop]) && files' == files - PathsOf(root, gone)
    ensures removed == |files| - |files'|
  {
    var passes, locate := (a: Artifact) => Inside(root, PathOf(root, a)), (a: Artifact) => PathOf(root, a);
    stop, gone, files', removed := CleanEach(rows, files, passes, locate, unlinkable);
    RemainingCorrect(rows[..stop], files, passes, locate);
  }

  function IdsOf(rows: seq<Artifact>): seq<string> {
    seq(|rows|, i requires 0 <= i < |rows| => rows[i].id)
  }

  lemma {:induction false} RowsByIds(root: Path, artifacts: seq<Artifact>, ids: seq<string>, gone: seq<Artifact>, now: int, policy: Policy, includeRaw: bool)
    requires UniqueIds(artifacts) && ids == IdsOf(gone) && gone == RemovableRows(root, artifacts, now, policy, includeRaw)
    ensures WithoutIds(artifacts, ids) == KeptRows(root, artifacts, now, policy, includeRaw)
  {
    forall a | a in artifacts ensures a.id in ids <==> Removable(root, a, now, policy, includeRaw) {
      FilterMember(artifacts, (a: Artifact) => Removable(root, a, now, policy, includeRaw), a);
      if a in gone {
        var i :| 0 <= i < |gone| && gone[i] == a;
        assert ids[i] == a.id;
      } else if a.id in ids {
        var i :| 0 <= i < |ids| && ids[i] == a.id;
        FilterMember(artifacts, (a: Artifact) => Removable(root, a, now, policy, includeRaw), gone[i]);
      }
    }
    FilterAgree(artifacts, (a: Artifact) => a.id !in ids, (a: Artifact) => !Removable(root, a, now, policy, includeRaw));
  }

  // ----- cleanup removes files before rows

  /** After the files of some rows have been unlinked and before the rows are deleted, rows are still backed by files
      exactly when there were no such rows: a crash, or a file that cannot be unlinked, leaves rows without files. */
  lemma {:induction false} UnlinkedRowsUnbacked(root: Path, v: Vault, unlinked: seq<Artifact>)
    requires Backed(root, v) && forall a :: a in unlinked ==> a in v.artifacts
    ensures Backed(root, v.(files := v.files - PathsOf(root, unlinked))) <==> unlinked == []
  {
    var middle := v.(files := v.files - PathsOf(root, unlinked));
    if unlinked == [] {
      assert PathsOf(root, unlinked) == {};
      assert middle == v;
    } else {
      var a := unlinked[0];
      assert a in unlinked && PathOf(root, a) in PathsOf(root, unlinked);
      assert !RowBacked(root, middle, a);
    }
  }

  /** So for the confirmed run: unlike the two deletion services, it has a window in which rows have no files,
      exactly when there is something to remove. */
  lemma {:induction false} CleanupWindow(root: Path, v: Vault, now: int, policy: Policy, includeRaw: bool)
    requires Backed(root, v)
    ensures var gone := RemovableRows(root, v.artifacts, now, policy, includeRaw);
            Backed(root, v.(files := v.files - PathsOf(root, gone))) <==> gone == []
  {
    var gone := RemovableRows(root, v.artifacts, now, policy, includeRaw);
    forall a | a in gone ensures a in v.artifacts {
      FilterMember(v.artifacts, (a: Artifact) => Removable(root, a, now, policy, includeRaw), a);
    }
    UnlinkedRowsUnbacked(root, v, gone);
  }

  // ----- runs that end in a row without its file

  /** An audit is created, the file of an artifact written, the row registered. */
  function StoringRun(root: Path, a: Artifact): seq<CrashSafety.Step> {
    [Transaction(StepCreateAudit(a.auditId))] + [WriteFile(a.auditId, PathOf(root, a))] + [Register(a)]
  }

  lemma {:induction false} CreatingEnds(root: Path, id: string)
    ensures var s := CrashSafety.Run(root, [Transaction(StepCreateAudit(id))]);
            id in s.vault.store.audits && s.vault.artifacts == [] && s.vault.files == {} && s.usedPaths == {} && id in s.usedAudits
  {
    CrashSafety.RunSnoc(root, [], Transaction(StepCreateAudit(id)));
    assert [] + [Transaction(StepCreateAudit(id))] == [Transaction(StepCreateAudit(id))];
  }

  lemma {:induction false} StoringRunEnds(root: Path, a: Artifact)
    requires a.jobId.None? && Inside(AuditDirectory(root, a.auditId), PathOf(root, a))
    ensures var s := CrashSafety.Run(root, StoringRun(root, a));
            s.vault.artifacts == [a] && s.vault.files == {PathOf(root, a)}
  {
    var first: seq<CrashSafety.Step> := [Transaction(StepCreateAudit(a.auditId))];
    var write := WriteFile(a.auditId, PathOf(root, a));
    CreatingEnds(root, a.auditId);
    CrashSafety.RunSnoc(root, first, write);
    CrashSafety.RunSnoc(root, first + [write], Register(a));
  }

  /** For every artifact without a job, stored in the directory of its audit: once it is due, a cleanup that takes it
      and gets no further than unlinking its file leaves the row without it. */
  lemma {:induction false} CleanupWindowOpens(root: Path, a: Artifact, now: int, policy: Policy, includeRaw: bool)
    requires a.jobId.None? && Inside(AuditDirectory(root, a.auditId), PathOf(root, a)) && Due(a, now, policy, includeRaw)
    ensures RemovableRows(root, CrashSafety.Run(root, StoringRun(root, a)).vault.artifacts, now, policy, includeRaw) == [a]
    ensures var s := CrashSafety.Run(root, AbortedCleanup(root, StoringRun(root, a), {a}, a));
            a in s.vault.artifacts && PathOf(root, a) !in s.vault.files
  {
    StoringRunEnds(root, a);
    assert Removable(root, a, now, policy, includeRaw);
    FilterAll([a], (a: Artifact) => Removable(root, a, now, policy, includeRaw));
    AbortedCleanupLosesFile(root, StoringRun(root, a), {a}, a);
  }

  /** Once the rows are gone too, every remaining row has its file again. */
  lemma {:induction false} CleanupEndsBacked(root: Path, v: Vault, now: int, policy: Policy, includeRaw: bool)
    requires Backed(root, v) && DistinctPaths(root, v.artifacts)
    ensures var gone := RemovableRows(root, v.artifacts, now, policy, includeRaw);
            var kept := KeptRows(root, v.artifacts, now, policy, includeRaw);
            Backed(root, v.(files := v.files - PathsOf(root, gone), artifacts := kept))
  {
    var gone := RemovableRows(root, v.artifacts, now, policy, includeRaw);
    var kept := KeptRows(root, v.artifacts, now, policy, includeRaw);
    var after := v.(files := v.files - PathsOf(root, gone), artifacts := kept);
    forall a | a in kept ensures RowBacked(root, after, a) {
      FilterMember(v.artifacts, (a: Artifact) => !Removable(root, a, now, policy, includeRaw), a);
      assert RowBacked(root, v, a);
      forall b | b in gone ensures PathOf(root, b) != PathOf(root, a) {
        FilterMember(v.artifacts, (a: Artifact) => Removable(root, a, now, policy, includeRaw), b);
        PathsTellRows(root, v.artifacts, a, b);
      }
    }
  }
}
