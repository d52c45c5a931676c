/** The persisted findings of all audits and their status trail. */
module Findings {
  import opened Drafts
  import opened Lists
  import opened Outcomes
  import opened Tables

  datatype Status = Open | Suppressed | AcceptedRisk

  /** The table of allowed status changes. */
  predicate Allowed(current: Status, next: Status) {
    match current
    case Open => next in {Suppressed, AcceptedRisk}
    case Suppressed => next in {Open, AcceptedRisk}
    case AcceptedRisk => next in {Open, Suppressed}
  }

  /** A row: what the latest draft said, and what belongs to the row itself. */
  datatype Finding = Finding(
    id: string, auditId: string, content: Draft, status: Status,
    firstSeen: int, createdAt: int, lastSeen: int, updatedAt: int)

  datatype Event = Event(
    findingId: string, auditId: string, createdAt: int, actor: string, before: Status, after: Status, reason: string)

  type Bound = map<string, Datum> -> map<string, Datum>

  const MAX_OBSERVATION_LINKS := 64

  function Take(ids: seq<string>): seq<string> {
    if |ids| <= MAX_OBSERVATION_LINKS then ids else ids[..MAX_OBSERVATION_LINKS]
  }

  /** What of a draft is stored: id lists cut to the link limit, data passed through the size bound. */
  function Stored(d: Draft, bound: Bound): Draft {
    d.(data := bound(d.data), observationIds := Take(d.observationIds), evidenceIds := Take(d.evidenceIds))
  }

  predicate HasKey(f: Finding, auditId: string, k: Key) {
    f.auditId == auditId && KeyOf(f.content) == k
  }

  function IndexOfKey(findings: seq<Finding>, auditId: string, k: Key): nat {
    FirstIndex(findings, (f: Finding) => HasKey(f, auditId, k))
  }

  /** Any change to another status is allowed, and none to the same one. */
  lemma AllowedMeans(current: Status, next: Status)
    ensures Allowed(current, next) <==> current != next
  {
  }

  /** What is stored: at most 64 observations and 64 pieces of evidence, the first ones; everything else as it is. */
  lemma StoredMeans(d: Draft, bound: Bound)
    ensures var r := Stored(d, bound);
            && r.observationIds <= d.observationIds && r.evidenceIds <= d.evidenceIds
            && |r.observationIds| == (if |d.observationIds| <= 64 then |d.observationIds| else 64)
            && |r.evidenceIds| == (if |d.evidenceIds| <= 64 then |d.evidenceIds| else 64)
            && r.data == bound(d.data)
            && r.(observationIds := d.observationIds, evidenceIds := d.evidenceIds, data := d.data) == d
  {
  }

  // ----- storing one evaluation

  function UpsertOne(findings: seq<Finding>, auditId: string, d: Draft, now: int, freshId: string, bound: Bound): seq<Finding> {
    var i := IndexOfKey(findings, auditId, KeyOf(d));
    if i == |findings| then
      findings + [Finding(freshId, auditId, Stored(d, bound), Open, now, now, now, now)]
    else
      findings[i := findings[i].(content := Stored(d, bound), lastSeen := now, updatedAt := now)]
  }

  function UpsertAll(findings: seq<Finding>, auditId: string, drafts: seq<Draft>, now: int, freshIds: seq<string>, bound: Bound): seq<Finding>
    requires |freshIds| == |drafts|
  {
    if drafts == [] then findings
    else
      var n := |drafts| - 1;
      UpsertOne(UpsertAll(findings, auditId, drafts[..n], now, freshIds[..n], bound), auditId, drafts[n], now, freshIds[n], bound)
  }

  /** The row of a key: the first of the audit with the draft's rule and dedupe key. */
  ghost predicate RowFor(findings: seq<Finding>, auditId: string, d: Draft, i: nat) {
    && i < |findings| && findings[i].auditId == auditId
    && findings[i].content.ruleId == d.ruleId && findings[i].content.dedupeKey == d.dedupeKey
    && forall j :: 0 <= j < i ==>
         findings[j].auditId != auditId || findings[j].content.ruleId != d.ruleId || findings[j].content.dedupeKey != d.dedupeKey
  }

  /** A draft refreshes the content and the sighting of its row, and nothing else; without one it opens a new row. */
  lemma UpsertRows(findings: seq<Finding>, auditId: string, d: Draft, now: int, freshId: string, bound: Bound)
    ensures var after := UpsertOne(findings, auditId, d, now, freshId, bound);
            && (forall i: nat :: RowFor(findings, auditId, d, i) ==>
                  && |after| == |findings| && (forall j :: 0 <= j < |findings| && j != i ==> after[j] == findings[j])
                  && after[i] == Finding(findings[i].id, auditId, Stored(d, bound), findings[i].status,
                                         findings[i].firstSeen, findings[i].createdAt, now, now))
            && ((forall i: nat :: !RowFor(findings, auditId, d, i)) ==>
                  after == findings + [Finding(freshId, auditId, Stored(d, bound), Open, now, now, now, now)])
  {
    var k := IndexOfKey(findings, auditId, KeyOf(d));
    if k < |findings| { assert RowFor(findings, auditId, d, k); }
    forall i: nat | RowFor(findings, auditId, d, i) ensures i == k {
      assert HasKey(findings[i], auditId, KeyOf(d));
    }
  }

  lemma UpsertAllStep(findings: seq<Finding>, auditId: string, drafts: seq<Draft>, n: nat, now: int, freshIds: seq<string>, bound: Bound)
    requires n < |drafts| == |freshIds|
    ensures UpsertAll(findings, auditId, drafts[..n + 1], now, freshIds[..n + 1], bound)
         == UpsertOne(UpsertAll(findings, auditId, drafts[..n], now, freshIds[..n], bound), auditId, drafts[n], now, freshIds[n], bound)
  {
    assert drafts[..n + 1][..n] == drafts[..n] && freshIds[..n + 1][..n] == freshIds[..n];
  }

  /** One row per draft, in draft order, with what is stored of it. */
  predicate Report(rows: seq<Finding>, auditId: string, drafts: seq<Draft>, bound: Bound) {
    |rows| == |drafts|
    && forall i | 0 <= i < |drafts| :: rows[i].content == Stored(drafts[i], bound) && rows[i].auditId == auditId
  }

  lemma ReportStep(rows: seq<Finding>, auditId: string, drafts: seq<Draft>, n: nat, bound: Bound, row: Finding)
    requires n < |drafts| && Report(rows, auditId, drafts[..n], bound)
    requires row.content == Stored(drafts[n], bound) && row.auditId == auditId
    ensures Report(rows + [row], auditId, drafts[..n + 1], bound)
  {
  }

  // ----- changing a status

  datatype Refusal = FindingNotFound | InvalidFindingState

  datatype Trail = Trail(findings: seq<Finding>, events: seq<Event>)

  function IndexOfId(findings: seq<Finding>, id: string): nat {
    FirstIndex(findings, (f: Finding) => f.id == id)
  }

  function ChangeStatus(s: Trail, auditId: string, id: string, next: Status, actor: string, reason: string, now: int): Result<Trail, Refusal> {
    var i := IndexOfId(s.findings, id);
    if i == |s.findings| || s.findings[i].auditId != auditId then Err(FindingNotFound)
    else
      var f := s.findings[i];
      if !Allowed(f.status, next) then Err(InvalidFindingState)
      else
        Ok(Trail(s.findings[i := f.(status := next, updatedAt := now)],
                 s.events + [Event(f.id, auditId, now, actor, f.status, next, reason)]))
  }

  /** The row of an id: the first with it. */
  ghost predicate RowOf(findings: seq<Finding>, id: string, i: nat) {
    i < |findings| && findings[i].id == id && forall j :: 0 <= j < i ==> findings[j].id != id
  }

  lemma RowOfIsIndex(findings: seq<Finding>, id: string)
    ensures forall i: nat :: RowOf(findings, id, i) <==> i == IndexOfId(findings, id) && i < |findings|
  {
    forall i: nat | RowOf(findings, id, i) ensures i == IndexOfId(findings, id) {
      assert findings[i].id == id;
    }
  }

  /** A change is accepted for a finding of the audit that has another status; it then has the requested one, and the
      recorded event says from which to which, by whom and why. */
  lemma ChangeStatusRows(s: Trail, auditId: string, id: string, next: Status, actor: string, reason: string, now: int)
    ensures var r := ChangeStatus(s, auditId, id, next, actor, reason, now);
            && (r == Err(FindingNotFound) <==> forall i: nat :: RowOf(s.findings, id, i) ==> s.findings[i].auditId != auditId)
            && (r == Err(InvalidFindingState) <==>
                  exists i: nat :: RowOf(s.findings, id, i) && s.findings[i].auditId == auditId && s.findings[i].status == next)
            && (r.Ok? ==> exists i: nat ::
                  && RowOf(s.findings, id, i) && s.findings[i].auditId == auditId && s.findings[i].status != next
                  && r.value.findings == s.findings[i := s.findings[i].(status := next, updatedAt := now)]
                  && r.value.events == s.events + [Event(id, auditId, now, actor, s.findings[i].status, next, reason)])
  {
    RowOfIsIndex(s.findings, id);
    var i := IndexOfId(s.findings, id);
    if i < |s.findings| {
      assert RowOf(s.findings, id, i);
      AllowedMeans(s.findings[i].status, next);
    }
  }

  class FindingStore {
    var findings: seq<Finding>
    var events: seq<Event>

    ghost function View(): Trail reads this { Trail(findings, events) }

    constructor ()
      ensures View() == Trail([], [])
    {
      findings, events := [], [];
    }

    method UpsertDraft(auditId: string, draft: Draft, now: int, freshId: string, bound: Bound) returns (row: Finding)
      modifies this
      ensures findings == UpsertOne(old(findings), auditId, draft, now, freshId, bound)
      ensures events == old(events)
      ensures row in findings && row.content == Stored(draft, bound) && row.auditId == auditId && row.lastSeen == now
    {
      var i := IndexOfKey(findings, auditId, KeyOf(draft));
      if i == |findings| {
        row := Finding(freshId, auditId, Stored(draft, bound), Open, now, now, now, now);
        findings := findings + [row];
      } else {
        row := findings[i].(content := Stored(draft, bound), lastSeen := now, updatedAt := now);
        findings := findings[i := row];
        assert findings[i] == row;
      }
    }

    /** Inserts or refreshes one row per draft; returns the rows as stored, in draft order. */
    method UpsertEvaluation(auditId: string, drafts: seq<Draft>, now: int, freshIds: seq<string>, bound: Bound)
      returns (persisted: seq<Finding>)
      requires |freshIds| == |drafts|
      modifies this
      ensures findings == UpsertAll(old(findings), auditId, drafts, now, freshIds, bound)
      ensures events == old(events)
      ensures Report(persisted, auditId, drafts, bound)
    {
      persisted := [];
      ghost var before := findings;
      for n := 0 to |drafts|
        invariant findings == UpsertAll(before, auditId, drafts[..n], now, freshIds[..n], bound)
        invariant events == old(events)
        invariant Report(persisted, auditId, drafts[..n], bound)
      {
        UpsertAllStep(before, auditId, drafts, n, now, freshIds, bound);
        var row := UpsertDraft(auditId, drafts[n], now, freshIds[n], bound);
        ReportStep(persisted, auditId, drafts, n, bound, row);
        persisted := persisted + [row];
      }
      assert drafts[..|drafts|] == drafts && freshIds[..|drafts|] == freshIds;
    }

    /** Moves one finding to another status and records the event; a refusal changes nothing. */
    method SetStatus(auditId: string, id: string, next: Status, actor: string, reason: string, now: int)
      returns (refusal: Option<Refusal>)
      modifies this
      ensures var outcome := ChangeStatus(old(View()), auditId, id, next, actor, reason, now);
              match outcome
              case Ok(s) => refusal == None && View() == s
              case Err(e) => refusal == Some(e) && View() == old(View())
    {
      var i := IndexOfId(findings, id);
      if i == |findings| || findings[i].auditId != auditId { return Some(FindingNotFound); }
      var model := findings[i];
      if !Allowed(model.status, next) { return Some(InvalidFindingState); }
      findings := findings[i := model.(status := next, updatedAt := now)];
      events := events + [Event(model.id, auditId, now, actor, model.status, next, reason)];
      return None;
    }
  }

  // ----- what every reachable store satisfies

  ghost predicate UniqueIds(findings: seq<Finding>) {
    forall i, j :: 0 <= i < j < |findings| ==> findings[i].id != findings[j].id
  }

  /** At most one finding per audit, rule and dedupe key. */
  ghost predicate UniqueKeys(findings: seq<Finding>) {
    forall i, j :: 0 <= i < j < |findings| ==> !HasKey(findings[j], findings[i].auditId, KeyOf(findings[i].content))
  }

  function EventsOf(events: seq<Event>, id: string): seq<Event> {
    Filter(events, (e: Event) => e.findingId == id)
  }

  /** An unbroken chain of allowed transitions from `open` to the given status. */
  ghost predicate Chain(events: seq<Event>, status: Status) {
    if events == [] then status == Open
    else
      var last := events[|events| - 1];
      last.after == status && Allowed(last.before, last.after) && Chain(events[..|events| - 1], last.before)
  }

  ghost predicate Invariant(s: Trail) {
    && UniqueIds(s.findings)
    && UniqueKeys(s.findings)
    && (forall i :: 0 <= i < |s.findings| ==> Chain(EventsOf(s.events, s.findings[i].id), s.findings[i].status))
    && (forall e :: e in s.events ==> Owned(s.findings, e))
  }

  /** The event belongs to a stored finding of the same audit. */
  ghost predicate Owned(findings: seq<Finding>, e: Event) {
    exists i :: 0 <= i < |findings| && findings[i].id == e.findingId && findings[i].auditId == e.auditId
  }

  /** What a later store must keep of an earlier row: identity, key, first sighting. */
  predicate SameRow(a: Finding, b: Finding) {
    && a.id == b.id && a.auditId == b.auditId && KeyOf(a.content) == KeyOf(b.content)
    && a.firstSeen == b.firstSeen && a.createdAt == b.createdAt
  }

  /** No earlier row or event is dropped or reordered. */
  ghost predicate Extends(a: Trail, b: Trail) {
    && |a.findings| <= |b.findings|
    && (forall i :: 0 <= i < |a.findings| ==> SameRow(a.findings[i], b.findings[i]))
    && a.events <= b.events
  }

  ghost predicate KeepsStatuses(a: seq<Finding>, b: seq<Finding>) {
    && |a| <= |b|
    && (forall i :: 0 <= i < |a| ==> a[i].status == b[i].status && SameRow(a[i], b[i]))
    && (forall i :: |a| <= i < |b| ==> b[i].status == Open)
  }

  ghost predicate IdsWithin(a: seq<Finding>, b: seq<Finding>, freshIds: seq<string>) {
    |a| <= |b| && forall i :: |a| <= i < |b| ==> b[i].id in freshIds
  }

  ghost predicate FreshFor(findings: seq<Finding>, freshIds: seq<string>) {
    && (forall i, j :: 0 <= i < j < |freshIds| ==> freshIds[i] != freshIds[j])
    && (forall i, j :: 0 <= i < |findings| && 0 <= j < |freshIds| ==> findings[i].id != freshIds[j])
  }

  lemma UpsertOneKeeps(findings: seq<Finding>, auditId: string, d: Draft, now: int, freshId: string, bound: Bound)
    requires UniqueKeys(findings)
    ensures UniqueKeys(UpsertOne(findings, auditId, d, now, freshId, bound))
    ensures KeepsStatuses(findings, UpsertOne(findings, auditId, d, now, freshId, bound))
    ensures IdsWithin(findings, UpsertOne(findings, auditId, d, now, freshId, bound), [freshId])
  {
    assert KeyOf(Stored(d, bound)) == KeyOf(d);
  }

  lemma FreshFront(findings: seq<Finding>, freshIds: seq<string>, n: nat)
    requires FreshFor(findings, freshIds) && n <= |freshIds|
    ensures FreshFor(findings, freshIds[..n])
  {
  }

  /** After the first n drafts no row has the next fresh id. */
  lemma NextIdUnused(findings: seq<Finding>, before: seq<Finding>, freshIds: seq<string>, n: nat)
    requires FreshFor(findings, freshIds) && n < |freshIds|
    requires KeepsStatuses(findings, before) && IdsWithin(findings, before, freshIds[..n])
    ensures forall i :: 0 <= i < |before| ==> before[i].id != freshIds[n]
  {
    forall i | 0 <= i < |before| ensures before[i].id != freshIds[n] {
      if i >= |findings| {
        assert before[i].id in freshIds[..n];
      } else {
        assert SameRow(findings[i], before[i]);
      }
    }
  }

  /** An evaluation keeps keys and ids unique, every row, every status, and opens only new rows. */
  lemma {:induction false} UpsertAllKeeps(findings: seq<Finding>, auditId: string, drafts: seq<Draft>, now: int, freshIds: seq<string>, bound: Bound)
    requires |freshIds| == |drafts| && UniqueKeys(findings) && UniqueIds(findings) && FreshFor(findings, freshIds)
    ensures var after := UpsertAll(findings, auditId, drafts, now, freshIds, bound);
            UniqueKeys(after) && UniqueIds(after) && KeepsStatuses(findings, after) && IdsWithin(findings, after, freshIds)
  {
    if drafts != [] {
      var n := |drafts| - 1;
      var before := UpsertAll(findings, auditId, drafts[..n], now, freshIds[..n], bound);
      FreshFront(findings, freshIds, n);
      UpsertAllKeeps(findings, auditId, drafts[..n], now, freshIds[..n], bound);
      UpsertOneKeeps(before, auditId, drafts[n], now, freshIds[n], bound);
      NextIdUnused(findings, before, freshIds, n);
      KeptThenAdded(findings, before, UpsertOne(before, auditId, drafts[n], now, freshIds[n], bound), freshIds, n);
    }
  }

  /** Rows kept by a first step and a second one that may add one row are kept by both together. */
  lemma KeptThenAdded(a: seq<Finding>, b: seq<Finding>, c: seq<Finding>, freshIds: seq<string>, n: nat)
    requires n < |freshIds|
    requires KeepsStatuses(a, b) && IdsWithin(a, b, freshIds[..n]) && UniqueIds(b)
    requires KeepsStatuses(b, c) && IdsWithin(b, c, [freshIds[n]]) && |c| <= |b| + 1
    requires forall i :: 0 <= i < |b| ==> b[i].id != freshIds[n]
    ensures KeepsStatuses(a, c) && IdsWithin(a, c, freshIds) && UniqueIds(c)
  {
    assert forall i :: 0 <= i < |b| ==> SameRow(b[i], c[i]);
    forall i | |a| <= i < |c| ensures c[i].id in freshIds {
      if i < |b| { assert b[i].id in freshIds[..n]; } else { assert c[i].id in [freshIds[n]]; }
    }
  }

  lemma NoEventsForNew(s: Trail, id: string)
    requires Invariant(s) && forall i :: 0 <= i < |s.findings| ==> s.findings[i].id != id
    ensures EventsOf(s.events, id) == []
  {
    var mine := EventsOf(s.events, id);
    if mine != [] {
      FilterMember(s.events, (e: Event) => e.findingId == id, mine[0]);
      assert false;
    }
  }

  lemma {:induction false} EvaluateKeeps(s: Trail, auditId: string, drafts: seq<Draft>, now: int, freshIds: seq<string>, bound: Bound)
    requires |freshIds| == |drafts| && Invariant(s) && FreshFor(s.findings, freshIds)
    ensures var after := Trail(UpsertAll(s.findings, auditId, drafts, now, freshIds, bound), s.events);
            Invariant(after) && Extends(s, after) && KeepsStatuses(s.findings, after.findings)
  {
    var after := UpsertAll(s.findings, auditId, drafts, now, freshIds, bound);
    UpsertAllKeeps(s.findings, auditId, drafts, now, freshIds, bound);
    forall i | 0 <= i < |after| ensures Chain(EventsOf(s.events, after[i].id), after[i].status) {
      if i < |s.findings| {
        assert SameRow(s.findings[i], after[i]);
      } else {
        NoEventsForNew(s, after[i].id);
      }
    }
    forall e | e in s.events ensures Owned(after, e) {
      var i :| 0 <= i < |s.findings| && s.findings[i].id == e.findingId && s.findings[i].auditId == e.auditId;
      assert SameRow(s.findings[i], after[i]);
    }
  }

  /** Recording an event for one finding extends that finding's trail and no other. */
  lemma EventsAfter(events: seq<Event>, event: Event, id: string)
    ensures EventsOf(events + [event], id)
         == if event.findingId == id then EventsOf(events, id) + [event] else EventsOf(events, id)
  {
    FilterSnoc(events, event, (e: Event) => e.findingId == id);
  }

  lemma ChainExtended(events: seq<Event>, event: Event)
    requires Chain(events, event.before) && Allowed(event.before, event.after)
    ensures Chain(events + [event], event.after)
  {
    assert (events + [event])[..|events|] == events;
  }

  lemma ChainsAfter(s: Trail, k: nat, event: Event, i: nat)
    requires Invariant(s) && k < |s.findings| && i < |s.findings|
    requires event.findingId == s.findings[k].id && event.before == s.findings[k].status && Allowed(event.before, event.after)
    ensures Chain(EventsOf(s.events + [event], s.findings[i].id), if i == k then event.after else s.findings[i].status)
  {
    EventsAfter(s.events, event, s.findings[i].id);
    assert i < k ==> s.findings[i].id != s.findings[k].id;
    if i == k { ChainExtended(EventsOf(s.events, s.findings[k].id), event); }
  }

  lemma ChangeStatusKeeps(s: Trail, auditId: string, id: string, next: Status, actor: string, reason: string, now: int)
    requires Invariant(s) && ChangeStatus(s, auditId, id, next, actor, reason, now).Ok?
    ensures var after := ChangeStatus(s, auditId, id, next, actor, reason, now).value;
            Invariant(after) && Extends(s, after)
  {
    var after := ChangeStatus(s, auditId, id, next, actor, reason, now).value;
    var k := IndexOfId(s.findings, id);
    var event := Event(id, auditId, now, actor, s.findings[k].status, next, reason);
    assert after.events == s.events + [event];
    assert Extends(s, after);
    forall i | 0 <= i < |after.findings|
      ensures Chain(EventsOf(after.events, after.findings[i].id), after.findings[i].status)
    {
      ChainsAfter(s, k, event, i);
    }
    forall e | e in after.events ensures Owned(after.findings, e) {
      OwnedAfter(s, after.findings, e, event, k);
    }
  }

  lemma OwnedAfter(s: Trail, after: seq<Finding>, e: Event, event: Event, k: nat)
    requires Invariant(s) && |after| == |s.findings| && k < |after| && (e in s.events || e == event)
    requires forall i :: 0 <= i < |after| ==> SameRow(s.findings[i], after[i])
    requires event.findingId == after[k].id && event.auditId == after[k].auditId
    ensures Owned(after, e)
  {
    if e in s.events {
      var i :| 0 <= i < |s.findings| && s.findings[i].id == e.findingId && s.findings[i].auditId == e.auditId;
      assert SameRow(s.findings[i], after[i]);
    }
  }

  // ----- whole runs

  datatype Step =
    | Evaluate(auditId: string, drafts: seq<Draft>, now: int, freshIds: seq<string>)
    | Review(auditId: string, id: string, next: Status, actor: string, reason: string, now: int)

  /** One transaction; a refused status change leaves the store as it was. */
  function Next(s: Trail, step: Step, bound: Bound): Trail {
    match step
    case Evaluate(auditId, drafts, now, freshIds) =>
      if |freshIds| == |drafts| then Trail(UpsertAll(s.findings, auditId, drafts, now, freshIds, bound), s.events) else s
    case Review(auditId, id, next, actor, reason, now) =>
      var outcome := ChangeStatus(s, auditId, id, next, actor, reason, now);
      if outcome.Ok? then outcome.value else s
  }

  function Run(s: Trail, steps: seq<Step>, bound: Bound): Trail
    decreases |steps|
  {
    if steps == [] then s else Run(Next(s, steps[0], bound), steps[1..], bound)
  }

  /** Every evaluation of the run draws ids that no finding has yet. */
  ghost predicate DrawsFreshIds(s: Trail, steps: seq<Step>, bound: Bound)
    decreases |steps|
  {
    steps != [] ==>
      && (steps[0].Evaluate? ==> FreshFor(s.findings, steps[0].freshIds))
      && DrawsFreshIds(Next(s, steps[0], bound), steps[1..], bound)
  }

  lemma StepKeeps(s: Trail, step: Step, bound: Bound)
    requires Invariant(s) && (step.Evaluate? ==> FreshFor(s.findings, step.freshIds))
    ensures Invariant(Next(s, step, bound)) && Extends(s, Next(s, step, bound))
    ensures step.Evaluate? ==> KeepsStatuses(s.findings, Next(s, step, bound).findings)
  {
    match step
    case Evaluate(auditId, drafts, now, freshIds) =>
      if |freshIds| == |drafts| { EvaluateKeeps(s, auditId, drafts, now, freshIds, bound); }
    case Review(auditId, id, next, actor, reason, now) =>
      if ChangeStatus(s, auditId, id, next, actor, reason, now).Ok? {
        ChangeStatusKeeps(s, auditId, id, next, actor, reason, now);
      }
  }

  /** Every interleaving of evaluations and reviews keeps one finding per key and a gapless trail per
      finding, and drops nothing. */
  lemma {:induction false} RunKeeps(s: Trail, steps: seq<Step>, bound: Bound)
    requires Invariant(s) && DrawsFreshIds(s, steps, bound)
    ensures Invariant(Run(s, steps, bound)) && Extends(s, Run(s, steps, bound))
    decreases |steps|
  {
    if steps != [] {
      StepKeeps(s, steps[0], bound);
      RunKeeps(Next(s, steps[0], bound), steps[1..], bound);
      forall i | 0 <= i < |s.findings| ensures SameRow(s.findings[i], Run(s, steps, bound).findings[i]) {
        assert SameRow(s.findings[i], Next(s, steps[0], bound).findings[i]);
      }
    }
  }

  // ----- storing is idempotent

  /** After an evaluation each of its drafts has exactly one row, which carries the last such draft. */
  ghost predicate Carries(findings: seq<Finding>, auditId: string, drafts: seq<Draft>, bound: Bound) {
    forall i :: 0 <= i < |drafts| && (forall j :: i < j < |drafts| ==> KeyOf(drafts[j]) != KeyOf(drafts[i])) ==>
      Carried(findings, auditId, drafts[i], bound)
  }

  /** A row carries the draft: some row of the key has its stored content. */
  ghost predicate Carried(findings: seq<Finding>, auditId: string, d: Draft, bound: Bound) {
    exists f :: f in findings && HasKey(f, auditId, KeyOf(d)) && f.content == Stored(d, bound)
  }

  lemma UpsertOneCarries(findings: seq<Finding>, auditId: string, d: Draft, now: int, freshId: string, bound: Bound)
    ensures Carried(UpsertOne(findings, auditId, d, now, freshId, bound), auditId, d, bound)
  {
    var after := UpsertOne(findings, auditId, d, now, freshId, bound);
    var k := IndexOfKey(findings, auditId, KeyOf(d));
    assert after[k] in after && after[k].content == Stored(d, bound);
  }

  /** Storing a draft of another key leaves what was carried. */
  lemma StillCarried(findings: seq<Finding>, auditId: string, d: Draft, other: Draft, now: int, freshId: string, bound: Bound)
    requires Carried(findings, auditId, d, bound) && KeyOf(other) != KeyOf(d)
    ensures Carried(UpsertOne(findings, auditId, other, now, freshId, bound), auditId, d, bound)
  {
    var after := UpsertOne(findings, auditId, other, now, freshId, bound);
    var f :| f in findings && HasKey(f, auditId, KeyOf(d)) && f.content == Stored(d, bound);
    var j :| 0 <= j < |findings| && findings[j] == f;
    assert after[j] == f;
  }

  lemma {:induction false} UpsertCarries(findings: seq<Finding>, auditId: string, drafts: seq<Draft>, now: int, freshIds: seq<string>, bound: Bound)
    requires |freshIds| == |drafts|
    ensures Carries(UpsertAll(findings, auditId, drafts, now, freshIds, bound), auditId, drafts, bound)
  {
    if drafts != [] {
      var n := |drafts| - 1;
      var before := UpsertAll(findings, auditId, drafts[..n], now, freshIds[..n], bound);
      var after := UpsertAll(findings, auditId, drafts, now, freshIds, bound);
      UpsertCarries(findings, auditId, drafts[..n], now, freshIds[..n], bound);
      UpsertOneCarries(before, auditId, drafts[n], now, freshIds[n], bound);
      forall i | 0 <= i < n && (forall j :: i < j < |drafts| ==> KeyOf(drafts[j]) != KeyOf(drafts[i]))
        ensures Carried(after, auditId, drafts[i], bound)
      {
        assert drafts[..n][i] == drafts[i] && KeyOf(drafts[n]) != KeyOf(drafts[i]);
        StillCarried(before, auditId, drafts[i], drafts[n], now, freshIds[n], bound);
      }
    }
  }

  /** Rows that differ at most in when they were last seen. */
  predicate SameApartFromSighting(a: Finding, b: Finding) {
    a.(lastSeen := 0, updatedAt := 0) == b.(lastSeen := 0, updatedAt := 0)
  }

  /** The row of a draft's key already carries that draft. */
  ghost predicate Settled(findings: seq<Finding>, auditId: string, d: Draft, bound: Bound) {
    exists i :: 0 <= i < |findings| && HasKey(findings[i], auditId, KeyOf(d)) && findings[i].content == Stored(d, bound)
  }

  lemma {:induction false} UpsertSettled(findings: seq<Finding>, auditId: string, drafts: seq<Draft>, now: int, freshIds: seq<string>, bound: Bound)
    requires |freshIds| == |drafts| && UniqueKeys(findings)
    requires forall i :: 0 <= i < |drafts| ==> Settled(findings, auditId, drafts[i], bound)
    ensures var after := UpsertAll(findings, auditId, drafts, now, freshIds, bound);
            |after| == |findings| && forall i :: 0 <= i < |findings| ==> SameApartFromSighting(findings[i], after[i])
  {
    if drafts != [] {
      var n := |drafts| - 1;
      var before := UpsertAll(findings, auditId, drafts[..n], now, freshIds[..n], bound);
      UpsertSettled(findings, auditId, drafts[..n], now, freshIds[..n], bound);
      var i :| 0 <= i < |findings| && HasKey(findings[i], auditId, KeyOf(drafts[n])) && findings[i].content == Stored(drafts[n], bound);
      assert forall j :: 0 <= j < |before| ==> SameApartFromSighting(findings[j], before[j]);
      var k := IndexOfKey(before, auditId, KeyOf(drafts[n]));
      assert k <= i;
      assert k == i by { assert HasKey(findings[k], auditId, KeyOf(drafts[n])); }
    }
  }

  /** Storing the same deduplicated evaluation again, at any later time, changes only the sighting times. */
  lemma StoringIdempotent(s: Trail, auditId: string, drafts: seq<Draft>, now: int, freshIds: seq<string>,
                          later: int, laterIds: seq<string>, bound: Bound)
    requires Invariant(s) && |freshIds| == |drafts| == |laterIds| && FreshFor(s.findings, freshIds)
    requires forall i, j :: 0 <= i < j < |drafts| ==> KeyOf(drafts[i]) != KeyOf(drafts[j])
    ensures var once := UpsertAll(s.findings, auditId, drafts, now, freshIds, bound);
            var twice := UpsertAll(once, auditId, drafts, later, laterIds, bound);
            |twice| == |once| && forall i :: 0 <= i < |once| ==> SameApartFromSighting(once[i], twice[i])
  {
    var once := UpsertAll(s.findings, auditId, drafts, now, freshIds, bound);
    UpsertAllKeeps(s.findings, auditId, drafts, now, freshIds, bound);
    UpsertCarries(s.findings, auditId, drafts, now, freshIds, bound);
    forall i | 0 <= i < |drafts| ensures Settled(once, auditId, drafts[i], bound) {
      var f :| f in once && HasKey(f, auditId, KeyOf(drafts[i])) && f.content == Stored(drafts[i], bound);
      var k :| 0 <= k < |once| && once[k] == f;
    }
    UpsertSettled(once, auditId, drafts, later, laterIds, bound);
  }
}
