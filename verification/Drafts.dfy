/** Merging and ordering the finding drafts of one evaluation. */
module Drafts {
  import opened Lists
  import opened Ordering
  import opened Outcomes

  datatype Severity = Critical | High | Medium | Low | Info
  datatype Confidence = Confirmed | HighConfidence | MediumConfidence | LowConfidence | Hint | Unknown

  function SeverityRank(s: Severity): nat {
    match s case Critical => 0 case High => 1 case Medium => 2 case Low => 3 case Info => 4
  }

  function ConfidenceRank(c: Confidence): nat {
    match c
    case Confirmed => 0 case HighConfidence => 1 case MediumConfidence => 2
    case LowConfidence => 3 case Hint => 4 case Unknown => 5
  }

  datatype Datum = Count(count: nat) | Text(text: string)

  /** The fields that a merge copies from the earlier draft. */
  datatype Description = Description(
    ruleVersion: string, family: string, title: string, assetId: Option<string>, serviceId: Option<string>,
    description: string, recommendation: string)

  datatype Draft = Draft(
    ruleId: string, dedupeKey: string, severity: Severity, confidence: Confidence, rationale: string,
    observationIds: seq<string>, evidenceIds: seq<string>, data: map<string, Datum>, about: Description)

  datatype Key = Key(ruleId: string, dedupeKey: string)

  function KeyOf(d: Draft): Key { Key(d.ruleId, d.dedupeKey) }

  const CORRELATED := "correlated_observation_count"

  // ----- merging two drafts

  /** The first list followed by the new items of the second, each once. */
  function AppendNew(left: seq<string>, right: seq<string>): seq<string> {
    if right == [] then left
    else
      var k := |right| - 1;
      var init := AppendNew(left, right[..k]);
      if right[k] in init then init else init + [right[k]]
  }

  method AppendMissing(left: seq<string>, right: seq<string>) returns (items: seq<string>)
    ensures items == AppendNew(left, right)
  {
    items := left;
    for i := 0 to |right|
      invariant items == AppendNew(left, right[..i])
    {
      assert right[..i + 1][..i] == right[..i];
      if right[i] !in items {
        items := items + [right[i]];
      }
    }
    assert right[..|right|] == right;
  }

  function Worse(left: Severity, right: Severity): Severity {
    if SeverityRank(left) <= SeverityRank(right) then left else right
  }

  function Surer(left: Confidence, right: Confidence): Confidence {
    if ConfidenceRank(left) <= ConfidenceRank(right) then left else right
  }

  function JoinRationale(left: string, right: string): string {
    if left == right then left else left + " " + right
  }

  /** The union of two data dictionaries, with the observation count written over it when there is one. */
  function Stamp(left: map<string, Datum>, right: map<string, Datum>, observed: bool, count: nat): map<string, Datum> {
    if observed then (left + right)[CORRELATED := Count(count)] else left + right
  }

  function MergedData(left: Draft, right: Draft): map<string, Datum> {
    Stamp(left.data, right.data, left.observationIds != [] || right.observationIds != [],
          |AppendNew(left.observationIds, right.observationIds)|)
  }

  function Merge(left: Draft, right: Draft): Draft {
    left.(severity := Worse(left.severity, right.severity),
          confidence := Surer(left.confidence, right.confidence),
          observationIds := AppendNew(left.observationIds, right.observationIds),
          evidenceIds := AppendNew(left.evidenceIds, right.evidenceIds),
          data := MergedData(left, right),
          rationale := JoinRationale(left.rationale, right.rationale))
  }

  method MergeDrafts(left: Draft, right: Draft) returns (merged: Draft)
    ensures merged == Merge(left, right)
  {
    var observations := AppendMissing(left.observationIds, right.observationIds);
    var evidence := AppendMissing(left.evidenceIds, right.evidenceIds);
    var data := left.data + right.data;
    if left.observationIds != [] || right.observationIds != [] {
      data := data[CORRELATED := Count(|observations|)];
    }
    merged := left.(
      severity := Worse(left.severity, right.severity), confidence := Surer(left.confidence, right.confidence),
      observationIds := observations, evidenceIds := evidence, data := data,
      rationale := if left.rationale == right.rationale then left.rationale else left.rationale + " " + right.rationale);
  }

  // ----- the dictionary of merged drafts

  function Absorb(merged: map<Key, Draft>, d: Draft): map<Key, Draft> {
    merged[KeyOf(d) := if KeyOf(d) in merged then Merge(merged[KeyOf(d)], d) else d]
  }

  function AbsorbAll(merged: map<Key, Draft>, drafts: seq<Draft>): map<Key, Draft> {
    if drafts == [] then merged
    else Absorb(AbsorbAll(merged, drafts[..|drafts| - 1]), drafts[|drafts| - 1])
  }

  ghost predicate KeyedByDraft(merged: map<Key, Draft>) {
    forall k :: k in merged ==> KeyOf(merged[k]) == k
  }

  lemma {:induction false} AbsorbAllKeyed(merged: map<Key, Draft>, drafts: seq<Draft>)
    requires KeyedByDraft(merged)
    ensures KeyedByDraft(AbsorbAll(merged, drafts))
    ensures forall k :: k in AbsorbAll(merged, drafts) <==> k in merged || exists i :: 0 <= i < |drafts| && KeyOf(drafts[i]) == k
  {
    if drafts != [] {
      var n := |drafts| - 1;
      AbsorbAllKeyed(merged, drafts[..n]);
      forall k ensures k in AbsorbAll(merged, drafts) <==> k in merged || exists i :: 0 <= i < |drafts| && KeyOf(drafts[i]) == k {
        if i :| 0 <= i < |drafts| && KeyOf(drafts[i]) == k {
          assert i < n ==> drafts[..n][i] == drafts[i];
        }
      }
    }
  }

  lemma {:induction false} AbsorbAllConcat(merged: map<Key, Draft>, a: seq<Draft>, b: seq<Draft>)
    ensures AbsorbAll(merged, a + b) == AbsorbAll(AbsorbAll(merged, a), b)
  {
    if b == [] {
      assert a + b == a;
    } else {
      var n := |b| - 1;
      AbsorbAllConcat(merged, a, b[..n]);
      assert (a + b)[..|a + b| - 1] == a + b[..n];
    }
  }

  /** Left fold of the merge over a non-empty list. */
  function Fold(drafts: seq<Draft>): Draft
    requires drafts != []
  {
    if |drafts| == 1 then drafts[0] else Merge(Fold(drafts[..|drafts| - 1]), drafts[|drafts| - 1])
  }

  function WithKey(drafts: seq<Draft>, k: Key): seq<Draft> {
    Filter(drafts, (d: Draft) => KeyOf(d) == k)
  }

  /** Each dictionary entry is the left fold of the drafts with its key, in the order they came. */
  lemma {:induction false} MergedIsFold(drafts: seq<Draft>, k: Key)
    ensures k in AbsorbAll(map[], drafts) <==> WithKey(drafts, k) != []
    ensures k in AbsorbAll(map[], drafts) ==> AbsorbAll(map[], drafts)[k] == Fold(WithKey(drafts, k))
  {
    if drafts != [] {
      var n := |drafts| - 1;
      var init := WithKey(drafts[..n], k);
      MergedIsFold(drafts[..n], k);
      AbsorbAllKeyed(map[], drafts[..n]);
      if KeyOf(drafts[n]) == k {
        assert WithKey(drafts, k) == init + [drafts[n]];
        assert (init + [drafts[n]])[..|init|] == init;
      } else {
        assert WithKey(drafts, k) == init;
      }
    }
  }

  // ----- the sorted result

  datatype SortKey = SortKey(rank: nat, ruleId: string, dedupeKey: string)

  function SortKeyOf(d: Draft): SortKey { SortKey(SeverityRank(d.severity), d.ruleId, d.dedupeKey) }

  predicate SortKeyLess(a: SortKey, b: SortKey) {
    || a.rank < b.rank
    || (a.rank == b.rank && StringLess(a.ruleId, b.ruleId))
    || (a.rank == b.rank && a.ruleId == b.ruleId && StringLess(a.dedupeKey, b.dedupeKey))
  }

  lemma {:induction false} SortKeyLessStrictTotal()
    ensures StrictTotal(SortKeyLess)
  {
    StringLessStrictTotal();
    forall a: SortKey, b: SortKey, c: SortKey | SortKeyLess(a, b) && SortKeyLess(b, c)
      ensures SortKeyLess(a, c)
    {
    }
  }

  function SortKeysOf(drafts: seq<Draft>): seq<SortKey> {
    seq(|drafts|, i requires 0 <= i < |drafts| => SortKeyOf(drafts[i]))
  }

  /** The list of a dictionary's values, strictly ordered by (severity rank, rule id, dedupe key). */
  ghost predicate IsListing(merged: map<Key, Draft>, list: seq<Draft>) {
    && Ascending(SortKeyLess, SortKeysOf(list))
    && (forall i :: 0 <= i < |list| ==> KeyOf(list[i]) in merged && merged[KeyOf(list[i])] == list[i])
    && forall k :: k in merged ==> merged[k] in list
  }

  /** A dictionary has only one such list. */
  lemma ListUnique(merged: map<Key, Draft>, a: seq<Draft>, b: seq<Draft>)
    requires KeyedByDraft(merged) && IsListing(merged, a) && IsListing(merged, b)
    ensures a == b
  {
    SortKeyLessStrictTotal();
    forall s ensures s in SortKeysOf(a) <==> s in SortKeysOf(b) {
      if s in SortKeysOf(a) { SameSortKeys(merged, a, b, s); }
      if s in SortKeysOf(b) { SameSortKeys(merged, b, a, s); }
    }
    AscendingUnique(SortKeyLess, SortKeysOf(a), SortKeysOf(b));
    forall i | 0 <= i < |a| ensures a[i] == b[i] {
      assert SortKeysOf(a)[i] == SortKeysOf(b)[i];
    }
    assert |a| == |SortKeysOf(a)| == |SortKeysOf(b)| == |b|;
  }

  lemma SameSortKeys(merged: map<Key, Draft>, a: seq<Draft>, b: seq<Draft>, s: SortKey)
    requires IsListing(merged, a) && IsListing(merged, b) && s in SortKeysOf(a)
    ensures s in SortKeysOf(b)
  {
    var i :| 0 <= i < |a| && SortKeysOf(a)[i] == s;
    assert a[i] in b;
    var j :| 0 <= j < |b| && b[j] == a[i];
    assert SortKeysOf(b)[j] == s;
  }

  /** `deduplicate_drafts`. */
  method Deduplicate(drafts: seq<Draft>) returns (list: seq<Draft>)
    ensures IsListing(AbsorbAll(map[], drafts), list)
  {
    var merged: map<Key, Draft> := map[];
    var order: seq<Key> := [];
    for i := 0 to |drafts|
      invariant merged == AbsorbAll(map[], drafts[..i])
      invariant forall k :: k in order <==> k in merged
    {
      assert drafts[..i + 1][..i] == drafts[..i];
      var draft := drafts[i];
      var key := KeyOf(draft);
      if key !in merged {
        merged, order := merged[key := draft], order + [key];
      } else {
        var joined := MergeDrafts(merged[key], draft);
        merged := merged[key := joined];
      }
    }
    assert drafts[..|drafts|] == drafts;
    AbsorbAllKeyed(map[], drafts);
    list := SortByKey(merged, order);
  }

  method SortByKey(merged: map<Key, Draft>, order: seq<Key>) returns (list: seq<Draft>)
    requires KeyedByDraft(merged) && forall k :: k in order <==> k in merged
    ensures IsListing(merged, list)
  {
    assert forall i :: 0 <= i < |order| ==> order[i] in merged;
    var unsorted := seq(|order|, i requires 0 <= i < |order| => SortKeyOf(merged[order[i]]));
    var keys := SortedDistinct(SortKeyLess, unsorted);
    SortKeyLessStrictTotal();
    SortedDistinctCorrect(SortKeyLess, unsorted);
    forall i | 0 <= i < |keys|
      ensures Key(keys[i].ruleId, keys[i].dedupeKey) in merged
      ensures SortKeyOf(merged[Key(keys[i].ruleId, keys[i].dedupeKey)]) == keys[i]
    {
      assert keys[i] in unsorted;
      var j :| 0 <= j < |unsorted| && unsorted[j] == keys[i];
      assert merged[order[j]] == merged[Key(keys[i].ruleId, keys[i].dedupeKey)];
    }
    list := seq(|keys|, i requires 0 <= i < |keys| => merged[Key(keys[i].ruleId, keys[i].dedupeKey)]);
    assert SortKeysOf(list) == keys;
    forall k | k in merged ensures merged[k] in list {
      var j :| 0 <= j < |order| && order[j] == k;
      assert unsorted[j] in keys;
      var i :| 0 <= i < |keys| && keys[i] == unsorted[j];
      assert list[i] == merged[k];
    }
  }

  lemma DistinctKeys(merged: map<Key, Draft>, list: seq<Draft>)
    requires IsListing(merged, list)
    ensures forall i, j :: 0 <= i < j < |list| ==> KeyOf(list[i]) != KeyOf(list[j])
  {
    SortKeyLessStrictTotal();
    forall i, j | 0 <= i < j < |list| ensures KeyOf(list[i]) != KeyOf(list[j]) {
      assert SortKeyLess(SortKeysOf(list)[i], SortKeysOf(list)[j]);
      assert !SortKeyLess(SortKeyOf(list[i]), SortKeyOf(list[i]));
    }
  }

  lemma {:induction false} AbsorbDistinct(list: seq<Draft>)
    requires forall i, j :: 0 <= i < j < |list| ==> KeyOf(list[i]) != KeyOf(list[j])
    ensures forall i :: 0 <= i < |list| ==> KeyOf(list[i]) in AbsorbAll(map[], list) && AbsorbAll(map[], list)[KeyOf(list[i])] == list[i]
  {
    if list != [] {
      var n := |list| - 1;
      AbsorbDistinct(list[..n]);
      AbsorbAllKeyed(map[], list[..n]);
      assert forall i :: 0 <= i < n ==> list[..n][i] == list[i];
    }
  }

  /** A deduplicated list holds one draft per key, so folding it gives back the dictionary it lists. */
  lemma AbsorbList(merged: map<Key, Draft>, list: seq<Draft>)
    requires KeyedByDraft(merged) && IsListing(merged, list)
    ensures AbsorbAll(map[], list) == merged
  {
    var again := AbsorbAll(map[], list);
    DistinctKeys(merged, list);
    AbsorbDistinct(list);
    AbsorbAllKeyed(map[], list);
    forall k | k in merged ensures k in again && again[k] == merged[k] {
      var i :| 0 <= i < |list| && list[i] == merged[k];
    }
    forall k | k in again ensures k in merged {
      var i :| 0 <= i < |list| && KeyOf(list[i]) == k;
    }
  }

  /** Deduplicating a deduplicated list gives it back. */
  lemma DeduplicationIdempotent(drafts: seq<Draft>, once: seq<Draft>, twice: seq<Draft>)
    requires IsListing(AbsorbAll(map[], drafts), once) && IsListing(AbsorbAll(map[], once), twice)
    ensures twice == once
  {
    AbsorbAllKeyed(map[], drafts);
    AbsorbList(AbsorbAll(map[], drafts), once);
    ListUnique(AbsorbAll(map[], drafts), once, twice);
  }

  /** Batching: a first batch may be replaced by its deduplicated list. */
  lemma {:induction false} BatchingLaw(a: seq<Draft>, b: seq<Draft>, first: seq<Draft>, whole: seq<Draft>, batched: seq<Draft>)
    requires IsListing(AbsorbAll(map[], a), first)
    requires IsListing(AbsorbAll(map[], a + b), whole) && IsListing(AbsorbAll(map[], first + b), batched)
    ensures whole == batched
  {
    AbsorbAllKeyed(map[], a);
    AbsorbList(AbsorbAll(map[], a), first);
    AbsorbAllConcat(map[], a, b);
    AbsorbAllConcat(map[], first, b);
    AbsorbAllKeyed(map[], a + b);
    ListUnique(AbsorbAll(map[], a + b), whole, batched);
  }

  // ----- what does not depend on the order of the drafts

  ghost predicate SameDrafts(a: seq<Draft>, b: seq<Draft>) {
    forall d :: d in a <==> d in b
  }

  lemma {:induction false} AppendNewMembers(left: seq<string>, right: seq<string>)
    ensures forall x :: x in AppendNew(left, right) <==> x in left || x in right
  {
    if right != [] {
      AppendNewMembers(left, right[..|right| - 1]);
      assert right == right[..|right| - 1] + [right[|right| - 1]];
    }
  }

  /** The fold's severity and confidence are the best of any draft. */
  lemma {:induction false} FoldBest(drafts: seq<Draft>)
    requires drafts != []
    ensures exists d :: d in drafts && d.severity == Fold(drafts).severity
    ensures forall d :: d in drafts ==> SeverityRank(Fold(drafts).severity) <= SeverityRank(d.severity)
    ensures exists d :: d in drafts && d.confidence == Fold(drafts).confidence
    ensures forall d :: d in drafts ==> ConfidenceRank(Fold(drafts).confidence) <= ConfidenceRank(d.confidence)
  {
    var n := |drafts| - 1;
    var init, last := drafts[..n], drafts[n];
    assert forall d :: d in drafts <==> d in init || d == last by { assert drafts == init + [last]; }
    if n != 0 {
      FoldBest(init);
      var s :| s in init && s.severity == Fold(init).severity;
      var c :| c in init && c.confidence == Fold(init).confidence;
      assert Fold(drafts) == Merge(Fold(init), last);
      assert Fold(drafts).severity == s.severity || Fold(drafts).severity == last.severity;
      assert Fold(drafts).confidence == c.confidence || Fold(drafts).confidence == last.confidence;
      assert s in drafts && c in drafts && last in drafts;
    }
  }

  /** The fold's observation ids are those of all the drafts. */
  lemma {:induction false} FoldObservations(drafts: seq<Draft>, x: string)
    requires drafts != []
    ensures x in Fold(drafts).observationIds <==> exists d :: d in drafts && x in d.observationIds
  {
    var n := |drafts| - 1;
    var init, last := drafts[..n], drafts[n];
    assert forall d :: d in drafts <==> d in init || d == last by { assert drafts == init + [last]; }
    if n != 0 {
      FoldObservations(init, x);
      AppendNewMembers(Fold(init).observationIds, last.observationIds);
    }
  }

  /** The fold's evidence ids are those of all the drafts. */
  lemma {:induction false} FoldEvidence(drafts: seq<Draft>, x: string)
    requires drafts != []
    ensures x in Fold(drafts).evidenceIds <==> exists d :: d in drafts && x in d.evidenceIds
  {
    var n := |drafts| - 1;
    var init, last := drafts[..n], drafts[n];
    assert forall d :: d in drafts <==> d in init || d == last by { assert drafts == init + [last]; }
    if n != 0 {
      FoldEvidence(init, x);
      AppendNewMembers(Fold(init).evidenceIds, last.evidenceIds);
    }
  }

  lemma SummaryUnique(a: seq<Draft>, b: seq<Draft>)
    requires a != [] && b != [] && SameDrafts(a, b)
    ensures Fold(a).severity == Fold(b).severity && Fold(a).confidence == Fold(b).confidence
    ensures forall x :: x in Fold(a).observationIds <==> x in Fold(b).observationIds
    ensures forall x :: x in Fold(a).evidenceIds <==> x in Fold(b).evidenceIds
  {
    FoldBest(a);
    FoldBest(b);
    forall x ensures x in Fold(a).observationIds <==> x in Fold(b).observationIds {
      FoldObservations(a, x);
      FoldObservations(b, x);
    }
    forall x ensures x in Fold(a).evidenceIds <==> x in Fold(b).evidenceIds {
      FoldEvidence(a, x);
      FoldEvidence(b, x);
    }
  }

  /** Per key: the same drafts in any order and multiplicity give the same keys, the same best severity and
      confidence, and the same sets of observation and evidence ids. */
  lemma OrderIndependent(a: seq<Draft>, b: seq<Draft>, k: Key)
    requires SameDrafts(a, b)
    ensures k in AbsorbAll(map[], a) <==> k in AbsorbAll(map[], b)
    ensures k in AbsorbAll(map[], a) ==>
              var x, y := AbsorbAll(map[], a)[k], AbsorbAll(map[], b)[k];
              && x.severity == y.severity && x.confidence == y.confidence
              && (forall o :: o in x.observationIds <==> o in y.observationIds)
              && (forall e :: e in x.evidenceIds <==> e in y.evidenceIds)
  {
    MergedIsFold(a, k);
    MergedIsFold(b, k);
    var wa, wb := WithKey(a, k), WithKey(b, k);
    forall d ensures d in wa <==> d in wb {
      FilterMember(a, (d: Draft) => KeyOf(d) == k, d);
      FilterMember(b, (d: Draft) => KeyOf(d) == k, d);
    }
    assert wa != [] ==> wa[0] in wb;
    assert wb != [] ==> wb[0] in wa;
    if wa != [] {
      SummaryUnique(wa, wb);
    }
  }

  // ----- how far merging is associative

  lemma {:induction false} AppendNewAssociative(x: seq<string>, y: seq<string>, z: seq<string>)
    ensures AppendNew(AppendNew(x, y), z) == AppendNew(x, AppendNew(y, z))
  {
    if z != [] {
      var k := |z| - 1;
      AppendNewAssociative(x, y, z[..k]);
      AppendNewMembers(y, z[..k]);
      AppendNewMembers(AppendNew(x, y), z[..k]);
      AppendNewMembers(x, y);
      AppendNewMembers(x, AppendNew(y, z[..k]));
      if z[k] !in AppendNew(y, z[..k]) {
        var yz := AppendNew(y, z[..k]);
        assert (yz + [z[k]])[..|yz|] == yz;
      }
    }
  }

  /** When joining rationales two ways gives the same text. */
  predicate RationalesAssociate(x: string, y: string, z: string) {
    (x == y == z) || (x != y && y != z && x != y + " " + z && z != x + " " + y)
  }

  /** Merging is associative in everything but the rationale, and in the rationale exactly as stated. */
  lemma MergeAssociative(x: Draft, y: Draft, z: Draft)
    ensures Merge(Merge(x, y), z).(rationale := "") == Merge(x, Merge(y, z)).(rationale := "")
    ensures Merge(Merge(x, y), z) == Merge(x, Merge(y, z))
       <==> RationalesAssociate(x.rationale, y.rationale, z.rationale)
  {
    AppendNewAssociative(x.observationIds, y.observationIds, z.observationIds);
    AppendNewAssociative(x.evidenceIds, y.evidenceIds, z.evidenceIds);
    AppendNewMembers(x.observationIds, y.observationIds);
    AppendNewMembers(y.observationIds, z.observationIds);
    DataAssociative(x, y, z);
    RationaleAssociative(x.rationale, y.rationale, z.rationale);
  }

  lemma AppendNewEmpty(x: seq<string>, y: seq<string>)
    ensures AppendNew(x, y) == [] <==> x == [] && y == []
  {
    AppendNewMembers(x, y);
    assert x != [] ==> x[0] in AppendNew(x, y);
    assert y != [] ==> y[0] in AppendNew(x, y);
  }

  lemma DataAssociative(x: Draft, y: Draft, z: Draft)
    ensures Merge(Merge(x, y), z).data == Merge(x, Merge(y, z)).data
  {
    AppendNewAssociative(x.observationIds, y.observationIds, z.observationIds);
    AppendNewEmpty(x.observationIds, y.observationIds);
    AppendNewEmpty(y.observationIds, z.observationIds);
    var xy, yz := AppendNew(x.observationIds, y.observationIds), AppendNew(y.observationIds, z.observationIds);
    StampAssociative(x.data, y.data, z.data, x.observationIds != [], y.observationIds != [], z.observationIds != [],
                     |xy|, |yz|, |AppendNew(xy, z.observationIds)|);
  }

  lemma StampAssociative(x: map<string, Datum>, y: map<string, Datum>, z: map<string, Datum>,
                         ox: bool, oy: bool, oz: bool, nxy: nat, nyz: nat, n: nat)
    ensures Stamp(Stamp(x, y, ox || oy, nxy), z, ox || oy || oz, n) == Stamp(x, Stamp(y, z, oy || oz, nyz), ox || oy || oz, n)
  {
    var xy, yz := Stamp(x, y, ox || oy, nxy), Stamp(y, z, oy || oz, nyz);
    assert (x + y) + z == x + (y + z);
    if ox || oy || oz {
      assert AgreeOutsideCount(xy, x + y) && AgreeOutsideCount(yz, y + z);
      CountOverwrites(xy + z, (x + y) + z, n);
      CountOverwrites(x + yz, x + (y + z), n);
    }
  }

  ghost predicate AgreeOutsideCount(a: map<string, Datum>, b: map<string, Datum>) {
    forall k :: k != CORRELATED ==> (k in a <==> k in b) && (k in a && k in b ==> a[k] == b[k])
  }

  /** The final count hides any earlier one. */
  lemma CountOverwrites(stamped: map<string, Datum>, plain: map<string, Datum>, n: nat)
    requires AgreeOutsideCount(stamped, plain)
    ensures stamped[CORRELATED := Count(n)] == plain[CORRELATED := Count(n)]
  {
  }

  lemma RationaleAssociative(x: string, y: string, z: string)
    ensures JoinRationale(JoinRationale(x, y), z) == JoinRationale(x, JoinRationale(y, z)) <==> RationalesAssociate(x, y, z)
  {
    var xy, yz := x + " " + y, y + " " + z;
    assert |x + " " + z| < |x + " " + (x + " " + z)|;
    assert |xy| < |xy + " " + y|;
    assert xy + " " + z == x + " " + yz;
    assert |xy| > |y| && |yz| > |z| && |yz| > |y| && |xy| > |x|;
  }

  // ----- severities and confidences by name

  /** Critical, then high, medium, low, and info last. */
  predicate AtLeastAsSevere(a: Severity, b: Severity) {
    || a == Critical
    || (a == High && b != Critical)
    || (a == Medium && (b == Medium || b == Low || b == Info))
    || (a == Low && (b == Low || b == Info))
    || (a == Info && b == Info)
  }

  /** Confirmed, then high, medium and low confidence, a hint, and unknown last. */
  predicate AtLeastAsSure(a: Confidence, b: Confidence) {
    || a == Confirmed
    || (a == HighConfidence && b != Confirmed)
    || (a == MediumConfidence && b != Confirmed && b != HighConfidence)
    || (a == LowConfidence && (b == LowConfidence || b == Hint || b == Unknown))
    || (a == Hint && (b == Hint || b == Unknown))
    || (a == Unknown && b == Unknown)
  }

  lemma RanksByName(s: Severity, t: Severity, c: Confidence, d: Confidence)
    ensures SeverityRank(s) <= SeverityRank(t) <==> AtLeastAsSevere(s, t)
    ensures ConfidenceRank(c) <= ConfidenceRank(d) <==> AtLeastAsSure(c, d)
  {
  }

  /** The merged draft is as severe as the most severe one of its key and as sure as the surest. */
  lemma FoldBestByName(drafts: seq<Draft>)
    requires drafts != []
    ensures forall d :: d in drafts ==> AtLeastAsSevere(Fold(drafts).severity, d.severity)
    ensures forall d :: d in drafts ==> AtLeastAsSure(Fold(drafts).confidence, d.confidence)
  {
    FoldBest(drafts);
    forall d | d in drafts { RanksByName(Fold(drafts).severity, d.severity, Fold(drafts).confidence, d.confidence); }
  }

  /** The sorted list goes from the most severe to the least, and among equals by rule and then by dedupe key. */
  lemma ListingByName(merged: map<Key, Draft>, list: seq<Draft>, i: nat, j: nat)
    requires IsListing(merged, list) && i < j < |list|
    ensures AtLeastAsSevere(list[i].severity, list[j].severity)
    ensures list[i].severity == list[j].severity ==>
              StringLess(list[i].ruleId, list[j].ruleId)
              || (list[i].ruleId == list[j].ruleId && StringLess(list[i].dedupeKey, list[j].dedupeKey))
  {
    assert SortKeyLess(SortKeysOf(list)[i], SortKeysOf(list)[j]);
    RanksByName(list[i].severity, list[j].severity, Unknown, Unknown);
  }

  // ----- what a fold keeps of the other fields

  /** The draft at i is the last of the list that has the data key. */
  ghost predicate LastWith(drafts: seq<Draft>, k: string, i: nat) {
    i < |drafts| && k in drafts[i].data && forall j :: i < j < |drafts| ==> k !in drafts[j].data
  }

  /** A merge takes data from the later draft, and what that lacks from the earlier one. */
  lemma MergedDatum(left: Draft, right: Draft, k: string)
    requires k != CORRELATED
    ensures var data := Merge(left, right).data;
            && (k in data <==> k in left.data || k in right.data)
            && (k in data ==> data[k] == if k in right.data then right.data[k] else left.data[k])
  {
  }

  /** So data comes from the last draft that has it. */
  lemma {:induction false} FoldDatum(drafts: seq<Draft>, k: string, i: nat)
    requires k != CORRELATED && LastWith(drafts, k, i)
    ensures k in Fold(drafts).data && Fold(drafts).data[k] == drafts[i].data[k]
  {
    var n := |drafts| - 1;
    if n > 0 {
      MergedDatum(Fold(drafts[..n]), drafts[n], k);
      if i < n { FoldDatum(drafts[..n], k, i); }
    }
  }

  /** No data comes from elsewhere; what the fold is about comes from the first draft. */
  lemma {:induction false} FoldOrigin(drafts: seq<Draft>, k: string)
    requires drafts != []
    ensures Fold(drafts).about == drafts[0].about && KeyOf(Fold(drafts)) == KeyOf(drafts[0])
    ensures k != CORRELATED && k in Fold(drafts).data ==> exists d :: d in drafts && k in d.data
  {
    var n := |drafts| - 1;
    if n > 0 {
      FoldOrigin(drafts[..n], k);
      if k != CORRELATED { MergedDatum(Fold(drafts[..n]), drafts[n], k); }
      assert drafts[n] in drafts && forall d :: d in drafts[..n] ==> d in drafts;
    }
  }

  /** Over that the number of distinct observations is written, once drafts with observations have been merged. */
  lemma MergedCount(left: Draft, right: Draft)
    ensures left.observationIds != [] || right.observationIds != [] ==>
              "correlated_observation_count" in Merge(left, right).data
              && Merge(left, right).data["correlated_observation_count"] == Count(|Merge(left, right).observationIds|)
    ensures left.observationIds == right.observationIds == [] ==> Merge(left, right).data == left.data + right.data
  {
  }

  /** The rationale of a merge is that of the two drafts, joined by a space unless they say the same. */
  lemma MergedRationale(left: Draft, right: Draft)
    ensures left.rationale == right.rationale ==> Merge(left, right).rationale == left.rationale
    ensures left.rationale != right.rationale ==> Merge(left, right).rationale == left.rationale + " " + right.rationale
  {
  }
}
