/** What the audit comparison shows, entry by entry: stated over the records of the two audits alone. */
module DiffEntries {
  import opened Insights
  import opened Lists
  import opened Ordering
  import opened Outcomes

  // ----- identities and labels

  ghost predicate IsLeast(values: seq<string>, v: string) {
    v in values && forall w :: w in values ==> w == v || StringLess(v, w)
  }

  /** The first text that is not empty. */
  ghost predicate IsFirst(values: seq<string>, v: string) {
    v != "" && exists i :: 0 <= i < |values| && values[i] == v && forall j :: 0 <= j < i ==> values[j] == ""
  }

  ghost predicate AllEmpty(values: seq<string>) {
    forall v :: v in values ==> v == ""
  }

  lemma NonEmptyMember(values: seq<string>)
    ensures forall v :: v in NonEmpty(values) <==> v in values && v != ""
    ensures NonEmpty(values) == [] <==> AllEmpty(values)
  {
    forall v { FilterMember(values, (v: string) => v != "", v); }
    if NonEmpty(values) != [] { assert NonEmpty(values)[0] in NonEmpty(values); }
  }

  lemma {:induction false} FirstNonEmpty(values: seq<string>)
    requires !AllEmpty(values)
    ensures NonEmpty(values) != [] && IsFirst(values, NonEmpty(values)[0])
  {
    NonEmptyMember(values);
    var k := |values| - 1;
    var front := values[..k];
    if AllEmpty(front) {
      NonEmptyMember(front);
      assert values[k] != "" by { assert values == front + [values[k]]; }
      forall j | 0 <= j < k ensures values[j] == "" { assert front[j] in front; }
    } else {
      FirstNonEmpty(front);
      var i :| 0 <= i < |front| && front[i] == NonEmpty(front)[0] && forall j :: 0 <= j < i ==> front[j] == "";
      assert values[i] == NonEmpty(values)[0] && forall j :: 0 <= j < i ==> values[j] == "";
    }
  }

  /** The lower-case forms of the names that are not empty. */
  ghost predicate LowerName(a: Asset, text: Text, v: string) {
    exists name :: name in a.names && name != "" && text.lower(name) == v
  }

  /** The identity is the MAC; without one the least address; without one the least name in lower case; and else the id. */
  lemma {:induction false} IdentityMeans(a: Asset, text: Text)
    ensures text.macKey(a.mac) != "" ==> Identity(a, text) == "mac:" + text.macKey(a.mac)
    ensures text.macKey(a.mac) == "" && !AllEmpty(a.addresses) ==>
              exists v :: v in a.addresses && v != "" && (forall w :: w in a.addresses && w != "" ==> w == v || StringLess(v, w))
                          && Identity(a, text) == "ip:" + v
    ensures text.macKey(a.mac) == "" && AllEmpty(a.addresses) && !AllEmpty(a.names) ==>
              exists v :: LowerName(a, text, v) && (forall w :: LowerName(a, text, w) ==> w == v || StringLess(v, w))
                          && Identity(a, text) == "name:" + v
    ensures text.macKey(a.mac) == "" && AllEmpty(a.addresses) && AllEmpty(a.names) ==> Identity(a, text) == "asset:" + a.id
  {
    NonEmptyMember(a.addresses);
    NonEmptyMember(a.names);
    if NonEmpty(a.addresses) != [] { LeastIsLeast(NonEmpty(a.addresses)); }
    if NonEmpty(a.names) != [] {
      LeastIsLeast(LowerAll(NonEmpty(a.names), text));
      LowerNames(a, text);
      assert LowerName(a, text, Least(LowerAll(NonEmpty(a.names), text)));
    }
  }

  lemma LowerNames(a: Asset, text: Text)
    ensures forall v :: v in LowerAll(NonEmpty(a.names), text) <==> LowerName(a, text, v)
  {
    NonEmptyMember(a.names);
    var kept := NonEmpty(a.names);
    forall v ensures v in LowerAll(kept, text) <==> LowerName(a, text, v) {
      if LowerName(a, text, v) {
        var name :| name in a.names && name != "" && text.lower(name) == v;
        var i :| 0 <= i < |kept| && kept[i] == name;
        assert LowerAll(kept, text)[i] == v;
      }
      if i :| 0 <= i < |kept| && LowerAll(kept, text)[i] == v { assert kept[i] in kept; }
    }
  }

  /** The label is the first name, else the first address, else the MAC, else the id. */
  lemma LabelMeans(a: Asset)
    ensures !AllEmpty(a.names) ==> IsFirst(a.names, Label(a))
    ensures AllEmpty(a.names) && !AllEmpty(a.addresses) ==> IsFirst(a.addresses, Label(a))
    ensures AllEmpty(a.names) && AllEmpty(a.addresses) ==> Label(a) == if a.mac != "" then a.mac else a.id
  {
    NonEmptyMember(a.names);
    NonEmptyMember(a.addresses);
    if !AllEmpty(a.names) { FirstNonEmpty(a.names); }
    if !AllEmpty(a.addresses) { FirstNonEmpty(a.addresses); }
  }

  // ----- which item a dictionary keeps

  /** The last item that passes and has the key. */
  ghost predicate IsLast<T(!new), K(!new)>(items: seq<T>, keep: T -> bool, key: T -> K, k: K, i: nat) {
    && i < |items| && keep(items[i]) && key(items[i]) == k
    && forall j :: i < j < |items| ==> !keep(items[j]) || key(items[j]) != k
  }

  lemma {:induction false} IndexKeepsLast<T(!new), K(!new)>(items: seq<T>, keep: T -> bool, key: T -> K, k: K)
    ensures var m := Index(Filter(items, keep), key);
            && (k in m <==> exists i :: 0 <= i < |items| && keep(items[i]) && key(items[i]) == k)
            && (k in m ==> exists i: nat :: IsLast(items, keep, key, k, i) && m[k] == items[i])
  {
    if items != [] {
      var n := |items| - 1;
      var front, m := items[..n], Index(Filter(items, keep), key);
      IndexKeepsLast(front, keep, key, k);
      assert forall i :: 0 <= i < n ==> front[i] == items[i];
      if keep(items[n]) {
        assert Filter(items, keep)[..|Filter(front, keep)|] == Filter(front, keep);
        if key(items[n]) == k { assert IsLast(items, keep, key, k, n); }
      }
      if k in m && !(keep(items[n]) && key(items[n]) == k) {
        var i: nat :| IsLast(front, keep, key, k, i) && m[k] == front[i];
        assert IsLast(items, keep, key, k, i);
      }
    }
  }

  lemma AllKept<T(!new), K(!new)>(items: seq<T>, key: T -> K, k: K)
    ensures var m := Index(items, key);
            && (k in m <==> exists i :: 0 <= i < |items| && key(items[i]) == k)
            && (k in m ==> exists i: nat :: IsLast(items, (x: T) => true, key, k, i) && m[k] == items[i])
  {
    FilterAll(items, (x: T) => true);
    IndexKeepsLast(items, (x: T) => true, key, k);
  }

  // ----- assets

  ghost predicate HasAsset(s: Snapshot, k: string, text: Text) {
    exists i :: 0 <= i < |s.assets| && Identity(s.assets[i], text) == k
  }

  /** The last asset with the identity. */
  ghost predicate LastAsset(s: Snapshot, k: string, i: nat, text: Text) {
    && i < |s.assets| && Identity(s.assets[i], text) == k
    && forall j :: i < j < |s.assets| ==> Identity(s.assets[j], text) != k
  }

  lemma {:induction false} AssetIndexMeans(s: Snapshot, text: Text, k: string)
    ensures k in AssetIndex(s, text) <==> HasAsset(s, k, text)
    ensures k in AssetIndex(s, text) ==> exists i: nat :: LastAsset(s, k, i, text) && AssetIndex(s, text)[k] == s.assets[i]
  {
    AllKept(s.assets, (a: Asset) => Identity(a, text), k);
    if k in AssetIndex(s, text) {
      var i: nat :| IsLast(s.assets, (x: Asset) => true, (a: Asset) => Identity(a, text), k, i) && AssetIndex(s, text)[k] == s.assets[i];
      assert LastAsset(s, k, i, text);
    }
  }

  lemma MissingMeans<K(!new), T, P(!new)>(m: map<K, T>, other: map<K, T>, payload: T -> P, k: K, p: P)
    ensures (k, p) in Missing(m, other, payload) <==> k in m && k !in other && payload(m[k]) == p
  {
  }

  lemma AssetShown(s: Snapshot, text: Text, k: string, shown: string)
    ensures k in AssetIndex(s, text) && Label(AssetIndex(s, text)[k]) == shown
       <==> exists i: nat :: LastAsset(s, k, i, text) && Label(s.assets[i]) == shown
  {
    AssetIndexMeans(s, text, k);
    if i: nat :| LastAsset(s, k, i, text) && Label(s.assets[i]) == shown {
      assert HasAsset(s, k, text);
      var j: nat :| LastAsset(s, k, j, text) && AssetIndex(s, text)[k] == s.assets[j];
      assert i == j;
    }
  }

  /** An identity is listed as added, with a label, exactly when the next audit has it and the base has not; and the
      other way round for removed. The label is that of the last such asset. */
  lemma AssetEntries(base: Snapshot, next: Snapshot, text: Text, k: string, shown: string)
    requires UniqueIds(base) && UniqueIds(next)
    ensures (k, shown) in AuditDiff(base, next, text).assets.added <==>
              !HasAsset(base, k, text) && exists i: nat :: LastAsset(next, k, i, text) && Label(next.assets[i]) == shown
    ensures (k, shown) in AuditDiff(base, next, text).assets.removed <==>
              !HasAsset(next, k, text) && exists i: nat :: LastAsset(base, k, i, text) && Label(base.assets[i]) == shown
  {
    AssetIndexMeans(base, text, k);
    AssetIndexMeans(next, text, k);
    AssetShown(base, text, k, shown);
    AssetShown(next, text, k, shown);
    MissingMeans(AssetIndex(next, text), AssetIndex(base, text), Label, k, shown);
    MissingMeans(AssetIndex(base, text), AssetIndex(next, text), Label, k, shown);
  }

  // ----- services

  /** The position of the asset with the id, when it is the last with its identity. */
  ghost predicate Stands(s: Snapshot, id: string, i: nat, text: Text) {
    i < |s.assets| && s.assets[i].id == id && LastAsset(s, Identity(s.assets[i], text), i, text)
  }

  /** The name under which entries refer to an asset: its identity, unless a later asset has taken that, and else its id. */
  ghost predicate Owner(s: Snapshot, id: string, text: Text, owner: string) {
    || (exists i: nat :: Stands(s, id, i, text) && owner == Identity(s.assets[i], text))
    || ((forall i: nat :: !Stands(s, id, i, text)) && owner == "asset:" + id)
  }

  lemma OwnerIs(s: Snapshot, id: string, text: Text, owner: string)
    requires UniqueIds(s)
    ensures Owner(s, id, text, owner) <==> owner == if id in IdMap(s, text) then IdMap(s, text)[id] else "asset:" + id
  {
    var m := AssetIndex(s, text);
    forall i: nat | Stands(s, id, i, text) ensures id in IdMap(s, text) && IdMap(s, text)[id] == Identity(s.assets[i], text) {
      var k := Identity(s.assets[i], text);
      AssetIndexMeans(s, text, k);
      assert m[k] == s.assets[i];
      IndexInjective(s.assets, (a: Asset) => Identity(a, text), AssetIdOf);
    }
    if id in IdMap(s, text) {
      var k := IdMap(s, text)[id];
      AssetIndexMeans(s, text, k);
      var i: nat :| LastAsset(s, k, i, text) && m[k] == s.assets[i];
      assert Stands(s, id, i, text);
    }
  }

  /** An open service of the audit under this key. */
  ghost predicate ServiceAt(s: Snapshot, i: nat, k: ServiceKey, text: Text) {
    && i < |s.services| && (s.services[i].state == "open" || s.services[i].state == "open|filtered")
    && s.services[i].protocol == k.protocol && s.services[i].port == k.port && Owner(s, s.services[i].assetId, text, k.asset)
  }

  ghost predicate HasService(s: Snapshot, k: ServiceKey, text: Text) {
    exists i: nat :: ServiceAt(s, i, k, text)
  }

  ghost predicate LastService(s: Snapshot, k: ServiceKey, i: nat, text: Text) {
    ServiceAt(s, i, k, text) && forall j: nat :: i < j ==> !ServiceAt(s, j, k, text)
  }

  lemma ServiceAtMeans(s: Snapshot, i: nat, k: ServiceKey, text: Text)
    requires UniqueIds(s)
    ensures ServiceAt(s, i, k, text) <==> i < |s.services| && IsOpen(s.services[i]) && ServiceKeyOf(s.services[i], IdMap(s, text)) == k
  {
    if i < |s.services| { OwnerIs(s, s.services[i].assetId, text, k.asset); }
  }

  lemma {:induction false} ServiceIndexMeans(s: Snapshot, text: Text, k: ServiceKey)
    requires UniqueIds(s)
    ensures k in ServiceIndex(s, text) <==> HasService(s, k, text)
    ensures k in ServiceIndex(s, text) ==> exists i: nat :: LastService(s, k, i, text) && ServiceIndex(s, text)[k] == s.services[i]
  {
    var ids := IdMap(s, text);
    var key := (v: Service) => ServiceKeyOf(v, ids);
    IndexKeepsLast(s.services, IsOpen, key, k);
    forall i: nat { ServiceAtMeans(s, i, k, text); }
    if k in ServiceIndex(s, text) {
      var i: nat :| IsLast(s.services, IsOpen, key, k, i) && ServiceIndex(s, text)[k] == s.services[i];
      assert LastService(s, k, i, text);
    }
  }

  lemma ServiceShown(s: Snapshot, text: Text, k: ServiceKey, name: string, product: string)
    requires UniqueIds(s)
    ensures k in ServiceIndex(s, text) && ServicePayload(ServiceIndex(s, text)[k]) == (name, product)
       <==> exists i: nat :: LastService(s, k, i, text) && s.services[i].name == name && s.services[i].product == product
  {
    ServiceIndexMeans(s, text, k);
    if i: nat :| LastService(s, k, i, text) && s.services[i].name == name && s.services[i].product == product {
      assert HasService(s, k, text);
      var j: nat :| LastService(s, k, j, text) && ServiceIndex(s, text)[k] == s.services[j];
      assert i == j;
    }
  }

  /** A service is listed as added, with its name and product, exactly when the next audit has an open one under the key
      and the base has none; and the other way round for removed. What is shown is that of the last such service. */
  lemma ServiceEntries(base: Snapshot, next: Snapshot, text: Text, k: ServiceKey, name: string, product: string)
    requires UniqueIds(base) && UniqueIds(next)
    ensures (k, (name, product)) in AuditDiff(base, next, text).services.added <==>
              !HasService(base, k, text)
              && exists i: nat :: LastService(next, k, i, text) && next.services[i].name == name && next.services[i].product == product
    ensures (k, (name, product)) in AuditDiff(base, next, text).services.removed <==>
              !HasService(next, k, text)
              && exists i: nat :: LastService(base, k, i, text) && base.services[i].name == name && base.services[i].product == product
  {
    ServiceIndexMeans(base, text, k);
    ServiceIndexMeans(next, text, k);
    ServiceShown(base, text, k, name, product);
    ServiceShown(next, text, k, name, product);
    MissingMeans(ServiceIndex(next, text), ServiceIndex(base, text), ServicePayload, k, (name, product));
    MissingMeans(ServiceIndex(base, text), ServiceIndex(next, text), ServicePayload, k, (name, product));
  }

  // ----- findings

  /** The service with the id is the last one under the key. */
  ghost predicate StandsFor(s: Snapshot, id: string, k: ServiceKey, text: Text) {
    exists i: nat :: LastService(s, k, i, text) && s.services[i].id == id
  }

  /** The text under which a finding refers to a service: that of the service with the id, if it is the last under its
      key, and "none" otherwise. */
  ghost predicate Endpoint(s: Snapshot, id: Option<string>, text: Text, endpoint: string) {
    || (exists k :: id.Some? && StandsFor(s, id.value, k, text) && endpoint == k.asset + ":" + k.protocol + "/" + text.number(k.port))
    || ((forall k :: id.None? || !StandsFor(s, id.value, k, text)) && endpoint == "none")
  }

  lemma InverseMeans<T, K(!new), J>(m: map<K, T>, id: T -> J, j: J, k: K)
    requires InjectiveOn(m, id)
    ensures j in Inverse(m, id) && Inverse(m, id)[j] == k <==> k in m && id(m[k]) == j
  {
  }

  lemma ServiceIdsMean(s: Snapshot, text: Text, id: string, k: ServiceKey)
    requires UniqueIds(s)
    ensures id in ServiceIdMap(s, text) && ServiceIdMap(s, text)[id] == k <==> StandsFor(s, id, k, text)
  {
    var m := ServiceIndex(s, text);
    ServicesInjective(s, IdMap(s, text));
    InverseMeans(m, ServiceIdOf, id, k);
    ServiceIndexMeans(s, text, k);
    if i: nat :| LastService(s, k, i, text) && s.services[i].id == id {
      assert HasService(s, k, text);
      var j: nat :| LastService(s, k, j, text) && m[k] == s.services[j];
      assert i == j;
    }
  }

  lemma EndpointIs(s: Snapshot, id: Option<string>, text: Text, endpoint: string)
    requires UniqueIds(s)
    ensures Endpoint(s, id, text, endpoint) <==>
              endpoint == match id
                          case None => "none"
                          case Some(x) =>
                            if x in ServiceIdMap(s, text) then
                              ServiceIdMap(s, text)[x].asset + ":" + ServiceIdMap(s, text)[x].protocol + "/"
                              + text.number(ServiceIdMap(s, text)[x].port)
                            else "none"
  {
    if id.Some? {
      forall k ensures StandsFor(s, id.value, k, text) <==> id.value in ServiceIdMap(s, text) && ServiceIdMap(s, text)[id.value] == k {
        ServiceIdsMean(s, text, id.value, k);
      }
      if id.value in ServiceIdMap(s, text) {
        assert StandsFor(s, id.value, ServiceIdMap(s, text)[id.value], text);
      }
    }
  }

  ghost predicate FindingAt(s: Snapshot, i: nat, k: FindingKey, text: Text)
  {
    && i < |s.findings| && s.findings[i].ruleId == k.ruleId && s.findings[i].family == k.family
    && (if s.findings[i].assetId.Some? then Owner(s, s.findings[i].assetId.value, text, k.asset) else k.asset == "none")
    && Endpoint(s, s.findings[i].serviceId, text, k.service)
  }

  ghost predicate HasFinding(s: Snapshot, k: FindingKey, text: Text) {
    exists i: nat :: FindingAt(s, i, k, text)
  }

  ghost predicate LastFinding(s: Snapshot, k: FindingKey, i: nat, text: Text) {
    FindingAt(s, i, k, text) && forall j: nat :: i < j ==> !FindingAt(s, j, k, text)
  }

  lemma FindingAtMeans(s: Snapshot, i: nat, k: FindingKey, text: Text)
    requires UniqueIds(s)
    ensures FindingAt(s, i, k, text) <==>
              i < |s.findings| && FindingKeyOf(s.findings[i], IdMap(s, text), ServiceIdMap(s, text), text) == k
  {
    if i < |s.findings| {
      if s.findings[i].assetId.Some? { OwnerIs(s, s.findings[i].assetId.value, text, k.asset); }
      EndpointIs(s, s.findings[i].serviceId, text, k.service);
    }
  }

  lemma {:induction false} FindingIndexMeans(s: Snapshot, text: Text, k: FindingKey)
    requires UniqueIds(s)
    ensures k in FindingIndex(s, text) <==> HasFinding(s, k, text)
    ensures k in FindingIndex(s, text) ==> exists i: nat :: LastFinding(s, k, i, text) && FindingIndex(s, text)[k] == s.findings[i]
  {
    var ids, services := IdMap(s, text), ServiceIdMap(s, text);
    var key := (f: Finding) => FindingKeyOf(f, ids, services, text);
    AllKept(s.findings, key, k);
    forall i: nat { FindingAtMeans(s, i, k, text); }
    if k in FindingIndex(s, text) {
      var i: nat :| IsLast(s.findings, (x: Finding) => true, key, k, i) && FindingIndex(s, text)[k] == s.findings[i];
      assert LastFinding(s, k, i, text);
    }
  }

  ghost predicate ShowsAs(f: Finding, title: string, severity: string, status: string) {
    f.title == title && f.severity == severity && f.status == status
  }

  lemma {:induction false} FindingShown(s: Snapshot, text: Text, k: FindingKey, title: string, severity: string, status: string)
    requires UniqueIds(s)
    ensures k in FindingIndex(s, text) && FindingPayload(FindingIndex(s, text)[k]) == (title, severity, status)
       <==> exists i: nat :: LastFinding(s, k, i, text) && ShowsAs(s.findings[i], title, severity, status)
  {
    FindingIndexMeans(s, text, k);
    if i: nat :| LastFinding(s, k, i, text) && ShowsAs(s.findings[i], title, severity, status) {
      assert HasFinding(s, k, text);
      var j: nat :| LastFinding(s, k, j, text) && FindingIndex(s, text)[k] == s.findings[j];
      assert i == j;
    }
  }

  /** The same for findings, shown with title, severity and status. */
  lemma {:induction false} FindingEntries(base: Snapshot, next: Snapshot, text: Text, k: FindingKey, title: string, severity: string, status: string)
    requires UniqueIds(base) && UniqueIds(next)
    ensures (k, (title, severity, status)) in AuditDiff(base, next, text).findings.added <==>
              !HasFinding(base, k, text)
              && exists i: nat :: LastFinding(next, k, i, text) && ShowsAs(next.findings[i], title, severity, status)
    ensures (k, (title, severity, status)) in AuditDiff(base, next, text).findings.removed <==>
              !HasFinding(next, k, text)
              && exists i: nat :: LastFinding(base, k, i, text) && ShowsAs(base.findings[i], title, severity, status)
  {
    FindingIndexMeans(base, text, k);
    FindingIndexMeans(next, text, k);
    FindingShown(base, text, k, title, severity, status);
    FindingShown(next, text, k, title, severity, status);
    MissingMeans(FindingIndex(next, text), FindingIndex(base, text), FindingPayload, k, (title, severity, status));
    MissingMeans(FindingIndex(base, text), FindingIndex(next, text), FindingPayload, k, (title, severity, status));
  }
}
