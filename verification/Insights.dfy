/** Comparing two audits through identities derived from their data, not from database ids. */
module Insights {
  import opened Lists
  import opened Ordering
  import opened Outcomes

  /** The text operations of the host language: `strip().lower()`, `lower()` and printing an integer. */
  datatype TextOps = TextOps(macKey: string -> string, lower: string -> string, number: int -> string)

  /** Stripping and lowering leaves the empty text empty. */
  type Text = t: TextOps | t.macKey("") == "" witness TextOps((s: string) => s, (s: string) => s, (n: int) => "")

  /** An asset as the inventory hands it out. */
  datatype Asset = Asset(id: string, mac: string, addresses: seq<string>, names: seq<string>)
  datatype Service = Service(id: string, assetId: string, protocol: string, port: int, state: string, name: string, product: string)
  datatype Finding = Finding(
    assetId: Option<string>, serviceId: Option<string>, ruleId: string, family: string, title: string,
    severity: string, status: string)

  datatype Snapshot = Snapshot(assets: seq<Asset>, services: seq<Service>, findings: seq<Finding>)

  // ----- reading assets: addresses and names come sorted, whatever order their rows are stored in

  datatype Address = Address(family: int, address: string)
  datatype Name = Name(source: string, name: string)
  datatype AssetRow = AssetRow(id: string, mac: string, addresses: seq<Address>, names: seq<Name>)

  datatype Stored = Stored(assets: seq<AssetRow>, services: seq<Service>, findings: seq<Finding>)

  predicate AddressLess(a: Address, b: Address) {
    a.family < b.family || (a.family == b.family && StringLess(a.address, b.address))
  }

  predicate NameLess(a: Name, b: Name) {
    StringLess(a.source, b.source) || (a.source == b.source && StringLess(a.name, b.name))
  }

  function TextsOfAddresses(addresses: seq<Address>): seq<string> {
    seq(|addresses|, i requires 0 <= i < |addresses| => addresses[i].address)
  }

  function TextsOfNames(names: seq<Name>): seq<string> {
    seq(|names|, i requires 0 <= i < |names| => names[i].name)
  }

  /** `_asset_record`: addresses by family and text, names by source and text. A repeated pair, which only two
      rows that differ in their name type can give, is kept once; what is read below is the first and the least. */
  function Read(r: AssetRow): Asset {
    Asset(r.id, r.mac, TextsOfAddresses(SortedDistinct(AddressLess, r.addresses)), TextsOfNames(SortedDistinct(NameLess, r.names)))
  }

  function Listed(s: Stored): Snapshot {
    Snapshot(seq(|s.assets|, i requires 0 <= i < |s.assets| => Read(s.assets[i])), s.services, s.findings)
  }

  lemma AddressLessStrictTotal()
    ensures StrictTotal(AddressLess)
  {
    StringLessStrictTotal();
  }

  lemma {:induction false} NameLessStrictTotal()
    ensures StrictTotal(NameLess)
  {
    StringLessStrictTotal();
  }

  // ----- reading all pages

  /** `_all_assets` and its siblings: pages of at most `limit` rows until the offset reaches the total. */
  method AllPages<T>(rows: seq<T>, limit: nat) returns (result: seq<T>)
    requires limit > 0
    ensures result == rows
  {
    result := [];
    var offset := 0;
    while true
      invariant offset <= |rows| && result == rows[..offset]
      decreases |rows| - offset
    {
      var end := if offset + limit < |rows| then offset + limit else |rows|;
      var page := rows[offset..end];
      result := result + page;
      offset := offset + |page|;
      if page == [] || offset >= |rows| { return; }
    }
  }

  // ----- identities

  function NonEmpty(values: seq<string>): seq<string> {
    Filter(values, (v: string) => v != "")
  }

  /** `sorted(values)[0]`. */
  function Least(values: seq<string>): (r: string)
    requires values != []
    ensures r in values
  {
    if |values| == 1 then values[0]
    else
      var rest := Least(values[1..]);
      if StringLess(rest, values[0]) then rest else values[0]
  }

  function LowerAll(values: seq<string>, text: Text): seq<string> {
    seq(|values|, i requires 0 <= i < |values| => text.lower(values[i]))
  }

  predicate HasIdentity(a: Asset, text: Text) {
    text.macKey(a.mac) != "" || NonEmpty(a.addresses) != [] || NonEmpty(a.names) != []
  }

  /** `_asset_identity`: the MAC, else the least address, else the least name, else the database id. */
  function Identity(a: Asset, text: Text): string {
    if text.macKey(a.mac) != "" then "mac:" + text.macKey(a.mac)
    else if NonEmpty(a.addresses) != [] then "ip:" + Least(NonEmpty(a.addresses))
    else if NonEmpty(a.names) != [] then "name:" + Least(LowerAll(NonEmpty(a.names), text))
    else "asset:" + a.id
  }

  /** `_asset_label`: the first name, else the first address, else the MAC or id. */
  function Label(a: Asset): string {
    if NonEmpty(a.names) != [] then NonEmpty(a.names)[0]
    else if NonEmpty(a.addresses) != [] then NonEmpty(a.addresses)[0]
    else if a.mac != "" then a.mac
    else a.id
  }

  // ----- dictionaries keyed by identity

  /** `{key(item): item for item in items}`: the last item with a key wins. */
  function Index<T, K>(items: seq<T>, key: T -> K): map<K, T> {
    if items == [] then map[] else Index(items[..|items| - 1], key)[key(items[|items| - 1]) := items[|items| - 1]]
  }

  ghost predicate InjectiveOn<T, K(!new), J>(m: map<K, T>, id: T -> J) {
    forall k, l :: k in m && l in m && id(m[k]) == id(m[l]) ==> k == l
  }

  /** `{id(item): key for key, item in m.items()}`. */
  ghost function Inverse<T, K(!new), J>(m: map<K, T>, id: T -> J): map<J, K>
    requires InjectiveOn(m, id)
  {
    map k | k in m :: id(m[k]) := k
  }

  /** The two dictionaries have the same keys, and the ids of their items correspond. */
  ghost predicate IdsAligned<T, K(!new), J>(m: map<K, T>, n: map<K, T>, id: T -> J, rename: J -> J) {
    m.Keys == n.Keys && forall k :: k in m ==> id(n[k]) == rename(id(m[k]))
  }

  /** Then their inverses correspond under an injective renaming. */
  lemma InverseAligned<T, K(!new), J(!new)>(m: map<K, T>, n: map<K, T>, id: T -> J, rename: J -> J, j: J)
    requires InjectiveOn(m, id) && InjectiveOn(n, id) && IdsAligned(m, n, id, rename)
    requires forall x, y :: rename(x) == rename(y) ==> x == y
    ensures j in Inverse(m, id) <==> rename(j) in Inverse(n, id)
    ensures j in Inverse(m, id) ==> Inverse(n, id)[rename(j)] == Inverse(m, id)[j]
  {
    if j in Inverse(m, id) {
      var k :| k in m && id(m[k]) == j;
      assert id(n[k]) == rename(j);
    }
    if rename(j) in Inverse(n, id) {
      var k :| k in n && id(n[k]) == rename(j);
      assert id(m[k]) == j;
    }
  }

  datatype ServiceKey = ServiceKey(asset: string, protocol: string, port: int)
  datatype FindingKey = FindingKey(ruleId: string, asset: string, service: string, family: string)

  function ServiceKeyOf(s: Service, ids: map<string, string>): ServiceKey {
    ServiceKey(if s.assetId in ids then ids[s.assetId] else "asset:" + s.assetId, s.protocol, s.port)
  }

  function AssetIdOf(a: Asset): string { a.id }
  function ServiceIdOf(v: Service): string { v.id }

  predicate IsOpen(s: Service) { s.state in {"open", "open|filtered"} }

  function FindingKeyOf(f: Finding, ids: map<string, string>, services: map<string, ServiceKey>, text: Text): FindingKey {
    FindingKey(
      f.ruleId,
      match f.assetId case None => "none" case Some(id) => if id in ids then ids[id] else "asset:" + id,
      match f.serviceId
      case None => "none"
      case Some(id) =>
        if id in services then services[id].asset + ":" + services[id].protocol + "/" + text.number(services[id].port) else "none",
      f.family)
  }

  function AssetIndex(s: Snapshot, text: Text): map<string, Asset> {
    Index(s.assets, (a: Asset) => Identity(a, text))
  }

  ghost predicate UniqueIds(s: Snapshot) {
    && (forall i, j :: 0 <= i < j < |s.assets| ==> s.assets[i].id != s.assets[j].id)
    && (forall i, j :: 0 <= i < j < |s.services| ==> s.services[i].id != s.services[j].id)
  }

  lemma {:induction false} IndexMember<T(!new), K(!new)>(items: seq<T>, key: T -> K, k: K)
    ensures k in Index(items, key) <==> exists i :: 0 <= i < |items| && key(items[i]) == k
    ensures k in Index(items, key) ==> Index(items, key)[k] in items && key(Index(items, key)[k]) == k
  {
    if items != [] {
      var n := |items| - 1;
      IndexMember(items[..n], key, k);
      if i :| 0 <= i < |items| && key(items[i]) == k {
        assert i < n ==> items[..n][i] == items[i];
      }
    }
  }

  /** Items with distinct ids keep them apart in the index. */
  lemma IndexInjective<T(!new), K(!new), J>(items: seq<T>, key: T -> K, id: T -> J)
    requires forall i, j :: 0 <= i < j < |items| ==> id(items[i]) != id(items[j])
    ensures InjectiveOn(Index(items, key), id)
  {
    var m := Index(items, key);
    forall k, l | k in m && l in m && id(m[k]) == id(m[l]) ensures k == l {
      IndexMember(items, key, k);
      IndexMember(items, key, l);
      var i :| 0 <= i < |items| && items[i] == m[k];
      var j :| 0 <= j < |items| && items[j] == m[l];
    }
  }

  lemma {:induction false} OpenIdsDistinct(services: seq<Service>)
    requires forall i, j :: 0 <= i < j < |services| ==> services[i].id != services[j].id
    ensures forall i, j :: 0 <= i < j < |Filter(services, IsOpen)| ==> Filter(services, IsOpen)[i].id != Filter(services, IsOpen)[j].id
  {
    if services != [] {
      var n := |services| - 1;
      OpenIdsDistinct(services[..n]);
      var open := Filter(services[..n], IsOpen);
      forall i | 0 <= i < |open| ensures open[i].id != services[n].id {
        FilterMember(services[..n], IsOpen, open[i]);
        var j :| 0 <= j < n && services[j] == open[i];
      }
    }
  }

  ghost function IdMap(s: Snapshot, text: Text): map<string, string>
    requires UniqueIds(s)
  {
    IndexInjective(s.assets, (a: Asset) => Identity(a, text), AssetIdOf);
    Inverse(AssetIndex(s, text), AssetIdOf)
  }

  function OpenServices(s: Snapshot): seq<Service> {
    Filter(s.services, IsOpen)
  }

  ghost function ServiceIndex(s: Snapshot, text: Text): map<ServiceKey, Service>
    requires UniqueIds(s)
  {
    var ids := IdMap(s, text);
    Index(OpenServices(s), (v: Service) => ServiceKeyOf(v, ids))
  }

  lemma ServicesInjective(s: Snapshot, ids: map<string, string>)
    requires UniqueIds(s)
    ensures InjectiveOn(Index(OpenServices(s), (v: Service) => ServiceKeyOf(v, ids)), ServiceIdOf)
  {
    OpenIdsDistinct(s.services);
    var open := OpenServices(s);
    assert forall i, j :: 0 <= i < j < |open| ==> open[i].id != open[j].id;
    IndexInjective(open, (v: Service) => ServiceKeyOf(v, ids), ServiceIdOf);
  }

  ghost function ServiceIdMap(s: Snapshot, text: Text): map<string, ServiceKey>
    requires UniqueIds(s)
  {
    var ids := IdMap(s, text);
    ServicesInjective(s, ids);
    Inverse(ServiceIndex(s, text), ServiceIdOf)
  }

  ghost function FindingIndex(s: Snapshot, text: Text): map<FindingKey, Finding>
    requires UniqueIds(s)
  {
    var ids, services := IdMap(s, text), ServiceIdMap(s, text);
    Index(s.findings, (f: Finding) => FindingKeyOf(f, ids, services, text))
  }

  // ----- the comparison

  /** The entries shown as added and as removed: a key, and what is shown of its item. */
  datatype Changes<K(==), P(==)> = Changes(added: set<(K, P)>, removed: set<(K, P)>)

  /** The entries of the first dictionary whose keys the second has not. */
  ghost function Missing<K, T, P>(m: map<K, T>, other: map<K, T>, payload: T -> P): set<(K, P)> {
    set k | k in m && k !in other :: (k, payload(m[k]))
  }

  ghost function Compare<K, T, P>(base: map<K, T>, next: map<K, T>, payload: T -> P): Changes<K, P> {
    Changes(Missing(next, base, payload), Missing(base, next, payload))
  }

  datatype Diff = Diff(
    assets: Changes<string, string>, services: Changes<ServiceKey, (string, string)>,
    findings: Changes<FindingKey, (string, string, string)>)

  function ServicePayload(v: Service): (string, string) { (v.name, v.product) }
  function FindingPayload(f: Finding): (string, string, string) { (f.title, f.severity, f.status) }

  /** `audit_diff`: what the second audit has and the first has not, and the other way round. */
  ghost function AuditDiff(base: Snapshot, next: Snapshot, text: Text): Diff
    requires UniqueIds(base) && UniqueIds(next)
  {
    Diff(Compare(AssetIndex(base, text), AssetIndex(next, text), Label),
         Compare(ServiceIndex(base, text), ServiceIndex(next, text), ServicePayload),
         Compare(FindingIndex(base, text), FindingIndex(next, text), FindingPayload))
  }

  function Turned<K, P>(c: Changes<K, P>): Changes<K, P> { Changes(c.removed, c.added) }

  function Swapped(d: Diff): Diff { Diff(Turned(d.assets), Turned(d.services), Turned(d.findings)) }

  /** Comparing the other way round swaps added and removed. */
  lemma DiffSwaps(a: Snapshot, b: Snapshot, text: Text)
    requires UniqueIds(a) && UniqueIds(b)
    ensures AuditDiff(b, a, text) == Swapped(AuditDiff(a, b, text))
  {
  }

  // ----- audits that differ only in ids and list order

  ghost predicate SameValues(a: seq<string>, b: seq<string>) {
    forall v :: v in a <==> v in b
  }

  /** The same asset under another id, its addresses and names listed in any order. */
  ghost predicate SameAsset(a: Asset, b: Asset, rename: string -> string) {
    b.id == rename(a.id) && b.mac == a.mac && SameValues(a.addresses, b.addresses) && SameValues(a.names, b.names)
  }

  predicate SameService(v: Service, w: Service, rename: string -> string, renameService: string -> string) {
    w == v.(id := renameService(v.id), assetId := rename(v.assetId))
  }

  function Renamed(id: Option<string>, rename: string -> string): Option<string> {
    match id case None => None case Some(x) => Some(rename(x))
  }

  predicate SameFinding(f: Finding, g: Finding, rename: string -> string, renameService: string -> string) {
    g == f.(assetId := Renamed(f.assetId, rename), serviceId := Renamed(f.serviceId, renameService))
  }

  ghost predicate SameUpToIds(s: Snapshot, t: Snapshot, rename: string -> string, renameService: string -> string) {
    && |s.assets| == |t.assets| && |s.services| == |t.services| && |s.findings| == |t.findings|
    && (forall i :: 0 <= i < |s.assets| ==> SameAsset(s.assets[i], t.assets[i], rename))
    && (forall i :: 0 <= i < |s.services| ==> SameService(s.services[i], t.services[i], rename, renameService))
    && (forall i :: 0 <= i < |s.findings| ==> SameFinding(s.findings[i], t.findings[i], rename, renameService))
    && (forall x, y :: renameService(x) == renameService(y) ==> x == y)
  }

  /** Every asset has a MAC, an address or a name, and every reference to an asset leads to an identity. */
  ghost predicate Resolvable(s: Snapshot, text: Text)
    requires UniqueIds(s)
  {
    && (forall i :: 0 <= i < |s.assets| ==> HasIdentity(s.assets[i], text))
    && (forall v :: v in OpenServices(s) ==> v.assetId in IdMap(s, text))
    && (forall f :: f in s.findings && f.assetId.Some? ==> f.assetId.value in IdMap(s, text))
  }

  lemma {:induction false} LeastIsLeast(values: seq<string>)
    requires values != []
    ensures forall v :: v in values ==> v == Least(values) || StringLess(Least(values), v)
  {
    StringLessStrictTotal();
    if |values| > 1 {
      LeastIsLeast(values[1..]);
      assert values == [values[0]] + values[1..];
    }
  }

  lemma LeastOfSame(a: seq<string>, b: seq<string>)
    requires a != [] && b != [] && SameValues(a, b)
    ensures Least(a) == Least(b)
  {
    StringLessStrictTotal();
    LeastIsLeast(a);
    LeastIsLeast(b);
    assert Least(a) in b && Least(b) in a;
  }

  lemma NonEmptySame(a: seq<string>, b: seq<string>)
    requires SameValues(a, b)
    ensures SameValues(NonEmpty(a), NonEmpty(b)) && (NonEmpty(a) == [] <==> NonEmpty(b) == [])
  {
    forall v ensures v in NonEmpty(a) <==> v in NonEmpty(b) {
      FilterMember(a, (v: string) => v != "", v);
      FilterMember(b, (v: string) => v != "", v);
    }
    assert NonEmpty(a) != [] ==> NonEmpty(a)[0] in NonEmpty(b);
    assert NonEmpty(b) != [] ==> NonEmpty(b)[0] in NonEmpty(a);
  }

  lemma LowerSame(a: seq<string>, b: seq<string>, text: Text)
    requires SameValues(a, b)
    ensures SameValues(LowerAll(a, text), LowerAll(b, text))
  {
    forall v ensures v in LowerAll(a, text) <==> v in LowerAll(b, text) {
      LowerMember(a, b, text, v);
      LowerMember(b, a, text, v);
    }
  }

  lemma LowerMember(a: seq<string>, b: seq<string>, text: Text, v: string)
    requires SameValues(a, b)
    ensures v in LowerAll(a, text) ==> v in LowerAll(b, text)
  {
    if v in LowerAll(a, text) {
      var i :| 0 <= i < |a| && LowerAll(a, text)[i] == v;
      assert a[i] in b;
      var j :| 0 <= j < |b| && b[j] == a[i];
      assert LowerAll(b, text)[j] == v;
    }
  }

  /** The identity depends neither on the id nor on the order of addresses and names. */
  lemma SameIdentity(a: Asset, b: Asset, rename: string -> string, text: Text)
    requires SameAsset(a, b, rename) && HasIdentity(a, text)
    ensures Identity(a, text) == Identity(b, text) && HasIdentity(b, text)
  {
    NonEmptySame(a.addresses, b.addresses);
    NonEmptySame(a.names, b.names);
    if NonEmpty(a.addresses) != [] { LeastOfSame(NonEmpty(a.addresses), NonEmpty(b.addresses)); }
    if NonEmpty(a.names) != [] {
      LowerSame(NonEmpty(a.names), NonEmpty(b.names), text);
      LeastOfSame(LowerAll(NonEmpty(a.names), text), LowerAll(NonEmpty(b.names), text));
    }
  }

  /** Lists with the same keys, position by position, index the same positions. */
  lemma {:induction false} IndexAligned<T(!new), K(!new)>(xs: seq<T>, ys: seq<T>, keyX: T -> K, keyY: T -> K, k: K) returns (i: nat)
    requires |xs| == |ys| && forall i :: 0 <= i < |xs| ==> keyX(xs[i]) == keyY(ys[i])
    ensures k in Index(xs, keyX) <==> k in Index(ys, keyY)
    ensures k in Index(xs, keyX) ==> i < |xs| && Index(xs, keyX)[k] == xs[i] && Index(ys, keyY)[k] == ys[i]
  {
    i := 0;
    if xs != [] {
      var n := |xs| - 1;
      i := IndexAligned(xs[..n], ys[..n], keyX, keyY, k);
      if keyX(xs[n]) == k { i := n; }
    }
  }

  lemma AlignedAssets(s: Snapshot, t: Snapshot, rename: string -> string, renameService: string -> string, text: Text, k: string) returns (i: nat)
    requires UniqueIds(s) && UniqueIds(t) && SameUpToIds(s, t, rename, renameService) && Resolvable(s, text)
    ensures k in AssetIndex(s, text) <==> k in AssetIndex(t, text)
    ensures k in AssetIndex(s, text) ==>
              i < |s.assets| && AssetIndex(s, text)[k] == s.assets[i] && AssetIndex(t, text)[k] == t.assets[i]
  {
    forall i | 0 <= i < |s.assets| ensures Identity(s.assets[i], text) == Identity(t.assets[i], text) {
      SameIdentity(s.assets[i], t.assets[i], rename, text);
    }
    i := IndexAligned(s.assets, t.assets, (a: Asset) => Identity(a, text), (a: Asset) => Identity(a, text), k);
  }

  /** Renaming carries the id map along. */
  lemma {:induction false} RenamedIdMap(s: Snapshot, t: Snapshot, rename: string -> string, renameService: string -> string, text: Text, id: string)
    requires UniqueIds(s) && UniqueIds(t) && SameUpToIds(s, t, rename, renameService) && Resolvable(s, text)
    requires id in IdMap(s, text)
    ensures rename(id) in IdMap(t, text) && IdMap(t, text)[rename(id)] == IdMap(s, text)[id]
  {
    var k := IdMap(s, text)[id];
    var i := AlignedAssets(s, t, rename, renameService, text, k);
    assert AssetIndex(s, text)[k].id == id;
    assert AssetIndex(t, text)[k].id == rename(id);
    IndexInjective(t.assets, (a: Asset) => Identity(a, text), AssetIdOf);
    var m := AssetIndex(t, text);
    assert k in m && m[k].id == rename(id);
  }

  lemma {:induction false} OpenAligned(s: seq<Service>, t: seq<Service>, rename: string -> string, renameService: string -> string)
    requires |s| == |t| && forall i :: 0 <= i < |s| ==> SameService(s[i], t[i], rename, renameService)
    ensures var p, q := Filter(s, IsOpen), Filter(t, IsOpen);
            |p| == |q| && forall i :: 0 <= i < |p| ==> SameService(p[i], q[i], rename, renameService)
  {
    if s != [] {
      var n := |s| - 1;
      OpenAligned(s[..n], t[..n], rename, renameService);
      assert SameService(s[n], t[n], rename, renameService);
    }
  }

  lemma {:induction false} AlignedServices(s: Snapshot, t: Snapshot, rename: string -> string, renameService: string -> string, text: Text, k: ServiceKey) returns (i: nat)
    requires UniqueIds(s) && UniqueIds(t) && SameUpToIds(s, t, rename, renameService) && Resolvable(s, text)
    ensures k in ServiceIndex(s, text) <==> k in ServiceIndex(t, text)
    ensures k in ServiceIndex(s, text) ==>
              var p, q := OpenServices(s), OpenServices(t);
              i < |p| && |p| == |q| && SameService(p[i], q[i], rename, renameService)
              && ServiceIndex(s, text)[k] == p[i] && ServiceIndex(t, text)[k] == q[i]
  {
    var p, q := OpenServices(s), OpenServices(t);
    var ids, idt := IdMap(s, text), IdMap(t, text);
    OpenAligned(s.services, t.services, rename, renameService);
    forall i | 0 <= i < |p| ensures ServiceKeyOf(p[i], ids) == ServiceKeyOf(q[i], idt) {
      assert p[i] in p && SameService(p[i], q[i], rename, renameService);
      RenamedIdMap(s, t, rename, renameService, text, p[i].assetId);
    }
    i := IndexAligned(p, q, (v: Service) => ServiceKeyOf(v, ids), (v: Service) => ServiceKeyOf(v, idt), k);
  }

  lemma {:induction false} ServiceIdsAligned(s: Snapshot, t: Snapshot, rename: string -> string, renameService: string -> string, text: Text)
    requires UniqueIds(s) && UniqueIds(t) && SameUpToIds(s, t, rename, renameService) && Resolvable(s, text)
    ensures IdsAligned(ServiceIndex(s, text), ServiceIndex(t, text), ServiceIdOf, renameService)
  {
    var m, n := ServiceIndex(s, text), ServiceIndex(t, text);
    forall k ensures k in m <==> k in n ensures k in m ==> n[k].id == renameService(m[k].id) {
      var i := AlignedServices(s, t, rename, renameService, text, k);
    }
  }

  lemma {:induction false} RenamedServiceId(s: Snapshot, t: Snapshot, rename: string -> string, renameService: string -> string, text: Text, id: string)
    requires UniqueIds(s) && UniqueIds(t) && SameUpToIds(s, t, rename, renameService) && Resolvable(s, text)
    ensures id in ServiceIdMap(s, text) <==> renameService(id) in ServiceIdMap(t, text)
    ensures id in ServiceIdMap(s, text) ==> ServiceIdMap(t, text)[renameService(id)] == ServiceIdMap(s, text)[id]
  {
    ServiceIdsAligned(s, t, rename, renameService, text);
    ServicesInjective(s, IdMap(s, text));
    ServicesInjective(t, IdMap(t, text));
    InverseAligned(ServiceIndex(s, text), ServiceIndex(t, text), ServiceIdOf, renameService, id);
  }

  lemma AlignedFindings(s: Snapshot, t: Snapshot, rename: string -> string, renameService: string -> string, text: Text, k: FindingKey) returns (i: nat)
    requires UniqueIds(s) && UniqueIds(t) && SameUpToIds(s, t, rename, renameService) && Resolvable(s, text)
    ensures k in FindingIndex(s, text) <==> k in FindingIndex(t, text)
    ensures k in FindingIndex(s, text) ==>
              i < |s.findings| && FindingIndex(s, text)[k] == s.findings[i] && FindingIndex(t, text)[k] == t.findings[i]
  {
    var ids, idt, vs, vt := IdMap(s, text), IdMap(t, text), ServiceIdMap(s, text), ServiceIdMap(t, text);
    forall i | 0 <= i < |s.findings|
      ensures FindingKeyOf(s.findings[i], ids, vs, text) == FindingKeyOf(t.findings[i], idt, vt, text)
    {
      var f, g := s.findings[i], t.findings[i];
      assert f in s.findings && SameFinding(f, g, rename, renameService);
      if f.assetId.Some? { RenamedIdMap(s, t, rename, renameService, text, f.assetId.value); }
      if f.serviceId.Some? { RenamedServiceId(s, t, rename, renameService, text, f.serviceId.value); }
    }
    i := IndexAligned(s.findings, t.findings, (f: Finding) => FindingKeyOf(f, ids, vs, text),
                      (f: Finding) => FindingKeyOf(f, idt, vt, text), k);
  }

  ghost predicate SamePayloads<K, T, P>(m: map<K, T>, n: map<K, T>, payload: T -> P) {
    m.Keys == n.Keys && forall k :: k in m ==> payload(m[k]) == payload(n[k])
  }

  /** Renaming ids and reordering address and name lists keeps the set of asset identities. */
  lemma AssetsInvariant(s: Snapshot, t: Snapshot, rename: string -> string, renameService: string -> string, text: Text)
    requires UniqueIds(s) && UniqueIds(t) && SameUpToIds(s, t, rename, renameService) && Resolvable(s, text)
    ensures AssetIndex(s, text).Keys == AssetIndex(t, text).Keys
  {
    forall k ensures k in AssetIndex(s, text) <==> k in AssetIndex(t, text) {
      var i := AlignedAssets(s, t, rename, renameService, text, k);
    }
  }

  /** It keeps the services, with what is shown of each. */
  lemma {:induction false} ServicesInvariant(s: Snapshot, t: Snapshot, rename: string -> string, renameService: string -> string, text: Text)
    requires UniqueIds(s) && UniqueIds(t) && SameUpToIds(s, t, rename, renameService) && Resolvable(s, text)
    ensures SamePayloads(ServiceIndex(s, text), ServiceIndex(t, text), ServicePayload)
  {
    var m, n := ServiceIndex(s, text), ServiceIndex(t, text);
    forall k ensures k in m <==> k in n ensures k in m ==> ServicePayload(m[k]) == ServicePayload(n[k]) {
      var i := AlignedServices(s, t, rename, renameService, text, k);
    }
  }

  /** It keeps the findings, with what is shown of each. */
  lemma {:induction false} FindingsInvariant(s: Snapshot, t: Snapshot, rename: string -> string, renameService: string -> string, text: Text)
    requires UniqueIds(s) && UniqueIds(t) && SameUpToIds(s, t, rename, renameService) && Resolvable(s, text)
    ensures SamePayloads(FindingIndex(s, text), FindingIndex(t, text), FindingPayload)
  {
    var m, n := FindingIndex(s, text), FindingIndex(t, text);
    forall k ensures k in m <==> k in n ensures k in m ==> FindingPayload(m[k]) == FindingPayload(n[k]) {
      var i := AlignedFindings(s, t, rename, renameService, text, k);
      if k in m { assert SameFinding(s.findings[i], t.findings[i], rename, renameService); }
    }
  }

  /** The assets that the comparison with the base shows have the same labels. */
  ghost predicate LabelsAgree(base: Snapshot, s: Snapshot, t: Snapshot, text: Text) {
    forall k :: k in AssetIndex(s, text) && k in AssetIndex(t, text) && k !in AssetIndex(base, text) ==>
      Label(AssetIndex(s, text)[k]) == Label(AssetIndex(t, text)[k])
  }

  /** For audits that differ only in ids and in the order in which names and addresses are handed out, and for
      every base: the whole comparison is the same exactly when the labels are, of the assets the base has not. */
  lemma {:induction false} DiffInvariantIffLabels(base: Snapshot, s: Snapshot, t: Snapshot, rename: string -> string, renameService: string -> string, text: Text)
    requires UniqueIds(base) && UniqueIds(s) && UniqueIds(t)
    requires SameUpToIds(s, t, rename, renameService) && Resolvable(s, text)
    ensures AuditDiff(base, s, text) == AuditDiff(base, t, text) <==> LabelsAgree(base, s, t, text)
    ensures AuditDiff(s, base, text) == AuditDiff(t, base, text) <==> LabelsAgree(base, s, t, text)
  {
    AssetsInvariant(s, t, rename, renameService, text);
    ServicesInvariant(s, t, rename, renameService, text);
    FindingsInvariant(s, t, rename, renameService, text);
    CompareIff(AssetIndex(base, text), AssetIndex(s, text), AssetIndex(t, text), Label);
    CompareSame(ServiceIndex(base, text), ServiceIndex(s, text), ServiceIndex(t, text), ServicePayload);
    CompareSame(FindingIndex(base, text), FindingIndex(s, text), FindingIndex(t, text), FindingPayload);
    DiffSwaps(base, s, text);
    DiffSwaps(base, t, text);
  }

  lemma CompareIff<K(!new), T, P>(base: map<K, T>, m: map<K, T>, n: map<K, T>, payload: T -> P)
    requires m.Keys == n.Keys
    ensures Compare(base, m, payload) == Compare(base, n, payload)
       <==> forall k :: k in m && k in n && k !in base ==> payload(m[k]) == payload(n[k])
  {
    MissingIff(base, m, n, payload);
    assert Missing(base, m, payload) == Missing(base, n, payload);
  }

  lemma MissingIff<K(!new), T, P>(base: map<K, T>, m: map<K, T>, n: map<K, T>, payload: T -> P)
    requires m.Keys == n.Keys
    ensures Missing(m, base, payload) == Missing(n, base, payload)
       <==> forall k :: k in m && k in n && k !in base ==> payload(m[k]) == payload(n[k])
  {
    if Missing(m, base, payload) == Missing(n, base, payload) {
      forall k | k in m && k !in base ensures payload(m[k]) == payload(n[k]) {
        assert (k, payload(m[k])) in Missing(n, base, payload);
      }
    }
  }

  // ----- the same rows under other ids and in another stored order

  ghost predicate SameAssetRow(a: AssetRow, b: AssetRow, rename: string -> string) {
    && b.id == rename(a.id) && b.mac == a.mac
    && (forall x :: x in a.addresses <==> x in b.addresses)
    && (forall x :: x in a.names <==> x in b.names)
  }

  ghost predicate SameStored(s: Stored, t: Stored, rename: string -> string, renameService: string -> string) {
    && |s.assets| == |t.assets| && |s.services| == |t.services| && |s.findings| == |t.findings|
    && (forall i :: 0 <= i < |s.assets| ==> SameAssetRow(s.assets[i], t.assets[i], rename))
    && (forall i :: 0 <= i < |s.services| ==> SameService(s.services[i], t.services[i], rename, renameService))
    && (forall i :: 0 <= i < |s.findings| ==> SameFinding(s.findings[i], t.findings[i], rename, renameService))
    && (forall x, y :: renameService(x) == renameService(y) ==> x == y)
  }

  /** The stored order of an asset's rows does not show in what is read. */
  lemma SameReading(a: AssetRow, b: AssetRow, rename: string -> string)
    requires SameAssetRow(a, b, rename)
    ensures Read(b) == Read(a).(id := rename(a.id))
  {
    AddressLessStrictTotal();
    NameLessStrictTotal();
    SortedDistinctSame(AddressLess, a.addresses, b.addresses);
    SortedDistinctSame(NameLess, a.names, b.names);
  }

  lemma SameListing(s: Stored, t: Stored, rename: string -> string, renameService: string -> string)
    requires SameStored(s, t, rename, renameService)
    ensures SameUpToIds(Listed(s), Listed(t), rename, renameService)
    ensures forall i :: 0 <= i < |s.assets| ==> Listed(t).assets[i] == Listed(s).assets[i].(id := rename(s.assets[i].id))
  {
    forall i | 0 <= i < |s.assets| { SameReading(s.assets[i], t.assets[i], rename); }
  }

  /** The whole comparison with any base, either way round, does not depend on internal ids, nor on the order in
      which the names and addresses of an asset are stored. */
  lemma {:induction false} DiffInvariant(base: Snapshot, s: Stored, t: Stored, rename: string -> string, renameService: string -> string, text: Text)
    requires UniqueIds(base) && UniqueIds(Listed(s)) && UniqueIds(Listed(t))
    requires SameStored(s, t, rename, renameService) && Resolvable(Listed(s), text)
    ensures AuditDiff(base, Listed(s), text) == AuditDiff(base, Listed(t), text)
    ensures AuditDiff(Listed(s), base, text) == AuditDiff(Listed(t), base, text)
  {
    var x, y := Listed(s), Listed(t);
    SameListing(s, t, rename, renameService);
    forall k | k in AssetIndex(x, text) ensures k in AssetIndex(y, text) && Label(AssetIndex(x, text)[k]) == Label(AssetIndex(y, text)[k]) {
      var i := AlignedAssets(x, y, rename, renameService, text, k);
      assert HasIdentity(x.assets[i], text);
    }
    DiffInvariantIffLabels(base, x, y, rename, renameService, text);
  }

  // ----- the same records listed in another order

  ghost predicate SameRecords(s: Snapshot, t: Snapshot) {
    && (forall a :: a in s.assets <==> a in t.assets)
    && (forall v :: v in s.services <==> v in t.services)
    && (forall f :: f in s.findings <==> f in t.findings)
  }

  /** Items with the same key show the same. */
  ghost predicate KeyDecides<T(!new), K, P>(items: seq<T>, key: T -> K, payload: T -> P) {
    forall x, y :: x in items && y in items && key(x) == key(y) ==> payload(x) == payload(y)
  }

  /** Different assets and open services have different keys; findings with one key show the same. */
  ghost predicate NoCollisions(s: Snapshot, text: Text)
    requires UniqueIds(s)
  {
    var ids, services := IdMap(s, text), ServiceIdMap(s, text);
    && KeyDecides(s.assets, (a: Asset) => Identity(a, text), (a: Asset) => a)
    && KeyDecides(OpenServices(s), (v: Service) => ServiceKeyOf(v, ids), (v: Service) => v)
    && KeyDecides(s.findings, (f: Finding) => FindingKeyOf(f, ids, services, text), FindingPayload)
  }

  lemma IndexSame<T(!new), K(!new), P>(xs: seq<T>, ys: seq<T>, key: T -> K, payload: T -> P)
    requires forall x :: x in xs <==> x in ys
    requires KeyDecides(xs, key, payload)
    ensures SamePayloads(Index(xs, key), Index(ys, key), payload)
  {
    forall k ensures k in Index(xs, key) <==> k in Index(ys, key)
      ensures k in Index(xs, key) ==> payload(Index(xs, key)[k]) == payload(Index(ys, key)[k])
    {
      IndexMember(xs, key, k);
      IndexMember(ys, key, k);
      if i :| 0 <= i < |xs| && key(xs[i]) == k { assert xs[i] in ys; }
      if i :| 0 <= i < |ys| && key(ys[i]) == k { assert ys[i] in xs; }
    }
  }

  /** Without collisions the order in which the records are listed does not matter. */
  lemma DiffIgnoresListingOrder(base: Snapshot, s: Snapshot, t: Snapshot, text: Text)
    requires UniqueIds(base) && UniqueIds(s) && UniqueIds(t) && SameRecords(s, t) && NoCollisions(s, text)
    ensures AuditDiff(base, s, text) == AuditDiff(base, t, text)
    ensures AuditDiff(s, base, text) == AuditDiff(t, base, text)
  {
    IndexSame(s.assets, t.assets, (a: Asset) => Identity(a, text), (a: Asset) => a);
    assert AssetIndex(s, text) == AssetIndex(t, text);
    forall v ensures v in OpenServices(s) <==> v in OpenServices(t) {
      FilterMember(s.services, IsOpen, v);
      FilterMember(t.services, IsOpen, v);
    }
    var ids := IdMap(s, text);
    assert ids == IdMap(t, text);
    IndexSame(OpenServices(s), OpenServices(t), (v: Service) => ServiceKeyOf(v, ids), (v: Service) => v);
    assert ServiceIndex(s, text) == ServiceIndex(t, text);
    var services := ServiceIdMap(s, text);
    assert services == ServiceIdMap(t, text);
    IndexSame(s.findings, t.findings, (f: Finding) => FindingKeyOf(f, ids, services, text), FindingPayload);
    CompareSame(FindingIndex(base, text), FindingIndex(s, text), FindingIndex(t, text), FindingPayload);
    DiffSwaps(base, s, text);
    DiffSwaps(base, t, text);
  }

  /** Both together: other ids, another stored order of names and addresses, and then, as ids decide ties in the
      listing, another order of the records. */
  lemma {:induction false} DiffInvariantInAnyOrder(base: Snapshot, s: Stored, renamed: Stored, t: Snapshot,
                                rename: string -> string, renameService: string -> string, text: Text)
    requires UniqueIds(base) && UniqueIds(Listed(s)) && UniqueIds(Listed(renamed)) && UniqueIds(t)
    requires SameStored(s, renamed, rename, renameService) && Resolvable(Listed(s), text)
    requires SameRecords(Listed(renamed), t) && NoCollisions(Listed(renamed), text)
    ensures AuditDiff(base, Listed(s), text) == AuditDiff(base, t, text)
    ensures AuditDiff(Listed(s), base, text) == AuditDiff(t, base, text)
  {
    DiffInvariant(base, s, renamed, rename, renameService, text);
    DiffIgnoresListingOrder(base, Listed(renamed), t, text);
  }

  lemma CompareSame<K(!new), T, P>(base: map<K, T>, m: map<K, T>, n: map<K, T>, payload: T -> P)
    requires SamePayloads(m, n, payload)
    ensures Compare(base, m, payload) == Compare(base, n, payload)
  {
    CompareIff(base, m, n, payload);
  }

  lemma CompareEqual<K, T, P>(m: map<K, T>, n: map<K, T>, payload: T -> P)
    requires m.Keys == n.Keys
    ensures Compare(m, n, payload) == Changes({}, {})
  {
  }

  /** Two audits that are equal up to ids and list order differ in nothing. */
  lemma {:induction false} EqualAuditsDoNotDiffer(s: Snapshot, t: Snapshot, rename: string -> string, renameService: string -> string, text: Text)
    requires UniqueIds(s) && UniqueIds(t) && SameUpToIds(s, t, rename, renameService) && Resolvable(s, text)
    ensures AuditDiff(s, t, text) == Diff(Changes({}, {}), Changes({}, {}), Changes({}, {}))
  {
    AssetsInvariant(s, t, rename, renameService, text);
    ServicesInvariant(s, t, rename, renameService, text);
    FindingsInvariant(s, t, rename, renameService, text);
    CompareEqual(AssetIndex(s, text), AssetIndex(t, text), Label);
    CompareEqual(ServiceIndex(s, text), ServiceIndex(t, text), ServicePayload);
    CompareEqual(FindingIndex(s, text), FindingIndex(t, text), FindingPayload);
  }

  /** An audit whose only asset has two names, reported by the sources p and q. */
  function TwoSources(p: string, pName: string, q: string, qName: string): Stored {
    Stored([AssetRow("1", "", [], [Name(p, pName), Name(q, qName)])], [], [])
  }

  /** Labels do depend on which source reported which name: the label is the name of the least source, while the
      identity is the least name. Exchanging the names of two sources keeps the identity, and the comparison of the
      two audits, but not the comparison with an empty audit. */
  lemma LabelDependsOnSources(p: string, q: string, x: string, y: string, text: Text)
    requires StringLess(p, q) && x != y && x != "" && y != ""
    ensures var s, t, empty := Listed(TwoSources(p, x, q, y)), Listed(TwoSources(p, y, q, x)), Snapshot([], [], []);
            && AuditDiff(s, t, text) == Diff(Changes({}, {}), Changes({}, {}), Changes({}, {}))
            && AuditDiff(empty, s, text) != AuditDiff(empty, t, text)
  {
    var same := (id: string) => id;
    var s, t, empty := Listed(TwoSources(p, x, q, y)), Listed(TwoSources(p, y, q, x)), Snapshot([], [], []);
    TwoNames(p, x, q, y, text);
    TwoNames(p, y, q, x, text);
    assert s.assets[0].names[1] == t.assets[0].names[0] && t.assets[0].names[1] == s.assets[0].names[0];
    assert SameAsset(s.assets[0], t.assets[0], same);
    EqualAuditsDoNotDiffer(s, t, same, same, text);
    OneAssetShown(s, text);
    OneAssetShown(t, text);
  }

  lemma OneAssetShown(s: Snapshot, text: Text)
    requires UniqueIds(s) && |s.assets| == 1
    ensures AuditDiff(Snapshot([], [], []), s, text).assets.added == {(Identity(s.assets[0], text), Label(s.assets[0]))}
  {
    assert s.assets == [s.assets[0]];
    IndexOne(s.assets[0], (a: Asset) => Identity(a, text));
    var k, empty := Identity(s.assets[0], text), AssetIndex(Snapshot([], [], []), text);
    assert AssetIndex(s, text) == map[k := s.assets[0]] && empty == map[];
    assert k in AssetIndex(s, text) && forall x :: x in AssetIndex(s, text) ==> x == k;
    assert Missing(AssetIndex(s, text), empty, Label) == {(k, Label(s.assets[0]))};
  }

  lemma IndexOne<T, K>(x: T, key: T -> K)
    ensures Index([x], key) == map[key(x) := x]
  {
    assert [x][..0] == [];
    assert Index([x][..0], key) == map[];
  }

  /** The two names are handed out in the order of their sources, and the first is the label. */
  lemma TwoNames(p: string, pName: string, q: string, qName: string, text: Text)
    requires StringLess(p, q) && pName != "" && qName != ""
    ensures var a := Listed(TwoSources(p, pName, q, qName)).assets[0];
            a == Asset("1", "", [], [pName, qName]) && HasIdentity(a, text) && Label(a) == pName
  {
    var names := [Name(p, pName), Name(q, qName)];
    NameLessStrictTotal();
    SortedDistinctCorrect(NameLess, names);
    AscendingUnique(NameLess, SortedDistinct(NameLess, names), names);
    var a := Listed(TwoSources(p, pName, q, qName)).assets[0];
    assert a.names == [pName, qName] && a.addresses == [];
    FilterAll(a.names, (v: string) => v != "");
  }
}
