/** Scope proposals from interface prefixes, VLAN subinterfaces and connected routes. */
module Proposals {
  import opened Lists
  import opened Networks
  import opened Outcomes
  import opened Scope

  datatype Origin = Assigned | Vlan | Route
  datatype Source = InterfacePrefix | VlanHints | RouteHints | NoHints

  datatype ProposedNetwork = ProposedNetwork(
    cidr: Expression, origin: Origin, ownAddress: Option<Expression>, vlanId: Option<nat>, iface: string)

  datatype Rejected = Rejected(value: Expression, code: Code)

  datatype Proposal = Proposal(
    iface: string, source: Source, networks: seq<ProposedNetwork>, canonicalTargets: seq<Expression>,
    rejected: seq<Rejected>)

  datatype Peer = Peer(name: string, addresses: seq<Expression>)
  datatype RouteEntry = RouteEntry(dev: string, hasGateway: bool, dst: Option<Expression>)

  // ----- which networks may be proposed

  function ProposalLimit(settings: Settings, family: Family): nat {
    var limit := ProfileLimit(settings, MostPermissive(settings));
    if family.IPv6? then Min(limit, settings.ipv6Max) else limit
  }

  /** The profile whose limit is the largest of the three. */
  function MostPermissive(settings: Settings): (r: Profile)
    ensures forall p :: ProfileLimit(settings, p) <= ProfileLimit(settings, r)
  {
    if settings.discoveryMax >= settings.standardMax && settings.discoveryMax >= settings.deepMax then Discovery
    else if settings.standardMax >= settings.deepMax then Standard
    else Deep
  }

  /** The verdict on one candidate that is not blank. */
  function Judge(settings: Settings, candidate: Expression): Result<Network, Code> {
    var network := AssignedNetwork(candidate);
    if network.Err? then network
    else if IsLoopbackOrLinkLocal(network.value) then Err(NotGlobalUnicast)
    else if !settings.allowLargeScopes && Size(network.value) > ProposalLimit(settings, network.value.family) then
      Err(LimitExceeded)
    else network
  }

  function NonBlank(values: seq<Expression>): seq<Expression> {
    Filter(values, (v: Expression) => !v.Blank?)
  }

  function Eligible(settings: Settings, values: seq<Expression>): (r: seq<Expression>)
    ensures forall i :: 0 <= i < |r| ==> Judge(settings, r[i]).Ok?
  {
    FilterHolds(values, (v: Expression) => !v.Blank? && Judge(settings, v).Ok?);
    Filter(values, (v: Expression) => !v.Blank? && Judge(settings, v).Ok?)
  }

  function Refused(settings: Settings, values: seq<Expression>): (r: seq<Expression>)
    ensures forall i :: 0 <= i < |r| ==> Judge(settings, r[i]).Err?
  {
    FilterHolds(values, (v: Expression) => !v.Blank? && Judge(settings, v).Err?);
    Filter(values, (v: Expression) => !v.Blank? && Judge(settings, v).Err?)
  }

  function Rejections(settings: Settings, values: seq<Expression>): seq<Rejected> {
    var refused := Refused(settings, values);
    seq(|refused|, i requires 0 <= i < |refused| =>
      Rejected(refused[i], Judge(settings, refused[i]).error))
  }

  /** Every non-blank candidate is accounted for once: rejected, or eligible, never both. */
  lemma CandidatesConserved(settings: Settings, values: seq<Expression>)
    ensures multiset(Refused(settings, values)) + multiset(Eligible(settings, values)) == multiset(NonBlank(values))
  {
    FilterSplit(values, (v: Expression) => !v.Blank? && Judge(settings, v).Err?,
                (v: Expression) => !v.Blank? && Judge(settings, v).Ok?, (v: Expression) => !v.Blank?);
  }

  lemma RejectionsConcat(settings: Settings, a: seq<Expression>, b: seq<Expression>)
    ensures Rejections(settings, a + b) == Rejections(settings, a) + Rejections(settings, b)
    ensures Eligible(settings, a + b) == Eligible(settings, a) + Eligible(settings, b)
  {
    FilterConcat(a, b, (v: Expression) => !v.Blank? && Judge(settings, v).Err?);
    FilterConcat(a, b, (v: Expression) => !v.Blank? && Judge(settings, v).Ok?);
  }

  function Proposed(settings: Settings, v: Expression, origin: Origin, iface: string, vlanId: Option<nat>): ProposedNetwork
    requires Judge(settings, v).Ok?
  {
    ProposedNetwork(Display(Judge(settings, v).value), origin, if origin.Assigned? then Some(v) else None, vlanId, iface)
  }

  function ProposedAll(settings: Settings, vs: seq<Expression>, origin: Origin, iface: string, vlanId: Option<nat>): seq<ProposedNetwork>
    requires forall i :: 0 <= i < |vs| ==> Judge(settings, vs[i]).Ok?
  {
    seq(|vs|, i requires 0 <= i < |vs| => Proposed(settings, vs[i], origin, iface, vlanId))
  }

  /** The eligible ones among some candidates, in order, as proposed networks. */
  function ProposedFrom(settings: Settings, values: seq<Expression>, origin: Origin, iface: string, vlanId: Option<nat>): seq<ProposedNetwork> {
    ProposedAll(settings, Eligible(settings, values), origin, iface, vlanId)
  }

  lemma ProposedConcat(settings: Settings, a: seq<Expression>, b: seq<Expression>, origin: Origin, iface: string, vlanId: Option<nat>)
    ensures ProposedFrom(settings, a + b, origin, iface, vlanId)
         == ProposedFrom(settings, a, origin, iface, vlanId) + ProposedFrom(settings, b, origin, iface, vlanId)
  {
    RejectionsConcat(settings, a, b);
  }

  /** `_eligible_networks`: `rejected` is the caller's list, extended in place. */
  method EligibleNetworks(settings: Settings, values: seq<Expression>, origin: Origin, iface: string,
                          vlanId: Option<nat>, rejected: seq<Rejected>)
    returns (found: seq<ProposedNetwork>, rejected': seq<Rejected>)
    ensures found == ProposedFrom(settings, values, origin, iface, vlanId)
    ensures rejected' == rejected + Rejections(settings, values)
  {
    found, rejected' := [], rejected;
    for i := 0 to |values|
      invariant found == ProposedAll(settings, Eligible(settings, values[..i]), origin, iface, vlanId)
      invariant rejected' == rejected + Rejections(settings, values[..i])
    {
      var value := values[i];
      assert values[..i + 1][..i] == values[..i];
      if value.Blank? { continue; }
      var network := Judge(settings, value);
      if network.Err? {
        rejected' := rejected' + [Rejected(value, network.error)];
      } else {
        found := found + [Proposed(settings, value, origin, iface, vlanId)];
      }
    }
    assert values[..|values|] == values;
  }

  // ----- a proposed target is acceptable on its own

  ghost predicate AcceptedAlone(settings: Settings, e: Expression) {
    Validated(settings, [e], MostPermissive(settings)).Ok?
  }

  lemma EligibleIsAccepted(settings: Settings, v: Expression)
    requires Judge(settings, v).Ok?
    ensures AcceptedAlone(settings, Display(Judge(settings, v).value))
  {
    var n := Judge(settings, v).value;
    var e := Display(n);
    DisplayRoundTrip(n);
    assert ParseEach([e]) == [Ok(n)];
    CollectOk(ParseEach([e]), [n]);
    AcceptedIffFewAddresses(settings, [e], MostPermissive(settings));
    forall family ensures Covered([n], family) == if n.family == family then Addresses(n) else {} {
      assert Covered([n][1..], family) == {};
    }
  }

  /** The display form of some eligible candidate. */
  ghost predicate Shown(settings: Settings, e: Expression) {
    exists v :: Judge(settings, v).Ok? && e == Display(Judge(settings, v).value)
  }

  ghost predicate Sound(settings: Settings, iface: string, networks: seq<ProposedNetwork>) {
    forall item :: item in networks ==> item.iface == iface && Shown(settings, item.cidr)
  }

  /** Each target of a sound proposal, submitted alone, passes validation under the widest profile. */
  lemma SoundTargetsAccepted(settings: Settings, iface: string, networks: seq<ProposedNetwork>)
    requires Sound(settings, iface, networks)
    ensures forall item :: item in networks ==> AcceptedAlone(settings, item.cidr)
  {
    forall item | item in networks ensures AcceptedAlone(settings, item.cidr) {
      var v :| Judge(settings, v).Ok? && item.cidr == Display(Judge(settings, v).value);
      EligibleIsAccepted(settings, v);
    }
  }

  lemma ProposedSound(settings: Settings, values: seq<Expression>, origin: Origin, iface: string, vlanId: Option<nat>)
    ensures Sound(settings, iface, ProposedFrom(settings, values, origin, iface, vlanId))
  {
    var all := ProposedFrom(settings, values, origin, iface, vlanId);
    forall item | item in all ensures item.iface == iface && Shown(settings, item.cidr) {
      var i :| 0 <= i < |all| && all[i] == item;
    }
  }

  // ----- assembling a proposal

  function Cidrs(networks: seq<ProposedNetwork>): seq<Expression> {
    seq(|networks|, i requires 0 <= i < |networks| => networks[i].cidr)
  }

  /** The first network of each displayed prefix, in order. */
  function FirstShown(networks: seq<ProposedNetwork>): (r: seq<ProposedNetwork>)
    ensures forall item :: item in r ==> item in networks
    ensures forall i :: 0 <= i < |networks| ==> networks[i].cidr in Cidrs(r)
    ensures forall i, j :: 0 <= i < j < |r| ==> r[i].cidr != r[j].cidr
    ensures networks == [] <==> r == []
  {
    if networks == [] then []
    else
      var init, last := FirstShown(networks[..|networks| - 1]), networks[|networks| - 1];
      assert Cidrs(init + [last]) == Cidrs(init) + [last.cidr];
      assert forall i :: 0 <= i < |init| ==> init[i].cidr == Cidrs(init)[i];
      if last.cidr in Cidrs(init) then init else init + [last]
  }

  /** `_proposal`: one target per displayed prefix. */
  method BuildProposal(iface: string, source: Source, networks: seq<ProposedNetwork>, rejected: seq<Rejected>)
    returns (p: Proposal)
    ensures p == Proposal(iface, source, FirstShown(networks), Cidrs(FirstShown(networks)), rejected)
  {
    var unique, targets: seq<Expression>, seen: set<Expression> := [], [], {};
    for k := 0 to |networks|
      invariant unique == FirstShown(networks[..k])
      invariant targets == Cidrs(unique)
      invariant forall e :: e in seen <==> e in targets
    {
      var item := networks[k];
      assert networks[..k + 1][..k] == networks[..k];
      if item.cidr !in seen {
        seen := seen + {item.cidr};
        unique := unique + [item];
        targets := targets + [item.cidr];
      }
    }
    assert networks[..|networks|] == networks;
    p := Proposal(iface, source, unique, targets, rejected);
  }

  // ----- VLAN names

  predicate IsDigits(s: string) {
    s != [] && forall i :: 0 <= i < |s| ==> '0' <= s[i] <= '9'
  }

  function Number(s: string): nat
    requires forall i :: 0 <= i < |s| ==> '0' <= s[i] <= '9'
  {
    if s == [] then 0 else 10 * Number(s[..|s| - 1]) + (s[|s| - 1] as int - '0' as int)
  }

  function BeforeAt(s: string): string {
    if s == [] || s[0] == '@' then [] else [s[0]] + BeforeAt(s[1..])
  }

  /** `_vlan_id_for`: the id in "<parent>.<id>[@...]", when it is at most 4095. */
  function VlanIdFor(parent: string, child: string): Option<nat> {
    var name, prefix := BeforeAt(child), parent + ".";
    if !(prefix <= name) then None
    else
      var suffix := name[|prefix|..];
      if IsDigits(suffix) && Number(suffix) <= 4095 then Some(Number(suffix)) else None
  }

  /** The candidates of all VLAN children of an interface, in peer order. */
  function VlanCandidates(iface: string, peers: seq<Peer>): seq<Expression> {
    if peers == [] then []
    else
      var init, last := VlanCandidates(iface, peers[..|peers| - 1]), peers[|peers| - 1];
      if VlanIdFor(iface, last.name).Some? then init + last.addresses else init
  }

  /** `_route_destination`, with the spellings of "no destination" removed. */
  function RouteDestination(route: RouteEntry): Option<Expression> {
    if route.dst in {None, Some(Malformed("")), Some(Malformed("default")), Some(Malformed("unspecified")),
                     Some(Cidr(IPv4, 0, 0)), Some(Cidr(IPv6, 0, 0))}
    then None else route.dst
  }

  /** The destination of a gateway-less route on the interface, as the zero or one candidates it gives. */
  function RouteCandidate(iface: string, route: RouteEntry): seq<Expression> {
    var dst := RouteDestination(route);
    if route.dev == iface && !route.hasGateway && dst.Some? then [dst.value] else []
  }

  function RouteCandidates(iface: string, routes: seq<RouteEntry>): seq<Expression> {
    if routes == [] then []
    else RouteCandidates(iface, routes[..|routes| - 1]) + RouteCandidate(iface, routes[|routes| - 1])
  }

  /** The candidates a proposal has looked at, given the stage it stopped in. */
  function Examined(source: Source, iface: string, ownAddresses: seq<Expression>, peers: seq<Peer>, routes: seq<RouteEntry>): seq<Expression> {
    match source
    case InterfacePrefix => ownAddresses
    case VlanHints => ownAddresses + VlanCandidates(iface, peers)
    case _ => ownAddresses + VlanCandidates(iface, peers) + RouteCandidates(iface, routes)
  }

  // ----- the VLAN stage

  predicate Contributes(settings: Settings, iface: string, peer: Peer) {
    VlanIdFor(iface, peer.name).Some? && Eligible(settings, peer.addresses) != []
  }

  /** The addresses of all peers of one name, in peer order. */
  function AddressesOf(peers: seq<Peer>, name: string): seq<Expression> {
    if peers == [] then []
    else
      var init, last := AddressesOf(peers[..|peers| - 1], name), peers[|peers| - 1];
      if last.name == name then init + last.addresses else init
  }

  /** What a VLAN child proposes. */
  function ChildNetworks(settings: Settings, iface: string, peers: seq<Peer>, name: string): seq<ProposedNetwork> {
    ProposedFrom(settings, AddressesOf(peers, name), Vlan, name, VlanIdFor(iface, name))
  }

  lemma ChildStep(settings: Settings, iface: string, peers: seq<Peer>, peer: Peer, name: string)
    ensures ChildNetworks(settings, iface, peers + [peer], name)
         == if peer.name == name then
              ChildNetworks(settings, iface, peers, name)
              + ProposedFrom(settings, peer.addresses, Vlan, name, VlanIdFor(iface, name))
            else ChildNetworks(settings, iface, peers, name)
  {
    assert (peers + [peer])[..|peers|] == peers;
    ProposedConcat(settings, AddressesOf(peers, name), peer.addresses, Vlan, name, VlanIdFor(iface, name));
  }

  lemma VlanRejectionsStep(settings: Settings, iface: string, peers: seq<Peer>, i: nat)
    requires i < |peers|
    ensures Rejections(settings, VlanCandidates(iface, peers[..i + 1]))
         == if VlanIdFor(iface, peers[i].name).Some? then
              Rejections(settings, VlanCandidates(iface, peers[..i])) + Rejections(settings, peers[i].addresses)
            else Rejections(settings, VlanCandidates(iface, peers[..i]))
  {
    assert peers[..i + 1][..i] == peers[..i];
    RejectionsConcat(settings, VlanCandidates(iface, peers[..i]), peers[i].addresses);
  }

  /** The name belongs to the first VLAN child that contributes. */
  ghost predicate FirstChild(settings: Settings, iface: string, peers: seq<Peer>, name: string) {
    exists k :: 0 <= k < |peers| && peers[k].name == name && Contributes(settings, iface, peers[k])
                && forall j :: 0 <= j < k ==> !Contributes(settings, iface, peers[j])
  }

  ghost predicate SomeChild(settings: Settings, iface: string, peers: seq<Peer>) {
    exists k :: 0 <= k < |peers| && Contributes(settings, iface, peers[k])
  }

  /** The dictionary of networks per VLAN child, with the order its keys were inserted in. */
  datatype Children = Children(order: seq<string>, networks: map<string, seq<ProposedNetwork>>)

  function AddChild(c: Children, name: string, found: seq<ProposedNetwork>): Children {
    if found == [] then c
    else if name in c.networks then c.(networks := c.networks[name := c.networks[name] + found])
    else Children(c.order + [name], c.networks[name := found])
  }

  function ChildrenOf(settings: Settings, iface: string, peers: seq<Peer>): Children {
    if peers == [] then Children([], map[])
    else
      var init, last := ChildrenOf(settings, iface, peers[..|peers| - 1]), peers[|peers| - 1];
      var vlanId := VlanIdFor(iface, last.name);
      if vlanId.Some? then AddChild(init, last.name, ProposedFrom(settings, last.addresses, Vlan, last.name, vlanId)) else init
  }

  /** The dictionary holds exactly these networks under the name, and no empty entry. */
  predicate Holds(c: Children, name: string, networks: seq<ProposedNetwork>) {
    if name in c.networks then c.networks[name] == networks && networks != [] else networks == []
  }

  lemma AddChildHolds(c: Children, added: string, found: seq<ProposedNetwork>, name: string, networks: seq<ProposedNetwork>)
    requires Holds(c, name, networks)
    ensures Holds(AddChild(c, added, found), name, if added == name then networks + found else networks)
  {
    if found == [] { assert networks + found == networks; }
  }

  /** Under each VLAN child stands all that its peers propose, and nothing is kept for a child that proposes nothing. */
  lemma {:induction false} ChildrenComplete(settings: Settings, iface: string, peers: seq<Peer>, name: string)
    requires VlanIdFor(iface, name).Some?
    ensures Holds(ChildrenOf(settings, iface, peers), name, ChildNetworks(settings, iface, peers, name))
  {
    if peers != [] {
      var front, last := peers[..|peers| - 1], peers[|peers| - 1];
      var vlanId := VlanIdFor(iface, last.name);
      ChildrenComplete(settings, iface, front, name);
      assert peers == front + [last];
      ChildStep(settings, iface, front, last, name);
      AddChildHolds(ChildrenOf(settings, iface, front), last.name, ProposedFrom(settings, last.addresses, Vlan, last.name, vlanId),
                    name, ChildNetworks(settings, iface, front, name));
    }
  }

  lemma {:induction false} ChildrenOrder(settings: Settings, iface: string, peers: seq<Peer>)
    ensures var c := ChildrenOf(settings, iface, peers);
            && (forall name :: name in c.order <==> name in c.networks)
            && (if c.order == [] then !SomeChild(settings, iface, peers) else FirstChild(settings, iface, peers, c.order[0]))
  {
    if peers != [] {
      var k := |peers| - 1;
      var init, c := ChildrenOf(settings, iface, peers[..k]), ChildrenOf(settings, iface, peers);
      ChildrenOrder(settings, iface, peers[..k]);
      ExtendPeers(settings, iface, peers, k, if init.order == [] then peers[k].name else init.order[0]);
    }
  }

  /** One more peer changes the first contributing child only when there was none. */
  lemma ExtendPeers(settings: Settings, iface: string, peers: seq<Peer>, k: nat, name: string)
    requires |peers| == k + 1
    ensures SomeChild(settings, iface, peers) <==> SomeChild(settings, iface, peers[..k]) || Contributes(settings, iface, peers[k])
    ensures FirstChild(settings, iface, peers[..k], name) ==> FirstChild(settings, iface, peers, name)
    ensures !SomeChild(settings, iface, peers[..k]) && Contributes(settings, iface, peers[k]) ==> FirstChild(settings, iface, peers, peers[k].name)
  {
    assert forall j :: 0 <= j < k ==> peers[..k][j] == peers[j];
    if i :| 0 <= i < |peers| && Contributes(settings, iface, peers[i]) {
      assert i == k || Contributes(settings, iface, peers[..k][i]);
    }
    if i :| 0 <= i < k && Contributes(settings, iface, peers[..k][i]) {
      assert Contributes(settings, iface, peers[i]);
    }
  }

  lemma {:induction false} ChildrenAreVlans(settings: Settings, iface: string, peers: seq<Peer>)
    ensures forall name :: name in ChildrenOf(settings, iface, peers).networks ==> VlanIdFor(iface, name).Some?
  {
    if peers != [] { ChildrenAreVlans(settings, iface, peers[..|peers| - 1]); }
  }

  /** The loop of `propose` over the VLAN children. */
  method VlanStage(settings: Settings, iface: string, peers: seq<Peer>, rejected: seq<Rejected>)
    returns (children: Children, rejected': seq<Rejected>)
    ensures rejected' == rejected + Rejections(settings, VlanCandidates(iface, peers))
    ensures children == ChildrenOf(settings, iface, peers)
    ensures forall name :: name in children.order ==>
              name in children.networks && children.networks[name] == ChildNetworks(settings, iface, peers, name) != []
    ensures if children.order == [] then !SomeChild(settings, iface, peers) else FirstChild(settings, iface, peers, children.order[0])
  {
    children, rejected' := Children([], map[]), rejected;
    for i := 0 to |peers|
      invariant rejected' == rejected + Rejections(settings, VlanCandidates(iface, peers[..i]))
      invariant children == ChildrenOf(settings, iface, peers[..i])
    {
      VlanRejectionsStep(settings, iface, peers, i);
      ConcatAssociative(rejected, Rejections(settings, VlanCandidates(iface, peers[..i])), Rejections(settings, peers[i].addresses));
      assert peers[..i + 1][..i] == peers[..i];
      var peer := peers[i];
      var vlanId := VlanIdFor(iface, peer.name);
      if vlanId.None? { continue; }
      var found;
      found, rejected' := EligibleNetworks(settings, peer.addresses, Vlan, peer.name, vlanId, rejected');
      children := AddChild(children, peer.name, found);
    }
    assert peers[..|peers|] == peers;
    ChildrenOrder(settings, iface, peers);
    ChildrenAreVlans(settings, iface, peers);
    forall name | name in children.order { ChildrenComplete(settings, iface, peers, name); }
  }

  // ----- the route stage

  lemma RouteStep(settings: Settings, iface: string, routes: seq<RouteEntry>, i: nat)
    requires i < |routes|
    ensures Rejections(settings, RouteCandidates(iface, routes[..i + 1]))
         == Rejections(settings, RouteCandidates(iface, routes[..i])) + Rejections(settings, RouteCandidate(iface, routes[i]))
    ensures ProposedFrom(settings, RouteCandidates(iface, routes[..i + 1]), Route, iface, None)
         == ProposedFrom(settings, RouteCandidates(iface, routes[..i]), Route, iface, None)
            + ProposedFrom(settings, RouteCandidate(iface, routes[i]), Route, iface, None)
  {
    assert routes[..i + 1][..i] == routes[..i];
    RejectionsConcat(settings, RouteCandidates(iface, routes[..i]), RouteCandidate(iface, routes[i]));
    ProposedConcat(settings, RouteCandidates(iface, routes[..i]), RouteCandidate(iface, routes[i]), Route, iface, None);
  }

  /** The networks of gateway-less routes on the interface. */
  method RouteStage(settings: Settings, iface: string, routes: seq<RouteEntry>, rejected: seq<Rejected>)
    returns (found: seq<ProposedNetwork>, rejected': seq<Rejected>)
    ensures rejected' == rejected + Rejections(settings, RouteCandidates(iface, routes))
    ensures found == ProposedFrom(settings, RouteCandidates(iface, routes), Route, iface, None)
  {
    found, rejected' := [], rejected;
    for i := 0 to |routes|
      invariant rejected' == rejected + Rejections(settings, RouteCandidates(iface, routes[..i]))
      invariant found == ProposedFrom(settings, RouteCandidates(iface, routes[..i]), Route, iface, None)
    {
      RouteStep(settings, iface, routes, i);
      var connected;
      connected, rejected' := EligibleNetworks(settings, RouteCandidate(iface, routes[i]), Route, iface, None, rejected');
      found := found + connected;
    }
    assert routes[..|routes|] == routes;
  }

  // ----- the whole proposal

  /** What the stage that decided the proposal contributes to it. */
  function Contribution(settings: Settings, source: Source, chosen: string, iface: string,
                        ownAddresses: seq<Expression>, peers: seq<Peer>, routes: seq<RouteEntry>): seq<ProposedNetwork> {
    match source
    case InterfacePrefix => ProposedFrom(settings, ownAddresses, Assigned, iface, None)
    case VlanHints => ChildNetworks(settings, iface, peers, chosen)
    case RouteHints => ProposedFrom(settings, RouteCandidates(iface, routes), Route, iface, None)
    case NoHints => []
  }

  lemma ContributionSound(settings: Settings, source: Source, chosen: string, iface: string,
                          ownAddresses: seq<Expression>, peers: seq<Peer>, routes: seq<RouteEntry>)
    requires source.VlanHints? || chosen == iface
    ensures Sound(settings, chosen, FirstShown(Contribution(settings, source, chosen, iface, ownAddresses, peers, routes)))
  {
    match source
    case InterfacePrefix => ProposedSound(settings, ownAddresses, Assigned, iface, None);
    case VlanHints => ProposedSound(settings, AddressesOf(peers, chosen), Vlan, chosen, VlanIdFor(iface, chosen));
    case RouteHints => ProposedSound(settings, RouteCandidates(iface, routes), Route, iface, None);
    case NoHints =>
  }

  /** `ScopeValidator.propose`. */
  method Propose(settings: Settings, iface: string, ownAddresses: seq<Expression>, peers: seq<Peer>, routes: seq<RouteEntry>)
    returns (p: Proposal)
    // the first stage that yields an eligible candidate decides the source
    ensures p.source == (
              if Eligible(settings, ownAddresses) != [] then InterfacePrefix
              else if SomeChild(settings, iface, peers) then VlanHints
              else if Eligible(settings, RouteCandidates(iface, routes)) != [] then RouteHints
              else NoHints)
    ensures if p.source.VlanHints? then FirstChild(settings, iface, peers, p.iface) else p.iface == iface
    // each displayed prefix of that stage once, all of them on the proposal's interface and acceptable alone
    ensures p.networks == FirstShown(Contribution(settings, p.source, p.iface, iface, ownAddresses, peers, routes))
    ensures p.canonicalTargets == Cidrs(p.networks)
    ensures Sound(settings, p.iface, p.networks)
    ensures p.source.NoHints? <==> p.networks == []
    // every candidate looked at is reported as rejected exactly when it is not eligible
    ensures p.rejected == Rejections(settings, Examined(p.source, iface, ownAddresses, peers, routes))
  {
    var selected, rejected := EligibleNetworks(settings, ownAddresses, Assigned, iface, None, []);
    assert rejected == Rejections(settings, ownAddresses);
    if selected != [] {
      p := BuildProposal(iface, InterfacePrefix, selected, rejected);
      ContributionSound(settings, p.source, p.iface, iface, ownAddresses, peers, routes);
      return;
    }
    var children;
    children, rejected := VlanStage(settings, iface, peers, rejected);
    RejectionsConcat(settings, ownAddresses, VlanCandidates(iface, peers));
    assert rejected == Rejections(settings, ownAddresses + VlanCandidates(iface, peers));
    if children.order != [] {
      var chosen := children.order[0];
      p := BuildProposal(chosen, VlanHints, children.networks[chosen], rejected);
      ContributionSound(settings, p.source, p.iface, iface, ownAddresses, peers, routes);
      return;
    }
    var found;
    found, rejected := RouteStage(settings, iface, routes, rejected);
    RejectionsConcat(settings, ownAddresses + VlanCandidates(iface, peers), RouteCandidates(iface, routes));
    p := BuildProposal(iface, if found != [] then RouteHints else NoHints, found, rejected);
    ContributionSound(settings, p.source, p.iface, iface, ownAddresses, peers, routes);
  }

  // ----- verdicts, names and routes, spelled out

  /** The widest limit of the three profiles; for IPv6 at most the IPv6 limit. */
  lemma ProposalLimitMeans(settings: Settings, family: Family, count: nat)
    ensures count <= ProposalLimit(settings, family) <==>
              && (count <= settings.discoveryMax || count <= settings.standardMax || count <= settings.deepMax)
              && (family == IPv6 ==> count <= settings.ipv6Max)
  {
    assert forall p :: ProfileLimit(settings, p) <= ProfileLimit(settings, MostPermissive(settings));
    assert ProfileLimit(settings, Discovery) == settings.discoveryMax && ProfileLimit(settings, Standard) == settings.standardMax
        && ProfileLimit(settings, Deep) == settings.deepMax;
  }

  /** A candidate is eligible when it stands for a network that is neither prohibited, loopback nor link-local, and unless
      large scopes are allowed has no more addresses than the limit; each failure has its own code, the first that applies. */
  lemma JudgeMeans(settings: Settings, e: Expression, n: Network)
    ensures Judge(settings, e) == Ok(n) <==>
              && AssignedNetwork(e) == Ok(n) && !IsLoopbackOrLinkLocal(n)
              && (settings.allowLargeScopes || |Addresses(n)| <= ProposalLimit(settings, n.family))
    ensures AssignedNetwork(e).Err? ==> Judge(settings, e) == AssignedNetwork(e)
    ensures Judge(settings, e) == Err(NotGlobalUnicast) <==> AssignedNetwork(e).Ok? && IsLoopbackOrLinkLocal(AssignedNetwork(e).value)
    ensures Judge(settings, e) == Err(LimitExceeded) <==>
              && AssignedNetwork(e).Ok? && !IsLoopbackOrLinkLocal(AssignedNetwork(e).value) && !settings.allowLargeScopes
              && |Addresses(AssignedNetwork(e).value)| > ProposalLimit(settings, AssignedNetwork(e).value.family)
  {
    forall m: Network ensures |Addresses(m)| == Size(m) {}
    if AssignedNetwork(e).Err? { AssignedErrors(e); }
  }

  lemma AssignedErrors(e: Expression)
    requires AssignedNetwork(e).Err?
    ensures AssignedNetwork(e).error == InvalidTarget || AssignedNetwork(e).error == ProhibitedTarget
  {
  }

  /** What is reported of a rejected candidate: itself, and the code of its verdict. */
  lemma RejectionMember(settings: Settings, values: seq<Expression>, r: Rejected)
    ensures r in Rejections(settings, values) <==>
              r.value in values && !r.value.Blank? && Judge(settings, r.value) == Err(r.code)
  {
    FilterMember(values, (v: Expression) => !v.Blank? && Judge(settings, v).Err?, r.value);
    var refused := Refused(settings, values);
    if r.value in refused {
      var i :| 0 <= i < |refused| && refused[i] == r.value;
      assert Rejections(settings, values)[i] == Rejected(refused[i], Judge(settings, refused[i]).error);
    }
  }

  /** The item is what this eligible candidate is proposed as. */
  ghost predicate Becomes(settings: Settings, v: Expression, origin: Origin, iface: string, vlanId: Option<nat>, item: ProposedNetwork) {
    Judge(settings, v).Ok? && item.cidr == Display(Judge(settings, v).value) && item.origin == origin
    && item.ownAddress == (if origin == Assigned then Some(v) else None) && item.vlanId == vlanId && item.iface == iface
  }

  /** What is proposed of an eligible candidate: the display of its network, where it comes from, and for an assigned
      address the address itself. */
  lemma ProposedMember(settings: Settings, values: seq<Expression>, origin: Origin, iface: string, vlanId: Option<nat>, item: ProposedNetwork)
    ensures item in ProposedFrom(settings, values, origin, iface, vlanId) <==>
              exists v :: v in values && !v.Blank? && Becomes(settings, v, origin, iface, vlanId, item)
  {
    var eligible := Eligible(settings, values);
    EligibleMember(settings, values);
    if v :| v in values && !v.Blank? && Becomes(settings, v, origin, iface, vlanId, item) {
      var i :| 0 <= i < |eligible| && eligible[i] == v;
      assert ProposedFrom(settings, values, origin, iface, vlanId)[i] == item;
    }
    if item in ProposedFrom(settings, values, origin, iface, vlanId) {
      var i :| 0 <= i < |eligible| && ProposedFrom(settings, values, origin, iface, vlanId)[i] == item;
      assert eligible[i] in eligible && Becomes(settings, eligible[i], origin, iface, vlanId, item);
    }
  }

  lemma EligibleMember(settings: Settings, values: seq<Expression>)
    ensures forall v :: v in Eligible(settings, values) <==> v in values && !v.Blank? && Judge(settings, v).Ok?
  {
    forall v { FilterMember(values, (v: Expression) => !v.Blank? && Judge(settings, v).Ok?, v); }
  }

  /** Decimal digits of a number, most significant first. */
  function Digits(n: nat): string {
    if n < 10 then [('0' as int + n) as char] else Digits(n / 10) + [('0' as int + n % 10) as char]
  }

  lemma {:induction false} DigitsRead(n: nat)
    ensures IsDigits(Digits(n)) && Number(Digits(n)) == n
  {
    if n >= 10 {
      DigitsRead(n / 10);
      assert Digits(n)[..|Digits(n)| - 1] == Digits(n / 10);
    }
  }

  lemma {:induction false} BeforeAtMeans(s: string)
    ensures BeforeAt(s) <= s && '@' !in BeforeAt(s) && (BeforeAt(s) == s || s[|BeforeAt(s)|] == '@')
  {
    if s != [] && s[0] != '@' { BeforeAtMeans(s[1..]); }
  }

  lemma {:induction false} BeforeAtUnique(name: string, rest: string)
    requires '@' !in name && (rest == "" || rest[0] == '@')
    ensures BeforeAt(name + rest) == name
  {
    if name != [] {
      BeforeAtUnique(name[1..], rest);
      assert (name + rest)[1..] == name[1..] + rest;
    } else {
      assert name + rest == rest;
    }
  }

  /** The name is the parent, a dot and these digits, followed by nothing or by an at sign and anything. */
  ghost predicate ChildName(parent: string, child: string, digits: string, rest: string) {
    child == parent + "." + digits + rest && (rest == "" || rest[0] == '@')
  }

  /** A name with a VLAN id is a VLAN child: the id is written in decimal digits and at most 4095. */
  lemma VlanIdMeans(parent: string, child: string, id: nat)
    requires VlanIdFor(parent, child) == Some(id)
    ensures exists digits, rest :: ChildName(parent, child, digits, rest) && IsDigits(digits) && Number(digits) == id <= 4095
  {
    BeforeAtMeans(child);
    var name, prefix := BeforeAt(child), parent + ".";
    var digits, rest := name[|prefix|..], child[|name|..];
    assert child == name + rest && name == prefix + digits;
    assert ChildName(parent, child, digits, rest);
  }

  /** Conversely every such name up to 4095 has that id. */
  lemma VlanChildFound(parent: string, id: nat, rest: string)
    requires '@' !in parent && id <= 4095 && (rest == "" || rest[0] == '@')
    ensures VlanIdFor(parent, parent + "." + Digits(id) + rest) == Some(id)
  {
    DigitsRead(id);
    var name := parent + "." + Digits(id);
    forall c | c in Digits(id) ensures c != '@' {}
    BeforeAtUnique(name, rest);
    assert name[|parent + "."|..] == Digits(id);
  }

  /** Candidates are the destinations of routes over the interface without a gateway, unless they say there is none or are
      the default route. */
  lemma RouteCandidateMember(iface: string, routes: seq<RouteEntry>, e: Expression)
    ensures e in RouteCandidates(iface, routes) <==>
              exists route :: route in routes && route.dev == iface && !route.hasGateway && route.dst == Some(e)
                              && e != Malformed("") && e != Malformed("default") && e != Malformed("unspecified")
                              && e != Cidr(IPv4, 0, 0) && e != Cidr(IPv6, 0, 0)
  {
    if routes != [] {
      var front, last := routes[..|routes| - 1], routes[|routes| - 1];
      RouteCandidateMember(iface, front, e);
      assert routes == front + [last];
    }
  }
}
