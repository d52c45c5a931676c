/** Choosing a representative host of each target, and resolving the routes of a validated scope. */
module Routes {
  import opened Expansion
  import opened Networks
  import opened Outcomes
  import opened Scope
  import opened Tables

  datatype Interface = Interface(name: string, ipv4: seq<Expression>, ipv6: seq<Expression>)

  function AddressesOf(iface: Interface, family: Family): seq<Expression> {
    if family.IPv4? then iface.ipv4 else iface.ipv6
  }

  // ----- usable hosts of a network

  /** First usable host. Two-address and one-address blocks have no reserved address. */
  function FirstHost(n: Network): nat {
    if n.prefixlen + 1 >= Width(n.family) then n.base else n.base + 1
  }

  /** One past the last usable host; only IPv4 reserves the broadcast address. */
  function HostEnd(n: Network): nat {
    if n.prefixlen + 1 >= Width(n.family) || n.family.IPv6? then n.base + Size(n) else Broadcast(n)
  }

  ghost predicate IsHost(n: Network, v: int) {
    FirstHost(n) <= v < HostEnd(n)
  }

  /** Every network has a usable host, so the fallback for an empty host list is never reached. */
  lemma HasHost(n: Network)
    ensures FirstHost(n) < HostEnd(n)
    ensures forall v :: IsHost(n, v) ==> v in Addresses(n)
  {
    var bits := Width(n.family) - n.prefixlen;
    if bits >= 2 {
      PowMonotone(2, bits);
      assert Pow2(2) == 4;
    }
  }

  /** The addresses assigned to the interface in the family of the target. */
  function AssignedValues(values: seq<Expression>, family: Family): set<int> {
    set e | e in values && (e.Host? || e.Cidr?) && e.family == family && ParseNetwork(e, false).Ok? :: e.value as int
  }

  /** The first value from `from` on, below `end`, that is not taken; `end` when all are. */
  function FirstFree(from: nat, end: nat, taken: set<int>): (r: nat)
    requires from <= end
    ensures from <= r <= end && (r < end ==> r !in taken)
    ensures forall v :: from <= v < r ==> v in taken
    decreases end - from
  {
    if from == end || from !in taken then from else FirstFree(from + 1, end, taken)
  }

  /** The least host of the network that the interface does not own, or the first host. */
  function RepresentativeOf(n: Network, iface: Interface): (r: nat)
    ensures IsHost(n, r) && r in Addresses(n)
  {
    HasHost(n);
    var taken := AssignedValues(AddressesOf(iface, n.family), n.family);
    var free := FirstFree(FirstHost(n), HostEnd(n), taken);
    if n.prefixlen == Width(n.family) || free == HostEnd(n) then FirstHost(n) else free
  }

  /** `_representative_address`, with the number of candidates it looked at. */
  method RepresentativeAddress(n: Network, iface: Interface) returns (r: nat, ghost tried: nat)
    ensures r == RepresentativeOf(n, iface)
    ensures tried <= |AssignedValues(AddressesOf(iface, n.family), n.family)| + 1
  {
    HasHost(n);
    if n.prefixlen == Width(n.family) {
      return n.base, 0;
    }
    var taken := AssignedValues(AddressesOf(iface, n.family), n.family);
    var first, end := FirstHost(n), HostEnd(n);
    var candidate := first;
    tried := 0;
    while candidate < end && candidate in taken
      invariant first <= candidate <= end && tried == candidate - first
      invariant FirstFree(first, end, taken) == FirstFree(candidate, end, taken)
      invariant forall v :: first <= v < candidate ==> v in taken
      decreases end - candidate
    {
      candidate := candidate + 1;
      tried := tried + 1;
    }
    SubsetSize(Interval(first, candidate), taken);
    if candidate < end {
      r, tried := candidate, tried + 1;
    } else {
      r := first;
    }
  }

  /** The representative avoids the interface's own addresses exactly when some host allows it. */
  lemma RepresentativeAvoidsOwn(n: Network, iface: Interface)
    ensures var taken := AssignedValues(AddressesOf(iface, n.family), n.family);
            RepresentativeOf(n, iface) !in taken <==> exists v :: IsHost(n, v) && v !in taken
  {
    HasHost(n);
    var taken := AssignedValues(AddressesOf(iface, n.family), n.family);
    var r := RepresentativeOf(n, iface);
    assert IsHost(n, r);
    var free := FirstFree(FirstHost(n), HostEnd(n), taken);
    if n.prefixlen == Width(n.family) {
      assert Size(n) == 1 && forall v :: IsHost(n, v) ==> v == r;
    } else if r in taken {
      assert free == HostEnd(n);
    }
  }

  // ----- hosts and own addresses, spelled out

  /** The hosts of a network are its addresses but the first, and in IPv4 also but the last, unless it has only one or two. */
  lemma HostsMean(n: Network, v: int)
    ensures IsHost(n, v) <==>
              && v in Addresses(n)
              && (|Addresses(n)| <= 2 || (v != n.base && (n.family == IPv4 ==> v != n.base + |Addresses(n)| - 1)))
  {
    var bits := Width(n.family) - n.prefixlen;
    assert |Addresses(n)| == Size(n) == Pow2(bits);
    if bits >= 2 {
      PowMonotone(2, bits);
      assert Pow2(2) == 4;
    } else {
      assert Pow2(1) == 2 && Pow2(0) == 1;
    }
  }

  /** The interface has this address in the family, with or without a prefix length. */
  ghost predicate Owns(iface: Interface, family: Family, v: int) {
    exists e :: e in (if family == IPv4 then iface.ipv4 else iface.ipv6)
                && ((e.Host? && e.family == family && e.value == v)
                    || (e.Cidr? && e.family == family && e.value == v && e.prefixlen <= Width(family)))
                && v < Pow2(Width(family))
  }

  lemma OwnsMeans(iface: Interface, family: Family, v: int)
    ensures v in AssignedValues(AddressesOf(iface, family), family) <==> Owns(iface, family, v)
  {
  }

  /** The representative is the least host that the interface does not own, or when it owns them all the least host. */
  lemma RepresentativeMeans(n: Network, iface: Interface, r: nat)
    ensures RepresentativeOf(n, iface) == r <==>
              && IsHost(n, r)
              && (if exists v :: IsHost(n, v) && !Owns(iface, n.family, v)
                  then !Owns(iface, n.family, r) && forall v :: IsHost(n, v) && v < r ==> Owns(iface, n.family, v)
                  else forall v :: IsHost(n, v) ==> r <= v)
  {
    HasHost(n);
    forall v { OwnsMeans(iface, n.family, v); }
    var taken := AssignedValues(AddressesOf(iface, n.family), n.family);
    RepresentativeAvoidsOwn(n, iface);
    var free := FirstFree(FirstHost(n), HostEnd(n), taken);
    var least := RepresentativeOf(n, iface);
    assert IsHost(n, least) && IsHost(n, FirstHost(n));
    if n.prefixlen == Width(n.family) {
      assert Size(n) == 1 && forall v :: IsHost(n, v) ==> v == least;
    }
  }

  // ----- resolving targets

  datatype Lookup =
    | LookupFailed
    | LookupUnreadable
    | Route(dev: Option<string>, typeLocal: bool, localFlag: bool, source: Option<Expression>, gateway: Option<string>)

  datatype RouteError =
    | AddressFamilyUnavailable | RouteLookupFailed | RouteDataInvalid | InterfaceMismatch
    | SourceAddressMissing | SourceFamilyMismatch

  datatype TargetRoute = TargetRoute(
    target: Expression, representative: nat, family: Family, iface: string, source: Expression,
    gateway: Option<string>, directlyConnected: bool)

  predicate InInterfaceNetwork(family: Family, address: nat, iface: Interface) {
    exists e | e in AddressesOf(iface, family) ::
      var parsed := ParseNetwork(e, false);
      parsed.Ok? && parsed.value.family == family && parsed.value.base <= address <= Broadcast(parsed.value)
  }

  predicate IsLocalRoute(route: Lookup)
    requires route.Route?
  {
    route.typeLocal || route.localFlag || route.dev == Some("lo")
  }

  predicate ParsesAsAddress(e: Expression) {
    e.Host? && e.value < Pow2(Width(e.family))
  }

  /** The checks of `_resolve_target` on the answer of the route lookup for one representative. */
  function CheckRoute(iface: Interface, target: ScopeTarget, representative: nat, route: Lookup): (r: Result<TargetRoute, RouteError>)
    ensures r.Ok? ==> r.value.target == target.value && r.value.representative == representative
    ensures r.Ok? ==> r.value.family == target.family && r.value.iface == iface.name
    ensures r.Ok? ==> r.value.source.Host? && r.value.source.family == target.family
    ensures r.Ok? && r.value.directlyConnected ==> r.value.gateway.None?
  {
    if route.LookupFailed? then Err(RouteLookupFailed)
    else if route.LookupUnreadable? then Err(RouteDataInvalid)
    else
      var local := IsLocalRoute(route) && InInterfaceNetwork(target.family, representative, iface);
      var dev := if local then Some(iface.name) else route.dev;
      var source := if local && route.source.None? then Some(Host(target.family, representative)) else route.source;
      if dev != Some(iface.name) then Err(InterfaceMismatch)
      else if source.None? then Err(SourceAddressMissing)
      else if !ParsesAsAddress(source.value) then Err(RouteDataInvalid)
      else if source.value.family != target.family then Err(SourceFamilyMismatch)
      else
        Ok(TargetRoute(target.value, representative, target.family, iface.name, source.value, route.gateway,
                       route.gateway.None? && InInterfaceNetwork(target.family, representative, iface)))
  }

  /** The address lies in a network of the interface. */
  ghost predicate OnLink(family: Family, address: nat, iface: Interface) {
    exists n :: n in ConnectedPrefixes(if family == IPv4 then iface.ipv4 else iface.ipv6) && n.family == family && address in Addresses(n)
  }

  lemma OnLinkIff(family: Family, address: nat, iface: Interface)
    ensures InInterfaceNetwork(family, address, iface) <==> OnLink(family, address, iface)
  {
    forall n { ConnectedMember(AddressesOf(iface, family), n); }
  }

  /** The answer of the lookup is for the interface itself: a local route to an address on one of its networks. */
  ghost predicate ForItself(iface: Interface, family: Family, representative: nat, route: Lookup)
    requires route.Route?
  {
    (route.typeLocal || route.localFlag || route.dev == Some("lo")) && OnLink(family, representative, iface)
  }

  /** The address the answer gives as source, when it parses. */
  ghost predicate SourceIs(iface: Interface, family: Family, representative: nat, route: Lookup, source: Expression)
    requires route.Route?
  {
    && source.Host? && source.value < Pow2(Width(source.family))
    && (route.source == Some(source)
        || (route.source == None && ForItself(iface, family, representative, route) && source == Host(family, representative)))
  }

  /** An answer is accepted when it goes through the interface, or is for the interface itself, and gives a source of
      the family of the target. What is reported is what the answer says. */
  lemma CheckRouteMeans(iface: Interface, target: ScopeTarget, representative: nat, route: Lookup)
    ensures var r := CheckRoute(iface, target, representative, route);
            && (r.Ok? <==>
                  && route.Route?
                  && (route.dev == Some(iface.name) || ForItself(iface, target.family, representative, route))
                  && exists source: Expression :: source.Host? && source.family == target.family
                                      && SourceIs(iface, target.family, representative, route, source))
            && (r.Ok? ==>
                  && SourceIs(iface, target.family, representative, route, r.value.source)
                  && r.value.gateway == route.gateway
                  && (r.value.directlyConnected <==> route.gateway == None && OnLink(target.family, representative, iface)))
  {
    OnLinkIff(target.family, representative, iface);
    var r := CheckRoute(iface, target, representative, route);
    if r.Ok? { assert SourceIs(iface, target.family, representative, route, r.value.source); }
  }

  /** Why an answer is refused. */
  lemma CheckRouteRefusals(iface: Interface, target: ScopeTarget, representative: nat, route: Lookup)
    ensures var r := CheckRoute(iface, target, representative, route);
            && (r == Err(RouteLookupFailed) <==> route.LookupFailed?)
            && (r == Err(InterfaceMismatch) <==>
                  route.Route? && route.dev != Some(iface.name) && !ForItself(iface, target.family, representative, route))
            && (r == Err(SourceAddressMissing) <==>
                  route.Route? && route.dev == Some(iface.name) && route.source == None && !ForItself(iface, target.family, representative, route))
            && (r == Err(SourceFamilyMismatch) ==> route.Route? && route.source.Some? && route.source.value.Host?
                                                   && route.source.value.family != target.family)
            && (route.LookupUnreadable? ==> r == Err(RouteDataInvalid))
            && r != Err(AddressFamilyUnavailable)
  {
    OnLinkIff(target.family, representative, iface);
  }

  /** What a resolved route promises about the target it stands for. */
  ghost predicate Resolves(iface: Interface, n: Network, route: TargetRoute) {
    && route.target == Display(n)
    && route.family == n.family
    && route.representative in Addresses(n)
    && route.iface == iface.name
    && route.source.Host? && route.source.family == n.family
  }

  /** One target: pick its representative, look up the route, check the answer. */
  function Attempt(iface: Interface, n: Network, lookup: (Family, nat) -> Lookup): (r: Result<TargetRoute, RouteError>)
    ensures r.Ok? ==> Resolves(iface, n, r.value)
  {
    var representative := RepresentativeOf(n, iface);
    CheckRoute(iface, ToTarget(n), representative, lookup(n.family, representative))
  }

  predicate Usable(iface: Interface, family: Family) {
    AddressesOf(iface, family) != []
  }

  /** Tries each item in turn and separates the successes from the errors, in order; an item for which
      there is nothing to try counts for neither. */
  function Sift<T, R, E>(items: seq<T>, attempt: T -> Option<Result<R, E>>): (seq<R>, seq<E>) {
    if items == [] then ([], [])
    else
      var (successes, errors) := Sift(items[..|items| - 1], attempt);
      match attempt(items[|items| - 1])
      case None => (successes, errors)
      case Some(Ok(value)) => (successes + [value], errors)
      case Some(Err(error)) => (successes, errors + [error])
  }

  /** The successes are those of a subsequence of the items. */
  ghost predicate Subsequence<T(!new), R(!new), E(!new)>(items: seq<T>, attempt: T -> Option<Result<R, E>>, successes: seq<R>, origin: seq<nat>) {
    && |successes| == |origin| <= |items|
    && (forall k :: 0 <= k < |origin| ==> origin[k] < |items| && attempt(items[origin[k]]) == Some(Ok(successes[k])))
    && (forall k, l :: 0 <= k < l < |origin| ==> origin[k] < origin[l])
  }

  lemma {:induction false} SiftInOrder<T(!new), R(!new), E(!new)>(items: seq<T>, attempt: T -> Option<Result<R, E>>) returns (origin: seq<nat>)
    ensures Subsequence(items, attempt, Sift(items, attempt).0, origin)
  {
    if items == [] {
      origin := [];
    } else {
      var k := |items| - 1;
      origin := SiftInOrder(items[..k], attempt);
      var last := attempt(items[k]);
      if last.Some? && last.value.Ok? {
        origin := origin + [k];
      }
    }
  }

  /** There is no success only when every item that can be tried errs. */
  lemma {:induction false} SiftEmpty<T, R, E>(items: seq<T>, attempt: T -> Option<Result<R, E>>)
    ensures Sift(items, attempt).0 == [] <==>
              forall x :: x in items ==> attempt(x).None? || attempt(x).value.Err?
    ensures Sift(items, attempt).1 == [] <==>
              forall x :: x in items ==> attempt(x).None? || attempt(x).value.Ok?
  {
    if items != [] {
      var k := |items| - 1;
      SiftEmpty(items[..k], attempt);
      assert items == items[..k] + [items[k]];
    }
  }

  /** The successes are exactly those of the items tried. */
  lemma {:induction false} SiftMember<T(!new), R(!new), E>(items: seq<T>, attempt: T -> Option<Result<R, E>>, value: R)
    ensures value in Sift(items, attempt).0 <==> exists x :: x in items && attempt(x) == Some(Ok(value))
  {
    if items != [] {
      var front, last := items[..|items| - 1], items[|items| - 1];
      SiftMember(front, attempt, value);
      assert items == front + [last];
    }
  }

  /** A target of a family the interface has no address in is not tried. */
  function Trial(iface: Interface, lookup: (Family, nat) -> Lookup): Network -> Option<Result<TargetRoute, RouteError>> {
    (n: Network) => if Usable(iface, n.family) then Some(Attempt(iface, n, lookup)) else None
  }

  /** `RouteResolver.resolve`. */
  function Resolved(iface: Interface, networks: seq<Network>, lookup: (Family, nat) -> Lookup): Result<seq<TargetRoute>, RouteError> {
    var (routes, errors) := Sift(networks, Trial(iface, lookup));
    if routes != [] then Ok(routes)
    else if errors != [] then Err(errors[0])
    else Err(AddressFamilyUnavailable)
  }

  method Resolve(iface: Interface, networks: seq<Network>, lookup: (Family, nat) -> Lookup)
    returns (r: Result<seq<TargetRoute>, RouteError>)
    ensures r == Resolved(iface, networks, lookup)
  {
    var routes: seq<TargetRoute>, errors: seq<RouteError> := [], [];
    for i := 0 to |networks|
      invariant (routes, errors) == Sift(networks[..i], Trial(iface, lookup))
    {
      assert networks[..i + 1][..i] == networks[..i];
      var n := networks[i];
      if !Usable(iface, n.family) { continue; }
      var representative, tried := RepresentativeAddress(n, iface);
      var route := CheckRoute(iface, ToTarget(n), representative, lookup(n.family, representative));
      if route.Ok? {
        routes := routes + [route.value];
      } else {
        errors := errors + [route.error];
      }
    }
    assert networks[..|networks|] == networks;
    if routes == [] {
      return Err(if errors != [] then errors[0] else AddressFamilyUnavailable);
    }
    return Ok(routes);
  }

  /** Resolution fails exactly when no target of a usable family passes its checks; otherwise the routes are
      those of the targets that pass, and each names its target with a host of that target. */
  lemma ResolvedCorrect(iface: Interface, networks: seq<Network>, lookup: (Family, nat) -> Lookup)
    ensures Resolved(iface, networks, lookup).Err? <==>
              forall n :: n in networks && Usable(iface, n.family) ==> Attempt(iface, n, lookup).Err?
    ensures var r := Resolved(iface, networks, lookup);
            r.Ok? ==>
              && |r.value| <= |networks|
              && (forall route :: route in r.value ==> exists n :: n in networks && Resolves(iface, n, route))
              && (forall n :: n in networks && Usable(iface, n.family) && Attempt(iface, n, lookup).Ok? ==>
                    Attempt(iface, n, lookup).value in r.value)
  {
    var trial := Trial(iface, lookup);
    SiftEmpty(networks, trial);
    var origin := SiftInOrder(networks, trial);
    var routes := Sift(networks, trial).0;
    forall route | route in routes ensures exists n :: n in networks && Resolves(iface, n, route) {
      SiftMember(networks, trial, route);
      var n :| n in networks && trial(n) == Some(Ok(route));
      assert Resolves(iface, n, route);
    }
    forall n | n in networks && Usable(iface, n.family) && Attempt(iface, n, lookup).Ok? ensures Attempt(iface, n, lookup).value in routes {
      SiftMember(networks, trial, Attempt(iface, n, lookup).value);
      assert trial(n) == Some(Ok(Attempt(iface, n, lookup).value));
    }
  }

  /** Each route of a resolution rests on a lookup that goes through the interface or is for it, and reports it. */
  lemma ResolvedThroughInterface(iface: Interface, networks: seq<Network>, lookup: (Family, nat) -> Lookup, route: TargetRoute)
    requires Resolved(iface, networks, lookup).Ok? && route in Resolved(iface, networks, lookup).value
    ensures exists n :: n in networks && route.target == Display(n) && (if n.family == IPv4 then iface.ipv4 else iface.ipv6) != []
                        && route.representative == RepresentativeOf(n, iface)
                        && var answer := lookup(n.family, route.representative);
                           && answer.Route?
                           && (answer.dev == Some(iface.name) || ForItself(iface, n.family, route.representative, answer))
                           && SourceIs(iface, n.family, route.representative, answer, route.source)
                           && route.gateway == answer.gateway
                           && (route.directlyConnected <==> answer.gateway == None && OnLink(n.family, route.representative, iface))
  {
    SiftMember(networks, Trial(iface, lookup), route);
    var n :| n in networks && Trial(iface, lookup)(n) == Some(Ok(route));
    var representative := RepresentativeOf(n, iface);
    CheckRouteMeans(iface, ToTarget(n), representative, lookup(n.family, representative));
  }

  function TargetsOf(routes: seq<TargetRoute>): seq<Expression> {
    seq(|routes|, i requires 0 <= i < |routes| => routes[i].target)
  }

  /** The routed targets are display forms of target networks. */
  lemma RoutableNames(iface: Interface, networks: seq<Network>, lookup: (Family, nat) -> Lookup)
    requires Resolved(iface, networks, lookup).Ok?
    ensures var routable := TargetsOf(Resolved(iface, networks, lookup).value);
            && 0 < |routable| <= |networks|
            && forall k :: 0 <= k < |routable| ==> Names(networks, routable[k])
  {
    ResolvedCorrect(iface, networks, lookup);
    var routes := Resolved(iface, networks, lookup).value;
    forall k | 0 <= k < |routes| ensures Names(networks, routes[k].target) {
      assert routes[k] in routes;
      var n :| n in networks && Resolves(iface, n, routes[k]);
    }
  }

  /** The routable part of an accepted scope is accepted again: it only names canonical targets. */
  lemma {:induction false} RevalidationSucceeds(settings: Settings, targets: seq<Expression>, profile: Profile, iface: Interface,
                             lookup: (Family, nat) -> Lookup)
    requires Validated(settings, targets, profile).Ok?
    requires Resolved(iface, Reduced(ParseAll(targets).value), lookup).Ok?
    ensures var routable := TargetsOf(Resolved(iface, Reduced(ParseAll(targets).value), lookup).value);
            && (forall e :: e in routable ==> e in Validated(settings, targets, profile).value.CanonicalTargets())
            && Validated(settings, routable, profile).Ok?
            && (forall e :: e in Validated(settings, routable, profile).value.CanonicalTargets() <==> e in routable)
  {
    var networks := Reduced(ParseAll(targets).value);
    var routable := TargetsOf(Resolved(iface, networks, lookup).value);
    RoutableNames(iface, networks, lookup);
    ReducedCorrect(ParseAll(targets).value);
    RoutableSubsetAccepted(settings, targets, routable, profile);
    forall e | e in routable ensures e in Validated(settings, targets, profile).value.CanonicalTargets() {
      CanonicalNames(settings, targets, profile, e);
    }
    forall e { RoutableSubsetKept(settings, targets, routable, profile, e); }
  }

  function OwnAddresses(iface: Interface): seq<Expression> { iface.ipv4 + iface.ipv6 }

  /** What a discovery request validates: the typed targets, connected network identifiers read as their prefixes. */
  function Expanded(iface: Interface, typed: seq<Expression>): seq<Expression> {
    ExpandAll(ConnectedPrefixes(OwnAddresses(iface)), typed)
  }

  /** An accepted scope holds no address outside the typed targets and the prefixes of the interface. */
  lemma {:induction false} AcceptedWithinTyped(settings: Settings, iface: Interface, typed: seq<Expression>, profile: Profile, family: Family)
    requires Validated(settings, Expanded(iface, typed), profile).Ok?
    ensures ScopeAddresses(Expanded(iface, typed), family)
         <= DenotedByAny(typed, family) + Covered(ConnectedPrefixes(OwnAddresses(iface)), family)
    ensures DenotedByAny(typed, family) <= ScopeAddresses(Expanded(iface, typed), family)
  {
    ScopeDenotes(Expanded(iface, typed), family);
    ExpansionAddresses(ConnectedPrefixes(OwnAddresses(iface)), typed, family);
  }

  /** A list of canonical targets of an accepted scope denotes no more addresses than it. */
  lemma SmallerScope(settings: Settings, a: seq<Expression>, b: seq<Expression>, profile: Profile, family: Family)
    requires Validated(settings, a, profile).Ok? && ParseAll(b).Ok?
    requires forall e :: e in b ==> e in Validated(settings, a, profile).value.CanonicalTargets()
    ensures ScopeAddresses(b, family) <= ScopeAddresses(a, family)
  {
    forall i | 0 <= i < |b| ensures Names(Reduced(ParseAll(a).value), b[i]) {
      assert b[i] in b;
      CanonicalNames(settings, a, profile, b[i]);
    }
    NamedListParses(a, b);
    SubsetCovered(ParseAll(b).value, Reduced(ParseAll(a).value), family);
    ReducedCovers(ParseAll(a).value, family);
  }

  /** A discovery request: expand, validate, resolve the routes, and validate the routable targets again when
      some were dropped. Once the first validation has passed, the second one cannot fail, and the scope that
      is confirmed names exactly the routable targets. It holds at most the addresses allowed by the limits, and
      none outside what was typed and the prefixes of the interface. */
  method AdmitDiscovery(settings: Settings, typed: seq<Expression>, profile: Profile, iface: Interface,
                        lookup: (Family, nat) -> Lookup)
    returns (scope: Result<ValidatedScope, Code>, routes: Result<seq<TargetRoute>, RouteError>)
    ensures scope.Ok? <==> Validated(settings, Expanded(iface, typed), profile).Ok?
    ensures scope.Ok? ==> routes == Resolved(iface, Reduced(ParseAll(Expanded(iface, typed)).value), lookup)
    ensures scope.Ok? && routes.Ok? ==> forall e :: e in scope.value.CanonicalTargets() <==> e in TargetsOf(routes.value)
    ensures scope.Ok? && routes.Ok? ==> forall e :: e in TargetsOf(routes.value) ==>
              e in Validated(settings, Expanded(iface, typed), profile).value.CanonicalTargets()
    ensures scope.Ok? ==> ParseAll(scope.value.CanonicalTargets()).Ok? && forall family ::
              ScopeAddresses(scope.value.CanonicalTargets(), family)
              <= DenotedByAny(typed, family) + Covered(ConnectedPrefixes(OwnAddresses(iface)), family)
    ensures scope.Ok? && !settings.allowLargeScopes ==>
              var most := match profile
                          case Discovery => settings.discoveryMax
                          case Standard => settings.standardMax
                          case Deep => settings.deepMax;
              && |ScopeAddresses(scope.value.CanonicalTargets(), IPv4)| <= most
              && |ScopeAddresses(scope.value.CanonicalTargets(), IPv6)| <= most
              && |ScopeAddresses(scope.value.CanonicalTargets(), IPv6)| <= settings.ipv6Max
  {
    var targets := Expand(typed, iface.ipv4 + iface.ipv6);
    scope := Validate(settings, targets, profile);
    if scope.Err? { return scope, Err(AddressFamilyUnavailable); }
    var canonical := scope.value.CanonicalTargets();
    CanonicalParses(settings, targets, profile);
    forall family { AcceptedWithinTyped(settings, iface, typed, profile, family); }
    LimitsMean(settings, targets, profile);
    var networks := ParseAll(canonical).value;
    routes := Resolve(iface, networks, lookup);
    if routes.Err? { return; }
    RevalidationSucceeds(settings, targets, profile, iface, lookup);
    var routable := TargetsOf(routes.value);
    var routed, confirmed := set e | e in routable, set e | e in canonical;
    if routed != confirmed {
      scope := Validate(settings, routable, profile);
      CanonicalParses(settings, routable, profile);
      LimitsMean(settings, routable, profile);
      forall family { SmallerScope(settings, targets, routable, profile, family); }
    } else {
      assert forall e :: e in routable <==> e in routed;
      assert forall e :: e in canonical <==> e in confirmed;
    }
  }
}
