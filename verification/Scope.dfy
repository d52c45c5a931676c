/** Parsing and validation of an authorized active-scan scope. */
module Scope {
  import opened Networks
  import opened Outcomes
  import opened Tables

  /** A typed target: the text of one expression, already split into its integers.
      Hosts carry no slash; a value outside the family's range stands for text that does not parse. */
  datatype Expression =
    | Blank
    | Malformed(text: string)
    | Host(family: Family, value: nat)
    | Cidr(family: Family, value: nat, prefixlen: nat)

  datatype Code = Empty | TooManyExpressions | InvalidTarget | ProhibitedTarget | LimitExceeded | NotGlobalUnicast

  // ----- parsing

  const MULTICAST4_FIRST: nat := 0xE000_0000
  const MULTICAST4_LAST: nat := 0xEFFF_FFFF
  const MULTICAST6_FIRST: nat := 0xFF00_0000_0000_0000_0000_0000_0000_0000
  const LOOPBACK4_FIRST: nat := 0x7F00_0000
  const LOOPBACK4_LAST: nat := 0x7FFF_FFFF
  const LINK_LOCAL4_FIRST: nat := 0xA9FE_0000
  const LINK_LOCAL4_LAST: nat := 0xA9FE_FFFF
  const LINK_LOCAL6_FIRST: nat := 0xFE80_0000_0000_0000_0000_0000_0000_0000
  const LINK_LOCAL6_LAST: nat := 0xFEBF_FFFF_FFFF_FFFF_FFFF_FFFF_FFFF_FFFF

  predicate Within(n: Network, first: nat, last: nat) {
    first <= n.base && Broadcast(n) <= last
  }

  predicate IsMulticast(n: Network) {
    if n.family.IPv4? then Within(n, MULTICAST4_FIRST, MULTICAST4_LAST) else MULTICAST6_FIRST <= n.base
  }

  predicate IsLoopbackOrLinkLocal(n: Network) {
    if n.family.IPv4? then
      Within(n, LOOPBACK4_FIRST, LOOPBACK4_LAST) || Within(n, LINK_LOCAL4_FIRST, LINK_LOCAL4_LAST)
    else
      Within(n, 1, 1) || Within(n, LINK_LOCAL6_FIRST, LINK_LOCAL6_LAST)
  }

  predicate Prohibited(n: Network) {
    n.prefixlen == 0 || Within(n, 0, 0) || IsMulticast(n)
  }

  /** Clears the host bits of an address. */
  function MaskLow(value: nat, bits: nat): (r: nat)
    ensures HostBitsZero(r, bits)
    ensures r <= value < r + Pow2(bits)
  {
    if bits == 0 then value
    else
      var half := MaskLow(value / 2, bits - 1);
      assert 2 * half / 2 == half;
      2 * half
  }

  lemma {:induction false} AlignedFits(base: nat, bits: nat, width: nat)
    requires bits <= width && HostBitsZero(base, bits) && base < Pow2(width)
    ensures base + Pow2(bits) <= Pow2(width)
    decreases bits
  {
    if bits != 0 { AlignedFits(base / 2, bits - 1, width - 1); }
  }

  /** `ip_network(value, strict)`: a strict parse refuses set host bits, a lenient one clears them. */
  function ToNetwork(family: Family, value: nat, prefixlen: nat, strict: bool): (r: Result<Network, Code>)
  {
    if prefixlen > Width(family) || value >= Pow2(Width(family)) then Err(InvalidTarget)
    else
      var bits := Width(family) - prefixlen;
      if strict && !HostBitsZero(value, bits) then Err(InvalidTarget)
      else
        var base := if strict then value else MaskLow(value, bits);
        AlignedFits(base, bits, Width(family));
        Ok(Prefix(family, base, prefixlen))
  }

  function ParseNetwork(e: Expression, strict: bool): (r: Result<Network, Code>) {
    match e
    case Blank => Err(InvalidTarget)
    case Malformed(_) => Err(InvalidTarget)
    case Host(family, value) => ToNetwork(family, value, Width(family), true)
    case Cidr(family, value, prefixlen) => ToNetwork(family, value, prefixlen, strict)
  }

  function Admit(parsed: Result<Network, Code>): Result<Network, Code> {
    if parsed.Ok? && Prohibited(parsed.value) then Err(ProhibitedTarget) else parsed
  }

  /** `_parse_target`: strict. */
  function ParseTarget(e: Expression): Result<Network, Code> {
    Admit(ParseNetwork(e, true))
  }

  /** `_assigned_network`: the network of an interface address, host bits allowed. */
  function AssignedNetwork(e: Expression): Result<Network, Code> {
    Admit(ParseNetwork(e, false))
  }

  /** `_display_value`: a single address prints without its prefix length. */
  function Display(n: Network): Expression {
    if n.prefixlen == Width(n.family) then Host(n.family, n.base) else Cidr(n.family, n.base, n.prefixlen)
  }

  /** What is displayed parses back to the same network, unless that network is prohibited. */
  lemma DisplayRoundTrip(n: Network)
    ensures ParseTarget(Display(n)) == if Prohibited(n) then Err(ProhibitedTarget) else Ok(n)
  {
  }

  // ----- validation

  datatype Profile = Discovery | Standard | Deep

  datatype Settings = Settings(
    discoveryMax: nat, standardMax: nat, deepMax: nat, ipv6Max: nat, allowLargeScopes: bool)

  datatype ScopeTarget = ScopeTarget(value: Expression, family: Family, single: bool, addressCount: nat)

  datatype ValidatedScope = ValidatedScope(profile: Profile, targets: seq<ScopeTarget>, addressCount: nat)
  {
    function CanonicalTargets(): seq<Expression> {
      seq(|targets|, i requires 0 <= i < |targets| => targets[i].value)
    }
  }

  function Min(a: nat, b: nat): nat { if a <= b then a else b }

  function ProfileLimit(settings: Settings, profile: Profile): nat {
    match profile
    case Discovery => settings.discoveryMax
    case Standard => settings.standardMax
    case Deep => settings.deepMax
  }

  function FamilyLimit(settings: Settings, profile: Profile, family: Family): nat {
    if family.IPv4? then ProfileLimit(settings, profile)
    else Min(ProfileLimit(settings, profile), settings.ipv6Max)
  }

  /** All the values, or the first error. */
  function Collect<T, E>(results: seq<Result<T, E>>): (r: Result<seq<T>, E>)
    ensures r.Ok? ==> |r.value| == |results| && forall i :: 0 <= i < |results| ==> results[i] == Ok(r.value[i])
    ensures r.Err? ==> exists i :: 0 <= i < |results| && results[i] == Err(r.error)
                                && forall j :: 0 <= j < i ==> results[j].Ok?
  {
    if results == [] then Ok([])
    else if results[0].Err? then Err(results[0].error)
    else
      var rest := Collect(results[1..]);
      if rest.Err? then rest else Ok([results[0].value] + rest.value)
  }

  /** The contract of `Collect` leaves no other result. */
  lemma CollectOk<T, E>(results: seq<Result<T, E>>, values: seq<T>)
    requires |results| == |values| && forall i :: 0 <= i < |results| ==> results[i] == Ok(values[i])
    ensures Collect(results) == Ok(values)
  {
    assert Collect(results).Ok? ==> Collect(results).value == values;
  }

  lemma CollectErr<T, E>(results: seq<Result<T, E>>, i: nat)
    requires i < |results| && results[i].Err? && forall j :: 0 <= j < i ==> results[j].Ok?
    ensures Collect(results) == Err(results[i].error)
  {
  }

  function ParseEach(targets: seq<Expression>): seq<Result<Network, Code>> {
    seq(|targets|, i requires 0 <= i < |targets| => ParseTarget(targets[i]))
  }

  /** Parses every expression, or reports the first one that fails. */
  function ParseAll(targets: seq<Expression>): Result<seq<Network>, Code> {
    Collect(ParseEach(targets))
  }

  function ToTarget(n: Network): ScopeTarget {
    ScopeTarget(Display(n), n.family, n.prefixlen == Width(n.family), Size(n))
  }

  function ToTargets(networks: seq<Network>): seq<ScopeTarget> {
    seq(|networks|, i requires 0 <= i < |networks| => ToTarget(networks[i]))
  }

  ghost predicate WithinLimits(settings: Settings, profile: Profile, networks: seq<Network>) {
    settings.allowLargeScopes || forall family ::
      FamilyCount(Reduced(networks), family) <= FamilyLimit(settings, profile, family)
  }

  /** The outcome of `ScopeValidator.validate`. */
  ghost function Validated(settings: Settings, targets: seq<Expression>, profile: Profile): Result<ValidatedScope, Code> {
    if targets == [] then Err(Empty)
    else if |targets| > 256 then Err(TooManyExpressions)
    else
      var parsed := ParseAll(targets);
      if parsed.Err? then Err(parsed.error)
      else if !WithinLimits(settings, profile, parsed.value) then Err(LimitExceeded)
      else
        var kept := Reduced(parsed.value);
        Ok(ValidatedScope(profile, ToTargets(kept), FamilyCount(kept, IPv4) + FamilyCount(kept, IPv6)))
  }

  /** The parsing loop of `validate`, which raises at the first expression that fails. */
  method ParseTargets(targets: seq<Expression>) returns (r: Result<seq<Network>, Code>)
    ensures r == ParseAll(targets)
  {
    var networks := [];
    for i := 0 to |targets|
      invariant |networks| == i && forall j :: 0 <= j < i ==> ParseEach(targets)[j] == Ok(networks[j])
    {
      var network := ParseTarget(targets[i]);
      if network.Err? {
        CollectErr(ParseEach(targets), i);
        return Err(network.error);
      }
      networks := networks + [network.value];
    }
    CollectOk(ParseEach(targets), networks);
    return Ok(networks);
  }

  method Validate(settings: Settings, targets: seq<Expression>, profile: Profile)
    returns (r: Result<ValidatedScope, Code>)
    ensures r == Validated(settings, targets, profile)
  {
    if targets == [] { return Err(Empty); }
    if |targets| > 256 { return Err(TooManyExpressions); }
    var parsed := ParseTargets(targets);
    if parsed.Err? { return Err(parsed.error); }
    var networks := parsed.value;
    var kept := RemoveDuplicatesAndCovered(networks);
    var count4, count6 := FamilyCount(kept, IPv4), FamilyCount(kept, IPv6);
    var exceeded := count4 > FamilyLimit(settings, profile, IPv4) || count6 > FamilyLimit(settings, profile, IPv6);
    assert exceeded <==> !forall family :: FamilyCount(kept, family) <= FamilyLimit(settings, profile, family);
    if !settings.allowLargeScopes && exceeded { return Err(LimitExceeded); }
    return Ok(ValidatedScope(profile, ToTargets(kept), count4 + count6));
  }

  /** A list of expressions each of which parses, as the validator would read it. */
  ghost predicate Admissible(targets: seq<Expression>) {
    0 < |targets| <= 256 && ParseAll(targets).Ok?
  }

  ghost function ScopeAddresses(targets: seq<Expression>, family: Family): set<int>
    requires ParseAll(targets).Ok?
  {
    Covered(ParseAll(targets).value, family)
  }

  /** Acceptance is a bound on the number of distinct addresses of each family, and nothing else. */
  lemma AcceptedIffFewAddresses(settings: Settings, targets: seq<Expression>, profile: Profile)
    requires Admissible(targets)
    ensures Validated(settings, targets, profile).Ok? <==>
              settings.allowLargeScopes || forall family ::
                |ScopeAddresses(targets, family)| <= FamilyLimit(settings, profile, family)
    ensures var r := Validated(settings, targets, profile);
            r.Err? ==> r.error == LimitExceeded
  {
    WithinLimitsIff(settings, profile, ParseAll(targets).value);
  }

  lemma WithinLimitsIff(settings: Settings, profile: Profile, networks: seq<Network>)
    ensures WithinLimits(settings, profile, networks) <==>
              settings.allowLargeScopes || forall family :: |Covered(networks, family)| <= FamilyLimit(settings, profile, family)
  {
    forall family { ReducedCount(networks, family); }
  }

  /** The same with the limits spelled out: by profile, and for IPv6 additionally the IPv6 limit. */
  lemma LimitsMean(settings: Settings, targets: seq<Expression>, profile: Profile)
    requires Admissible(targets)
    ensures var most := match profile
                        case Discovery => settings.discoveryMax
                        case Standard => settings.standardMax
                        case Deep => settings.deepMax;
            Validated(settings, targets, profile).Ok? <==>
              || settings.allowLargeScopes
              || (|ScopeAddresses(targets, IPv4)| <= most
                  && |ScopeAddresses(targets, IPv6)| <= most && |ScopeAddresses(targets, IPv6)| <= settings.ipv6Max)
  {
    AcceptedIffFewAddresses(settings, targets, profile);
    if settings.allowLargeScopes || forall family :: |ScopeAddresses(targets, family)| <= FamilyLimit(settings, profile, family) {
      assert settings.allowLargeScopes || |ScopeAddresses(targets, IPv4)| <= FamilyLimit(settings, profile, IPv4);
      assert settings.allowLargeScopes || |ScopeAddresses(targets, IPv6)| <= FamilyLimit(settings, profile, IPv6);
    }
  }

  /** A list that is not admissible is refused for its length or for its first bad expression. */
  lemma NotAdmissible(settings: Settings, targets: seq<Expression>, profile: Profile)
    ensures Validated(settings, targets, profile) == Err(Empty) <==> targets == []
    ensures |targets| > 256 ==> Validated(settings, targets, profile) == Err(TooManyExpressions)
    ensures forall i :: 0 <= i < |targets| <= 256 && ParseTarget(targets[i]).Err? && (forall j :: 0 <= j < i ==> ParseTarget(targets[j]).Ok?)
              ==> Validated(settings, targets, profile) == Err(ParseTarget(targets[i]).error)
  {
    forall i | 0 <= i < |targets| <= 256 && ParseTarget(targets[i]).Err? && (forall j :: 0 <= j < i ==> ParseTarget(targets[j]).Ok?)
      ensures ParseAll(targets) == Err(ParseTarget(targets[i]).error)
    {
      CollectErr(ParseEach(targets), i);
    }
    assert forall i :: 0 <= i < |targets| && ParseTarget(targets[i]).Err? ==> ParseTarget(targets[i]).error in {InvalidTarget, ProhibitedTarget};
  }

  /** The reported count is the number of distinct addresses, over both families. */
  lemma ReportedCount(settings: Settings, targets: seq<Expression>, profile: Profile)
    requires Validated(settings, targets, profile).Ok?
    ensures Validated(settings, targets, profile).value.addressCount
         == |ScopeAddresses(targets, IPv4)| + |ScopeAddresses(targets, IPv6)|
  {
    ReducedCount(ParseAll(targets).value, IPv4);
    ReducedCount(ParseAll(targets).value, IPv6);
  }

  /** Any admissible rewriting or shrinking of an accepted scope is accepted, under any profile that
      is at least as permissive. */
  lemma {:induction false} AcceptanceDownwardClosed(settings: Settings, targets: seq<Expression>, smaller: seq<Expression>, profile: Profile, wider: Profile)
    requires Validated(settings, targets, profile).Ok? && Admissible(smaller)
    requires ProfileLimit(settings, profile) <= ProfileLimit(settings, wider)
    requires forall family :: ScopeAddresses(smaller, family) <= ScopeAddresses(targets, family)
    ensures Validated(settings, smaller, wider).Ok?
  {
    AcceptedIffFewAddresses(settings, targets, profile);
    AcceptedIffFewAddresses(settings, smaller, wider);
    forall family {
      SubsetSize(ScopeAddresses(smaller, family), ScopeAddresses(targets, family));
    }
  }

  /** Two admissible lists that denote the same addresses get the same decision and the same count. */
  lemma {:induction false} DecisionDependsOnAddresses(settings: Settings, a: seq<Expression>, b: seq<Expression>, profile: Profile)
    requires Admissible(a) && Admissible(b)
    requires forall family :: ScopeAddresses(a, family) == ScopeAddresses(b, family)
    ensures Validated(settings, a, profile).Ok? <==> Validated(settings, b, profile).Ok?
    ensures var ra, rb := Validated(settings, a, profile), Validated(settings, b, profile);
            if ra.Ok? then rb.Ok? && ra.value.addressCount == rb.value.addressCount else ra == rb
  {
    AcceptedIffFewAddresses(settings, a, profile);
    AcceptedIffFewAddresses(settings, b, profile);
    if Validated(settings, a, profile).Ok? {
      ReportedCount(settings, a, profile);
      ReportedCount(settings, b, profile);
    }
  }

  // ----- canonical targets

  lemma ParsedNotProhibited(targets: seq<Expression>, n: Network)
    requires ParseAll(targets).Ok? && n in ParseAll(targets).value
    ensures ParseTarget(Display(n)) == Ok(n)
  {
    var networks := ParseAll(targets).value;
    var i :| 0 <= i < |networks| && networks[i] == n;
    assert ParseEach(targets)[i] == Ok(n);
    DisplayRoundTrip(n);
  }

  /** The canonical targets of an accepted scope parse back to the reduced networks. */
  lemma CanonicalParses(settings: Settings, targets: seq<Expression>, profile: Profile)
    requires Validated(settings, targets, profile).Ok?
    ensures ParseAll(Validated(settings, targets, profile).value.CanonicalTargets()) == Ok(Reduced(ParseAll(targets).value))
    ensures Admissible(Validated(settings, targets, profile).value.CanonicalTargets())
    ensures forall family :: ScopeAddresses(Validated(settings, targets, profile).value.CanonicalTargets(), family)
                          == ScopeAddresses(targets, family)
  {
    var networks := ParseAll(targets).value;
    var kept, canonical := Reduced(networks), Validated(settings, targets, profile).value.CanonicalTargets();
    ReducedCorrect(networks);
    forall i | 0 <= i < |kept| ensures ParseTarget(canonical[i]) == Ok(kept[i]) {
      assert kept[i] in kept;
      ParsedNotProhibited(targets, kept[i]);
    }
    CollectOk(ParseEach(canonical), kept);
    var m := MaximalCover(networks[0], networks);
    assert m in kept;
  }

  /** The targets of an accepted scope are its maximal networks, in order, each with its display, its family, whether it is
      a single address, and how many addresses it has. */
  lemma TargetsMean(settings: Settings, targets: seq<Expression>, profile: Profile, i: nat)
    requires Validated(settings, targets, profile).Ok?
    ensures var scope, kept := Validated(settings, targets, profile).value, Reduced(ParseAll(targets).value);
            && scope.profile == profile && |scope.targets| == |kept|
            && (i < |kept| ==>
                  && scope.targets[i].value == Display(kept[i]) && scope.targets[i].family == kept[i].family
                  && (scope.targets[i].single <==> |Addresses(kept[i])| == 1)
                  && scope.targets[i].addressCount == |Addresses(kept[i])|)
  {
    var kept := Reduced(ParseAll(targets).value);
    if i < |kept| { SingleAddress(kept[i]); }
  }

  lemma SingleAddress(n: Network)
    ensures |Addresses(n)| == Size(n)
    ensures |Addresses(n)| == 1 <==> n.prefixlen == Width(n.family)
  {
    if n.prefixlen < Width(n.family) { PowMonotone(1, Width(n.family) - n.prefixlen); }
  }

  /** An accepted scope depends on the reduced networks only. */
  lemma SameReducedSameScope(settings: Settings, a: seq<Expression>, b: seq<Expression>, profile: Profile)
    requires Validated(settings, a, profile).Ok? && Validated(settings, b, profile).Ok?
    requires Reduced(ParseAll(a).value) == Reduced(ParseAll(b).value)
    ensures Validated(settings, a, profile) == Validated(settings, b, profile)
  {
  }

  lemma {:induction false} CanonicalAccepted(settings: Settings, targets: seq<Expression>, profile: Profile)
    requires Validated(settings, targets, profile).Ok?
    ensures var canonical := Validated(settings, targets, profile).value.CanonicalTargets();
            Validated(settings, canonical, profile).Ok? && Reduced(ParseAll(canonical).value) == Reduced(ParseAll(targets).value)
  {
    CanonicalParses(settings, targets, profile);
    AcceptanceDownwardClosed(settings, targets, Validated(settings, targets, profile).value.CanonicalTargets(), profile, profile);
    ReducedIdempotent(ParseAll(targets).value);
  }

  /** Validating the canonical targets of an accepted scope returns that same scope. */
  lemma ValidationIdempotent(settings: Settings, targets: seq<Expression>, profile: Profile)
    requires Validated(settings, targets, profile).Ok?
    ensures var scope := Validated(settings, targets, profile).value;
            Validated(settings, scope.CanonicalTargets(), profile) == Ok(scope)
  {
    CanonicalAccepted(settings, targets, profile);
    SameReducedSameScope(settings, targets, Validated(settings, targets, profile).value.CanonicalTargets(), profile);
  }

  /** The expression is the display form of one of the networks. */
  ghost predicate Names(networks: seq<Network>, e: Expression) {
    exists n :: n in networks && Display(n) == e
  }

  lemma CanonicalNames(settings: Settings, targets: seq<Expression>, profile: Profile, e: Expression)
    requires Validated(settings, targets, profile).Ok?
    ensures e in Validated(settings, targets, profile).value.CanonicalTargets() <==> Names(Reduced(ParseAll(targets).value), e)
  {
    var kept := Reduced(ParseAll(targets).value);
    var canonical := Validated(settings, targets, profile).value.CanonicalTargets();
    assert |canonical| == |kept| && forall i :: 0 <= i < |kept| ==> canonical[i] == Display(kept[i]);
    if Names(kept, e) {
      var n :| n in kept && Display(n) == e;
      var i :| 0 <= i < |kept| && kept[i] == n;
      assert canonical[i] == e;
    }
  }

  lemma NamesParse(targets: seq<Expression>, e: Expression) returns (n: Network)
    requires ParseAll(targets).Ok? && Names(Reduced(ParseAll(targets).value), e)
    ensures n in Reduced(ParseAll(targets).value) && ParseTarget(e) == Ok(n) && Display(n) == e
  {
    n :| n in Reduced(ParseAll(targets).value) && Display(n) == e;
    ReducedCorrect(ParseAll(targets).value);
    ParsedNotProhibited(targets, n);
  }

  lemma NamedListParses(targets: seq<Expression>, named: seq<Expression>)
    requires ParseAll(targets).Ok? && forall i :: 0 <= i < |named| ==> Names(Reduced(ParseAll(targets).value), named[i])
    ensures ParseAll(named).Ok?
    ensures forall n :: n in ParseAll(named).value ==> n in Reduced(ParseAll(targets).value)
    ensures forall i :: 0 <= i < |named| ==> Display(ParseAll(named).value[i]) == named[i]
  {
    var kept := Reduced(ParseAll(targets).value);
    forall i | 0 <= i < |named|
      ensures ParseEach(named)[i].Ok? && ParseEach(named)[i].value in kept && Display(ParseEach(named)[i].value) == named[i]
    {
      var n := NamesParse(targets, named[i]);
    }
  }

  /** When only some of the canonical targets turn out routable, validating those again cannot fail:
      the second validation of a discovery request never rejects what the first one admitted. */
  lemma RoutableSubsetAccepted(settings: Settings, targets: seq<Expression>, routable: seq<Expression>, profile: Profile)
    requires Validated(settings, targets, profile).Ok?
    requires 0 < |routable| <= 256
    requires forall i :: 0 <= i < |routable| ==> Names(Reduced(ParseAll(targets).value), routable[i])
    ensures Validated(settings, routable, profile).Ok?
  {
    var networks := ParseAll(targets).value;
    NamedListParses(targets, routable);
    forall family ensures ScopeAddresses(routable, family) <= ScopeAddresses(targets, family) {
      SubsetCovered(ParseAll(routable).value, Reduced(networks), family);
      ReducedCovers(networks, family);
    }
    AcceptanceDownwardClosed(settings, targets, routable, profile, profile);
  }

  /** Maximal networks stay maximal among fewer. */
  lemma ReducedPart(part: seq<Network>, networks: seq<Network>)
    requires forall n :: n in part ==> n in Reduced(networks)
    ensures forall n :: n in Reduced(part) <==> n in part
  {
    ReducedCorrect(part);
    ReducedCorrect(networks);
  }

  /** Validating some of the canonical targets again gives exactly these as the new canonical targets. */
  lemma {:induction false} RoutableSubsetKept(settings: Settings, targets: seq<Expression>, routable: seq<Expression>, profile: Profile, e: Expression)
    requires Validated(settings, targets, profile).Ok? && Validated(settings, routable, profile).Ok?
    requires forall i :: 0 <= i < |routable| ==> Names(Reduced(ParseAll(targets).value), routable[i])
    ensures e in Validated(settings, routable, profile).value.CanonicalTargets() <==> e in routable
  {
    var part := ParseAll(routable).value;
    NamedListParses(targets, routable);
    ReducedPart(part, ParseAll(targets).value);
    CanonicalNames(settings, routable, profile, e);
    assert |part| == |routable|;
    if e in routable {
      var i :| 0 <= i < |routable| && routable[i] == e;
      assert part[i] in Reduced(part) && Display(part[i]) == e;
    }
  }

  lemma SubsetCovered(a: seq<Network>, b: seq<Network>, family: Family)
    requires forall n :: n in a ==> n in b
    ensures Covered(a, family) <= Covered(b, family)
  {
    forall v | v in Covered(a, family) ensures v in Covered(b, family) {
      CoveredMember(a, family, v);
      CoveredMember(b, family, v);
    }
  }

  // ----- which targets are prohibited, in terms of their addresses

  lemma PowersOfTwo()
    ensures Pow2(8) == 0x100 && Pow2(16) == 0x1_0000 && Pow2(24) == 0x100_0000
  {
    assert Pow2(8) == 0x100;
    PowSum(8, 8);
    PowSum(16, 8);
  }

  lemma WidePowers()
    ensures Pow2(118) == 0x40_0000_0000_0000_0000_0000_0000_0000 && Pow2(120) == 0x100_0000_0000_0000_0000_0000_0000_0000
    ensures Pow2(128) == 0x1_0000_0000_0000_0000_0000_0000_0000_0000
  {
    AddressSpaces();
    PowersOfTwo();
    PowSum(120, 8);
    PowSum(118, 2);
    assert Pow2(2) == 4;
  }

  lemma WithinMeans(n: Network, first: nat, last: nat)
    ensures Within(n, first, last) <==> forall v :: v in Addresses(n) ==> first <= v <= last
  {
    assert n.base in Addresses(n) && Broadcast(n) in Addresses(n);
  }

  /** All addresses of the network fall into one block of the given size. */
  ghost predicate AllIn(n: Network, size: nat, first: nat, last: nat)
    requires size > 0
  {
    forall v: nat :: v in Addresses(n) ==> first <= v / size <= last
  }

  lemma AllInMeans(n: Network, size: nat, first: nat, last: nat)
    requires size > 0
    ensures AllIn(n, size, first, last) <==> Within(n, size * first, size * last + size - 1)
  {
    WithinMeans(n, size * first, size * last + size - 1);
    forall v: nat ensures first <= v / size <= last <==> size * first <= v <= size * last + size - 1 {
      Block(v, size, first);
      Block(v, size, last);
    }
  }

  lemma {:induction false} Block(v: nat, size: nat, k: nat)
    requires size > 0
    ensures k <= v / size <==> size * k <= v
    ensures v / size <= k <==> v < size * k + size
  {
    var q := v / size;
    assert v == size * q + v % size;
    if k <= q { ScaleMonotone(size, k, q); } else { ScaleMonotone(size, q + 1, k); }
    if q <= k { ScaleMonotone(size, q, k); } else { ScaleMonotone(size, k + 1, q); }
    assert size * (q + 1) == size * q + size && size * (k + 1) == size * k + size;
  }

  /** A multicast network has the first octet of every address from 224 to 239, or the first eight bits of every IPv6
      address set. */
  lemma {:induction false} MulticastMeans(n: Network)
    ensures IsMulticast(n) <==> if n.family == IPv4 then AllIn(n, Pow2(24), 224, 239) else AllIn(n, Pow2(120), 0xFF, 0xFF)
  {
    if n.family == IPv4 {
      PowersOfTwo();
      AllInMeans(n, Pow2(24), 224, 239);
    } else {
      WidePowers();
      AllInMeans(n, Pow2(120), 0xFF, 0xFF);
    }
  }

  /** Prohibited are the whole address space of a family, the unspecified address, and multicast. */
  lemma ProhibitedMeans(n: Network)
    ensures Prohibited(n) <==> n.prefixlen == 0 || Addresses(n) == {0} || IsMulticast(n)
  {
    WithinMeans(n, 0, 0);
    assert n.base in Addresses(n);
  }

  /** Loopback is 127/8 and ::1, link-local is 169.254/16 and fe80::/10. */
  lemma {:induction false} LoopbackOrLinkLocalMeans(n: Network)
    ensures n.family == IPv4 ==>
              (IsLoopbackOrLinkLocal(n) <==> AllIn(n, Pow2(24), 127, 127) || AllIn(n, Pow2(16), 169 * 256 + 254, 169 * 256 + 254))
    ensures n.family == IPv6 ==> (IsLoopbackOrLinkLocal(n) <==> Addresses(n) == {1} || AllIn(n, Pow2(118), 0x3FA, 0x3FA))
  {
    if n.family == IPv4 {
      PowersOfTwo();
      AllInMeans(n, Pow2(24), 127, 127);
      AllInMeans(n, Pow2(16), 169 * 256 + 254, 169 * 256 + 254);
    } else {
      WidePowers();
      OnlyAddress(n);
      AllInMeans(n, Pow2(118), 0x3FA, 0x3FA);
    }
  }

  lemma OnlyAddress(n: Network)
    ensures Within(n, 1, 1) <==> Addresses(n) == {1}
  {
    assert n.base in Addresses(n) && Broadcast(n) in Addresses(n);
  }

  /** The expression writes this network out: as an address when it is one, or as a prefix. */
  predicate Spells(e: Expression, n: Network) {
    (n.prefixlen == Width(n.family) && e == Host(n.family, n.base)) || e == Cidr(n.family, n.base, n.prefixlen)
  }

  /** A target parses to the network it writes out, unless that is prohibited; anything else is invalid. */
  lemma ParseTargetMeans(e: Expression, n: Network)
    ensures ParseTarget(e) == Ok(n) <==> Spells(e, n) && !Prohibited(n)
    ensures Spells(e, n) && Prohibited(n) ==> ParseTarget(e) == Err(ProhibitedTarget)
    ensures ParseTarget(e) == Err(InvalidTarget) <==> forall m: Network :: !Spells(e, m)
  {
    var parsed := ParseNetwork(e, true);
    if parsed.Ok? { assert Spells(e, parsed.value); }
  }

  /** Two networks of one family and prefix length that share an address are the same. */
  lemma SameBlock(m: Network, n: Network, v: int)
    requires m.family == n.family && m.prefixlen == n.prefixlen && v in Addresses(m) && v in Addresses(n)
    ensures m == n
  {
    NestOrDisjoint(m, n);
    assert Size(m) == Size(n);
  }

  lemma MaskedNetwork(e: Expression)
    requires e.Cidr?
    ensures ParseNetwork(e, false).Ok? <==> e.prefixlen <= Width(e.family) && e.value < Pow2(Width(e.family))
    ensures ParseNetwork(e, false).Ok? ==>
              var m := ParseNetwork(e, false).value;
              m.family == e.family && m.prefixlen == e.prefixlen && e.value in Addresses(m)
  {
  }

  /** An interface address stands for the network of its prefix length that contains it; a bare one for itself. */
  lemma AssignedMeans(e: Expression, n: Network)
    ensures AssignedNetwork(e) == Ok(n) <==>
              && !Prohibited(n)
              && ((e == Host(n.family, n.base) && n.prefixlen == Width(n.family))
                  || (e.Cidr? && e.family == n.family && e.prefixlen == n.prefixlen && e.value in Addresses(n)))
  {
    if e.Cidr? {
      MaskedNetwork(e);
      if e.family == n.family && e.prefixlen == n.prefixlen && e.value in Addresses(n) {
        SameBlock(ParseNetwork(e, false).value, n, e.value);
      }
    }
  }
}
