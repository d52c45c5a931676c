/** Reading a bare network address as the connected prefix it names. */
module Expansion {
  import opened Networks
  import opened Outcomes
  import opened Scope

  /** The networks of the interface addresses that parse, in order. */
  function ConnectedPrefixes(own: seq<Expression>): seq<Network> {
    if own == [] then []
    else
      var last := ParseNetwork(own[|own| - 1], false);
      ConnectedPrefixes(own[..|own| - 1]) + (if last.Ok? then [last.value] else [])
  }

  /** A connected prefix is the network of some interface address. */
  lemma {:induction false} ConnectedMember(own: seq<Expression>, n: Network)
    ensures n in ConnectedPrefixes(own) <==> exists e :: e in own && ParseNetwork(e, false) == Ok(n)
  {
    if own != [] {
      var front, last := own[..|own| - 1], own[|own| - 1];
      ConnectedMember(front, n);
      assert own == front + [last];
    }
  }

  /** The first connected network with the given network address. */
  function FirstAt(networks: seq<Network>, family: Family, value: nat): (r: Option<Network>)
    ensures r.Some? ==> r.value in networks && r.value.family == family && r.value.base == value
    ensures r.None? ==> forall n :: n in networks ==> n.family != family || n.base != value
  {
    if networks == [] then None
    else if networks[0].family == family && networks[0].base == value then Some(networks[0])
    else FirstAt(networks[1..], family, value)
  }

  function ExpandOne(networks: seq<Network>, target: Expression): Expression {
    if !target.Host? then target
    else
      match FirstAt(networks, target.family, target.value)
      case Some(n) => Cidr(n.family, n.base, n.prefixlen)
      case None => target
  }

  function ExpandAll(networks: seq<Network>, targets: seq<Expression>): seq<Expression> {
    if targets == [] then []
    else
      var last := targets[|targets| - 1];
      ExpandAll(networks, targets[..|targets| - 1]) + (if last.Blank? then [] else [ExpandOne(networks, last)])
  }

  /** `expand_connected_network_targets`. */
  method Expand(targets: seq<Expression>, own: seq<Expression>) returns (expanded: seq<Expression>)
    ensures expanded == ExpandAll(ConnectedPrefixes(own), targets)
  {
    var networks: seq<Network> := [];
    for i := 0 to |own|
      invariant networks == ConnectedPrefixes(own[..i])
    {
      assert own[..i + 1][..i] == own[..i];
      var parsed := ParseNetwork(own[i], false);
      if parsed.Ok? {
        networks := networks + [parsed.value];
      }
    }
    assert own[..|own|] == own;
    expanded := [];
    for i := 0 to |targets|
      invariant expanded == ExpandAll(networks, targets[..i])
    {
      assert targets[..i + 1][..i] == targets[..i];
      if targets[i].Blank? { continue; }
      expanded := expanded + [ExpandOne(networks, targets[i])];
    }
    assert targets[..|targets|] == targets;
  }

  /** The addresses one expression denotes when it is read strictly. */
  ghost function Denoted(e: Expression, family: Family): set<int> {
    var parsed := ParseNetwork(e, true);
    if parsed.Ok? && parsed.value.family == family then Addresses(parsed.value) else {}
  }

  ghost function UnionOf(targets: seq<Expression>, denote: Expression -> set<int>): set<int> {
    if targets == [] then {} else UnionOf(targets[..|targets| - 1], denote) + denote(targets[|targets| - 1])
  }

  /** The addresses of one family denoted by a list of targets. */
  ghost function DenotedByAny(targets: seq<Expression>, family: Family): set<int> {
    UnionOf(targets, e => Denoted(e, family))
  }

  /** A bare address denotes at most itself. */
  lemma HostDenotes(target: Expression, family: Family)
    requires target.Host?
    ensures Denoted(target, family) <= if target.family == family then {target.value as int} else {}
  {
  }

  lemma PrefixDenotes(n: Network, family: Family)
    ensures ParseNetwork(Cidr(n.family, n.base, n.prefixlen), true) == Ok(n)
    ensures Denoted(Cidr(n.family, n.base, n.prefixlen), family) == if n.family == family then Addresses(n) else {}
  {
  }

  lemma MemberCovered(n: Network, networks: seq<Network>)
    requires n in networks
    ensures Addresses(n) <= Covered(networks, n.family)
  {
    forall v | v in Addresses(n) ensures v in Covered(networks, n.family) {
      CoveredMember(networks, n.family, v);
    }
  }

  /** One expansion keeps the typed addresses and adds only a connected prefix. */
  lemma {:induction false} ExpandOneAddresses(networks: seq<Network>, e: Expression, family: Family)
    ensures Denoted(e, family) <= Denoted(ExpandOne(networks, e), family) <= Denoted(e, family) + Covered(networks, family)
  {
    if e.Host? {
      var m := FirstAt(networks, e.family, e.value);
      if m.Some? {
        HostDenotes(e, family);
        PrefixDenotes(m.value, family);
        MemberCovered(m.value, networks);
        assert m.value.base in Addresses(m.value);
      }
    }
  }

  /** A bare address that is the network address of a connected prefix is read as the first such prefix; every other
      expression stays as typed. */
  lemma ExpandOneMeans(networks: seq<Network>, e: Expression)
    ensures forall i: nat :: i < |networks| && e.Host? && NetworkAt(networks[i], e)
                             && (forall j :: 0 <= j < i ==> !NetworkAt(networks[j], e)) ==>
              ExpandOne(networks, e) == Cidr(networks[i].family, networks[i].base, networks[i].prefixlen)
    ensures !e.Host? || (forall n :: n in networks ==> !NetworkAt(n, e)) ==> ExpandOne(networks, e) == e
  {
    if e.Host? {
      forall i: nat | i < |networks| && NetworkAt(networks[i], e) && (forall j :: 0 <= j < i ==> !NetworkAt(networks[j], e)) {
        FirstAtIs(networks, e, i);
      }
    }
  }

  /** The bare address is the network address of this network. */
  predicate NetworkAt(n: Network, e: Expression)
    requires e.Host?
  {
    n.family == e.family && n.base == e.value
  }

  lemma {:induction false} FirstAtIs(networks: seq<Network>, e: Expression, i: nat)
    requires i < |networks| && e.Host? && NetworkAt(networks[i], e) && forall j :: 0 <= j < i ==> !NetworkAt(networks[j], e)
    ensures FirstAt(networks, e.family, e.value) == Some(networks[i])
  {
    if i > 0 { FirstAtIs(networks[1..], e, i - 1); }
  }

  lemma UnionSnoc(targets: seq<Expression>, e: Expression, denote: Expression -> set<int>)
    ensures UnionOf(targets + [e], denote) == UnionOf(targets, denote) + denote(e)
  {
    assert (targets + [e])[..|targets|] == targets;
  }

  lemma ExpandSnoc(networks: seq<Network>, targets: seq<Expression>, e: Expression)
    ensures ExpandAll(networks, targets + [e])
         == if e.Blank? then ExpandAll(networks, targets) else ExpandAll(networks, targets) + [ExpandOne(networks, e)]
  {
    assert (targets + [e])[..|targets|] == targets;
  }

  lemma {:induction false} ExpansionUnion(networks: seq<Network>, targets: seq<Expression>, denote: Expression -> set<int>, extra: set<int>)
    requires denote(Blank) == {}
    requires forall e :: denote(e) <= denote(ExpandOne(networks, e)) <= denote(e) + extra
    ensures UnionOf(targets, denote) <= UnionOf(ExpandAll(networks, targets), denote)
    ensures UnionOf(ExpandAll(networks, targets), denote) <= UnionOf(targets, denote) + extra
  {
    if targets != [] {
      var k := |targets| - 1;
      var init, last := targets[..k], targets[k];
      ExpansionUnion(networks, init, denote, extra);
      assert targets == init + [last];
      ExpandSnoc(networks, init, last);
      if !last.Blank? {
        UnionSnoc(ExpandAll(networks, init), ExpandOne(networks, last), denote);
      }
    }
  }

  /** No typed address is lost, and nothing outside the typed targets and connected prefixes is added. */
  lemma {:induction false} ExpansionAddresses(networks: seq<Network>, targets: seq<Expression>, family: Family)
    ensures DenotedByAny(targets, family) <= DenotedByAny(ExpandAll(networks, targets), family)
    ensures DenotedByAny(ExpandAll(networks, targets), family)
         <= DenotedByAny(targets, family) + Covered(networks, family)
  {
    forall e { ExpandOneAddresses(networks, e, family); }
    ExpansionUnion(networks, targets, e => Denoted(e, family), Covered(networks, family));
  }

  lemma {:induction false} UnionMember(targets: seq<Expression>, denote: Expression -> set<int>, v: int)
    ensures v in UnionOf(targets, denote) <==> exists i :: 0 <= i < |targets| && v in denote(targets[i])
  {
    if targets != [] {
      var k := |targets| - 1;
      UnionMember(targets[..k], denote, v);
      if i :| 0 <= i < |targets| && v in denote(targets[i]) {
        assert i < k ==> targets[..k][i] == targets[i];
      }
    }
  }

  ghost function InFamily(n: Network, family: Family): set<int> {
    if n.family == family then Addresses(n) else {}
  }

  /** Each expression denotes the addresses of its network. */
  ghost predicate Matching(targets: seq<Expression>, networks: seq<Network>, family: Family, denote: Expression -> set<int>) {
    |networks| == |targets| && forall i :: 0 <= i < |targets| ==> denote(targets[i]) == InFamily(networks[i], family)
  }

  lemma CoveredIffDenoted(targets: seq<Expression>, networks: seq<Network>, family: Family, denote: Expression -> set<int>, v: int)
    requires Matching(targets, networks, family, denote)
    ensures CoveredBy(v, networks, family) <==> exists i :: 0 <= i < |targets| && v in denote(targets[i])
  {
    if CoveredBy(v, networks, family) {
      var n :| n in networks && n.family == family && v in Addresses(n);
      var i :| 0 <= i < |networks| && networks[i] == n;
      assert v in denote(targets[i]);
    }
    if i :| 0 <= i < |targets| && v in denote(targets[i]) {
      assert networks[i] in networks && v in InFamily(networks[i], family);
    }
  }

  lemma {:induction false} CoveredIsUnion(targets: seq<Expression>, networks: seq<Network>, family: Family, denote: Expression -> set<int>)
    requires Matching(targets, networks, family, denote)
    ensures Covered(networks, family) == UnionOf(targets, denote)
  {
    forall v ensures v in Covered(networks, family) <==> v in UnionOf(targets, denote) {
      CoveredMember(networks, family, v);
      UnionMember(targets, denote, v);
      CoveredIffDenoted(targets, networks, family, denote, v);
    }
  }

  /** An expression that parses as a target denotes the addresses of its network. */
  lemma ParsedDenotes(e: Expression, family: Family)
    requires ParseTarget(e).Ok?
    ensures Denoted(e, family) == InFamily(ParseTarget(e).value, family)
  {
  }

  /** The addresses of a scope that parses are those its expressions denote. */
  lemma ScopeDenotes(targets: seq<Expression>, family: Family)
    requires ParseAll(targets).Ok?
    ensures ScopeAddresses(targets, family) == DenotedByAny(targets, family)
  {
    var networks := ParseAll(targets).value;
    forall i | 0 <= i < |targets| ensures Denoted(targets[i], family) == InFamily(networks[i], family) {
      assert ParseEach(targets)[i] == Ok(networks[i]);
      ParsedDenotes(targets[i], family);
    }
    CoveredIsUnion(targets, networks, family, e => Denoted(e, family));
  }

  /** Expanding again changes nothing, whatever the targets and the interface addresses. */
  lemma {:induction false} ExpansionIdempotent(networks: seq<Network>, targets: seq<Expression>)
    ensures ExpandAll(networks, ExpandAll(networks, targets)) == ExpandAll(networks, targets)
  {
    if targets != [] {
      var k := |targets| - 1;
      ExpansionIdempotent(networks, targets[..k]);
      assert targets == targets[..k] + [targets[k]];
      ExpandSnoc(networks, targets[..k], targets[k]);
      if !targets[k].Blank? {
        var last := ExpandOne(networks, targets[k]);
        assert !last.Blank? && ExpandOne(networks, last) == last;
        ExpandSnoc(networks, ExpandAll(networks, targets[..k]), last);
      }
    }
  }
}
