/** IP prefixes as aligned power-of-two blocks of integers, and the sets of addresses they denote. */
module Networks {
  import opened Ordering

  datatype Family = IPv4 | IPv6

  function Width(family: Family): nat {
    if family.IPv4? then 32 else 128
  }

  function Pow2(e: nat): (r: nat)
    ensures r > 0
  {
    if e == 0 then 1 else 2 * Pow2(e - 1)
  }

  /** The low `bits` bits of `value` are all zero. */
  predicate HostBitsZero(value: nat, bits: nat) {
    bits == 0 || (value % 2 == 0 && HostBitsZero(value / 2, bits - 1))
  }

  /** A prefix: `base` is the network address, aligned to the block size. */
  datatype Prefix = Prefix(family: Family, base: nat, prefixlen: nat) {
    predicate Valid() {
      && prefixlen <= Width(family)
      && HostBitsZero(base, Width(family) - prefixlen)
      && base + Pow2(Width(family) - prefixlen) <= Pow2(Width(family))
    }
  }

  lemma HostRouteValid(family: Family, value: nat)
    requires value < Pow2(Width(family))
    ensures Prefix(family, value, Width(family)).Valid()
  {
  }

  type Network = p: Prefix | p.Valid() ghost witness (HostRouteValid(IPv4, 0); Prefix(IPv4, 0, 32))

  function Size(n: Network): (r: nat)
    ensures r > 0
  {
    Pow2(Width(n.family) - n.prefixlen)
  }

  function Broadcast(n: Network): nat {
    n.base + Size(n) - 1
  }

  /** `network.subnet_of(other)` of Python's ipaddress, guarded by the version test of the caller. */
  predicate SubnetOf(n: Network, other: Network) {
    n.family == other.family && other.base <= n.base && Broadcast(n) <= Broadcast(other)
  }

  // ----- power-of-two arithmetic

  lemma {:induction false} PowSum(a: nat, b: nat)
    ensures Pow2(a + b) == Pow2(a) * Pow2(b)
  {
    if a != 0 { PowSum(a - 1, b); }
  }

  lemma {:induction false} PowMonotone(a: nat, b: nat)
    requires a <= b
    ensures Pow2(a) <= Pow2(b)
    ensures a < b ==> Pow2(a) < Pow2(b)
    decreases b - a
  {
    if a < b { PowMonotone(a, b - 1); }
  }

  /** Zero host bits make a value a multiple of the block size. */
  lemma {:induction false} AlignedMultiple(value: nat, bits: nat) returns (k: nat)
    requires HostBitsZero(value, bits)
    ensures value == Pow2(bits) * k
  {
    if bits == 0 {
      k := value;
    } else {
      k := AlignedMultiple(value / 2, bits - 1);
      assert value == 2 * (value / 2);
    }
  }

  lemma ScaleMonotone(s: nat, x: int, y: int)
    requires x <= y
    ensures s * x <= s * y
  {
    assert s * (y - x) >= 0;
  }

  /** An aligned block of s integers and an aligned block of s * c integers nest or are disjoint. */
  lemma {:induction false} AlignedBlocks(s: nat, c: nat, k: nat, l: nat)
    ensures || ((s * c) * l <= s * k && s * k + s <= (s * c) * l + s * c)
            || s * k + s <= (s * c) * l
            || (s * c) * l + s * c <= s * k
  {
    var q := c * l;
    assert (s * c) * l == s * q;
    assert s * (k + 1) == s * k + s;
    assert s * (q + c) == s * q + s * c;
    if k < q {
      ScaleMonotone(s, k + 1, q);
    } else if k < q + c {
      ScaleMonotone(s, q, k);
      ScaleMonotone(s, k + 1, q + c);
    } else {
      ScaleMonotone(s, q + c, k);
    }
  }

  // ----- the addresses of a network

  /** The integers from a up to but not including b. */
  ghost function Interval(a: int, b: int): (r: set<int>)
    ensures forall v :: v in r <==> a <= v < b
    ensures a <= b ==> |r| == b - a
    decreases b - a
  {
    if b <= a then {} else {a} + Interval(a + 1, b)
  }

  ghost function Addresses(n: Network): set<int> {
    Interval(n.base, n.base + Size(n))
  }

  /** The distinct addresses of one family covered by a list of networks. */
  ghost function Covered(networks: seq<Network>, family: Family): set<int> {
    if networks == [] then {}
    else (if networks[0].family == family then Addresses(networks[0]) else {}) + Covered(networks[1..], family)
  }

  ghost predicate CoveredBy(v: int, networks: seq<Network>, family: Family) {
    exists n :: n in networks && n.family == family && v in Addresses(n)
  }

  lemma {:induction false} CoveredMember(networks: seq<Network>, family: Family, v: int)
    ensures v in Covered(networks, family) <==> CoveredBy(v, networks, family)
  {
    if networks != [] {
      CoveredMember(networks[1..], family, v);
      assert networks == [networks[0]] + networks[1..];
    }
  }

  ghost predicate Disjoint(a: Network, b: Network) {
    a.family != b.family || Addresses(a) !! Addresses(b)
  }

  /** Two prefixes of one family nest or share no address; a longer prefix is never the outer one. */
  lemma NestOrDisjoint(a: Network, b: Network)
    requires a.family == b.family && b.prefixlen <= a.prefixlen
    ensures SubnetOf(a, b) || Disjoint(a, b)
  {
    var w := Width(a.family);
    PowSum(w - a.prefixlen, a.prefixlen - b.prefixlen);
    var k := AlignedMultiple(a.base, w - a.prefixlen);
    var l := AlignedMultiple(b.base, w - b.prefixlen);
    AlignedBlocks(Size(a), Pow2(a.prefixlen - b.prefixlen), k, l);
  }

  /** Containment of blocks is containment of address sets. */
  lemma {:induction false} SubnetIsSubset(a: Network, b: Network)
    requires a.family == b.family
    ensures SubnetOf(a, b) <==> Addresses(a) <= Addresses(b)
  {
    if Addresses(a) <= Addresses(b) {
      assert a.base in Addresses(a) && Broadcast(a) in Addresses(a);
    }
  }

  /** A proper cover has a strictly shorter prefix and comes strictly earlier in the sort order. */
  lemma ProperCover(n: Network, m: Network)
    requires SubnetOf(n, m) && n != m
    ensures m.prefixlen < n.prefixlen
    ensures NetworkLess(m, n)
  {
    var w := Width(n.family);
    if n.prefixlen <= m.prefixlen {
      PowMonotone(w - m.prefixlen, w - n.prefixlen);
      assert false;
    }
  }

  // ----- the sort key (version, network address, prefix length)

  predicate NetworkLess(a: Network, b: Network) {
    || (a.family.IPv4? && b.family.IPv6?)
    || (a.family == b.family && a.base < b.base)
    || (a.family == b.family && a.base == b.base && a.prefixlen < b.prefixlen)
  }

  lemma NetworkLessStrictTotal()
    ensures StrictTotal(NetworkLess)
  {
  }

  // ----- removal of duplicates and covered networks

  ghost predicate Maximal(n: Network, networks: seq<Network>) {
    forall m :: m in networks && SubnetOf(n, m) ==> m == n
  }

  /** Keeps, in order, the members of `candidates` that no other member of `networks` covers. */
  ghost function MaximalOf(candidates: seq<Network>, networks: seq<Network>): seq<Network> {
    if candidates == [] then []
    else
      var last := candidates[|candidates| - 1];
      MaximalOf(candidates[..|candidates| - 1], networks) + (if Maximal(last, networks) then [last] else [])
  }

  /** Reference definition of the reduced scope: the maximal networks, in sort order. */
  ghost function Reduced(networks: seq<Network>): seq<Network> {
    MaximalOf(SortedDistinct(NetworkLess, networks), networks)
  }

  lemma {:induction false} MaximalOfMembers(candidates: seq<Network>, networks: seq<Network>)
    ensures forall n :: n in MaximalOf(candidates, networks) <==> n in candidates && Maximal(n, networks)
    ensures |MaximalOf(candidates, networks)| <= |candidates|
  {
    if candidates != [] {
      var k := |candidates| - 1;
      MaximalOfMembers(candidates[..k], networks);
      assert candidates == candidates[..k] + [candidates[k]];
    }
  }

  lemma {:induction false} MaximalOfAscending(candidates: seq<Network>, networks: seq<Network>)
    requires Ascending(NetworkLess, candidates)
    ensures Ascending(NetworkLess, MaximalOf(candidates, networks))
  {
    if candidates != [] {
      var k := |candidates| - 1;
      MaximalOfAscending(candidates[..k], networks);
      MaximalOfMembers(candidates[..k], networks);
      var kept := MaximalOf(candidates[..k], networks);
      forall i | 0 <= i < |kept| ensures NetworkLess(kept[i], candidates[k]) {
        assert kept[i] in candidates[..k];
      }
    }
  }

  /** Every network of the list lies in a maximal one. */
  lemma {:induction false} MaximalCover(n: Network, networks: seq<Network>) returns (m: Network)
    requires n in networks
    ensures m in networks && SubnetOf(n, m) && Maximal(m, networks)
    decreases n.prefixlen
  {
    if Maximal(n, networks) {
      m := n;
    } else {
      var outer :| outer in networks && SubnetOf(n, outer) && outer != n;
      ProperCover(n, outer);
      m := MaximalCover(outer, networks);
    }
  }

  /** The sort puts covers first, so "covered by something kept earlier" decides maximality. */
  lemma CoveredByEarlierIffNotMaximal(ordered: seq<Network>, i: nat, networks: seq<Network>)
    requires ordered == SortedDistinct(NetworkLess, networks) && i < |ordered|
    ensures (exists e :: e in MaximalOf(ordered[..i], networks) && SubnetOf(ordered[i], e))
       <==> !Maximal(ordered[i], networks)
  {
    var n := ordered[i];
    NetworkLessStrictTotal();
    SortedDistinctCorrect(NetworkLess, networks);
    MaximalOfMembers(ordered[..i], networks);
    AscendingBefore(NetworkLess, ordered, i, n);
    if !Maximal(n, networks) {
      var m := MaximalCover(n, networks);
      ProperCover(n, m);
      AscendingBefore(NetworkLess, ordered, i, m);
    }
  }

  /** One pass over the sorted distinct networks, comparing only with what has been kept so far. */
  method RemoveDuplicatesAndCovered(networks: seq<Network>) returns (result: seq<Network>)
    ensures result == Reduced(networks)
  {
    var ordered := SortedDistinct(NetworkLess, networks);
    result := [];
    for i := 0 to |ordered|
      invariant result == MaximalOf(ordered[..i], networks)
    {
      CoveredByEarlierIffNotMaximal(ordered, i, networks);
      assert ordered[..i + 1][..i] == ordered[..i];
      var covered := exists k | 0 <= k < |result| :: SubnetOf(ordered[i], result[k]);
      if !covered {
        result := result + [ordered[i]];
      }
    }
    assert ordered[..|ordered|] == ordered;
  }

  /** The reduction keeps exactly the maximal networks, ascending, pairwise disjoint, each address kept. */
  lemma ReducedCorrect(networks: seq<Network>)
    ensures forall n :: n in Reduced(networks) <==> n in networks && Maximal(n, networks)
    ensures Ascending(NetworkLess, Reduced(networks))
    ensures forall i, j :: 0 <= i < j < |Reduced(networks)| ==> Disjoint(Reduced(networks)[i], Reduced(networks)[j])
    ensures forall family :: Covered(Reduced(networks), family) == Covered(networks, family)
    ensures |Reduced(networks)| <= |networks|
  {
    var ordered, r := SortedDistinct(NetworkLess, networks), Reduced(networks);
    NetworkLessStrictTotal();
    SortedDistinctCorrect(NetworkLess, networks);
    MaximalOfMembers(ordered, networks);
    MaximalOfAscending(ordered, networks);
    forall i, j | 0 <= i < j < |r| ensures Disjoint(r[i], r[j]) {
      assert r[i] in r && r[j] in r;
      if r[i].family == r[j].family {
        if r[i].prefixlen <= r[j].prefixlen { NestOrDisjoint(r[j], r[i]); } else { NestOrDisjoint(r[i], r[j]); }
      }
    }
    forall family ensures Covered(r, family) == Covered(networks, family) {
      ReducedCovers(networks, family);
    }
  }

  lemma ReducedCovers(networks: seq<Network>, family: Family)
    ensures Covered(Reduced(networks), family) == Covered(networks, family)
  {
    var r := Reduced(networks);
    NetworkLessStrictTotal();
    SortedDistinctCorrect(NetworkLess, networks);
    MaximalOfMembers(SortedDistinct(NetworkLess, networks), networks);
    forall v ensures v in Covered(r, family) <==> v in Covered(networks, family) {
      CoveredMember(r, family, v);
      CoveredMember(networks, family, v);
      if CoveredBy(v, networks, family) {
        var n :| n in networks && n.family == family && v in Addresses(n);
        var m := MaximalCover(n, networks);
        SubnetIsSubset(n, m);
        assert m in r;
      }
    }
  }

  /** Input order and repetition do not matter: equal sets of networks reduce to the same list. */
  lemma ReducedOrderIndependent(a: seq<Network>, b: seq<Network>)
    requires forall n :: n in a <==> n in b
    ensures Reduced(a) == Reduced(b)
  {
    ReducedCorrect(a);
    ReducedCorrect(b);
    NetworkLessStrictTotal();
    AscendingUnique(NetworkLess, Reduced(a), Reduced(b));
  }

  lemma ReducedIdempotent(networks: seq<Network>)
    ensures Reduced(Reduced(networks)) == Reduced(networks)
  {
    var r := Reduced(networks);
    ReducedCorrect(networks);
    ReducedCorrect(r);
    NetworkLessStrictTotal();
    AscendingUnique(NetworkLess, Reduced(r), r);
  }

  // ----- counting

  /** `sum(network.num_addresses for network in networks if network.version == family)`. */
  function FamilyCount(networks: seq<Network>, family: Family): nat {
    if networks == [] then 0
    else (if networks[0].family == family then Size(networks[0]) else 0) + FamilyCount(networks[1..], family)
  }

  lemma {:induction false} DisjointCount(networks: seq<Network>, family: Family)
    requires forall i, j :: 0 <= i < j < |networks| ==> Disjoint(networks[i], networks[j])
    ensures FamilyCount(networks, family) == |Covered(networks, family)|
  {
    if networks != [] {
      var head, rest := networks[0], networks[1..];
      DisjointCount(rest, family);
      if head.family == family {
        forall v | v in Covered(rest, family) ensures v !in Addresses(head) {
          CoveredMember(rest, family, v);
          var n :| n in rest && n.family == family && v in Addresses(n);
          var j :| 0 <= j < |rest| && rest[j] == n;
          assert Disjoint(networks[0], networks[j + 1]);
        }
        assert Addresses(head) !! Covered(rest, family);
      }
    }
  }

  /** Counting the reduced networks counts each distinct address of the input exactly once. */
  lemma ReducedCount(networks: seq<Network>, family: Family)
    ensures FamilyCount(Reduced(networks), family) == |Covered(networks, family)|
  {
    ReducedCorrect(networks);
    DisjointCount(Reduced(networks), family);
  }

  /** The reduced networks come IPv4 first, and within a family by address. */
  lemma ReducedOrder(networks: seq<Network>, i: nat, j: nat)
    requires i < j < |Reduced(networks)|
    ensures var a, b := Reduced(networks)[i], Reduced(networks)[j];
            (a.family == IPv4 && b.family == IPv6) || (a.family == b.family && a.base + Size(a) <= b.base)
  {
    ReducedCorrect(networks);
    var a, b := Reduced(networks)[i], Reduced(networks)[j];
    if a.family == b.family {
      assert b.base in Addresses(b) && a.base in Addresses(a);
    }
  }

  /** Eight more bits are 256 times as many values. */
  lemma EightBits(e: nat)
    ensures Pow2(e + 8) == 256 * Pow2(e)
  {
    assert Pow2(e + 4) == 16 * Pow2(e) by { assert Pow2(e + 2) == 4 * Pow2(e); }
    assert Pow2(e + 8) == 16 * Pow2(e + 4) by { assert Pow2(e + 6) == 4 * Pow2(e + 4); }
  }

  lemma FourOctets(e: nat)
    ensures Pow2(e + 32) == 0x1_0000_0000 * Pow2(e)
  {
    EightBits(e);
    EightBits(e + 8);
    EightBits(e + 16);
    EightBits(e + 24);
  }

  lemma FromZero(e: nat)
    requires e == 0
    ensures Pow2(e + 32) == 0x1_0000_0000 && Pow2(e + 128) == 0x1_0000_0000_0000_0000_0000_0000_0000_0000
  {
    FourOctets(e);
    FourOctets(e + 32);
    FourOctets(e + 64);
    FourOctets(e + 96);
  }

  /** There are 2^32 IPv4 and 2^128 IPv6 addresses. */
  lemma AddressSpaces()
    ensures Pow2(Width(IPv4)) == 0x1_0000_0000 && Pow2(Width(IPv6)) == 0x1_0000_0000_0000_0000_0000_0000_0000_0000
  {
    FromZero(0);
  }

  /** All of them are in the network of prefix length zero, and every bit of prefix halves it. */
  lemma {:induction false} PrefixHalves(n: Network)
    ensures |Addresses(n)| * Pow2(n.prefixlen) == Pow2(Width(n.family))
  {
    PowSum(Width(n.family) - n.prefixlen, n.prefixlen);
  }
}
