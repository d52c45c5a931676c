/** The part of the topology around one VLAN: a selection that grows while the edges are scanned once. */
module VlanFocus {
  import opened Lists
  import opened Outcomes
  import opened Topology

  /** Valid VLAN numbers among the given ones. */
  function IntValues(values: seq<int>): set<int> {
    set v | v in values && 0 <= v <= 4095
  }

  /** `Number(pvid)` when that is an integer: null counts as 0, a missing value as none. */
  function NativeVlan(pvid: Pvid): set<int> {
    match pvid case Missing => {} case Null => {0} case Number(v) => {v}
  }

  function NodeVlans(n: Node): set<int> {
    IntValues(n.vlanIds) + IntValues(n.taggedVlans) + IntValues(n.untaggedVlans) + NativeVlan(n.pvid)
  }

  function EdgeVlans(e: Edge): set<int> {
    IntValues(e.vlanIds) + IntValues(e.portVlans) + IntValues(e.taggedVlans) + IntValues(e.untaggedVlans) + NativeVlan(e.portPvid)
  }

  function Seeds(nodes: seq<Node>, vlan: int): set<string> {
    set n | n in nodes && vlan in NodeVlans(n) :: n.id
  }

  predicate Touches(e: Edge, ids: set<string>) { e.source in ids || e.target in ids }

  // ----- the scan

  function Carrying(vlan: int): Edge -> bool { (e: Edge) => vlan in EdgeVlans(e) }

  /** The selected node ids after the first n edges have been scanned. */
  function SelectedAfter(seeds: set<string>, edges: seq<Edge>, n: nat, carries: Edge -> bool): set<string>
    requires n <= |edges|
  {
    if n == 0 then seeds
    else
      var before, e := SelectedAfter(seeds, edges, n - 1, carries), edges[n - 1];
      if carries(e) || Touches(e, before) then before + {e.source, e.target} else before
  }

  predicate KeptAt(seeds: set<string>, edges: seq<Edge>, i: nat, carries: Edge -> bool)
    requires i < |edges|
  {
    carries(edges[i]) || Touches(edges[i], SelectedAfter(seeds, edges, i, carries))
  }

  function KeptEdges(seeds: set<string>, edges: seq<Edge>, n: nat, carries: Edge -> bool): seq<Edge>
    requires n <= |edges|
  {
    if n == 0 then []
    else if KeptAt(seeds, edges, n - 1, carries) then KeptEdges(seeds, edges, n - 1, carries) + [edges[n - 1]]
    else KeptEdges(seeds, edges, n - 1, carries)
  }

  /** The last node with an id: what a map built from the node list finds. */
  function NodeAt(nodes: seq<Node>, id: string): (r: Option<Node>)
    ensures r.Some? ==> r.value in nodes && r.value.id == id
    ensures r.None? ==> !HasNode(nodes, id)
  {
    if nodes == [] then None
    else if nodes[|nodes| - 1].id == id then Some(nodes[|nodes| - 1])
    else NodeAt(nodes[..|nodes| - 1], id)
  }

  predicate IsParentOf(nodes: seq<Node>, id: string, parent: string) {
    var node := NodeAt(nodes, id);
    node.Some? && node.value.parent == Some(parent) && parent != "" && HasNode(nodes, parent)
  }

  /** The devices that own selected interface nodes; one level, from the selection as it stands. */
  function Parents(nodes: seq<Node>, selected: set<string>): set<string> {
    set n | n in nodes && exists id | id in selected :: IsParentOf(nodes, id, n.id) :: n.id
  }

  /** `vlanFocus`, without the port table. */
  function Focused(g: Graph, vlan: int): Graph {
    var seeds := Seeds(g.nodes, vlan);
    var selected := SelectedAfter(seeds, g.edges, |g.edges|, Carrying(vlan));
    var all := selected + Parents(g.nodes, selected);
    Graph(Filter(g.nodes, (n: Node) => n.id in all), KeptEdges(seeds, g.edges, |g.edges|, Carrying(vlan)))
  }

  method Focus(g: Graph, vlan: int) returns (r: Graph)
    ensures r == Focused(g, vlan)
  {
    var seeds := Seeds(g.nodes, vlan);
    var selected, edges := seeds, [];
    for i := 0 to |g.edges|
      invariant selected == SelectedAfter(seeds, g.edges, i, Carrying(vlan))
      invariant edges == KeptEdges(seeds, g.edges, i, Carrying(vlan))
    {
      var edge := g.edges[i];
      var direct := vlan in EdgeVlans(edge);
      var endpoint := edge.source in selected || edge.target in selected;
      if direct || endpoint {
        selected := selected + {edge.source, edge.target};
        edges := edges + [edge];
      }
    }
    var all := selected + Parents(g.nodes, selected);
    r := Graph(Filter(g.nodes, (n: Node) => n.id in all), edges);
  }

  // ----- which edges are kept

  predicate Adjacent(a: Edge, b: Edge) {
    Touches(a, {b.source, b.target})
  }

  /** An edge that counts by itself: it carries the VLAN or touches a node that does. */
  predicate Direct(e: Edge, seeds: set<string>, carries: Edge -> bool) {
    carries(e) || Touches(e, seeds)
  }

  /** Positions in scanning order, each edge adjacent to the one before, the first one direct. */
  ghost predicate Chain(chain: seq<nat>, seeds: set<string>, edges: seq<Edge>, carries: Edge -> bool) {
    && chain != []
    && (forall k :: 0 <= k < |chain| ==> chain[k] < |edges|)
    && Direct(edges[chain[0]], seeds, carries)
    && (forall k :: 0 <= k < |chain| - 1 ==> chain[k] < chain[k + 1] && Adjacent(edges[chain[k + 1]], edges[chain[k]]))
  }

  ghost predicate ChainTo(chain: seq<nat>, i: nat, seeds: set<string>, edges: seq<Edge>, carries: Edge -> bool) {
    Chain(chain, seeds, edges, carries) && chain[|chain| - 1] == i
  }

  /** A selected id is a seed or an end of an edge kept before. */
  lemma {:induction false} SelectedOrigin(seeds: set<string>, edges: seq<Edge>, n: nat, carries: Edge -> bool, id: string)
    requires n <= |edges|
    ensures id in SelectedAfter(seeds, edges, n, carries) <==>
              id in seeds || exists j :: 0 <= j < n && KeptAt(seeds, edges, j, carries) && id in {edges[j].source, edges[j].target}
  {
    if n > 0 {
      SelectedOrigin(seeds, edges, n - 1, carries, id);
      var e := edges[n - 1];
      assert KeptAt(seeds, edges, n - 1, carries) <==>
        carries(e) || Touches(e, SelectedAfter(seeds, edges, n - 1, carries));
    }
  }

  lemma {:induction false} KeptHasChain(seeds: set<string>, edges: seq<Edge>, i: nat, carries: Edge -> bool) returns (chain: seq<nat>)
    requires i < |edges| && KeptAt(seeds, edges, i, carries)
    ensures ChainTo(chain, i, seeds, edges, carries)
  {
    var e := edges[i];
    if Direct(e, seeds, carries) {
      chain := [i];
    } else {
      var j := KeptHasPredecessor(seeds, edges, i, carries);
      var before := KeptHasChain(seeds, edges, j, carries);
      chain := before + [i];
      LongerChain(before, j, i, seeds, edges, carries);
    }
  }

  /** A kept edge that is not kept on its own account is adjacent to one kept before. */
  lemma KeptHasPredecessor(seeds: set<string>, edges: seq<Edge>, i: nat, carries: Edge -> bool) returns (j: nat)
    requires i < |edges| && KeptAt(seeds, edges, i, carries) && !Direct(edges[i], seeds, carries)
    ensures j < i && KeptAt(seeds, edges, j, carries) && Adjacent(edges[i], edges[j])
  {
    var e := edges[i];
    SelectedOrigin(seeds, edges, i, carries, e.source);
    SelectedOrigin(seeds, edges, i, carries, e.target);
    j :| 0 <= j < i && KeptAt(seeds, edges, j, carries) && Adjacent(e, edges[j]);
  }

  lemma LongerChain(chain: seq<nat>, j: nat, i: nat, seeds: set<string>, edges: seq<Edge>, carries: Edge -> bool)
    requires ChainTo(chain, j, seeds, edges, carries) && j < i < |edges| && Adjacent(edges[i], edges[j])
    ensures ChainTo(chain + [i], i, seeds, edges, carries)
  {
  }

  lemma {:induction false} ChainIsKept(chain: seq<nat>, i: nat, seeds: set<string>, edges: seq<Edge>, carries: Edge -> bool)
    requires ChainTo(chain, i, seeds, edges, carries)
    ensures KeptAt(seeds, edges, i, carries)
    decreases |chain|
  {
    var e, n := edges[i], |chain| - 1;
    SelectedOrigin(seeds, edges, i, carries, e.source);
    SelectedOrigin(seeds, edges, i, carries, e.target);
    if n > 0 {
      var j := chain[n - 1];
      assert chain[..n][n - 1] == j;
      assert chain[n - 1] < chain[n - 1 + 1] && Adjacent(edges[chain[n - 1 + 1]], edges[chain[n - 1]]);
      ChainIsKept(chain[..n], j, seeds, edges, carries);
    }
  }

  /** An edge is kept exactly when a chain of adjacent edges, in scanning order, leads to it from an edge that
      carries the VLAN or touches a node that does. */
  lemma KeptIffChain(seeds: set<string>, edges: seq<Edge>, i: nat, carries: Edge -> bool)
    requires i < |edges|
    ensures KeptAt(seeds, edges, i, carries) <==> exists chain :: ChainTo(chain, i, seeds, edges, carries)
  {
    if KeptAt(seeds, edges, i, carries) {
      var chain := KeptHasChain(seeds, edges, i, carries);
    }
    if chain :| ChainTo(chain, i, seeds, edges, carries) {
      ChainIsKept(chain, i, seeds, edges, carries);
    }
  }

  /** Every VLAN edge and every edge touching a seed is kept, whatever the order of the edges. */
  lemma DirectIsKept(seeds: set<string>, edges: seq<Edge>, i: nat, carries: Edge -> bool)
    requires i < |edges| && Direct(edges[i], seeds, carries)
    ensures KeptAt(seeds, edges, i, carries)
  {
    assert ChainTo([i], i, seeds, edges, carries);
    ChainIsKept([i], i, seeds, edges, carries);
  }

  /** A single scan can miss an edge that a later one connects: the order of the edges matters. */
  lemma ScanDependsOnOrder()
    ensures var near := Edge("a", "b", [], "", "", "", [7], [], [], [], Missing);
            var far := Edge("b", "c", [], "", "", "", [], [], [], [], Missing);
            KeptEdges({}, [near, far], 2, Carrying(7)) == [near, far] && KeptEdges({}, [far, near], 2, Carrying(7)) == [near]
  {
    var near := Edge("a", "b", [], "", "", "", [7], [], [], [], Missing);
    var far := Edge("b", "c", [], "", "", "", [], [], [], [], Missing);
    assert 7 in EdgeVlans(near) && 7 !in EdgeVlans(far);
    var one, two := [near, far], [far, near];
    assert SelectedAfter({}, one, 1, Carrying(7)) == SelectedAfter({}, one, 0, Carrying(7)) + {"a", "b"};
    assert KeptAt({}, one, 0, Carrying(7)) && KeptAt({}, one, 1, Carrying(7));
    assert KeptEdges({}, one, 1, Carrying(7)) == [near];
    assert !KeptAt({}, two, 0, Carrying(7)) && KeptAt({}, two, 1, Carrying(7));
    assert KeptEdges({}, two, 1, Carrying(7)) == [];
  }

  // ----- the focused graph is closed

  lemma {:induction false} KeptEdgesMember(seeds: set<string>, edges: seq<Edge>, n: nat, carries: Edge -> bool, e: Edge)
    requires n <= |edges|
    ensures e in KeptEdges(seeds, edges, n, carries) <==> exists i :: 0 <= i < n && edges[i] == e && KeptAt(seeds, edges, i, carries)
  {
    if n > 0 { KeptEdgesMember(seeds, edges, n - 1, carries, e); }
  }

  /** Every node of the input that ends a kept edge is in the focus, so a closed graph stays closed. */
  lemma FocusClosed(g: Graph, vlan: int)
    requires Closed(g)
    ensures Closed(Focused(g, vlan))
  {
    var seeds, r := Seeds(g.nodes, vlan), Focused(g, vlan);
    var selected := SelectedAfter(seeds, g.edges, |g.edges|, Carrying(vlan));
    var all := selected + Parents(g.nodes, selected);
    forall e, id | e in r.edges && (id == e.source || id == e.target) ensures HasNode(r.nodes, id) {
      KeptEdgesMember(seeds, g.edges, |g.edges|, Carrying(vlan), e);
      SelectedOrigin(seeds, g.edges, |g.edges|, Carrying(vlan), id);
      HasNodeIff(g.nodes, id);
      var n :| n in g.nodes && n.id == id;
      FilterMember(g.nodes, (n: Node) => n.id in all, n);
      HasNodeIff(r.nodes, id);
    }
  }

  // ----- which nodes and edges belong to a VLAN

  /** A node belongs to a VLAN it lists, tagged or not, between 0 and 4095, or has as its native one. */
  lemma NodeVlansMean(n: Node, vlan: int)
    ensures vlan in NodeVlans(n) <==>
              || (0 <= vlan <= 4095 && (vlan in n.vlanIds || vlan in n.taggedVlans || vlan in n.untaggedVlans))
              || n.pvid == Number(vlan) || (vlan == 0 && n.pvid == Null)
  {
  }

  lemma EdgeVlansMean(e: Edge, vlan: int)
    ensures vlan in EdgeVlans(e) <==>
              || (0 <= vlan <= 4095 && (vlan in e.vlanIds || vlan in e.portVlans || vlan in e.taggedVlans || vlan in e.untaggedVlans))
              || e.portPvid == Number(vlan) || (vlan == 0 && e.portPvid == Null)
  {
  }

  /** A node in the focus by itself: it belongs to the VLAN or ends a kept edge. */
  ghost predicate InFocus(g: Graph, vlan: int, id: string) {
    || (exists n :: n in g.nodes && n.id == id && vlan in NodeVlans(n))
    || (exists e :: e in Focused(g, vlan).edges && (e.source == id || e.target == id))
  }

  ghost predicate LastNode(nodes: seq<Node>, id: string, i: nat) {
    i < |nodes| && nodes[i].id == id && forall j :: i < j < |nodes| ==> nodes[j].id != id
  }

  /** The last node with the id names this device as its parent. */
  ghost predicate OwnedBy(g: Graph, id: string, device: string) {
    device != "" && exists i: nat :: LastNode(g.nodes, id, i) && g.nodes[i].parent == Some(device)
  }

  lemma {:induction false} NodeAtIsLast(nodes: seq<Node>, id: string, i: nat)
    requires LastNode(nodes, id, i)
    ensures NodeAt(nodes, id) == Some(nodes[i])
  {
    var k := |nodes| - 1;
    if i < k {
      assert nodes[k].id != id;
      assert LastNode(nodes[..k], id, i);
      NodeAtIsLast(nodes[..k], id, i);
    }
  }

  lemma {:induction false} LastNodeExists(nodes: seq<Node>, id: string) returns (i: nat)
    requires HasNode(nodes, id)
    ensures LastNode(nodes, id, i)
  {
    var k := |nodes| - 1;
    if nodes[k].id == id {
      i := k;
    } else {
      var j :| 0 <= j < |nodes| && nodes[j].id == id;
      assert nodes[..k][j].id == id;
      i := LastNodeExists(nodes[..k], id);
    }
  }

  lemma ParentMeans(g: Graph, id: string, device: string)
    requires HasNode(g.nodes, device)
    ensures IsParentOf(g.nodes, id, device) <==> OwnedBy(g, id, device)
  {
    if HasNode(g.nodes, id) {
      var i := LastNodeExists(g.nodes, id);
      NodeAtIsLast(g.nodes, id, i);
    }
  }

  lemma SelectedMeans(g: Graph, vlan: int, id: string)
    ensures id in SelectedAfter(Seeds(g.nodes, vlan), g.edges, |g.edges|, Carrying(vlan)) <==> InFocus(g, vlan, id)
  {
    var seeds := Seeds(g.nodes, vlan);
    SelectedOrigin(seeds, g.edges, |g.edges|, Carrying(vlan), id);
    forall e { KeptEdgesMember(seeds, g.edges, |g.edges|, Carrying(vlan), e); }
    if e :| e in Focused(g, vlan).edges && (e.source == id || e.target == id) {
      var i :| 0 <= i < |g.edges| && g.edges[i] == e && KeptAt(seeds, g.edges, i, Carrying(vlan));
    }
    if j :| 0 <= j < |g.edges| && KeptAt(seeds, g.edges, j, Carrying(vlan)) && id in {g.edges[j].source, g.edges[j].target} {
      assert g.edges[j] in Focused(g, vlan).edges;
    }
  }

  /** The focus keeps the nodes that are in it by themselves, and the devices that own one of those. */
  lemma NodeKeptIff(g: Graph, vlan: int, n: Node)
    ensures n in Focused(g, vlan).nodes <==>
              n in g.nodes && (InFocus(g, vlan, n.id) || exists id :: InFocus(g, vlan, id) && OwnedBy(g, id, n.id))
  {
    var seeds := Seeds(g.nodes, vlan);
    var selected := SelectedAfter(seeds, g.edges, |g.edges|, Carrying(vlan));
    var all := selected + Parents(g.nodes, selected);
    FilterMember(g.nodes, (n: Node) => n.id in all, n);
    forall id { SelectedMeans(g, vlan, id); }
    if n in g.nodes {
      HasNodeIff(g.nodes, n.id);
      forall id { ParentMeans(g, id, n.id); }
    }
  }
}
