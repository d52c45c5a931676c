/** Filtering the topology graph for display in four stages, counting what is shown, and keeping the graph closed. */
module Topology {
  import opened Lists
  import opened Outcomes

  /** The native VLAN of a port: not given, given as null, or a number. */
  datatype Pvid = Missing | Null | Number(value: int)

  datatype Node = Node(
    id: string, kind: string, segmentIds: seq<string>, parent: Option<string>,
    vlanIds: seq<int>, taggedVlans: seq<int>, untaggedVlans: seq<int>, pvid: Pvid)

  datatype Edge = Edge(
    source: string, target: string, segmentIds: seq<string>, segmentId: string, layer: string, confidence: string,
    vlanIds: seq<int>, portVlans: seq<int>, taggedVlans: seq<int>, untaggedVlans: seq<int>, portPvid: Pvid)

  datatype Graph = Graph(nodes: seq<Node>, edges: seq<Edge>)

  predicate HasNode(nodes: seq<Node>, id: string) {
    exists i | 0 <= i < |nodes| :: nodes[i].id == id
  }

  /** No edge without both its end nodes. */
  ghost predicate Closed(g: Graph) {
    forall e :: e in g.edges ==> HasNode(g.nodes, e.source) && HasNode(g.nodes, e.target)
  }

  function Referenced(edges: seq<Edge>): set<string> {
    (set e | e in edges :: e.source) + (set e | e in edges :: e.target)
  }

  // ----- the staged display filter

  datatype Options = Options(segmentId: string, layer: string, showGroups: bool, confidence: string)

  predicate InSegment(e: Edge, o: Options) {
    o.segmentId == "" || o.segmentId in e.segmentIds || e.segmentId == o.segmentId
  }

  function LayerOf(e: Edge): string { if e.layer == "" then "general" else e.layer }

  predicate InLayer(e: Edge, o: Options) { o.layer == "general" || LayerOf(e) == o.layer }

  predicate Confident(e: Edge, o: Options) { o.confidence == "all" || e.confidence == o.confidence }

  /** A stage keeps some edges and, when it is active, the nodes it wants or the kept edges refer to. */
  function Stage(g: Graph, active: bool, keepEdge: Edge -> bool, keepNode: Node -> bool): Graph {
    if !active then g
    else
      var edges := Filter(g.edges, keepEdge);
      var referenced := Referenced(edges);
      Graph(Filter(g.nodes, (n: Node) => keepNode(n) || n.id in referenced), edges)
  }

  function SegmentStage(g: Graph, o: Options): Graph {
    Stage(g, o.segmentId != "", (e: Edge) => InSegment(e, o), (n: Node) => o.segmentId in n.segmentIds || n.kind == "wirescope")
  }

  function LayerStage(g: Graph, o: Options): Graph {
    Stage(g, o.layer != "general", (e: Edge) => InLayer(e, o), (n: Node) => o.layer == "l3" && n.kind == "wirescope")
  }

  function ConfidenceStage(g: Graph, o: Options): Graph {
    Stage(g, o.confidence != "all", (e: Edge) => Confident(e, o), (n: Node) => n.kind == "wirescope")
  }

  function GroupIds(nodes: seq<Node>): set<string> {
    set n | n in nodes && n.kind == "multicast-group" :: n.id
  }

  function GroupStage(g: Graph, o: Options): Graph {
    if o.showGroups then g
    else
      var hidden := GroupIds(g.nodes);
      Graph(Filter(g.nodes, (n: Node) => n.id !in hidden),
            Filter(g.edges, (e: Edge) => e.source !in hidden && e.target !in hidden))
  }

  function Filtered(g: Graph, o: Options): Graph {
    GroupStage(ConfidenceStage(LayerStage(SegmentStage(g, o), o), o), o)
  }

  function Histogram(edges: seq<Edge>, tag: Edge -> string): map<string, nat> {
    if edges == [] then map[]
    else
      var counts, k := Histogram(edges[..|edges| - 1], tag), tag(edges[|edges| - 1]);
      counts[k := (if k in counts then counts[k] else 0) + 1]
  }

  function ConfidenceOf(e: Edge): string { if e.confidence == "" then "unknown" else e.confidence }

  /** `filterTopology`: the filtered graph and the counts of its summary. */
  method FilterTopology(g: Graph, o: Options) returns (r: Graph, confidences: map<string, nat>, layers: map<string, nat>)
    ensures r == Filtered(g, o)
    ensures confidences == Histogram(r.edges, ConfidenceOf) && layers == Histogram(r.edges, LayerOf)
  {
    r := SegmentStage(g, o);
    r := LayerStage(r, o);
    r := ConfidenceStage(r, o);
    r := GroupStage(r, o);
    confidences, layers := Summarize(r.edges);
  }

  /** The two histograms of the summary, counted in one loop. */
  method Summarize(edges: seq<Edge>) returns (confidences: map<string, nat>, layers: map<string, nat>)
    ensures confidences == Histogram(edges, ConfidenceOf) && layers == Histogram(edges, LayerOf)
  {
    confidences, layers := map[], map[];
    for i := 0 to |edges|
      invariant confidences == Histogram(edges[..i], ConfidenceOf) && layers == Histogram(edges[..i], LayerOf)
    {
      assert edges[..i + 1][..i] == edges[..i];
      var c, l := ConfidenceOf(edges[i]), LayerOf(edges[i]);
      confidences := confidences[c := (if c in confidences then confidences[c] else 0) + 1];
      layers := layers[l := (if l in layers then layers[l] else 0) + 1];
    }
    assert edges[..|edges|] == edges;
  }

  /** Each count of the summary is the number of kept edges with that label. */
  lemma {:induction false} HistogramCounts(edges: seq<Edge>, tag: Edge -> string, k: string)
    ensures k in Histogram(edges, tag) <==> Filter(edges, (e: Edge) => tag(e) == k) != []
    ensures k in Histogram(edges, tag) ==> Histogram(edges, tag)[k] == |Filter(edges, (e: Edge) => tag(e) == k)|
  {
    if edges != [] {
      var n := |edges| - 1;
      HistogramCounts(edges[..n], tag, k);
      assert edges == edges[..n] + [edges[n]];
      FilterSnoc(edges[..n], edges[n], (e: Edge) => tag(e) == k);
    }
  }

  /** An edge without confidence counts as unknown, one without layer as general. */
  lemma LabelsMean(e: Edge, k: string)
    ensures ConfidenceOf(e) == k <==> (k != "" && e.confidence == k) || (k == "unknown" && e.confidence == "")
    ensures LayerOf(e) == k <==> (k != "" && e.layer == k) || (k == "general" && e.layer == "")
  {
  }

  // ----- what a stage does

  lemma HasNodeIff(nodes: seq<Node>, id: string)
    ensures HasNode(nodes, id) <==> exists n :: n in nodes && n.id == id
  {
    if n :| n in nodes && n.id == id {
      var i :| 0 <= i < |nodes| && nodes[i] == n;
    }
  }

  /** A stage never loses a node that one of its kept edges refers to. */
  lemma StageKeepsReferenced(g: Graph, active: bool, keepEdge: Edge -> bool, keepNode: Node -> bool, n: Node)
    requires n in g.nodes && n.id in Referenced(Stage(g, active, keepEdge, keepNode).edges)
    ensures n in Stage(g, active, keepEdge, keepNode).nodes
  {
    if active {
      var referenced := Referenced(Filter(g.edges, keepEdge));
      FilterMember(g.nodes, (n: Node) => keepNode(n) || n.id in referenced, n);
    }
  }

  lemma StageShrinks(g: Graph, active: bool, keepEdge: Edge -> bool, keepNode: Node -> bool)
    ensures forall n :: n in Stage(g, active, keepEdge, keepNode).nodes ==> n in g.nodes
    ensures forall e :: e in Stage(g, active, keepEdge, keepNode).edges ==> e in g.edges
    ensures Referenced(Stage(g, active, keepEdge, keepNode).edges) <= Referenced(g.edges)
  {
    if active {
      var referenced := Referenced(Filter(g.edges, keepEdge));
      forall n | n in Stage(g, active, keepEdge, keepNode).nodes ensures n in g.nodes {
        FilterMember(g.nodes, (n: Node) => keepNode(n) || n.id in referenced, n);
      }
      forall e | e in Stage(g, active, keepEdge, keepNode).edges ensures e in g.edges {
        FilterMember(g.edges, keepEdge, e);
      }
    }
  }

  lemma StageClosed(g: Graph, active: bool, keepEdge: Edge -> bool, keepNode: Node -> bool)
    requires Closed(g)
    ensures Closed(Stage(g, active, keepEdge, keepNode))
  {
    var s := Stage(g, active, keepEdge, keepNode);
    StageShrinks(g, active, keepEdge, keepNode);
    forall e, id | e in s.edges && (id == e.source || id == e.target) ensures HasNode(s.nodes, id) {
      HasNodeIff(g.nodes, id);
      var n :| n in g.nodes && n.id == id;
      StageKeepsReferenced(g, active, keepEdge, keepNode, n);
      HasNodeIff(s.nodes, id);
    }
  }

  lemma GroupStageClosed(g: Graph, o: Options)
    requires Closed(g)
    ensures Closed(GroupStage(g, o))
  {
    if !o.showGroups {
      var s, hidden := GroupStage(g, o), GroupIds(g.nodes);
      forall e, id | e in s.edges && (id == e.source || id == e.target) ensures HasNode(s.nodes, id) {
        FilterMember(g.edges, (e: Edge) => e.source !in hidden && e.target !in hidden, e);
        HasNodeIff(g.nodes, id);
        var n :| n in g.nodes && n.id == id;
        FilterMember(g.nodes, (n: Node) => n.id !in hidden, n);
        HasNodeIff(s.nodes, id);
      }
    }
  }

  /** Filtering keeps a closed graph closed. */
  lemma FilteredClosed(g: Graph, o: Options)
    requires Closed(g)
    ensures Closed(Filtered(g, o))
  {
    var s := SegmentStage(g, o);
    StageClosed(g, o.segmentId != "", (e: Edge) => InSegment(e, o), (n: Node) => o.segmentId in n.segmentIds || n.kind == "wirescope");
    var l := LayerStage(s, o);
    StageClosed(s, o.layer != "general", (e: Edge) => InLayer(e, o), (n: Node) => o.layer == "l3" && n.kind == "wirescope");
    StageClosed(l, o.confidence != "all", (e: Edge) => Confident(e, o), (n: Node) => n.kind == "wirescope");
    GroupStageClosed(ConfidenceStage(l, o), o);
  }

  // ----- the stages as one filter

  /** Reference: all conditions at once, groups looked up in the unfiltered graph. */
  predicate Wanted(e: Edge, g: Graph, o: Options) {
    && InSegment(e, o) && InLayer(e, o) && Confident(e, o)
    && (o.showGroups || (e.source !in GroupIds(g.nodes) && e.target !in GroupIds(g.nodes)))
  }

  lemma StageEdges(g: Graph, active: bool, keepEdge: Edge -> bool, keepNode: Node -> bool)
    requires !active ==> forall e :: e in g.edges ==> keepEdge(e)
    ensures Stage(g, active, keepEdge, keepNode).edges == Filter(g.edges, keepEdge)
  {
    if !active { FilterAll(g.edges, keepEdge); }
  }

  /** After the first three stages a group node that an edge refers to is still there. */
  lemma GroupsSurvive(g: Graph, o: Options, e: Edge, id: string)
    requires e in ConfidenceStage(LayerStage(SegmentStage(g, o), o), o).edges && (id == e.source || id == e.target)
    ensures id in GroupIds(ConfidenceStage(LayerStage(SegmentStage(g, o), o), o).nodes) <==> id in GroupIds(g.nodes)
  {
    var s := SegmentStage(g, o);
    var l := LayerStage(s, o);
    var c := ConfidenceStage(l, o);
    StageShrinks(g, o.segmentId != "", (e: Edge) => InSegment(e, o), (n: Node) => o.segmentId in n.segmentIds || n.kind == "wirescope");
    StageShrinks(s, o.layer != "general", (e: Edge) => InLayer(e, o), (n: Node) => o.layer == "l3" && n.kind == "wirescope");
    StageShrinks(l, o.confidence != "all", (e: Edge) => Confident(e, o), (n: Node) => n.kind == "wirescope");
    assert id in Referenced(c.edges);
    if n :| n in g.nodes && n.kind == "multicast-group" && n.id == id {
      StageKeepsReferenced(g, o.segmentId != "", (e: Edge) => InSegment(e, o), (n: Node) => o.segmentId in n.segmentIds || n.kind == "wirescope", n);
      StageKeepsReferenced(s, o.layer != "general", (e: Edge) => InLayer(e, o), (n: Node) => o.layer == "l3" && n.kind == "wirescope", n);
      StageKeepsReferenced(l, o.confidence != "all", (e: Edge) => Confident(e, o), (n: Node) => n.kind == "wirescope", n);
      assert n in c.nodes;
    }
  }

  lemma ThreeStages(g: Graph, o: Options)
    ensures ConfidenceStage(LayerStage(SegmentStage(g, o), o), o).edges
         == Filter(g.edges, (e: Edge) => InSegment(e, o) && InLayer(e, o) && Confident(e, o))
  {
    var s := SegmentStage(g, o);
    var l := LayerStage(s, o);
    StageEdges(g, o.segmentId != "", (e: Edge) => InSegment(e, o), (n: Node) => o.segmentId in n.segmentIds || n.kind == "wirescope");
    StageEdges(s, o.layer != "general", (e: Edge) => InLayer(e, o), (n: Node) => o.layer == "l3" && n.kind == "wirescope");
    StageEdges(l, o.confidence != "all", (e: Edge) => Confident(e, o), (n: Node) => n.kind == "wirescope");
    FilterTwice(g.edges, (e: Edge) => InSegment(e, o), (e: Edge) => InLayer(e, o), (e: Edge) => InSegment(e, o) && InLayer(e, o));
    FilterTwice(g.edges, (e: Edge) => InSegment(e, o) && InLayer(e, o), (e: Edge) => Confident(e, o),
                (e: Edge) => InSegment(e, o) && InLayer(e, o) && Confident(e, o));
  }

  /** The four stages keep the same edges, in the same order, as one filter with all the conditions. */
  lemma StagedEqualsConjunctive(g: Graph, o: Options)
    ensures Filtered(g, o).edges == Filter(g.edges, (e: Edge) => Wanted(e, g, o))
  {
    var c := ConfidenceStage(LayerStage(SegmentStage(g, o), o), o);
    ThreeStages(g, o);
    if o.showGroups {
      FilterAgree(g.edges, (e: Edge) => InSegment(e, o) && InLayer(e, o) && Confident(e, o), (e: Edge) => Wanted(e, g, o));
    } else {
      var hidden, groups := GroupIds(c.nodes), GroupIds(g.nodes);
      forall e | e in c.edges ensures (e.source !in hidden && e.target !in hidden) <==> (e.source !in groups && e.target !in groups) {
        GroupsSurvive(g, o, e, e.source);
        GroupsSurvive(g, o, e, e.target);
      }
      FilterAgree(c.edges, (e: Edge) => e.source !in hidden && e.target !in hidden,
                  (e: Edge) => e.source !in groups && e.target !in groups);
      FilterTwice(g.edges, (e: Edge) => InSegment(e, o) && InLayer(e, o) && Confident(e, o),
                  (e: Edge) => e.source !in groups && e.target !in groups, (e: Edge) => Wanted(e, g, o));
    }
  }

  // ----- the filter in terms of edges and nodes

  /** In the chosen segment, if one is chosen. */
  ghost predicate EdgeInSegment(e: Edge, segment: string) {
    segment == "" || e.segmentId == segment || exists i :: 0 <= i < |e.segmentIds| && e.segmentIds[i] == segment
  }

  /** On the chosen layer, which must have a name; the general one as a choice means all layers. */
  ghost predicate EdgeOnLayer(e: Edge, layer: string) {
    layer == "general" || (layer != "" && e.layer == layer)
  }

  ghost predicate EdgeConfident(e: Edge, confidence: string) {
    confidence == "all" || e.confidence == confidence
  }

  ghost predicate IsGroup(g: Graph, id: string) {
    exists n :: n in g.nodes && n.id == id && n.kind == "multicast-group"
  }

  /** An edge is kept when it passes every choice that is made, and unless groups are shown ends in none. */
  lemma EdgeKeptIff(g: Graph, o: Options, e: Edge)
    ensures e in Filtered(g, o).edges <==>
              && e in g.edges && EdgeInSegment(e, o.segmentId) && EdgeOnLayer(e, o.layer) && EdgeConfident(e, o.confidence)
              && (o.showGroups || (!IsGroup(g, e.source) && !IsGroup(g, e.target)))
  {
    StagedEqualsConjunctive(g, o);
    FilterMember(g.edges, (e: Edge) => Wanted(e, g, o), e);
  }

  /** Some edge with this property has the node as an end. */
  ghost predicate EndOf(edges: seq<Edge>, id: string, p: Edge -> bool) {
    exists e :: e in edges && p(e) && (e.source == id || e.target == id)
  }

  lemma ReferencedIff(edges: seq<Edge>, id: string, p: Edge -> bool)
    ensures id in Referenced(Filter(edges, p)) <==> EndOf(edges, id, p)
  {
    forall e { FilterMember(edges, p, e); }
  }

  lemma StageNode(g: Graph, active: bool, keepEdge: Edge -> bool, keepNode: Node -> bool, n: Node)
    ensures n in Stage(g, active, keepEdge, keepNode).nodes <==>
              n in g.nodes && (active ==> keepNode(n) || EndOf(g.edges, n.id, keepEdge))
  {
    if active {
      var referenced := Referenced(Filter(g.edges, keepEdge));
      FilterMember(g.nodes, (n: Node) => keepNode(n) || n.id in referenced, n);
      ReferencedIff(g.edges, n.id, keepEdge);
    }
  }

  /** Each choice keeps the nodes at the ends of the edges kept so far, and some for their own sake: members of the
      segment and the appliance itself; on the third layer the appliance; and the appliance again. Groups go last. */
  lemma NodeKeptIff(g: Graph, o: Options, n: Node)
    ensures n in Filtered(g, o).nodes <==>
              && n in g.nodes
              && (o.segmentId != "" ==>
                    (exists i :: 0 <= i < |n.segmentIds| && n.segmentIds[i] == o.segmentId) || n.kind == "wirescope"
                    || EndOf(g.edges, n.id, (e: Edge) => InSegment(e, o)))
              && (o.layer != "general" ==>
                    (o.layer == "l3" && n.kind == "wirescope")
                    || EndOf(SegmentStage(g, o).edges, n.id, (e: Edge) => InLayer(e, o)))
              && (o.confidence != "all" ==>
                    n.kind == "wirescope" || EndOf(LayerStage(SegmentStage(g, o), o).edges, n.id, (e: Edge) => Confident(e, o)))
              && (!o.showGroups ==> !IsGroup(ConfidenceStage(LayerStage(SegmentStage(g, o), o), o), n.id))
  {
    var a := SegmentStage(g, o);
    var b := LayerStage(a, o);
    var c := ConfidenceStage(b, o);
    StageNode(g, o.segmentId != "", (e: Edge) => InSegment(e, o), (n: Node) => o.segmentId in n.segmentIds || n.kind == "wirescope", n);
    StageNode(a, o.layer != "general", (e: Edge) => InLayer(e, o), (n: Node) => o.layer == "l3" && n.kind == "wirescope", n);
    StageNode(b, o.confidence != "all", (e: Edge) => Confident(e, o), (n: Node) => n.kind == "wirescope", n);
    if !o.showGroups {
      var hidden := GroupIds(c.nodes);
      FilterMember(c.nodes, (n: Node) => n.id !in hidden, n);
    }
  }
}
