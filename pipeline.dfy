/**
 * The `/_get_graph` request of main.py (lines 24-74) as one composed
 * method: build the graph of the chosen kind from the dump's rows, drop
 * the edges below the requested weight, drop the nodes left without an
 * edge, score the nodes with the requested metric and export the result.
 *
 * The centrality algorithms belong to networkx and are not modelled: the
 * request receives them as a function from a metric and the pruned
 * graph's nodes, edges and weights to a score per node, or to `None`
 * where the library raises instead.
 */
module WebApp {
  import opened Seqs
  import opened Groups
  import opened Cooccurrence
  import opened WikiGraph
  import opened Cytoscape

  /** The node metrics the request can ask for. */
  datatype Metric = Degree | Betweenness | Eigenvector | PageRank | Clustering

  /** The `metrica` dispatch: the four names it knows, degree centrality for anything else. */
  function MetricNamed(name: string): (m: Metric)
    ensures m == Betweenness <==> name == "betweennes"
    ensures m == Eigenvector <==> name == "eigenvector"
    ensures m == PageRank <==> name == "pagerank"
    ensures m == Clustering <==> name == "clustering"
    ensures m == Degree <==> name != "betweennes" && name != "eigenvector" && name != "pagerank" && name != "clustering"
  {
    if name == "betweennes" then Betweenness
    else if name == "eigenvector" then Eigenvector
    else if name == "pagerank" then PageRank
    else if name == "clustering" then Clustering
    else Degree
  }

  /** A value, or none where the source raises or answers nothing. */
  datatype Option<T> = None | Some(value: T)

  /** A networkx centrality: the scores of a graph's nodes, or `None` where the library raises. */
  type Centrality = (Metric, seq<NodeId>, seq<Edge>, map<set<NodeId>, int>) -> Option<map<NodeId, real>>

  /** A centrality that succeeds scores exactly the graph's nodes. */
  ghost predicate ScoresNodes(score: Centrality) {
    forall m, ns, es, w, n :: score(m, ns, es, w).Some? ==> (n in score(m, ns, es, w).value <==> n in ns)
  }

  /** The JSON the request answers with, without the `mapData` display string. */
  datatype Response = Response(result: Exchange, layout: string, numNodes: nat, numEdges: nat, max: real, min: ExtReal)

  /** The member lists the graph is built from: contributors grouped by page for `tipo=users`, else pages grouped by contributor. */
  function SourceGroups(rows: seq<Row>, graphType: string, cleanAnonymous: bool, cleanLabels: bool): seq<seq<Member>>
  {
    if graphType == "users" then GroupEntries(UserEntries(rows, cleanAnonymous, cleanLabels)).Values()
    else GroupEntries(PageEntries(rows)).Values()
  }

  /** The edges `remove_edge(t)` leaves in the graph built from `vs`. */
  function KeptEdges(vs: seq<seq<Member>>, t: int): seq<Edge> {
    Heavy(FirstArcs(AllArcs(vs)), Weights(AllArcs(vs)), t)
  }

  /** The weights `remove_edge(t)` leaves in the graph built from `vs`. */
  function KeptWeights(vs: seq<seq<Member>>, t: int): map<set<NodeId>, int> {
    AtLeast(Weights(AllArcs(vs)), t)
  }

  /** The nodes `remove_isolates` leaves after that. */
  function KeptNodes(vs: seq<seq<Member>>, t: int): seq<NodeId> {
    Connected(Dedup(Ids(Flat(vs))), KeptEdges(vs, t))
  }

  /** The scores the requested metric gives the pruned graph. */
  function Scores(vs: seq<seq<Member>>, t: int, metricName: string, score: Centrality): Option<map<NodeId, real>> {
    score(MetricNamed(metricName), KeptNodes(vs, t), KeptEdges(vs, t), KeptWeights(vs, t))
  }

  /**
   * The exported edges are one entry per pair whose built weight is at
   * least `t`: each entry names such a pair, carries its weight and the id
   * `source + target`, every such pair has an entry, and no pair has two.
   */
  ghost predicate EdgesExported(es: seq<EdgeData>, built: map<set<NodeId>, int>, t: int) {
    (forall k :: 0 <= k < |es| ==>
       {es[k].source, es[k].target} in built && es[k].weight == built[{es[k].source, es[k].target}]
       && es[k].weight >= t && es[k].id == es[k].source + es[k].target)
    && (forall p :: p in built && built[p] >= t ==> exists k :: 0 <= k < |es| && {es[k].source, es[k].target} == p)
    && (forall k, k' :: 0 <= k < k' < |es| ==> {es[k].source, es[k].target} != {es[k'].source, es[k'].target})
  }

  /** `n` is an end of a pair whose built weight is at least `t`. */
  ghost predicate KeptEnd(built: map<set<NodeId>, int>, t: int, n: NodeId) {
    exists p :: p in built && built[p] >= t && n in p
  }

  /**
   * The exported nodes are the ends of the pairs whose built weight is at
   * least `t`, each once, labelled with the last name seen for it in `ms`,
   * weighted with its score and with `min_weight` and `max_weight` at 1.
   */
  ghost predicate NodesExported(ns: seq<NodeData>, built: map<set<NodeId>, int>, t: int, ms: seq<Member>, s: map<NodeId, real>) {
    (forall n :: KeptEnd(built, t, n) <==> exists i :: 0 <= i < |ns| && ns[i].id == n)
    && (forall i, j :: 0 <= i < j < |ns| ==> ns[i].id != ns[j].id)
    && (forall i :: 0 <= i < |ns| ==>
          ns[i].id in s && ns[i] == NodeData(ns[i].id, LastName(ms, ns[i].id), s[ns[i].id], 1.0, 1.0))
  }

  /** The edges `convert2cytoscape_json` exports from the pruned view are exactly the heavy built pairs. */
  lemma ExportedEdges(view: seq<Edge>, w: map<set<NodeId>, int>, built: map<set<NodeId>, int>, t: int, edges: seq<EdgeData>)
    requires |edges| == |view|
    requires forall i :: 0 <= i < |view| ==>
               Ends(view[i]) in w && edges[i] == EdgeData(view[i].0 + view[i].1, view[i].0, view[i].1, w[Ends(view[i])])
    requires w == AtLeast(built, t)
    requires NoDup(EdgeKeys(view)) && forall p :: p in EdgeKeys(view) <==> p in w
    ensures EdgesExported(edges, built, t)
  {
    forall k | 0 <= k < |edges|
      ensures {edges[k].source, edges[k].target} == Ends(view[k])
    {
    }
    forall p | p in built && built[p] >= t
      ensures exists k :: 0 <= k < |edges| && {edges[k].source, edges[k].target} == p
    {
      assert p in EdgeKeys(view);
      var k :| 0 <= k < |view| && EdgeKeys(view)[k] == p;
      assert {edges[k].source, edges[k].target} == p;
    }
    forall k, k' | 0 <= k < k' < |edges|
      ensures {edges[k].source, edges[k].target} != {edges[k'].source, edges[k'].target}
    {
      assert EdgeKeys(view)[k] != EdgeKeys(view)[k'];
    }
  }

  /** A node with an edge is in a kept pair when every edge's pair is kept. */
  lemma EndOfSome(es: seq<Edge>, built: map<set<NodeId>, int>, t: int, n: NodeId)
    requires !Isolated(n, es)
    requires forall p :: p in EdgeKeys(es) ==> p in built && built[p] >= t
    ensures KeptEnd(built, t, n)
  {
    EndpointsMember(es, n);
    var e :| e in es && (e.0 == n || e.1 == n);
    KeysMember(es, Ends(e));
    assert n in Ends(e);
  }

  /** A member of an edge's endpoint pair has attributes when every edge's ends do. */
  lemma EndsOfKey(es: seq<Edge>, attrs: map<NodeId, Attrs>, p: set<NodeId>, n: NodeId)
    requires forall e :: e in es ==> e.0 in attrs && e.1 in attrs
    requires p in EdgeKeys(es) && n in p
    ensures n in attrs
  {
    KeysMember(es, p);
    var e :| e in es && Ends(e) == p;
    assert n == e.0 || n == e.1;
  }

  /** In a pruned graph, every node is an end of a kept pair. */
  lemma NodesAreEnds(nodes: seq<NodeId>, es: seq<Edge>, w: map<set<NodeId>, int>, built: map<set<NodeId>, int>, t: int)
    requires forall p :: p in w <==> p in EdgeKeys(es)
    requires forall n :: n in nodes ==> !Isolated(n, es)
    requires forall p :: p in w <==> p in built && built[p] >= t
    ensures forall n :: n in nodes ==> KeptEnd(built, t, n)
  {
    forall n | n in nodes
      ensures KeptEnd(built, t, n)
    {
      EndOfSome(es, built, t, n);
    }
  }

  /** In a pruned graph, every end of a kept pair is a node. */
  lemma EndsAreNodes(nodes: seq<NodeId>, attrs: map<NodeId, Attrs>, es: seq<Edge>, w: map<set<NodeId>, int>,
                     built: map<set<NodeId>, int>, t: int)
    requires (forall n :: n in attrs <==> n in nodes)
    requires (forall p :: p in w <==> p in EdgeKeys(es)) && (forall e :: e in es ==> e.0 in attrs && e.1 in attrs)
    requires forall p :: p in w <==> p in built && built[p] >= t
    ensures forall n :: KeptEnd(built, t, n) ==> n in nodes
  {
    forall n | KeptEnd(built, t, n)
      ensures n in nodes
    {
      var p :| p in built && built[p] >= t && n in p;
      assert p in w;
      EndsOfKey(es, attrs, p, n);
    }
  }

  /**
   * The nodes `convert2cytoscape_json` exports from a pruned, scored graph
   * are exactly the ends of its kept pairs, once each, with their labels
   * and scores.
   */
  lemma ExportedNodes(nodes: seq<NodeId>, attrs: map<NodeId, Attrs>, built: map<set<NodeId>, int>, t: int,
                      ms: seq<Member>, s: map<NodeId, real>, ns: seq<NodeData>)
    requires NoDup(nodes) && (forall n :: n in attrs <==> n in nodes)
    requires forall n :: n in nodes <==> KeptEnd(built, t, n)
    requires forall n :: n in attrs ==> n in s && attrs[n] == Initial(LastName(ms, n)).(weight := s[n])
    requires |ns| == |nodes|
    requires forall i :: 0 <= i < |nodes| ==>
               var a := attrs[nodes[i]];
               ns[i] == NodeData(nodes[i], a.name, a.weight, a.maxWeight, a.minWeight)
    ensures NodesExported(ns, built, t, ms, s)
  {
    forall n
      ensures KeptEnd(built, t, n) <==> exists i :: 0 <= i < |ns| && ns[i].id == n
    {
      if i :| 0 <= i < |ns| && ns[i].id == n {
        assert nodes[i] in nodes;
      }
      if KeptEnd(built, t, n) {
        var i :| 0 <= i < |nodes| && nodes[i] == n;
        assert ns[i].id == n;
      }
    }
  }

  /** Every exported node is an end of an exported edge. */
  lemma ExportedTouched(ns: seq<NodeData>, es: seq<EdgeData>, built: map<set<NodeId>, int>, t: int,
                        ms: seq<Member>, s: map<NodeId, real>)
    requires EdgesExported(es, built, t) && NodesExported(ns, built, t, ms, s)
    ensures forall d :: d in ns ==> exists k :: 0 <= k < |es| && (es[k].source == d.id || es[k].target == d.id)
  {
    forall d | d in ns
      ensures exists k :: 0 <= k < |es| && (es[k].source == d.id || es[k].target == d.id)
    {
      var i :| 0 <= i < |ns| && ns[i] == d;
      assert KeptEnd(built, t, d.id);
      var p :| p in built && built[p] >= t && d.id in p;
      var k :| 0 <= k < |es| && {es[k].source, es[k].target} == p;
      assert es[k].source == d.id || es[k].target == d.id;
    }
  }

  /**
   * The edges `convert2cytoscape_json` exports from a graph whose weights
   * are the pairs of `built` of weight at least `t`.
   */
  lemma EdgesOfGraph(nodes: seq<NodeId>, attrs: map<NodeId, Attrs>, es: seq<Edge>, w: map<set<NodeId>, int>,
                     built: map<set<NodeId>, int>, t: int, edges: seq<EdgeData>)
    requires NoDup(nodes) && (forall n :: n in attrs <==> n in nodes)
    requires NoDup(EdgeKeys(es)) && (forall p :: p in w <==> p in EdgeKeys(es))
    requires forall e :: e in es ==> e.0 in attrs && e.1 in attrs
    requires w == AtLeast(built, t)
    requires |edges| == |View(nodes, es)|
    requires forall i :: 0 <= i < |edges| ==>
               var e := View(nodes, es)[i];
               Ends(e) in w && edges[i] == EdgeData(e.0 + e.1, e.0, e.1, w[Ends(e)])
    ensures EdgesExported(edges, built, t)
  {
    ViewOfGraph(nodes, attrs, es, w);
    ExportedEdges(View(nodes, es), w, built, t, edges);
  }

  /**
   * The nodes `convert2cytoscape_json` exports from a graph whose nodes
   * each end a pair of `built` of weight at least `t`, whose weights are
   * those pairs, and whose attributes carry labels from `ms` and scores
   * from `s`.
   */
  lemma NodesOfGraph(nodes: seq<NodeId>, attrs: map<NodeId, Attrs>, es: seq<Edge>, w: map<set<NodeId>, int>,
                     built: map<set<NodeId>, int>, t: int, ms: seq<Member>, s: map<NodeId, real>, ns: seq<NodeData>)
    requires NoDup(nodes) && (forall n :: n in attrs <==> n in nodes)
    requires forall p :: p in w <==> p in EdgeKeys(es)
    requires forall e :: e in es ==> e.0 in attrs && e.1 in attrs
    requires forall n :: n in nodes ==> KeptEnd(built, t, n)
    requires w == AtLeast(built, t)
    requires forall n :: n in attrs ==> n in s && attrs[n] == Initial(LastName(ms, n)).(weight := s[n])
    requires |ns| == |nodes|
    requires forall i :: 0 <= i < |nodes| ==>
               var a := attrs[nodes[i]];
               ns[i] == NodeData(nodes[i], a.name, a.weight, a.maxWeight, a.minWeight)
    ensures NodesExported(ns, built, t, ms, s)
  {
    EndsAreNodes(nodes, attrs, es, w, built, t);
    ExportedNodes(nodes, attrs, built, t, ms, s, ns);
  }

  /** After pruning, the nodes left keep the attributes `add_node` gave them. */
  lemma PrunedAttrs(vs: seq<seq<Member>>, es: seq<Edge>, attrs: map<NodeId, Attrs>)
    requires attrs == map n | n in NodeAttrs(Flat(vs)) && !Isolated(n, es) :: NodeAttrs(Flat(vs))[n]
    ensures forall n :: n in attrs ==> attrs[n] == Initial(LastName(Flat(vs), n))
  {
    forall n | n in attrs
      ensures attrs[n] == Initial(LastName(Flat(vs), n))
    {
      BuiltNodes(vs, n);
    }
  }

  /** Lines 44-47: the users graph for `tipo=users`, the pages graph otherwise. */
  method Build(rows: seq<Row>, graphType: string, cleanAnonymous: bool, cleanLabels: bool) returns (g: Graph)
    ensures fresh(g) && g.Valid()
    ensures g.BuiltFrom(SourceGroups(rows, graphType, cleanAnonymous, cleanLabels))
  {
    if graphType == "users" {
      g := GetGraphUsers(rows, cleanAnonymous, cleanLabels);
    } else {
      g := GetGraphPages(rows);
    }
  }

  /**
   * Lines 49-50: `remove_edge` and then `remove_isolates`. The edges and
   * weights left are those of weight at least `t`, and the nodes left, with
   * their attributes, are those that still have an edge.
   */
  method Prune(g: Graph, t: int)
    requires g.Valid()
    modifies g
    ensures g.Valid()
    ensures g.edges == Heavy(old(g.edges), old(g.weights), t) && g.weights == AtLeast(old(g.weights), t)
    ensures g.nodes == Connected(old(g.nodes), g.edges)
    ensures g.attrs == map n | n in old(g.attrs) && !Isolated(n, g.edges) :: old(g.attrs)[n]
  {
    RemoveEdge(g, t);
    RemoveIsolates(g);
  }

  /**
   * Lines 44-50: build the requested graph and prune it. What is left are
   * the built edges of weight at least `t`, their ends as nodes, and the
   * attributes `add_node` gave those.
   */
  method Pruned(rows: seq<Row>, graphType: string, cleanAnonymous: bool, cleanLabels: bool, t: int) returns (g: Graph)
    ensures fresh(g) && g.Valid()
    ensures var vs := SourceGroups(rows, graphType, cleanAnonymous, cleanLabels);
            g.nodes == KeptNodes(vs, t) && g.edges == KeptEdges(vs, t) && g.weights == KeptWeights(vs, t)
    ensures var vs := SourceGroups(rows, graphType, cleanAnonymous, cleanLabels);
            forall n :: n in g.nodes ==> KeptEnd(Weights(AllArcs(vs)), t, n)
    ensures var vs := SourceGroups(rows, graphType, cleanAnonymous, cleanLabels);
            forall n :: n in g.attrs ==> g.attrs[n] == Initial(LastName(Flat(vs), n))
  {
    ghost var vs := SourceGroups(rows, graphType, cleanAnonymous, cleanLabels);
    g := Build(rows, graphType, cleanAnonymous, cleanLabels);
    ghost var built := Weights(AllArcs(vs));
    assert g.weights == built;
    Prune(g, t);
    PrunedAttrs(vs, g.edges, g.attrs);
    assert forall n :: n in g.nodes ==> KeptEnd(built, t, n) by {
      NodesAreEnds(g.nodes, g.edges, g.weights, built, t);
    }
    assert forall n :: n in g.nodes ==> KeptEnd(Weights(AllArcs(vs)), t, n);
  }

  /**
   * Lines 52-67: score the nodes with the metric named `metricName`, write
   * each score into its node's `weight` and fold the scores into `min` and
   * `max`; `None` where the centrality raises. Nothing else changes.
   */
  method Score(g: Graph, metricName: string, score: Centrality) returns (extremes: Option<(ExtReal, real)>)
    requires ScoresNodes(score) && g.Valid()
    modifies g
    ensures g.Valid()
    ensures g.nodes == old(g.nodes) && g.edges == old(g.edges) && g.weights == old(g.weights)
    ensures extremes.Some? <==> score(MetricNamed(metricName), old(g.nodes), old(g.edges), old(g.weights)).Some?
    ensures extremes.None? ==> g.attrs == old(g.attrs)
    ensures extremes.Some? ==>
              var s := score(MetricNamed(metricName), old(g.nodes), old(g.edges), old(g.weights)).value;
              g.attrs.Keys == old(g.attrs).Keys
              && (forall n :: n in g.attrs ==> n in s && g.attrs[n] == old(g.attrs)[n].(weight := s[n]))
              && Extrema(extremes.value.0, extremes.value.1, s)
  {
    var scores := score(MetricNamed(metricName), g.nodes, g.edges, g.weights);
    if scores.None? {
      return None;
    }
    assert forall n :: n in scores.value <==> n in g.attrs;
    var lo, hi := AddScores(g, scores.value);
    extremes := Some((lo, hi));
  }

  /**
   * `get_graph()`: `None` when the dump's file is missing or the centrality
   * raises. Otherwise the answer exports, in the pruned graph's node and
   * edge order, one edge per pair whose built weight is at least
   * `edgeWeight`, and the ends of those pairs as nodes, each with its last
   * label, its score as weight and unit bounds; `min` and `max` fold the
   * scores, and the counts are those of the lists.
   */
  method GetGraph(rows: seq<Row>, graphType: string, edgeWeight: int, cleanAnonymous: bool, cleanLabels: bool,
                  metricName: string, layout: string, fileExists: bool, score: Centrality)
      returns (resp: Option<Response>)
    requires ScoresNodes(score)
    ensures resp.Some? <==>
              fileExists && Scores(SourceGroups(rows, graphType, cleanAnonymous, cleanLabels), edgeWeight, metricName, score).Some?
    ensures resp.Some? ==>
              resp.value.layout == layout
              && resp.value.numNodes == |resp.value.result.nodes| && resp.value.numEdges == |resp.value.result.edges|
    ensures resp.Some? ==>
              var vs := SourceGroups(rows, graphType, cleanAnonymous, cleanLabels);
              var kept, ns := KeptNodes(vs, edgeWeight), resp.value.result.nodes;
              |ns| == |kept| && forall i :: 0 <= i < |kept| ==> ns[i].id == kept[i]
    ensures resp.Some? ==>
              var vs := SourceGroups(rows, graphType, cleanAnonymous, cleanLabels);
              var view, es := View(KeptNodes(vs, edgeWeight), KeptEdges(vs, edgeWeight)), resp.value.result.edges;
              |es| == |view| && forall k :: 0 <= k < |view| ==> es[k].source == view[k].0 && es[k].target == view[k].1
    ensures resp.Some? ==>
              EdgesExported(resp.value.result.edges,
                            Weights(AllArcs(SourceGroups(rows, graphType, cleanAnonymous, cleanLabels))), edgeWeight)
    ensures resp.Some? ==>
              var vs := SourceGroups(rows, graphType, cleanAnonymous, cleanLabels);
              var s := Scores(vs, edgeWeight, metricName, score);
              s.Some?
              && NodesExported(resp.value.result.nodes, Weights(AllArcs(vs)), edgeWeight, Flat(vs), s.value)
              && Extrema(resp.value.min, resp.value.max, s.value)
  {
    ghost var vs := SourceGroups(rows, graphType, cleanAnonymous, cleanLabels);
    if !fileExists {
      return None;
    }
    var g := Pruned(rows, graphType, cleanAnonymous, cleanLabels, edgeWeight);
    ghost var ms, built := Flat(vs), Weights(AllArcs(vs));
    ghost var s := score(MetricNamed(metricName), g.nodes, g.edges, g.weights);
    var extremes := Score(g, metricName, score);
    if extremes.None? {
      return None;
    }
    var result := Convert(g);
    var lo, hi := extremes.value.0, extremes.value.1;
    resp := Some(Response(result, layout, |g.nodes|, |g.edges|, hi, lo));
    assert |g.edges| == |result.edges| by {
      ViewOfGraph(g.nodes, g.attrs, g.edges, g.weights);
    }
    EdgesOfGraph(g.nodes, g.attrs, g.edges, g.weights, built, edgeWeight, result.edges);
    NodesOfGraph(g.nodes, g.attrs, g.edges, g.weights, built, edgeWeight, ms, s.value, result.nodes);
  }
}
