/**
 * `convert2cytoscape_json` (modules/get_wiki_graph.py, lines 267-285): the
 * graph projected into the `{"nodes": [...], "edges": [...]}` dict that
 * Cytoscape.js reads, one `data` entry per node and per edge.
 *
 * The edge entries follow networkx's edge view of an undirected graph: the
 * nodes are visited in insertion order, each with its neighbours in the
 * order the edges to them were created, and an edge is reported from the
 * first of its two ends to be visited. That end is the entry's `source`.
 */
module Cytoscape {
  import opened Seqs
  import opened Cooccurrence
  import opened WikiGraph

  /** `{"data": {"id", "label", "weight", "max_weight", "min_weight"}}`; `name` is the `label`. */
  datatype NodeData = NodeData(id: NodeId, name: string, weight: real, maxWeight: real, minWeight: real)

  /** `{"data": {"id", "source", "target", "weight"}}`. */
  datatype EdgeData = EdgeData(id: string, source: NodeId, target: NodeId, weight: int)

  /** The dict the function returns. */
  datatype Exchange = Exchange(nodes: seq<NodeData>, edges: seq<EdgeData>)

  /** The edge has `n` as an end. */
  predicate Touches(e: Edge, n: NodeId) {
    e.0 == n || e.1 == n
  }

  /** The end of `e` that is not `n` (`n` itself for a self-loop). */
  function Other(e: Edge, n: NodeId): NodeId {
    if e.0 == n then e.1 else e.0
  }

  /** The edges `f`, all at `n`, written from `n`. */
  function Orient(f: seq<Edge>, n: NodeId): (r: seq<Edge>)
    ensures |r| == |f|
    ensures forall i :: 0 <= i < |f| ==> r[i] == (n, Other(f[i], n))
  {
    seq(|f|, i requires 0 <= i < |f| => (n, Other(f[i], n)))
  }

  /**
   * What the edge view yields at node `n` when the nodes `seen` came
   * before it: the edges at `n` whose other end has not been visited, in
   * creation order, written from `n`.
   */
  function Incident(es: seq<Edge>, n: NodeId, seen: seq<NodeId>): (r: seq<Edge>)
    ensures forall e :: e in r ==> e.0 == n && e.1 !in seen
  {
    var f := Filter(es, (e: Edge) => Touches(e, n) && Other(e, n) !in seen);
    assert forall i :: 0 <= i < |f| ==> f[i] in f;
    Orient(f, n)
  }

  /** `G.edges()`: the edges as networkx yields them for the node order `nodes`. */
  function View(nodes: seq<NodeId>, es: seq<Edge>): (r: seq<Edge>)
    ensures forall e :: e in r ==> e.0 in nodes
  {
    if nodes == [] then []
    else View(nodes[..|nodes| - 1], es) + Incident(es, nodes[|nodes| - 1], nodes[..|nodes| - 1])
  }

  /** Writing an edge from one of its ends keeps its endpoint pair. */
  lemma OrientKeys(f: seq<Edge>, n: NodeId)
    requires forall e :: e in f ==> Touches(e, n)
    ensures EdgeKeys(Orient(f, n)) == EdgeKeys(f)
  {
    forall i | 0 <= i < |f| ensures Ends(Orient(f, n)[i]) == Ends(f[i]) {
      assert f[i] in f;
    }
  }

  /** The pairs yielded at `n` are those of the edges at `n` whose other end is unvisited. */
  lemma IncidentKeys(es: seq<Edge>, n: NodeId, seen: seq<NodeId>)
    ensures EdgeKeys(Incident(es, n, seen)) == EdgeKeys(Filter(es, (e: Edge) => Touches(e, n) && Other(e, n) !in seen))
  {
    OrientKeys(Filter(es, (e: Edge) => Touches(e, n) && Other(e, n) !in seen), n);
  }

  /** A pair is yielded at `x` exactly when an edge at `x` with an unvisited other end has it. */
  lemma IncidentMember(es: seq<Edge>, x: NodeId, seen: seq<NodeId>, p: set<NodeId>)
    ensures p in EdgeKeys(Incident(es, x, seen))
            <==> exists e :: e in es && Ends(e) == p && Touches(e, x) && Other(e, x) !in seen
  {
    IncidentKeys(es, x, seen);
    KeysMember(Filter(es, (e: Edge) => Touches(e, x) && Other(e, x) !in seen), p);
  }

  /**
   * The edge view yields exactly the endpoint pairs of the edges with an
   * end among `nodes`.
   */
  lemma {:induction false} ViewKeys(nodes: seq<NodeId>, es: seq<Edge>, p: set<NodeId>)
    ensures p in EdgeKeys(View(nodes, es)) <==> exists e :: e in es && Ends(e) == p && (e.0 in nodes || e.1 in nodes)
  {
    if nodes != [] {
      var seen, x := nodes[..|nodes| - 1], nodes[|nodes| - 1];
      assert nodes == seen + [x];
      assert p in EdgeKeys(View(nodes, es))
             <==> p in EdgeKeys(View(seen, es)) || p in EdgeKeys(Incident(es, x, seen)) by {
        EdgeKeysAppend(View(seen, es), Incident(es, x, seen));
      }
      ViewKeys(seen, es, p);
      IncidentMember(es, x, seen, p);
      if e :| e in es && Ends(e) == p && (e.0 in nodes || e.1 in nodes) {
        if !(e.0 in seen || e.1 in seen) {
          assert Touches(e, x) && Other(e, x) !in seen;
        }
      }
    }
  }

  /**
   * Each edge is yielded once: when neither the nodes nor the endpoint
   * pairs repeat, the pairs the view yields do not repeat either.
   */
  lemma {:induction false} ViewNoDup(nodes: seq<NodeId>, es: seq<Edge>)
    requires NoDup(nodes) && NoDup(EdgeKeys(es))
    ensures NoDup(EdgeKeys(View(nodes, es)))
  {
    if nodes != [] {
      var seen, x := nodes[..|nodes| - 1], nodes[|nodes| - 1];
      var keep := (e: Edge) => Touches(e, x) && Other(e, x) !in seen;
      var before, here := View(seen, es), Incident(es, x, seen);
      assert NoDup(seen);
      ViewNoDup(seen, es);
      IncidentKeys(es, x, seen);
      FilterKeys(es, keep);
      forall p | p in EdgeKeys(before) ensures p !in EdgeKeys(here) {
        KeysMember(before, p);
        KeysMember(here, p);
        var e :| e in before && Ends(e) == p;
        assert forall e' :: e' in here ==> e.0 !in Ends(e');
      }
      EdgeKeysAppend(before, here);
      NoDupConcat(EdgeKeys(before), EdgeKeys(here));
    }
  }

  /**
   * For a well-formed graph the view yields every edge exactly once: as
   * many entries as edges, each for a distinct edge of the graph, and
   * every edge among them.
   */
  lemma ViewOfGraph(nodes: seq<NodeId>, attrs: map<NodeId, Attrs>, es: seq<Edge>, w: map<set<NodeId>, int>)
    requires NoDup(nodes) && (forall n :: n in attrs <==> n in nodes)
    requires NoDup(EdgeKeys(es)) && (forall p :: p in w <==> p in EdgeKeys(es))
    requires forall e :: e in es ==> e.0 in attrs && e.1 in attrs
    ensures |View(nodes, es)| == |es|
    ensures NoDup(EdgeKeys(View(nodes, es)))
    ensures forall p :: p in EdgeKeys(View(nodes, es)) <==> p in w
  {
    var v := View(nodes, es);
    ViewNoDup(nodes, es);
    forall p ensures p in EdgeKeys(v) <==> p in EdgeKeys(es) {
      ViewKeys(nodes, es, p);
      KeysMember(es, p);
    }
    NoDupSameLength(EdgeKeys(v), EdgeKeys(es));
  }

  /** Two different endpoint pairs whose concatenated ids are the same edge id. */
  lemma EdgeIdCollision()
    ensures var a, b := ("1", "23"), ("12", "3");
      Ends(a) != Ends(b) && a.0 + a.1 == b.0 + b.1
  {
    var a, b := ("1", "23"), ("12", "3");
    assert "1" !in Ends(b) by {
      assert "1" != "12" && "1" != "3";
    }
  }

  /** A node's entry: its id and its attribute dict. */
  function NodeEntry(n: NodeId, a: Attrs): NodeData {
    NodeData(n, a.name, a.weight, a.maxWeight, a.minWeight)
  }

  /** An edge's entry: `id` is the source id followed by the target id. */
  function EdgeEntry(e: Edge, weight: int): EdgeData {
    EdgeData(e.0 + e.1, e.0, e.1, weight)
  }

  /** The first loop of `convert2cytoscape_json`: one entry per node, in order. */
  method NodeEntries(ns: seq<NodeId>, attrs: map<NodeId, Attrs>) returns (r: seq<NodeData>)
    requires forall n :: n in ns ==> n in attrs
    ensures |r| == |ns|
    ensures forall i :: 0 <= i < |ns| ==> r[i] == NodeEntry(ns[i], attrs[ns[i]])
  {
    r := [];
    for i := 0 to |ns|
      invariant |r| == i
      invariant forall k :: 0 <= k < i ==> r[k] == NodeEntry(ns[k], attrs[ns[k]])
    {
      r := r + [NodeEntry(ns[i], attrs[ns[i]])];
    }
  }

  /** The second loop: one entry per edge the view yields, in order, with its weight. */
  method EdgeEntries(view: seq<Edge>, w: map<set<NodeId>, int>) returns (r: seq<EdgeData>)
    requires forall e :: e in view ==> Ends(e) in w
    ensures |r| == |view|
    ensures forall i :: 0 <= i < |view| ==> r[i] == EdgeEntry(view[i], w[Ends(view[i])])
  {
    r := [];
    for i := 0 to |view|
      invariant |r| == i
      invariant forall k :: 0 <= k < i ==> r[k] == EdgeEntry(view[k], w[Ends(view[k])])
    {
      r := r + [EdgeEntry(view[i], w[Ends(view[i])])];
    }
  }

  /**
   * `convert2cytoscape_json(G)`: one node entry per node, in node order,
   * copying the id and the attribute dict; then one entry per edge the edge
   * view yields, in that order, whose id is the source id followed by the
   * target id and whose weight is the edge's weight. `ViewOfGraph` shows
   * that these are one entry for each edge of the graph.
   */
  method Convert(g: Graph) returns (r: Exchange)
    requires g.Valid()
    ensures |r.nodes| == |g.nodes|
    ensures forall i :: 0 <= i < |g.nodes| ==>
              var a := g.attrs[g.nodes[i]];
              r.nodes[i] == NodeData(g.nodes[i], a.name, a.weight, a.maxWeight, a.minWeight)
    ensures |r.edges| == |View(g.nodes, g.edges)| == |g.edges|
    ensures forall i :: 0 <= i < |r.edges| ==>
              var e := View(g.nodes, g.edges)[i];
              Ends(e) in g.weights && r.edges[i] == EdgeData(e.0 + e.1, e.0, e.1, g.weights[Ends(e)])
  {
    var view := View(g.nodes, g.edges);
    assert |view| == |g.edges| by {
      ViewOfGraph(g.nodes, g.attrs, g.edges, g.weights);
    }
    assert forall e :: e in view ==> Ends(e) in g.weights by {
      ViewOfGraph(g.nodes, g.attrs, g.edges, g.weights);
      forall e | e in view ensures Ends(e) in g.weights {
        KeysMember(view, Ends(e));
      }
    }
    var nodes := NodeEntries(g.nodes, g.attrs);
    var edges := EdgeEntries(view, g.weights);
    r := Exchange(nodes, edges);
    assert forall i :: 0 <= i < |edges| ==> view[i] in view;
  }
}
