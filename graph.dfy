/**
 * The networkx graph that modules/get_wiki_graph.py builds and prunes:
 * `get_graph_from_dict` (lines 62-75), `remove_edge` (302-308),
 * `remove_isolates` (296-298) and the score reduction shared by the five
 * `add_*` functions (172-234).
 *
 * A `Graph` keeps what the code reads back from networkx: the nodes in
 * insertion order with their attribute dicts, the edges in creation order
 * (each oriented as `add_edge` first received it), and the weight of each
 * edge keyed by its unordered endpoint pair.
 */
module WikiGraph {
  import opened Seqs
  import opened Groups
  import opened Cooccurrence

  /** A node's attribute dict: `label`, `weight`, `min_weight`, `max_weight`. */
  datatype Attrs = Attrs(name: string, weight: real, minWeight: real, maxWeight: real)

  /** The attributes `add_node` gives a node at line 66. */
  function Initial(name: string): Attrs {
    Attrs(name, 1.0, 1.0, 1.0)
  }

  /** A running minimum that starts at `float('inf')`. */
  datatype ExtReal = Finite(value: real) | Infinity {
    predicate AtMost(x: real) {
      Finite? && value <= x
    }
  }

  /** Python's `max(a, x)`: `a` unless `x` is greater. */
  function Max(a: real, x: real): (r: real)
    ensures a <= r && x <= r && (r == a || r == x)
  {
    if a >= x then a else x
  }

  /** Python's `min(m, x)` with `m` possibly infinite: `m` unless `x` is smaller. */
  function Min(m: ExtReal, x: real): (r: ExtReal)
    ensures r.AtMost(x) && (m.Finite? ==> r.AtMost(m.value)) && (r == m || r == Finite(x))
  {
    if m.Finite? && m.value <= x then m else Finite(x)
  }

  // ---------------------------------------------------------------------
  // What the builder computes

  /** The attribute dicts after `add_node` for each member in turn. */
  function NodeAttrs(ms: seq<Member>): map<NodeId, Attrs>
  {
    if ms == [] then map[]
    else NodeAttrs(ms[..|ms| - 1])[ms[|ms| - 1].id := Initial(ms[|ms| - 1].name)]
  }

  /** The edge weights after `+= 1` or `add_edge(..., weight=1)` for each oriented pair in turn. */
  function Weights(arcs: seq<Edge>): map<set<NodeId>, int>
  {
    if arcs == [] then map[]
    else
      var w := Weights(arcs[..|arcs| - 1]);
      var p := Ends(arcs[|arcs| - 1]);
      w[p := if p in w then w[p] + 1 else 1]
  }

  /** The edges `add_edge` creates: each oriented pair whose endpoints are not yet joined. */
  function FirstArcs(arcs: seq<Edge>): seq<Edge>
  {
    if arcs == [] then []
    else
      var f := FirstArcs(arcs[..|arcs| - 1]);
      var a := arcs[|arcs| - 1];
      if Ends(a) in EdgeKeys(f) then f else f + [a]
  }

  /** The edges of weight at least `t`, in order. */
  function Heavy(es: seq<Edge>, w: map<set<NodeId>, int>, t: int): (r: seq<Edge>)
    ensures forall e :: e in r <==> e in es && Ends(e) in w && w[Ends(e)] >= t
  {
    Filter(es, (e: Edge) => Ends(e) in w && w[Ends(e)] >= t)
  }

  /** The edges of weight below `t`, in order: the list `remove_edge` collects. */
  function Light(es: seq<Edge>, w: map<set<NodeId>, int>, t: int): (r: seq<Edge>)
    ensures forall e :: e in r <==> e in es && Ends(e) in w && w[Ends(e)] < t
  {
    Filter(es, (e: Edge) => Ends(e) in w && w[Ends(e)] < t)
  }

  /** The weights of at least `t`. */
  function AtLeast(w: map<set<NodeId>, int>, t: int): (r: map<set<NodeId>, int>)
    ensures forall p :: p in r <==> p in w && w[p] >= t
    ensures forall p :: p in r ==> r[p] == w[p]
  {
    map p | p in w && w[p] >= t :: w[p]
  }

  /** The endpoint pairs of a batch of edges. */
  function KeySet(batch: seq<Edge>): set<set<NodeId>>
  {
    set e | e in batch :: Ends(e)
  }

  /** The nodes at which some edge of `edges` ends. */
  function Endpoints(edges: seq<Edge>): set<NodeId>
  {
    if edges == [] then {} else {edges[0].0, edges[0].1} + Endpoints(edges[1..])
  }

  /** A node is an endpoint exactly when some edge ends at it. */
  lemma {:induction false} EndpointsMember(edges: seq<Edge>, n: NodeId)
    ensures n in Endpoints(edges) <==> exists e :: e in edges && (e.0 == n || e.1 == n)
  {
    if edges != [] {
      EndpointsMember(edges[1..], n);
      assert forall e :: e in edges <==> e == edges[0] || e in edges[1..];
    }
  }

  /** No edge ends at `n`: its degree is 0. */
  predicate Isolated(n: NodeId, edges: seq<Edge>) {
    n !in Endpoints(edges)
  }

  /** The nodes of degree 0 in node order, as `nx.isolates` yields them. */
  function Isolates(nodes: seq<NodeId>, edges: seq<Edge>): (r: seq<NodeId>)
    ensures forall n :: n in r <==> n in nodes && Isolated(n, edges)
  {
    Filter(nodes, (n: NodeId) => Isolated(n, edges))
  }

  /** The nodes of positive degree, in node order. */
  function Connected(nodes: seq<NodeId>, edges: seq<Edge>): (r: seq<NodeId>)
    ensures forall n :: n in r <==> n in nodes && !Isolated(n, edges)
  {
    Filter(nodes, (n: NodeId) => !Isolated(n, edges))
  }

  // ---------------------------------------------------------------------
  // The graph object

  class Graph {
    var nodes: seq<NodeId>
    var attrs: map<NodeId, Attrs>
    var edges: seq<Edge>
    var weights: map<set<NodeId>, int>

    /**
     * Each node once, each with an attribute dict; each endpoint pair
     * joined by one edge, which has a weight and whose ends are nodes.
     */
    ghost predicate Valid()
      reads this
    {
      NoDup(nodes) && (forall n :: n in attrs <==> n in nodes)
      && NoDup(EdgeKeys(edges)) && (forall p :: p in weights <==> p in EdgeKeys(edges))
      && (forall e :: e in edges ==> e.0 in attrs && e.1 in attrs)
    }

    /** The graph `get_graph_from_dict` builds from the member lists `vs`. */
    ghost predicate BuiltFrom(vs: seq<seq<Member>>)
      reads this
    {
      nodes == Dedup(Ids(Flat(vs))) && attrs == NodeAttrs(Flat(vs))
      && edges == FirstArcs(AllArcs(vs)) && weights == Weights(AllArcs(vs))
    }

    /** `nx.Graph()`: the empty graph. */
    constructor ()
      ensures Valid()
      ensures nodes == [] && attrs == map[] && edges == [] && weights == map[]
    {
      nodes, attrs, edges, weights := [], map[], [], map[];
    }

    /** `add_node(id, label=name, weight=1, max_weight=1, min_weight=1)`. */
    method AddNode(id: NodeId, name: string)
      requires Valid()
      modifies this
      ensures Valid()
      ensures nodes == if id in old(attrs) then old(nodes) else old(nodes) + [id]
      ensures attrs == old(attrs)[id := Initial(name)]
      ensures edges == old(edges) && weights == old(weights)
    {
      if id !in attrs {
        nodes := nodes + [id];
      }
      attrs := attrs[id := Initial(name)];
    }

    /** `has_edge(u, v)`. */
    predicate HasEdge(u: NodeId, v: NodeId): (b: bool)
      reads this
      ensures Valid() ==> (b <==> exists e :: e in edges && Ends(e) == {u, v})
    {
      KeysMember(edges, {u, v});
      {u, v} in weights
    }

    /** `add_edge(u, v, weight=1)` for two existing nodes not yet joined. */
    method AddEdge(u: NodeId, v: NodeId)
      requires Valid() && u in attrs && v in attrs && !HasEdge(u, v)
      modifies this
      ensures Valid()
      ensures edges == old(edges) + [(u, v)]
      ensures weights == old(weights)[{u, v} := 1]
      ensures nodes == old(nodes) && attrs == old(attrs)
    {
      EdgeKeysAppend(edges, [(u, v)]);
      assert EdgeKeys([(u, v)]) == [{u, v}];
      edges := edges + [(u, v)];
      weights := weights[{u, v} := 1];
    }

    /** `graph[u][v]['weight'] += 1`. */
    method IncrementEdge(u: NodeId, v: NodeId)
      requires Valid() && HasEdge(u, v)
      modifies this
      ensures Valid()
      ensures weights == old(weights)[{u, v} := old(weights)[{u, v}] + 1]
      ensures nodes == old(nodes) && attrs == old(attrs) && edges == old(edges)
    {
      weights := weights[{u, v} := weights[{u, v}] + 1];
    }

    /** `graph.node[n]["weight"] = x`. */
    method SetWeight(n: NodeId, x: real)
      requires Valid() && n in attrs
      modifies this
      ensures Valid()
      ensures attrs == old(attrs)[n := old(attrs)[n].(weight := x)]
      ensures nodes == old(nodes) && edges == old(edges) && weights == old(weights)
    {
      attrs := attrs[n := attrs[n].(weight := x)];
    }

    /** `remove_edges_from(batch)`: drop every edge joining the ends of a batch entry. */
    method RemoveEdgesFrom(batch: seq<Edge>)
      requires Valid()
      modifies this
      ensures Valid()
      ensures edges == Filter(old(edges), (e: Edge) => Ends(e) !in KeySet(batch))
      ensures weights == old(weights) - KeySet(batch)
      ensures nodes == old(nodes) && attrs == old(attrs)
    {
      var gone := KeySet(batch);
      var kept := Filter(edges, (e: Edge) => Ends(e) !in gone);
      FilterKeys(edges, (e: Edge) => Ends(e) !in gone);
      forall p ensures p in weights - gone <==> p in EdgeKeys(kept) {
        KeysMember(edges, p);
        KeysMember(kept, p);
      }
      edges := kept;
      weights := weights - gone;
    }

    /** `remove_nodes_from(batch)`: drop the nodes of the batch and every edge at them. */
    method RemoveNodesFrom(batch: seq<NodeId>)
      requires Valid()
      modifies this
      ensures Valid()
      ensures nodes == Filter(old(nodes), (n: NodeId) => n !in batch)
      ensures attrs == map n | n in old(attrs) && n !in batch :: old(attrs)[n]
      ensures edges == Filter(old(edges), (e: Edge) => e.0 !in batch && e.1 !in batch)
      ensures weights == map p | p in old(weights) && (forall n | n in p :: n !in batch) :: old(weights)[p]
    {
      var keptNodes := Filter(nodes, (n: NodeId) => n !in batch);
      var keptEdges := Filter(edges, (e: Edge) => e.0 !in batch && e.1 !in batch);
      var keptWeights := map p | p in weights && (forall n | n in p :: n !in batch) :: weights[p];
      FilterNoDup(nodes, (n: NodeId) => n !in batch);
      FilterKeys(edges, (e: Edge) => e.0 !in batch && e.1 !in batch);
      forall p ensures p in keptWeights <==> p in EdgeKeys(keptEdges) {
        KeysMember(edges, p);
        KeysMember(keptEdges, p);
      }
      nodes, attrs := keptNodes, map n | n in attrs && n !in batch :: attrs[n];
      edges, weights := keptEdges, keptWeights;
    }
  }

  /** An endpoint pair occurs among the keys exactly when some edge joins it. */
  lemma KeysMember(es: seq<Edge>, p: set<NodeId>)
    ensures p in EdgeKeys(es) <==> exists e :: e in es && Ends(e) == p
  {
    if p in EdgeKeys(es) {
      var i :| 0 <= i < |es| && EdgeKeys(es)[i] == p;
      assert es[i] in es;
    }
    if exists e :: e in es && Ends(e) == p {
      var e :| e in es && Ends(e) == p;
      var i :| 0 <= i < |es| && es[i] == e;
      assert EdgeKeys(es)[i] == p;
    }
  }

  /** Filtering edges keeps their endpoint pairs distinct. */
  lemma {:induction false} FilterKeys(es: seq<Edge>, keep: Edge -> bool)
    requires NoDup(EdgeKeys(es))
    ensures NoDup(EdgeKeys(Filter(es, keep)))
  {
    if es != [] {
      var p := es[..|es| - 1];
      var a := es[|es| - 1];
      EdgeKeysAppend(p, [a]);
      assert es == p + [a];
      assert NoDup(EdgeKeys(p)) by {
        assert EdgeKeys(p) == EdgeKeys(es)[..|p|];
      }
      FilterKeys(p, keep);
      var f := Filter(p, keep);
      if keep(a) {
        EdgeKeysAppend(f, [a]);
        KeysMember(f, Ends(a));
        KeysMember(p, Ends(a));
      }
    }
  }

  // ---------------------------------------------------------------------
  // What the built graph means

  /**
   * A pair has a weight exactly when some oriented pair joins it, and the
   * weight is the number of oriented pairs that do.
   */
  lemma {:induction false} WeightsCount(arcs: seq<Edge>, p: set<NodeId>)
    ensures p in Weights(arcs) <==> p in EdgeKeys(arcs)
    ensures p in Weights(arcs) ==> Weights(arcs)[p] == Count(EdgeKeys(arcs), p)
  {
    if arcs != [] {
      var q := arcs[..|arcs| - 1];
      var a := arcs[|arcs| - 1];
      assert arcs == q + [a];
      EdgeKeysAppend(q, [a]);
      assert EdgeKeys(arcs)[..|q|] == EdgeKeys(q);
      WeightsCount(q, p);
      CountPositive(EdgeKeys(q), p);
    }
  }

  /** Every weight the builder sets is at least 1. */
  lemma {:induction false} WeightsPositive(arcs: seq<Edge>)
    ensures forall p :: p in Weights(arcs) ==> Weights(arcs)[p] >= 1
  {
    if arcs != [] {
      WeightsPositive(arcs[..|arcs| - 1]);
    }
  }

  /**
   * Three groups `[u1, u2]`, `[u1, u2, u3]` and `[u2, u3]`: `{u1, u2}` and
   * `{u2, u3}` get weight 2, and `{u1, u3}` weight 1, since the second
   * group holds both.
   */
  lemma ThreeGroupsExample()
    ensures var vs := [[Member("u1", ""), Member("u2", "")],
                       [Member("u1", ""), Member("u2", ""), Member("u3", "")],
                       [Member("u2", ""), Member("u3", "")]];
            Weights(AllArcs(vs)) == map[{"u1", "u2"} := 2, {"u1", "u3"} := 1, {"u2", "u3"} := 2]
  {
    var a, b, c := Member("u1", ""), Member("u2", ""), Member("u3", "");
    var x, y, z := ("u1", "u2"), ("u1", "u3"), ("u2", "u3");
    var vs := [[a, b], [a, b, c], [b, c]];
    assert Arcs([a, b]) == [x] by {
      assert ArcsFrom([a, b], 0, 2) == ArcsFrom([a, b], 0, 1) + [x];
      assert ArcsUpTo([a, b], 1) == ArcsUpTo([a, b], 0) + ArcsFrom([a, b], 0, 2);
    }
    assert Arcs([b, c]) == [z] by {
      assert ArcsFrom([b, c], 0, 2) == ArcsFrom([b, c], 0, 1) + [z];
      assert ArcsUpTo([b, c], 1) == ArcsUpTo([b, c], 0) + ArcsFrom([b, c], 0, 2);
    }
    assert Arcs([a, b, c]) == [x, y, z] by {
      var v := [a, b, c];
      assert ArcsFrom(v, 0, 2) == ArcsFrom(v, 0, 1) + [x];
      assert ArcsFrom(v, 0, 3) == ArcsFrom(v, 0, 2) + [y];
      assert ArcsFrom(v, 1, 3) == ArcsFrom(v, 1, 2) + [z];
      assert ArcsUpTo(v, 1) == ArcsUpTo(v, 0) + ArcsFrom(v, 0, 3);
      assert ArcsUpTo(v, 2) == ArcsUpTo(v, 1) + ArcsFrom(v, 1, 3);
    }
    assert AllArcs(vs) == [x, x, y, z, z] by {
      assert vs[..1] == [[a, b]] && vs[..1][..0] == [];
      assert vs[..2] == [[a, b], [a, b, c]] && vs[..2][..1] == vs[..1];
      assert AllArcs(vs[..1]) == AllArcs([]) + Arcs([a, b]);
      assert AllArcs(vs[..2]) == AllArcs(vs[..1]) + Arcs([a, b, c]);
      assert AllArcs(vs) == AllArcs(vs[..2]) + Arcs([b, c]);
    }
    var arcs := [x, x, y, z, z];
    assert Ends(y) !in {Ends(x)} && Ends(z) !in {Ends(x), Ends(y)} by {
      assert "u3" !in Ends(x) && "u1" !in Ends(z);
    }
    assert Weights(arcs[..1]) == map[Ends(x) := 1] by {
      assert arcs[..1][..0] == [];
    }
    assert Weights(arcs[..2]) == map[Ends(x) := 2] by {
      assert arcs[..2][..1] == arcs[..1];
    }
    assert Weights(arcs[..3]) == map[Ends(x) := 2, Ends(y) := 1] by {
      assert arcs[..3][..2] == arcs[..2];
    }
    assert Weights(arcs[..4]) == map[Ends(x) := 2, Ends(y) := 1, Ends(z) := 1] by {
      assert arcs[..4][..3] == arcs[..3];
    }
    assert Weights(arcs) == map[Ends(x) := 2, Ends(y) := 1, Ends(z) := 2] by {
      assert arcs[..4] == arcs[..|arcs| - 1];
    }
  }

  /** The edges are the endpoint pairs in order of first creation, each once. */
  lemma {:induction false} FirstArcsKeys(arcs: seq<Edge>)
    ensures EdgeKeys(FirstArcs(arcs)) == Dedup(EdgeKeys(arcs))
  {
    if arcs != [] {
      var q := arcs[..|arcs| - 1];
      var a := arcs[|arcs| - 1];
      assert arcs == q + [a];
      FirstArcsKeys(q);
      EdgeKeysAppend(q, [a]);
      DedupAppend(EdgeKeys(q), Ends(a));
      EdgeKeysAppend(FirstArcs(q), [a]);
    }
  }

  /** Oriented pair `i` is the first to join its endpoints. */
  ghost predicate FirstAt(arcs: seq<Edge>, e: Edge, i: int) {
    0 <= i < |arcs| && arcs[i] == e && Ends(e) !in EdgeKeys(arcs[..i])
  }

  /** Each edge keeps the orientation of the first oriented pair that joined its endpoints. */
  lemma {:induction false} FirstArcsOrientation(arcs: seq<Edge>, e: Edge)
    requires e in FirstArcs(arcs)
    ensures exists i :: FirstAt(arcs, e, i)
  {
    var q := arcs[..|arcs| - 1];
    var a := arcs[|arcs| - 1];
    FirstArcsKeys(q);
    if e in FirstArcs(q) {
      FirstArcsOrientation(q, e);
      var i :| FirstAt(q, e, i);
      assert arcs[..i] == q[..i];
      assert FirstAt(arcs, e, i);
    } else {
      assert e == a && Ends(a) !in Dedup(EdgeKeys(q));
      DedupElements(EdgeKeys(q), Ends(a));
      assert arcs[..|q|] == q;
      assert FirstAt(arcs, e, |q|);
    }
  }

  /**
   * The built graph's edges: `{u, w}` is an edge exactly when two positions
   * `i < j` of one group hold `u` and `w`, its weight counts those position
   * pairs over all groups, and the edges are listed once each in order of
   * first creation.
   */
  lemma BuiltEdges(vs: seq<seq<Member>>, p: set<NodeId>)
    ensures p in Weights(AllArcs(vs))
            <==> exists k, i, j :: 0 <= k < |vs| && 0 <= i < j < |vs[k]| && p == {vs[k][i].id, vs[k][j].id}
    ensures p in Weights(AllArcs(vs)) ==> Weights(AllArcs(vs))[p] == Count(AllPairs(vs), p)
    ensures EdgeKeys(FirstArcs(AllArcs(vs))) == Dedup(AllPairs(vs))
  {
    AllArcsKeys(vs);
    WeightsCount(AllArcs(vs), p);
    FirstArcsKeys(AllArcs(vs));
    AllPairsElements(vs, p);
    if p in AllPairs(vs) {
      var k :| 0 <= k < |vs| && p in Pairs(vs[k]);
      PairsElements(vs[k], p);
    }
    if exists k, i, j :: 0 <= k < |vs| && 0 <= i < j < |vs[k]| && p == {vs[k][i].id, vs[k][j].id} {
      var k, i, j :| 0 <= k < |vs| && 0 <= i < j < |vs[k]| && p == {vs[k][i].id, vs[k][j].id};
      PairsElements(vs[k], p);
    }
  }

  /**
   * When no group repeats an id, two different ids are joined exactly when
   * some group holds both, with the number of such groups as weight.
   */
  lemma CoOccurrenceWeight(vs: seq<seq<Member>>, u: NodeId, w: NodeId)
    requires forall k :: 0 <= k < |vs| ==> DistinctIds(vs[k])
    requires u != w
    ensures {u, w} in Weights(AllArcs(vs)) <==> GroupsWithBoth(vs, u, w) > 0
    ensures {u, w} in Weights(AllArcs(vs)) ==> Weights(AllArcs(vs))[{u, w}] == GroupsWithBoth(vs, u, w)
  {
    AllArcsKeys(vs);
    WeightsCount(AllArcs(vs), {u, w});
    CoOccurrence(vs, u, w);
    CountPositive(AllPairs(vs), {u, w});
  }

  /**
   * The built graph's nodes: exactly the member ids, each listed once in
   * order of first appearance, each with weight, minimum and maximum 1 and
   * the label of its last appearance.
   */
  lemma BuiltNodes(vs: seq<seq<Member>>, n: NodeId)
    ensures n in NodeAttrs(Flat(vs)) <==> exists k, i :: 0 <= k < |vs| && 0 <= i < |vs[k]| && vs[k][i].id == n
    ensures n in NodeAttrs(Flat(vs)) <==> n in Dedup(Ids(Flat(vs)))
    ensures NoDup(Dedup(Ids(Flat(vs))))
    ensures n in NodeAttrs(Flat(vs)) ==> NodeAttrs(Flat(vs))[n] == Attrs(LastName(Flat(vs), n), 1.0, 1.0, 1.0)
  {
    NodeAttrsMeaning(Flat(vs), n);
    NodesAreMemberIds(vs, n);
    DedupElements(Ids(Flat(vs)), n);
    DedupNoDup(Ids(Flat(vs)));
  }

  // ---------------------------------------------------------------------
  // get_graph_from_dict, lines 62-75

  /**
   * The nodes carry exactly the ids of the members, each with the
   * attributes of line 66 and the name of its last member (the label
   * `add_node` set last).
   */
  lemma {:induction false} NodeAttrsMeaning(ms: seq<Member>, n: NodeId)
    ensures n in NodeAttrs(ms) <==> n in Ids(ms)
    ensures n in NodeAttrs(ms) ==> NodeAttrs(ms)[n] == Initial(LastName(ms, n))
  {
    if ms != [] {
      var p := ms[..|ms| - 1];
      NodeAttrsMeaning(p, n);
      assert Ids(ms) == Ids(p) + [ms[|ms| - 1].id];
    }
  }

  /** Every member of the last group is a node. */
  lemma MembersAreNodes(ms: seq<Member>, v: seq<Member>)
    ensures forall m :: m in v ==> m.id in NodeAttrs(ms + v)
  {
    forall m | m in v ensures m.id in NodeAttrs(ms + v) {
      var k :| 0 <= k < |v| && v[k] == m;
      assert Ids(ms + v)[|ms| + k] == m.id;
      NodeAttrsMeaning(ms + v, m.id);
    }
  }

  /** One `add_node` call, in terms of the members seen so far. */
  lemma NodeStep(ms: seq<Member>, m: Member)
    ensures Dedup(Ids(ms + [m])) == if m.id in Dedup(Ids(ms)) then Dedup(Ids(ms)) else Dedup(Ids(ms)) + [m.id]
  {
    assert Ids(ms + [m]) == Ids(ms) + [m.id];
    DedupAppend(Ids(ms), m.id);
  }

  /** One `add_node` call sets the attributes of the member's id. */
  lemma AttrStep(ms: seq<Member>, m: Member)
    ensures NodeAttrs(ms + [m]) == NodeAttrs(ms)[m.id := Initial(m.name)]
  {
    assert (ms + [m])[..|ms|] == ms;
  }

  /** One turn of the `i < j` loops creates the edge `(u, v)` unless `u` and `v` are joined. */
  lemma ArcStep(arcs: seq<Edge>, u: NodeId, v: NodeId)
    ensures FirstArcs(arcs + [(u, v)])
            == if {u, v} in EdgeKeys(FirstArcs(arcs)) then FirstArcs(arcs) else FirstArcs(arcs) + [(u, v)]
  {
    assert (arcs + [(u, v)])[..|arcs|] == arcs;
  }

  /** One turn of the `i < j` loops adds 1 to the weight of `{u, v}`, or sets it to 1. */
  lemma WeightStep(arcs: seq<Edge>, u: NodeId, v: NodeId)
    ensures var w := Weights(arcs);
            Weights(arcs + [(u, v)]) == w[{u, v} := if {u, v} in w then w[{u, v}] + 1 else 1]
  {
    assert (arcs + [(u, v)])[..|arcs|] == arcs;
  }

  /** The inner loop's oriented pairs grow by one per turn. */
  lemma RowStep(v: seq<Member>, i: nat, j: nat, done: seq<Edge>, row: seq<Edge>)
    requires i < j < |v| && row == done + ArcsFrom(v, i, j)
    ensures row + [(v[i].id, v[j].id)] == done + ArcsFrom(v, i, j + 1)
  {
  }

  /** The inner loop stops with the whole row done. */
  lemma RowDone(v: seq<Member>, i: nat, j: nat, done: seq<Edge>, row: seq<Edge>)
    requires i < j == |v| && row == done + ArcsFrom(v, i, j)
    ensures row == done + ArcsFrom(v, i, |v|)
  {
  }

  /** After the inner loop, the outer loop has done one more row. */
  lemma UpToStep(v: seq<Member>, i: nat, arcs: seq<Edge>, done: seq<Edge>)
    requires i < |v| && done == arcs + ArcsUpTo(v, i)
    ensures done + ArcsFrom(v, i, |v|) == arcs + ArcsUpTo(v, i + 1)
  {
  }

  /** One more group extends the members and the oriented pairs seen so far. */
  lemma BuildStep(vs: seq<seq<Member>>, t: nat)
    requires t < |vs|
    ensures Flat(vs[..t + 1]) == Flat(vs[..t]) + vs[t]
    ensures AllArcs(vs[..t + 1]) == AllArcs(vs[..t]) + Arcs(vs[t])
  {
    assert vs[..t + 1][..t] == vs[..t];
  }

  /** Lines 65-66: `add_node` for each member of one group. */
  method AddGroupNodes(g: Graph, v: seq<Member>, ghost ms: seq<Member>)
    requires g.Valid() && g.nodes == Dedup(Ids(ms)) && g.attrs == NodeAttrs(ms)
    modifies g
    ensures g.Valid() && g.nodes == Dedup(Ids(ms + v)) && g.attrs == NodeAttrs(ms + v)
    ensures g.edges == old(g.edges) && g.weights == old(g.weights)
    ensures forall m :: m in v ==> m.id in g.attrs
  {
    var n := 0;
    ghost var seen := ms;
    while n < |v|
      invariant n <= |v| && seen == ms + v[..n]
      invariant g.Valid() && g.nodes == Dedup(Ids(seen)) && g.attrs == NodeAttrs(seen)
      invariant g.edges == old(g.edges) && g.weights == old(g.weights)
    {
      var m := v[n];
      ghost var next := if m.id in g.attrs then g.nodes else g.nodes + [m.id];
      assert Dedup(Ids(seen + [m])) == next by { NodeStep(seen, m); }
      assert NodeAttrs(seen + [m]) == g.attrs[m.id := Initial(m.name)] by { AttrStep(seen, m); }
      g.AddNode(m.id, m.name);
      AppendPrefix(ms, v, n);
      seen := seen + [m];
      n := n + 1;
    }
    assert v[..n] == v;
    MembersAreNodes(ms, v);
  }

  /**
   * One turn of the inner loop: add 1 to the weight of an existing edge
   * `{u, v}`, or create it with weight 1, as if the pair had been appended
   * to the pairs seen so far.
   */
  method Join(g: Graph, u: NodeId, v: NodeId, ghost row: seq<Edge>)
    requires g.Valid() && u in g.attrs && v in g.attrs
    requires g.edges == FirstArcs(row) && g.weights == Weights(row)
    modifies g
    ensures g.Valid()
    ensures g.edges == FirstArcs(row + [(u, v)]) && g.weights == Weights(row + [(u, v)])
    ensures g.nodes == old(g.nodes) && g.attrs == old(g.attrs)
  {
    if g.HasEdge(u, v) {
      assert {u, v} in EdgeKeys(FirstArcs(row));
      g.IncrementEdge(u, v);
      assert g.edges == FirstArcs(row + [(u, v)]) by {
        ArcStep(row, u, v);
      }
    } else {
      assert {u, v} !in EdgeKeys(FirstArcs(row));
      g.AddEdge(u, v);
      assert g.edges == FirstArcs(row + [(u, v)]) by {
        ArcStep(row, u, v);
      }
    }
    assert g.weights == Weights(row + [(u, v)]) by {
      WeightStep(row, u, v);
    }
  }

  /**
   * Lines 70-74, the inner loop: join member `i` of the group to each
   * later member, adding 1 to an existing edge's weight or creating the
   * edge with weight 1.
   */
  method AddRowEdges(g: Graph, v: seq<Member>, i: nat, ghost done: seq<Edge>)
    requires i < |v|
    requires g.Valid() && g.edges == FirstArcs(done) && g.weights == Weights(done)
    requires forall m :: m in v ==> m.id in g.attrs
    modifies g
    ensures g.Valid()
    ensures g.edges == FirstArcs(done + ArcsFrom(v, i, |v|)) && g.weights == Weights(done + ArcsFrom(v, i, |v|))
    ensures g.nodes == old(g.nodes) && g.attrs == old(g.attrs)
  {
    var node1 := v[i].id;
    var j := i + 1;
    ghost var row := done;
    assert v[i] in v;
    while j < |v|
      invariant i + 1 <= j <= |v|
      invariant row == done + ArcsFrom(v, i, j)
      invariant g.Valid() && g.nodes == old(g.nodes) && g.attrs == old(g.attrs)
      invariant g.edges == FirstArcs(row) && g.weights == Weights(row)
    {
      var node2 := v[j].id;
      assert v[j] in v;
      RowStep(v, i, j, done, row);
      Join(g, node1, node2, row);
      row := row + [(node1, node2)];
      j := j + 1;
    }
    assert j == |v|;
    assert g.edges == FirstArcs(done + ArcsFrom(v, i, |v|)) && g.weights == Weights(done + ArcsFrom(v, i, |v|)) by {
      RowDone(v, i, j, done, row);
    }
  }

  /**
   * Lines 67-74: for each index pair `i < j` of one group, add 1 to the
   * weight of the edge between their ids, creating it with weight 1.
   */
  method AddGroupEdges(g: Graph, v: seq<Member>, ghost arcs: seq<Edge>)
    requires g.Valid() && g.edges == FirstArcs(arcs) && g.weights == Weights(arcs)
    requires forall m :: m in v ==> m.id in g.attrs
    modifies g
    ensures g.Valid()
    ensures g.edges == FirstArcs(arcs + Arcs(v)) && g.weights == Weights(arcs + Arcs(v))
    ensures g.nodes == old(g.nodes) && g.attrs == old(g.attrs)
  {
    var i := 0;
    ghost var done := arcs;
    assert arcs + ArcsUpTo(v, 0) == arcs;
    while i < |v| - 1
      invariant 0 <= i <= (if |v| == 0 then 0 else |v| - 1)
      invariant done == arcs + ArcsUpTo(v, i)
      invariant g.Valid() && g.nodes == old(g.nodes) && g.attrs == old(g.attrs)
      invariant g.edges == FirstArcs(done) && g.weights == Weights(done)
    {
      AddRowEdges(g, v, i, done);
      UpToStep(v, i, arcs, done);
      done := done + ArcsFrom(v, i, |v|);
      i := i + 1;
    }
    assert done == arcs + Arcs(v);
  }

  /**
   * `get_graph_from_dict`: visit the groups in dict order, adding each
   * group's members as nodes and joining every two positions of the group.
   */
  method GetGraphFromDict(grouping: Grouping) returns (g: Graph)
    requires grouping.WellFormed()
    ensures fresh(g) && g.Valid() && g.BuiltFrom(grouping.Values())
  {
    g := new Graph();
    ghost var vs := grouping.Values();
    var t := 0;
    while t < |grouping.keys|
      invariant t <= |grouping.keys|
      invariant fresh(g) && g.Valid()
      invariant g.nodes == Dedup(Ids(Flat(vs[..t]))) && g.attrs == NodeAttrs(Flat(vs[..t]))
      invariant g.edges == FirstArcs(AllArcs(vs[..t])) && g.weights == Weights(AllArcs(vs[..t]))
    {
      var v := grouping.lists[grouping.keys[t]];
      BuildStep(vs, t);
      AddGroupNodes(g, v, Flat(vs[..t]));
      AddGroupEdges(g, v, AllArcs(vs[..t]));
      t := t + 1;
    }
    assert vs[..t] == vs;
  }

  /** `get_graph_users`: group contributors by page, then build the graph. */
  method GetGraphUsers(rows: seq<Row>, cleanAnonymous: bool, cleanAnonymousLabel: bool) returns (g: Graph)
    ensures fresh(g) && g.Valid()
    ensures g.BuiltFrom(GroupEntries(UserEntries(rows, cleanAnonymous, cleanAnonymousLabel)).Values())
  {
    var groups := GroupByPage(rows, cleanAnonymous, cleanAnonymousLabel);
    g := GetGraphFromDict(groups);
  }

  /** `get_graph_pages`: group pages by contributor, then build the graph. */
  method GetGraphPages(rows: seq<Row>) returns (g: Graph)
    ensures fresh(g) && g.Valid()
    ensures g.BuiltFrom(GroupEntries(PageEntries(rows)).Values())
  {
    var groups := GroupByContributor(rows);
    g := GetGraphFromDict(groups);
  }

  // ---------------------------------------------------------------------
  // remove_edge, lines 302-308

  /** The pairs of the light edges are exactly the pairs of weight below `t`. */
  lemma LightKeys(es: seq<Edge>, w: map<set<NodeId>, int>, t: int, p: set<NodeId>)
    requires forall e :: e in es ==> Ends(e) in w
    requires exists e :: e in es && Ends(e) == p
    ensures p in KeySet(Light(es, w, t)) <==> w[p] < t
  {
    var e :| e in es && Ends(e) == p;
    if w[p] < t {
      assert e in Light(es, w, t);
    }
  }

  /** Dropping the collected light edges leaves the heavy ones and their weights. */
  lemma DropLight(es: seq<Edge>, w: map<set<NodeId>, int>, t: int)
    requires forall p :: p in w <==> p in EdgeKeys(es)
    ensures Filter(es, (e: Edge) => Ends(e) !in KeySet(Light(es, w, t))) == Heavy(es, w, t)
    ensures w - KeySet(Light(es, w, t)) == AtLeast(w, t)
  {
    var gone := KeySet(Light(es, w, t));
    forall e | e in es ensures Ends(e) in w {
      KeysMember(es, Ends(e));
    }
    forall e | e in es ensures (Ends(e) !in gone) == (Ends(e) in w && w[Ends(e)] >= t) {
      LightKeys(es, w, t, Ends(e));
    }
    FilterAgree(es, (e: Edge) => Ends(e) !in gone, (e: Edge) => Ends(e) in w && w[Ends(e)] >= t);
    forall p | p in w ensures p in gone <==> w[p] < t {
      KeysMember(es, p);
      LightKeys(es, w, t, p);
    }
    assert w - gone == AtLeast(w, t);
  }

  /**
   * With the default threshold of 1, or any lower one, `remove_edge`
   * keeps every edge of a built graph and every weight.
   */
  lemma DefaultThresholdKeepsAll(arcs: seq<Edge>, t: int)
    requires t <= 1
    ensures Heavy(FirstArcs(arcs), Weights(arcs), t) == FirstArcs(arcs)
    ensures AtLeast(Weights(arcs), t) == Weights(arcs)
  {
    var es, w := FirstArcs(arcs), Weights(arcs);
    WeightsPositive(arcs);
    EdgesWeighted(arcs);
    FilterAll(es, (e: Edge) => Ends(e) in w && w[Ends(e)] >= t);
  }

  /** Every edge the builder creates has a weight. */
  lemma EdgesWeighted(arcs: seq<Edge>)
    ensures forall e :: e in FirstArcs(arcs) ==> Ends(e) in Weights(arcs)
  {
    FirstArcsKeys(arcs);
    forall e | e in FirstArcs(arcs) ensures Ends(e) in Weights(arcs) {
      KeysMember(FirstArcs(arcs), Ends(e));
      DedupElements(EdgeKeys(arcs), Ends(e));
      WeightsCount(arcs, Ends(e));
    }
  }

  /**
   * `remove_edge`: collect the edges lighter than `minWeight`, then remove
   * them. What is left is every edge of weight at least `minWeight`, in
   * the same order and with the same weight; the nodes stay.
   */
  method RemoveEdge(g: Graph, minWeight: int)
    requires g.Valid()
    modifies g
    ensures g.Valid()
    ensures g.nodes == old(g.nodes) && g.attrs == old(g.attrs)
    ensures g.edges == Heavy(old(g.edges), old(g.weights), minWeight)
    ensures g.weights == AtLeast(old(g.weights), minWeight)
  {
    var toRemove: seq<Edge> := [];
    var i := 0;
    while i < |g.edges|
      invariant i <= |g.edges|
      invariant toRemove == Light(g.edges[..i], g.weights, minWeight)
    {
      var e := g.edges[i];
      assert g.edges[..i + 1] == g.edges[..i] + [e];
      assert Ends(e) in g.weights by {
        assert EdgeKeys(g.edges)[i] == Ends(e);
      }
      if g.weights[Ends(e)] < minWeight {
        toRemove := toRemove + [e];
      }
      i := i + 1;
    }
    assert g.edges[..i] == g.edges;
    DropLight(g.edges, g.weights, minWeight);
    g.RemoveEdgesFrom(toRemove);
  }

  // ---------------------------------------------------------------------
  // remove_isolates, lines 296-298

  /** Removing isolated nodes removes no edge: each edge's ends have degree 1 or more. */
  lemma IsolatesKeepEdges(edges: seq<Edge>, weights: map<set<NodeId>, int>, iso: seq<NodeId>)
    requires forall n :: n in iso ==> Isolated(n, edges)
    requires forall p :: p in weights <==> p in EdgeKeys(edges)
    ensures Filter(edges, (e: Edge) => e.0 !in iso && e.1 !in iso) == edges
    ensures (map p | p in weights && (forall n | n in p :: n !in iso) :: weights[p]) == weights
  {
    forall e | e in edges ensures e.0 !in iso && e.1 !in iso {
      EndpointsMember(edges, e.0);
      EndpointsMember(edges, e.1);
    }
    FilterAll(edges, (e: Edge) => e.0 !in iso && e.1 !in iso);
    forall p | p in weights ensures forall n | n in p :: n !in iso {
      KeysMember(edges, p);
    }
  }

  /** Removing the isolated nodes keeps the others, in order. */
  lemma IsolatesKeepNodes(nodes: seq<NodeId>, edges: seq<Edge>)
    ensures var iso := Isolates(nodes, edges);
      Filter(nodes, (n: NodeId) => n !in iso) == Connected(nodes, edges)
  {
    var iso := Isolates(nodes, edges);
    FilterAgree(nodes, (n: NodeId) => n !in iso, (n: NodeId) => !Isolated(n, edges));
  }

  /** Removing the isolated nodes keeps the attributes of exactly the others. */
  lemma IsolatesKeepAttrs(nodes: seq<NodeId>, attrs: map<NodeId, Attrs>, edges: seq<Edge>)
    requires forall n :: n in attrs <==> n in nodes
    ensures var iso := Isolates(nodes, edges);
      (map n | n in attrs && n !in iso :: attrs[n]) == (map n | n in attrs && !Isolated(n, edges) :: attrs[n])
  {
  }

  /**
   * `remove_isolates`: remove the nodes of degree 0. Exactly the nodes with
   * an edge stay, in order and with their attributes; the edges stay.
   */
  method RemoveIsolates(g: Graph)
    requires g.Valid()
    modifies g
    ensures g.Valid()
    ensures g.nodes == Connected(old(g.nodes), old(g.edges))
    ensures g.attrs == map n | n in old(g.attrs) && !Isolated(n, old(g.edges)) :: old(g.attrs)[n]
    ensures g.edges == old(g.edges) && g.weights == old(g.weights)
  {
    var isolates := Isolates(g.nodes, g.edges);
    IsolatesKeepNodes(g.nodes, g.edges);
    IsolatesKeepEdges(g.edges, g.weights, isolates);
    IsolatesKeepAttrs(g.nodes, g.attrs, g.edges);
    g.RemoveNodesFrom(isolates);
  }

  // ---------------------------------------------------------------------
  // The score reduction of the add_* functions, lines 172-234

  /** `lo` and `hi` are the least and greatest-or-zero scores of the nodes in `done`. */
  ghost predicate Extremes(lo: ExtReal, hi: real, scores: map<NodeId, real>, done: set<NodeId>, loAt: NodeId, hiAt: NodeId)
    requires done <= scores.Keys
  {
    (forall n :: n in done ==> lo.AtMost(scores[n]) && scores[n] <= hi)
    && (lo.Finite? ==> loAt in done && lo == Finite(scores[loAt]))
    && 0.0 <= hi && (hi == 0.0 || (hiAt in done && hi == scores[hiAt]))
  }

  /** One more score folded into `min` and `max` keeps the extremes, attained where the result says. */
  lemma ExtremesStep(lo: ExtReal, hi: real, scores: map<NodeId, real>, done: set<NodeId>, loAt: NodeId, hiAt: NodeId, n: NodeId)
      returns (loAt': NodeId, hiAt': NodeId)
    requires done <= scores.Keys && n in scores && n !in done
    requires Extremes(lo, hi, scores, done, loAt, hiAt)
    ensures Extremes(Min(lo, scores[n]), Max(hi, scores[n]), scores, done + {n}, loAt', hiAt')
  {
    var x := scores[n];
    loAt' := if lo == Infinity || Min(lo, x) == Finite(x) then n else loAt;
    hiAt' := if Max(hi, x) == x then n else hiAt;
  }

  /**
   * What the `add_*` loop returns for `scores`: `inf` and 0.0 when there
   * are none; otherwise `lo` is the least score, and `hi` bounds every
   * score and is 0.0 or a score, that is the larger of 0.0 and the
   * greatest score.
   */
  ghost predicate Extrema(lo: ExtReal, hi: real, scores: map<NodeId, real>) {
    (scores == map[] ==> lo == Infinity && hi == 0.0)
    && (forall n :: n in scores ==> lo.AtMost(scores[n]) && scores[n] <= hi)
    && (scores != map[] ==> exists n :: n in scores && lo == Finite(scores[n]))
    && 0.0 <= hi && (hi == 0.0 || exists n :: n in scores && hi == scores[n])
  }

  /** Once every score is folded in, `lo` and `hi` bound them all and are attained. */
  lemma ExtremesAll(lo: ExtReal, hi: real, scores: map<NodeId, real>, loAt: NodeId, hiAt: NodeId)
    requires Extremes(lo, hi, scores, scores.Keys, loAt, hiAt)
    ensures Extrema(lo, hi, scores)
  {
    assert scores == map[] <==> scores.Keys == {};
  }

  /** `after` is `before` with the scores of the nodes in `done` written into their weights. */
  ghost predicate Rescored(before: map<NodeId, Attrs>, after: map<NodeId, Attrs>, scores: map<NodeId, real>, done: set<NodeId>)
    requires done <= scores.Keys
  {
    after.Keys == before.Keys
    && forall n :: n in after ==> after[n] == if n in done then before[n].(weight := scores[n]) else before[n]
  }

  /** Writing one more score extends the rescored set by its node. */
  lemma RescoredStep(before: map<NodeId, Attrs>, after: map<NodeId, Attrs>, scores: map<NodeId, real>, done: set<NodeId>, n: NodeId)
    requires done <= scores.Keys && n in scores && n !in done && n in after
    requires Rescored(before, after, scores, done)
    ensures Rescored(before, after[n := after[n].(weight := scores[n])], scores, done + {n})
  {
  }

  /**
   * The loop shared by `add_centrality_degree`, `add_betweennes_degree`,
   * `add_eigenvector_degree`, `add_page_rank_degree` and
   * `add_clusterin_coefficient`: write each node's score into its `weight`
   * and return the least score (`inf` when there is none) and the larger
   * of 0 and the greatest score. `min_weight` and `max_weight` are not
   * touched.
   */
  method AddScores(g: Graph, scores: map<NodeId, real>) returns (lo: ExtReal, hi: real)
    requires g.Valid()
    requires forall n :: n in scores ==> n in g.attrs
    modifies g
    ensures g.Valid()
    ensures g.nodes == old(g.nodes) && g.edges == old(g.edges) && g.weights == old(g.weights)
    ensures g.attrs.Keys == old(g.attrs).Keys
    ensures forall n :: n in g.attrs ==>
              g.attrs[n] == if n in scores then old(g.attrs)[n].(weight := scores[n]) else old(g.attrs)[n]
    ensures Extrema(lo, hi, scores)
  {
    lo, hi := Infinity, 0.0;
    var todo := scores.Keys;
    ghost var done: set<NodeId> := {};
    ghost var loAt: NodeId, hiAt: NodeId := "", "";
    while todo != {}
      invariant todo <= scores.Keys && done <= scores.Keys
      invariant forall n :: n in scores ==> (n in done <==> n !in todo)
      invariant g.Valid() && g.nodes == old(g.nodes) && g.edges == old(g.edges) && g.weights == old(g.weights)
      invariant Rescored(old(g.attrs), g.attrs, scores, done)
      invariant Extremes(lo, hi, scores, done, loAt, hiAt)
      decreases |todo|
    {
      var n :| n in todo;
      var x := scores[n];
      loAt, hiAt := ExtremesStep(lo, hi, scores, done, loAt, hiAt, n);
      RescoredStep(old(g.attrs), g.attrs, scores, done, n);
      hi := Max(hi, x);
      lo := Min(lo, x);
      g.SetWeight(n, x);
      todo := todo - {n};
      done := done + {n};
    }
    assert done == scores.Keys;
    ExtremesAll(lo, hi, scores, loAt, hiAt);
  }
}
