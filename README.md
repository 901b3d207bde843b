# Wiki co-occurrence graph, modelled in Dafny

This project models the graph pipeline of a small Flask application that
turns a wiki dump into a co-occurrence graph for Cytoscape.js. The pipeline
lives in `modules/get_wiki_graph.py`, and `main.py` runs it for each request.
It has five steps:

1. **Grouping** (`groups.dfy`, module `Groups`). The dump's edit rows are
   grouped into ordered lists of `(id, label)` members, each pair at most
   once per list. `get_graph_users` keys by page and lists contributors; it
   can drop anonymous rows or blank their labels. `get_graph_pages` keys by
   contributor and lists pages. Rows are a sequence of records, and the
   grouping loops are methods proved equal to a function of the rows.
2. **Building** (`cooccurrence.dfy`, module `Cooccurrence`, and
   `graph.dfy`, module `WikiGraph`). `get_graph_from_dict` adds every member
   as a node. It then adds 1 to the weight of edge `{v[i].id, v[j].id}` for
   every index pair `i < j` of a group, creating the edge with weight 1.
   The networkx graph is a class `Graph` whose fields are:
   - the nodes in insertion order;
   - their attribute dicts;
   - the edges in creation order, each oriented as first created;
   - the weight map keyed by unordered endpoint pair.

   The nested loops are methods proved against `NodeAttrs`, `FirstArcs` and
   `Weights`. Lemmas say what those functions mean: node set, labels,
   co-occurrence counts.
3. **Pruning** (`WikiGraph.RemoveEdge`, `WikiGraph.RemoveIsolates`).
   `remove_edge` removes the edges lighter than the threshold, and then
   `remove_isolates` removes the nodes of degree 0.
4. **Scoring** (`WikiGraph.AddScores`). This is the loop shared by the five
   `add_*` functions. It writes each node's score into `weight` and folds
   the scores into a running `min`, which starts at `inf`, and a running
   `max`, which starts at `0.0`.
5. **Export** (`cytoscape.dfy`, module `Cytoscape`).
   `convert2cytoscape_json` emits one entry per node and one per edge. The
   edges come in networkx's edge-view order, which `Cytoscape.View`
   defines.

`pipeline.dfy` (module `WebApp`) composes these steps in the order of
`main.py`'s `/_get_graph` route. The score of each metric is an input
function, because the centrality algorithms belong to networkx: it sees the
pruned graph's nodes, edges and weights, and returns no scores where
networkx would raise.
`seqs.dfy` (module `Seqs`) holds generic sequence helpers: `Dedup`,
`Count`, `Filter`, `NoDup`.

Where the intended behaviour and the code differ, the model follows the code:

- **Self-loops are possible.** Groups deduplicate `(id, label)` pairs, not
  ids. One id under two labels in a group therefore produces the edge
  `{id}` (`Cooccurrence.SelfLoopExample`). When no group repeats an id,
  there is no self-loop (`Cooccurrence.NoSelfLoops`).
- **The last label wins.** `add_node` overwrites the label on every
  encounter, and it resets `weight`, `min_weight` and `max_weight` to 1.
- **Edge ids can collide.** An edge id is the plain concatenation of
  source and target. For example, `("1", "23")` and `("12", "3")` share
  the id `"123"` (`Cytoscape.EdgeIdCollision`).
- **Node bounds stay at 1.** The `add_*` functions never write
  `min_weight` or `max_weight`. The exported nodes therefore keep the 1
  that `add_node` set (`WebApp.GetGraph`).
- **An empty score map gives `min = inf` and `max = 0.0`.** In addition,
  `max` is never below `0.0`.
- **When no group repeats an id, a pair weighs as many groups as hold
  both ends** (`WikiGraph.CoOccurrenceWeight`). Groups `[u1, u2]`,
  `[u1, u2, u3]` and `[u2, u3]` give `{u1, u3}` weight 1, not 0, because
  the second group holds both (`WikiGraph.ThreeGroupsExample`). In
  general the weight counts the position pairs `i < j` in a group whose
  ids are the two ends (`WikiGraph.BuiltEdges`). So the single group
  `[("7", "A"), ("7", ""), ("8", "x")]` gives `{7, 8}` weight 2.
- **The default threshold of 1 removes nothing.** The comparison is
  strict (`weight < min_weight`), and every built weight is at least 1
  (`WikiGraph.DefaultThresholdKeepsAll`).

## Model

| member | source | states |
|---|---|---|
| Groups.GroupByPage | modules/get_wiki_graph.py:28-40 | the page-keyed grouping loop yields exactly `GroupEntries` of the kept, relabelled rows: keys in first-appearance order, members once each |
| Groups.GroupByContributor | modules/get_wiki_graph.py:49-57 | the contributor-keyed grouping loop yields exactly `GroupEntries` of the rows' `(page_id, page_title)` entries |
| Groups.Grouping.Values | modules/get_wiki_graph.py:64 | definition: `dict.items()` yields one member list per key, in key insertion order; what the lists hold is proved by `Groups.GroupContents` and `Groups.GroupOrder` |
| Groups.GroupContents | modules/get_wiki_graph.py:37-40 | a member is listed under a key iff some entry added it there; every list is non-empty and has no duplicate `(id, label)` pair |
| Groups.GroupOrder | modules/get_wiki_graph.py:37-40 | lists keep first-occurrence order: of two listed members, the earlier one was first added earlier |
| Groups.KeysOfElements | modules/get_wiki_graph.py:37-38 | a key occurs iff some entry carries it |
| Groups.MembersOfElements | modules/get_wiki_graph.py:39-40 | the members added under a key are exactly the entries with that key |
| Groups.UserEntriesElements | modules/get_wiki_graph.py:29-40 | the users grouping's entries are exactly the non-dropped rows, keyed by page, with the possibly blanked contributor |
| Groups.UserGroupMembers | modules/get_wiki_graph.py:29-40 | contributor `m` is listed under page `k` iff some kept row of page `k` resolves to `m` |
| Groups.Dropped | modules/get_wiki_graph.py:33-34 | definition: a row is skipped exactly when its contributor is "Anonymous" and `clean_anonymous` is set |
| Groups.Contributor | modules/get_wiki_graph.py:35-36 | the member keeps the contributor id; its label is "" for an anonymous row under `clean_anonymous_label`, and the contributor name otherwise |
| Groups.AnonymousDropped | modules/get_wiki_graph.py:33-36 | with `clean_anonymous` no member is named "Anonymous", and the label switch changes nothing, so dropping wins over relabelling |
| Groups.AnonymousRelabelled | modules/get_wiki_graph.py:35-36 | with only `clean_anonymous_label`, every anonymous row is listed under its page with label "" and no member is named "Anonymous" |
| Groups.PageEntriesElements | modules/get_wiki_graph.py:50-57 | the pages grouping's entries are exactly the rows, keyed by contributor id |
| Groups.PageGroupMembers | modules/get_wiki_graph.py:50-57 | page `m` is listed under contributor `k` iff some row by `k` edits `m` |
| Cooccurrence.FlatElements | modules/get_wiki_graph.py:64-65 | a member is visited by the node loops iff some group holds it |
| Cooccurrence.NodesAreMemberIds | modules/get_wiki_graph.py:64-66 | the deduplicated node ids are exactly the member ids of all groups |
| Cooccurrence.LastNameWins | modules/get_wiki_graph.py:66 | the stored label is that of the last member carrying the id, and no later member carries it |
| Cooccurrence.PairsFromAt | modules/get_wiki_graph.py:69-70 | the inner loop of row `i` yields `j - i - 1` pairs, pair `t` joining `v[i]` and `v[i + 1 + t]` |
| Cooccurrence.RowElements | modules/get_wiki_graph.py:68-70 | row `i` yields exactly the pairs of `v[i]` with each later member |
| Cooccurrence.PairsUpToElements | modules/get_wiki_graph.py:67-70 | the first `i` outer turns yield exactly the pairs of index pairs `a < b` with `a < i` |
| Cooccurrence.PairsElements | modules/get_wiki_graph.py:67-70 | a group yields exactly the pairs of its index pairs `i < j`; a group of one member yields none |
| Cooccurrence.AllPairsElements | modules/get_wiki_graph.py:64-70 | the pairs of all groups are those of the single groups |
| Cooccurrence.RowCount | modules/get_wiki_graph.py:69-74 | with distinct ids, row `i` yields `{u, w}` once if it opens the pair and never otherwise |
| Cooccurrence.OpensSplit | modules/get_wiki_graph.py:67-70 | a pair is opened below row `i` iff it is opened below row `i - 1` or at row `i - 1`, never both |
| Cooccurrence.UpToCount | modules/get_wiki_graph.py:67-74 | with distinct ids, the first `i` rows yield `{u, w}` once iff one of them opens it |
| Cooccurrence.DistinctPairCount | modules/get_wiki_graph.py:67-74 | with distinct ids, a group counts `{u, w}` once if it holds both ids and zero times otherwise |
| Cooccurrence.CoOccurrence | modules/get_wiki_graph.py:64-74 | with distinct ids in every group, the count of `{u, w}` over all groups is the number of groups holding both |
| Cooccurrence.NoSelfLoops | modules/get_wiki_graph.py:67-74 | with distinct ids in every group, no pair is a self-loop `{x}` |
| Cooccurrence.SelfLoopExample | modules/get_wiki_graph.py:65-74 | one id under two labels in a group yields the self-loop `{id}` |
| Cooccurrence.ArcsFromKeys | modules/get_wiki_graph.py:69-74 | the inner loop's oriented edges, unoriented, are its pairs |
| Cooccurrence.ArcsUpToKeys | modules/get_wiki_graph.py:67-74 | the outer loop's oriented edges, unoriented, are its pairs |
| Cooccurrence.AllArcsKeys | modules/get_wiki_graph.py:64-74 | all groups' oriented edges, unoriented, are their pairs |
| WikiGraph.Graph.constructor | modules/get_wiki_graph.py:63 | `nx.Graph()` is the empty graph |
| WikiGraph.Graph.AddNode | modules/get_wiki_graph.py:66 | the id is appended to the nodes if new; its dict becomes label, weight 1, min 1, max 1; edges unchanged |
| WikiGraph.Graph.HasEdge | modules/get_wiki_graph.py:71 | in a well-formed graph, `has_edge(u, v)` holds exactly when some edge joins `{u, v}` |
| WikiGraph.Graph.AddEdge | modules/get_wiki_graph.py:74 | a new edge `(u, v)` is appended with weight 1; nodes unchanged |
| WikiGraph.Graph.IncrementEdge | modules/get_wiki_graph.py:72 | the weight of `{u, v}` grows by 1 and nothing else changes |
| WikiGraph.Graph.SetWeight | modules/get_wiki_graph.py:179 | only the node's `weight` changes |
| WikiGraph.Graph.RemoveEdgesFrom | modules/get_wiki_graph.py:307 | exactly the edges joining a batch pair go, with their weights; order and nodes stay |
| WikiGraph.Graph.RemoveNodesFrom | modules/get_wiki_graph.py:297 | the batch nodes, their dicts and every edge at them go; the rest keeps its order |
| WikiGraph.WeightsCount | modules/get_wiki_graph.py:71-74 | a pair has a weight iff some oriented pair joins it, and the weight is the number of such oriented pairs |
| WikiGraph.WeightsPositive | modules/get_wiki_graph.py:71-74 | every built weight is at least 1 |
| WikiGraph.FirstArcsKeys | modules/get_wiki_graph.py:71-74 | the edges are the distinct endpoint pairs in order of first creation |
| WikiGraph.FirstArcsOrientation | modules/get_wiki_graph.py:74 | each edge keeps the orientation of the first oriented pair that joined its ends |
| WikiGraph.BuiltEdges | modules/get_wiki_graph.py:62-75 | `{u, w}` is an edge iff two positions `i < j` of one group hold its ends; its weight counts those position pairs; edges are listed once each |
| WikiGraph.CoOccurrenceWeight | modules/get_wiki_graph.py:62-75 | with distinct ids per group, two ids are joined iff some group holds both, with weight the number of such groups |
| WikiGraph.ThreeGroupsExample | modules/get_wiki_graph.py:62-75 | groups `[u1,u2]`, `[u1,u2,u3]`, `[u2,u3]` give weights `{u1,u2}`: 2, `{u1,u3}`: 1, `{u2,u3}`: 2 |
| WikiGraph.NodeAttrsMeaning | modules/get_wiki_graph.py:65-66 | a node has a dict iff it is a member id; the dict is label of its last member and weight, min and max 1 |
| WikiGraph.BuiltNodes | modules/get_wiki_graph.py:64-66 | the built nodes are exactly the member ids, each listed once, each with weight/min/max 1 and its last label |
| WikiGraph.AddGroupNodes | modules/get_wiki_graph.py:65-66 | the node loop leaves the nodes and dicts of all members seen so far; edges unchanged |
| WikiGraph.Join | modules/get_wiki_graph.py:71-74 | one `has_edge` turn leaves the graph's edges and weights those of the pairs seen plus `(u, v)` |
| WikiGraph.AddRowEdges | modules/get_wiki_graph.py:68-74 | one inner loop adds the oriented pairs of row `i` to the edges and weights |
| WikiGraph.AddGroupEdges | modules/get_wiki_graph.py:67-74 | the `i < j` loops add every index pair of the group to the edges and weights |
| WikiGraph.GetGraphFromDict | modules/get_wiki_graph.py:62-75 | the result is exactly the graph `BuiltFrom` the member lists in dict order |
| WikiGraph.GetGraphUsers | modules/get_wiki_graph.py:25-42 | the users graph is built from the page-keyed grouping of the rows |
| WikiGraph.GetGraphPages | modules/get_wiki_graph.py:46-58 | the pages graph is built from the contributor-keyed grouping of the rows |
| WikiGraph.Heavy | modules/get_wiki_graph.py:304-305 | an edge is kept iff its weight is at least the threshold |
| WikiGraph.Light | modules/get_wiki_graph.py:304-306 | an edge is collected iff its weight is below the threshold |
| WikiGraph.AtLeast | modules/get_wiki_graph.py:305-307 | definition: the weights at least the threshold, unchanged; that `remove_edge` keeps exactly these is proved by `WikiGraph.DropLight` |
| WikiGraph.LightKeys | modules/get_wiki_graph.py:304-306 | a pair is among the collected edges iff its weight is below the threshold |
| WikiGraph.DropLight | modules/get_wiki_graph.py:302-308 | removing the collected edges leaves exactly the heavy edges, in order, and the weights at least the threshold |
| WikiGraph.EdgesWeighted | modules/get_wiki_graph.py:71-74 | every edge the builder creates has a weight |
| WikiGraph.DefaultThresholdKeepsAll | modules/get_wiki_graph.py:302-308 | with a threshold of at most 1, every built edge and weight survives `remove_edge` |
| WikiGraph.RemoveEdge | modules/get_wiki_graph.py:302-308 | the edges left are the old edges of weight at least `min_weight`, in order with their weights; the nodes are unchanged |
| WikiGraph.EndpointsMember | modules/get_wiki_graph.py:297 | a node is an end of the graph's edges exactly when some edge ends at it, that is when its degree is positive |
| WikiGraph.Isolates | modules/get_wiki_graph.py:297 | `nx.isolates` yields exactly the nodes without an edge |
| WikiGraph.Connected | modules/get_wiki_graph.py:297 | the nodes kept are exactly those with an edge |
| WikiGraph.IsolatesKeepEdges | modules/get_wiki_graph.py:296-298 | removing isolated nodes removes no edge and no weight |
| WikiGraph.IsolatesKeepNodes | modules/get_wiki_graph.py:296-298 | removing the isolates keeps exactly the connected nodes, in order |
| WikiGraph.IsolatesKeepAttrs | modules/get_wiki_graph.py:296-298 | removing the isolates keeps the dicts of exactly the connected nodes |
| WikiGraph.RemoveIsolates | modules/get_wiki_graph.py:296-298 | exactly the nodes of degree 0 go; the others keep their order and dicts; edges and weights are unchanged |
| WikiGraph.ExtremesStep | modules/get_wiki_graph.py:176-178 | folding one more score into `min` and `max` keeps them the attained extremes of the scores seen |
| WikiGraph.Max | modules/get_wiki_graph.py:177 | Python's `max` of two reals: at least both, and one of them |
| WikiGraph.Min | modules/get_wiki_graph.py:178 | Python's `min` with `inf`: at most the new score and any finite running minimum, and one of the two |
| WikiGraph.ExtremesAll | modules/get_wiki_graph.py:172-181 | after all scores, `min` is `inf` and `max` 0.0 when there are none; otherwise `min` is the least score, attained, and `max` bounds every score and is 0.0 or attained |
| WikiGraph.RescoredStep | modules/get_wiki_graph.py:179 | writing one more score extends the set of rescored nodes by that node |
| WikiGraph.AddScores | modules/get_wiki_graph.py:172-181 | each scored node's weight becomes its score and nothing else changes; `min`/`max` are as in `ExtremesAll` |
| Cytoscape.Orient | modules/get_wiki_graph.py:277 | definition: the edges at a node are reported from that node, in order; that it keeps each edge's pair is proved by `Cytoscape.OrientKeys` and `Cytoscape.ViewOfGraph` |
| Cytoscape.Incident | modules/get_wiki_graph.py:277 | the edge view yields at a node only edges from it to unvisited nodes |
| Cytoscape.View | modules/get_wiki_graph.py:277 | every edge the view yields starts at a node |
| Cytoscape.OrientKeys | modules/get_wiki_graph.py:277 | reporting an edge from one end keeps its endpoint pair |
| Cytoscape.IncidentKeys | modules/get_wiki_graph.py:277 | the pairs yielded at a node are those of its edges to unvisited nodes |
| Cytoscape.IncidentMember | modules/get_wiki_graph.py:277 | a pair is yielded at a node iff an edge at it with an unvisited other end has that pair |
| Cytoscape.ViewKeys | modules/get_wiki_graph.py:277 | the view yields exactly the pairs of edges with an end among the nodes |
| Cytoscape.ViewNoDup | modules/get_wiki_graph.py:277 | the view yields no pair twice |
| Cytoscape.ViewOfGraph | modules/get_wiki_graph.py:277-283 | for a well-formed graph the view yields each edge exactly once: as many entries as edges, all distinct, every weighted pair among them |
| Cytoscape.EdgeIdCollision | modules/get_wiki_graph.py:279 | two different pairs, `("1","23")` and `("12","3")`, get the same edge id |
| Cytoscape.NodeEntries | modules/get_wiki_graph.py:269-276 | one entry per node, in node order, copying id, label, weight, max and min |
| Cytoscape.EdgeEntries | modules/get_wiki_graph.py:277-283 | one entry per view edge, in view order, with id source+target, its ends and its weight |
| Cytoscape.Convert | modules/get_wiki_graph.py:267-285 | the node entries copy every node's dict in order; the edge entries follow the view one for one, one per graph edge, with concatenated id and the edge's weight |
| WebApp.MetricNamed | main.py:52-63 | the four metric names select their metric; any other name selects degree centrality |
| WebApp.ExportedEdges | modules/get_wiki_graph.py:277-283 | the edges exported from a view whose pairs are exactly the kept ones are one per pair of built weight at least the threshold, with that weight and the id `source + target`, no pair twice |
| WebApp.EndOfSome | main.py:49-50 | a node with an edge ends a pair of weight at least the threshold, once every edge's pair is such |
| WebApp.EndsOfKey | modules/get_wiki_graph.py:66-74 | each member of an edge's endpoint pair has an attribute dict |
| WebApp.NodesAreEnds | main.py:49-50 | after pruning, every node ends a pair of built weight at least the threshold |
| WebApp.EndsAreNodes | main.py:49-50 | after pruning, every end of a pair of built weight at least the threshold is a node |
| WebApp.ExportedNodes | modules/get_wiki_graph.py:269-276 | the nodes exported from such a graph are exactly the ends of those pairs, once each, with the last label, the score as weight, and min/max 1 |
| WebApp.ExportedTouched | main.py:70 | every exported node is an end of an exported edge |
| WebApp.EdgesOfGraph | main.py:49-70 | the edges exported from a pruned graph are exactly the pairs of built weight at least the threshold |
| WebApp.NodesOfGraph | main.py:49-70 | the nodes exported from a pruned, scored graph are exactly the ends of those pairs, labelled and scored |
| WebApp.PrunedAttrs | main.py:49-50 | after pruning, each remaining node keeps the dict `add_node` gave it: the last label and every value 1 |
| WebApp.Build | main.py:44-47 | `tipo=users` builds the users graph, anything else the pages graph |
| WebApp.Prune | main.py:49-50 | the edges and weights left are exactly the old ones of weight at least the threshold, in order; the nodes and dicts left are exactly the old ones with an edge, in order |
| WebApp.Pruned | main.py:44-50 | the graph left holds the built edges and weights of weight at least the threshold and their ends as nodes; every dict is the initial one with the last label |
| WebApp.Score | main.py:52-67 | no result exactly when the centrality raises, the dicts then unchanged; otherwise each node's weight becomes its score, nothing else changes, and `min`/`max` fold the scores as in `WikiGraph.ExtremesAll` |
| WebApp.GetGraph | main.py:42-74 | no response exactly when the dump file is missing or the centrality raises; otherwise the layout is echoed, the counts match the lists, the nodes are the pruned graph's in order and the edges its view in order, the edges are exactly one per pair of built weight at least `edgeweight` with that weight, the nodes are exactly their ends with last label, score and min/max 1, and `min`/`max` fold the scores |

## Left out

- Reading the dump is not modelled: opening the file and parsing it with `csv.DictReader` (modules/get_wiki_graph.py:26-27, 47-48). The rows are an input sequence of records.
- The networkx centralities (`degree_centrality`, `betweenness_centrality`, `eigenvector_centrality`, `pagerank`, `clustering`) are foreign floating-point numerics. They are an input function from the metric and the graph's nodes, edges and weights to a score per node, or to no scores where networkx raises.
- WebApp.Score: it assumes (`WebApp.ScoresNodes`) that a centrality that succeeds scores exactly the graph's nodes, as each networkx centrality does; the scores themselves are not computed.
- WebApp.GetGraph: which graphs make a centrality raise is not modelled, for example `eigenvector_centrality` on a graph pruned down to no nodes, or a power iteration that does not converge. The input function decides it; when it raises, the route answers nothing.
- `analyse_graph`, `save_graph` and `main` of modules/get_wiki_graph.py are not modelled. They are interactive menus, console output and file exports.
- `ensure_dir` is not modelled; it only touches the filesystem.
- main.py's HTTP layer is not modelled:
  - query-string parsing with defaults, which become parameters;
  - the `path.isfile` check itself, which becomes a boolean parameter; with no file the route returns `None`, and the model answers nothing;
  - the `mapData` display string and the `print` calls;
  - the `index` route.
- static/code.js is browser code and is not part of this model.
- Scores and node weights are `real`. There is no floating-point rounding and no NaN. The integer 1 that `add_node` stores is modelled as 1.0.
- WikiGraph.AddScores: the order in which `result.items()` is visited is not modelled; the loop picks any unvisited node. The returned `min`, `max` and weights do not depend on the order.
- WikiGraph.RemoveEdge: the collect loop visits edges in creation order, not in edge-view order. The set of removed pairs, and so the resulting graph, is the same.
- WikiGraph.Graph.AddEdge: it requires both ends to be nodes already. `add_edge` would create missing nodes, but in `get_graph_from_dict` the ends always are nodes.
- Python dicts and networkx adjacency are modelled as insertion-ordered. This fixes the group order, the node order and the edge-view order, which Python 3.7 and later guarantee.
