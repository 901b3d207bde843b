/**
 * What `get_graph_from_dict` (modules/get_wiki_graph.py:62-75) computes,
 * stated over the member lists of a grouping in dict iteration order:
 * the members in the order the node loop visits them, and the endpoint
 * pairs in the order the `i < j` loops visit them. The graph builder is
 * proved against these definitions; the lemmas here say what they mean.
 */
module Cooccurrence {
  import opened Seqs
  import opened Groups

  type NodeId = string

  /** The ids of a member list, position by position. */
  function Ids(ms: seq<Member>): (ids: seq<NodeId>)
    ensures |ids| == |ms|
    ensures forall i :: 0 <= i < |ms| ==> ids[i] == ms[i].id
  {
    seq(|ms|, i requires 0 <= i < |ms| => ms[i].id)
  }

  /** All members of all groups, group after group. */
  function Flat(vs: seq<seq<Member>>): seq<Member>
  {
    if vs == [] then [] else Flat(vs[..|vs| - 1]) + vs[|vs| - 1]
  }

  /** The name of the last member with id `id` ("" if there is none). */
  function LastName(ms: seq<Member>, id: NodeId): string
  {
    if ms == [] then ""
    else if ms[|ms| - 1].id == id then ms[|ms| - 1].name
    else LastName(ms[..|ms| - 1], id)
  }

  /** The endpoint pairs `{v[i].id, v[j'].id}` for `i < j' < j`, in loop order. */
  function PairsFrom(v: seq<Member>, i: nat, j: nat): seq<set<NodeId>>
    requires i < j <= |v|
    decreases j
  {
    if j == i + 1 then [] else PairsFrom(v, i, j - 1) + [{v[i].id, v[j - 1].id}]
  }

  /** The endpoint pairs of the outer loop's first `i` turns. */
  function PairsUpTo(v: seq<Member>, i: nat): seq<set<NodeId>>
    requires i <= |v|
  {
    if i == 0 then [] else PairsUpTo(v, i - 1) + PairsFrom(v, i - 1, |v|)
  }

  /** The endpoint pairs of one group: `range(0, len(v) - 1)` outer turns. */
  function Pairs(v: seq<Member>): seq<set<NodeId>>
  {
    PairsUpTo(v, if |v| == 0 then 0 else |v| - 1)
  }

  /** The endpoint pairs of all groups, group after group. */
  function AllPairs(vs: seq<seq<Member>>): seq<set<NodeId>>
  {
    if vs == [] then [] else AllPairs(vs[..|vs| - 1]) + Pairs(vs[|vs| - 1])
  }

  /** No id occurs twice in a group. */
  ghost predicate DistinctIds(v: seq<Member>) {
    forall a, b :: 0 <= a < b < |v| ==> v[a].id != v[b].id
  }

  /** The number of groups that contain both ids. */
  function GroupsWithBoth(vs: seq<seq<Member>>, u: NodeId, w: NodeId): nat
  {
    if vs == [] then 0
    else GroupsWithBoth(vs[..|vs| - 1], u, w) + (if u in Ids(vs[|vs| - 1]) && w in Ids(vs[|vs| - 1]) then 1 else 0)
  }

  /** An edge as the builder creates it: `(node1, node2)` of `add_edge`. */
  type Edge = (NodeId, NodeId)

  /** The unordered endpoint pair an edge connects; a self-loop has one. */
  function Ends(e: Edge): set<NodeId> {
    {e.0, e.1}
  }

  /** The endpoint pairs of a sequence of edges, position by position. */
  function EdgeKeys(es: seq<Edge>): (ks: seq<set<NodeId>>)
    ensures |ks| == |es|
    ensures forall i :: 0 <= i < |es| ==> ks[i] == Ends(es[i])
  {
    seq(|es|, i requires 0 <= i < |es| => Ends(es[i]))
  }

  /** The oriented pairs `(v[i].id, v[j'].id)` for `i < j' < j`, in loop order. */
  function ArcsFrom(v: seq<Member>, i: nat, j: nat): seq<Edge>
    requires i < j <= |v|
    decreases j
  {
    if j == i + 1 then [] else ArcsFrom(v, i, j - 1) + [(v[i].id, v[j - 1].id)]
  }

  /** The oriented pairs of the outer loop's first `i` turns. */
  function ArcsUpTo(v: seq<Member>, i: nat): seq<Edge>
    requires i <= |v|
  {
    if i == 0 then [] else ArcsUpTo(v, i - 1) + ArcsFrom(v, i - 1, |v|)
  }

  /** The oriented pairs of one group. */
  function Arcs(v: seq<Member>): seq<Edge>
  {
    ArcsUpTo(v, if |v| == 0 then 0 else |v| - 1)
  }

  /** The oriented pairs of all groups, group after group. */
  function AllArcs(vs: seq<seq<Member>>): seq<Edge>
  {
    if vs == [] then [] else AllArcs(vs[..|vs| - 1]) + Arcs(vs[|vs| - 1])
  }

  // ---------------------------------------------------------------------
  // Nodes

  /** A member occurs in the flattened lists exactly when some group has it. */
  lemma {:induction false} FlatElements(vs: seq<seq<Member>>, m: Member)
    ensures m in Flat(vs) <==> exists k :: 0 <= k < |vs| && m in vs[k]
  {
    if vs != [] {
      var p := vs[..|vs| - 1];
      FlatElements(p, m);
      if m in Flat(p) {
        var k :| 0 <= k < |p| && m in p[k];
        assert vs[k] == p[k];
      }
      if exists k :: 0 <= k < |vs| && m in vs[k] {
        var k :| 0 <= k < |vs| && m in vs[k];
        if k < |p| {
          assert p[k] == vs[k];
        }
      }
    }
  }

  /**
   * The node set of the built graph is the union of the member ids of all
   * groups.
   */
  lemma NodesAreMemberIds(vs: seq<seq<Member>>, id: NodeId)
    ensures id in Dedup(Ids(Flat(vs))) <==> exists k, i :: 0 <= k < |vs| && 0 <= i < |vs[k]| && vs[k][i].id == id
  {
    DedupElements(Ids(Flat(vs)), id);
    var ms := Flat(vs);
    if id in Ids(ms) {
      var t :| 0 <= t < |ms| && Ids(ms)[t] == id;
      FlatElements(vs, ms[t]);
      var k :| 0 <= k < |vs| && ms[t] in vs[k];
      var i :| 0 <= i < |vs[k]| && vs[k][i] == ms[t];
    }
    if exists k, i :: 0 <= k < |vs| && 0 <= i < |vs[k]| && vs[k][i].id == id {
      var k, i :| 0 <= k < |vs| && 0 <= i < |vs[k]| && vs[k][i].id == id;
      FlatElements(vs, vs[k][i]);
      var t :| 0 <= t < |ms| && ms[t] == vs[k][i];
      assert Ids(ms)[t] == id;
    }
  }

  /**
   * Last seen wins: the stored name is that of the last member carrying
   * the id, and no later member carries it.
   */
  lemma {:induction false} LastNameWins(ms: seq<Member>, id: NodeId)
    requires id in Ids(ms)
    ensures exists i :: Witness(ms, id, i)
  {
    var p := ms[..|ms| - 1];
    if ms[|ms| - 1].id == id {
      assert Witness(ms, id, |ms| - 1);
    } else {
      assert LastName(ms, id) == LastName(p, id);
      var t :| 0 <= t < |ms| && Ids(ms)[t] == id;
      assert Ids(p)[t] == id;
      LastNameWins(p, id);
      var i :| Witness(p, id, i);
      forall j | i < j < |ms| ensures ms[j].id != id {
        if j < |p| {
          assert ms[j] == p[j];
        }
      }
      assert Witness(ms, id, i);
    }
  }

  /** Position `i` holds the last member with id `id`, named as LastName says. */
  ghost predicate Witness(ms: seq<Member>, id: NodeId, i: int) {
    0 <= i < |ms| && ms[i].id == id && ms[i].name == LastName(ms, id)
    && forall j :: i < j < |ms| ==> ms[j].id != id
  }

  // ---------------------------------------------------------------------
  // Edges

  /** The inner loop of row `i` yields one pair per later position, in order. */
  lemma {:induction false} PairsFromAt(v: seq<Member>, i: nat, j: nat)
    requires i < j <= |v|
    ensures |PairsFrom(v, i, j)| == j - i - 1
    ensures forall t :: 0 <= t < j - i - 1 ==> PairsFrom(v, i, j)[t] == {v[i].id, v[i + 1 + t].id}
  {
    if j > i + 1 {
      PairsFromAt(v, i, j - 1);
    }
  }

  /** Row `i` yields the pairs of `v[i]` with each later member. */
  lemma RowElements(v: seq<Member>, i: nat, p: set<NodeId>)
    requires i < |v|
    ensures p in PairsFrom(v, i, |v|) <==> exists b :: i < b < |v| && p == {v[i].id, v[b].id}
  {
    PairsFromAt(v, i, |v|);
    var row := PairsFrom(v, i, |v|);
    if p in row {
      var t :| 0 <= t < |row| && row[t] == p;
      assert p == {v[i].id, v[i + 1 + t].id};
    }
    if exists b :: i < b < |v| && p == {v[i].id, v[b].id} {
      var b :| i < b < |v| && p == {v[i].id, v[b].id};
      assert row[b - i - 1] == p;
    }
  }

  /** The pairs of the first `i` rows are those of index pairs `a < b` with `a < i`. */
  lemma {:induction false} PairsUpToElements(v: seq<Member>, i: nat, p: set<NodeId>)
    requires i <= |v|
    ensures p in PairsUpTo(v, i) <==> exists a, b :: 0 <= a < i && a < b < |v| && p == {v[a].id, v[b].id}
  {
    if i > 0 {
      PairsUpToElements(v, i - 1, p);
      RowElements(v, i - 1, p);
      assert p in PairsUpTo(v, i) <==> p in PairsUpTo(v, i - 1) || p in PairsFrom(v, i - 1, |v|);
      if p in PairsUpTo(v, i - 1) {
        var a, b :| 0 <= a < i - 1 && a < b < |v| && p == {v[a].id, v[b].id};
        assert 0 <= a < i && a < b < |v|;
      } else if p in PairsFrom(v, i - 1, |v|) {
        var b :| i - 1 < b < |v| && p == {v[i - 1].id, v[b].id};
        assert 0 <= i - 1 < i && i - 1 < b < |v|;
      }
      if exists a, b :: 0 <= a < i && a < b < |v| && p == {v[a].id, v[b].id} {
        var a, b :| 0 <= a < i && a < b < |v| && p == {v[a].id, v[b].id};
        if a == i - 1 {
          assert p in PairsFrom(v, i - 1, |v|);
        } else {
          assert p in PairsUpTo(v, i - 1);
        }
      }
    }
  }

  /**
   * A group contributes exactly the id pairs of its index pairs `i < j`;
   * in particular a group with one member contributes none.
   */
  lemma PairsElements(v: seq<Member>, p: set<NodeId>)
    ensures p in Pairs(v) <==> exists i, j :: 0 <= i < j < |v| && p == {v[i].id, v[j].id}
    ensures |v| <= 1 ==> Pairs(v) == []
  {
    PairsUpToElements(v, if |v| == 0 then 0 else |v| - 1, p);
  }

  /** The pairs of all groups are those of the single groups. */
  lemma {:induction false} AllPairsElements(vs: seq<seq<Member>>, p: set<NodeId>)
    ensures p in AllPairs(vs) <==> exists k :: 0 <= k < |vs| && p in Pairs(vs[k])
  {
    if vs != [] {
      var q := vs[..|vs| - 1];
      var last := vs[|vs| - 1];
      assert AllPairs(vs) == AllPairs(q) + Pairs(last);
      AllPairsElements(q, p);
      if p in AllPairs(vs) {
        if p in AllPairs(q) {
          var k :| 0 <= k < |q| && p in Pairs(q[k]);
          assert vs[k] == q[k];
        } else {
          assert p in Pairs(vs[|vs| - 1]);
        }
      }
      if exists k :: 0 <= k < |vs| && p in Pairs(vs[k]) {
        var k :| 0 <= k < |vs| && p in Pairs(vs[k]);
        if k < |q| {
          assert q[k] == vs[k];
          assert p in AllPairs(q);
        } else {
          assert p in Pairs(last);
        }
      }
    }
  }

  /** Two distinct ids make the set `{a, b}` equal to `{u, w}` in one of two orientations. */
  lemma PairEq(a: NodeId, b: NodeId, u: NodeId, w: NodeId)
    requires u != w
    ensures {a, b} == {u, w} <==> (a == u && b == w) || (a == w && b == u)
  {
    if {a, b} == {u, w} {
      assert u in {a, b} && w in {a, b};
      assert a in {u, w} && b in {u, w};
    }
  }

  /** The id `x` occurs at a position in `[lo, hi)`. */
  ghost predicate OccursIn(v: seq<Member>, x: NodeId, lo: int, hi: int) {
    exists b :: lo <= b < hi && 0 <= b < |v| && v[b].id == x
  }

  /** Position `a` holds one of the two ids and the other occurs in `(a, hi)`. */
  ghost predicate Opens(v: seq<Member>, a: nat, u: NodeId, w: NodeId, hi: int)
    requires a < |v|
  {
    (v[a].id == u && OccursIn(v, w, a + 1, hi)) || (v[a].id == w && OccursIn(v, u, a + 1, hi))
  }

  /** In a group with distinct ids, row `i` yields `{u, w}` at most once. */
  lemma {:induction false} RowCount(v: seq<Member>, i: nat, j: nat, u: NodeId, w: NodeId)
    requires DistinctIds(v) && u != w && i < j <= |v|
    ensures Count(PairsFrom(v, i, j), {u, w}) == if Opens(v, i, u, w, j) then 1 else 0
  {
    if j > i + 1 {
      RowCount(v, i, j - 1, u, w);
      var s := PairsFrom(v, i, j - 1);
      assert PairsFrom(v, i, j) == s + [{v[i].id, v[j - 1].id}];
      assert (s + [{v[i].id, v[j - 1].id}])[..|s|] == s;
      PairEq(v[i].id, v[j - 1].id, u, w);
      if Opens(v, i, u, w, j) && !Opens(v, i, u, w, j - 1) {
        var b :| i + 1 <= b < j && 0 <= b < |v| && (v[b].id == u || v[b].id == w) && v[b].id != v[i].id;
        assert b == j - 1;
      }
      if Opens(v, i, u, w, j - 1) {
        var b :| i + 1 <= b < j - 1 && 0 <= b < |v| && (v[b].id == u || v[b].id == w) && v[b].id != v[i].id;
        assert v[b].id != v[j - 1].id;
      }
    }
  }

  /** In a group with distinct ids, the first `i` rows yield `{u, w}` at most once. */
  lemma {:induction false} UpToCount(v: seq<Member>, i: nat, u: NodeId, w: NodeId)
    requires DistinctIds(v) && u != w && i <= |v|
    ensures Count(PairsUpTo(v, i), {u, w}) == if exists a :: 0 <= a < i && Opens(v, a, u, w, |v|) then 1 else 0
  {
    if i > 0 {
      UpToCount(v, i - 1, u, w);
      RowCount(v, i - 1, |v|, u, w);
      CountAppend(PairsUpTo(v, i - 1), PairsFrom(v, i - 1, |v|), {u, w});
      OpensSplit(v, i, u, w);
    }
  }

  /** Some row below `i` opens the pair exactly when some row below `i - 1` or row `i - 1` does, and not both. */
  lemma OpensSplit(v: seq<Member>, i: nat, u: NodeId, w: NodeId)
    requires DistinctIds(v) && u != w && 0 < i <= |v|
    ensures (exists a :: 0 <= a < i && Opens(v, a, u, w, |v|))
            <==> (exists a :: 0 <= a < i - 1 && Opens(v, a, u, w, |v|)) || Opens(v, i - 1, u, w, |v|)
    ensures !((exists a :: 0 <= a < i - 1 && Opens(v, a, u, w, |v|)) && Opens(v, i - 1, u, w, |v|))
  {
    if Opens(v, i - 1, u, w, |v|) {
      assert forall a :: 0 <= a < i - 1 ==> !Opens(v, a, u, w, |v|);
    }
  }

  /**
   * In a group whose ids are distinct, the pair `{u, w}` of two different
   * ids is counted once if the group holds both and not at all otherwise.
   */
  lemma DistinctPairCount(v: seq<Member>, u: NodeId, w: NodeId)
    requires DistinctIds(v) && u != w
    ensures Count(Pairs(v), {u, w}) == if u in Ids(v) && w in Ids(v) then 1 else 0
  {
    var n := if |v| == 0 then 0 else |v| - 1;
    UpToCount(v, n, u, w);
    if u in Ids(v) && w in Ids(v) {
      var a :| 0 <= a < |v| && Ids(v)[a] == u;
      var b :| 0 <= b < |v| && Ids(v)[b] == w;
      if a < b {
        assert Opens(v, a, u, w, |v|);
      } else {
        assert Opens(v, b, u, w, |v|);
      }
    }
  }

  /**
   * Co-occurrence count: when no group repeats an id, the weight of the
   * pair of two different ids is the number of groups that contain both.
   */
  lemma {:induction false} CoOccurrence(vs: seq<seq<Member>>, u: NodeId, w: NodeId)
    requires forall k :: 0 <= k < |vs| ==> DistinctIds(vs[k])
    requires u != w
    ensures Count(AllPairs(vs), {u, w}) == GroupsWithBoth(vs, u, w)
  {
    if vs != [] {
      var q := vs[..|vs| - 1];
      CoOccurrence(q, u, w);
      CountAppend(AllPairs(q), Pairs(vs[|vs| - 1]), {u, w});
      DistinctPairCount(vs[|vs| - 1], u, w);
    }
  }

  /** When no group repeats an id, no pair is a self-loop `{x}`. */
  lemma NoSelfLoops(vs: seq<seq<Member>>, x: NodeId)
    requires forall k :: 0 <= k < |vs| ==> DistinctIds(vs[k])
    ensures {x} !in AllPairs(vs)
  {
    AllPairsElements(vs, {x});
    forall k | 0 <= k < |vs| ensures {x} !in Pairs(vs[k]) {
      PairsElements(vs[k], {x});
    }
  }

  /**
   * Deduplication is on `(id, name)`: one id under two names in a group
   * yields the self-loop `{id}`.
   */
  lemma SelfLoopExample()
    ensures AllPairs([[Member("7", "Ana"), Member("7", "")]]) == [{"7"}]
  {
    var v := [Member("7", "Ana"), Member("7", "")];
    assert [v][..0] == [];
    assert PairsFrom(v, 0, 2) == [{"7", "7"}];
    assert {"7", "7"} == {"7"};
  }

  // ---------------------------------------------------------------------
  // Oriented and unordered pairs

  /** The endpoint pairs of a concatenation are those of its parts. */
  lemma EdgeKeysAppend(a: seq<Edge>, b: seq<Edge>)
    ensures EdgeKeys(a + b) == EdgeKeys(a) + EdgeKeys(b)
  {
  }

  /** Forgetting orientation, the inner loop's oriented pairs are its pairs. */
  lemma {:induction false} ArcsFromKeys(v: seq<Member>, i: nat, j: nat)
    requires i < j <= |v|
    ensures EdgeKeys(ArcsFrom(v, i, j)) == PairsFrom(v, i, j)
    decreases j
  {
    if j > i + 1 {
      ArcsFromKeys(v, i, j - 1);
      EdgeKeysAppend(ArcsFrom(v, i, j - 1), [(v[i].id, v[j - 1].id)]);
    }
  }

  /** Forgetting orientation, the outer loop's oriented pairs are its pairs. */
  lemma {:induction false} ArcsUpToKeys(v: seq<Member>, i: nat)
    requires i <= |v|
    ensures EdgeKeys(ArcsUpTo(v, i)) == PairsUpTo(v, i)
  {
    if i > 0 {
      ArcsUpToKeys(v, i - 1);
      ArcsFromKeys(v, i - 1, |v|);
      EdgeKeysAppend(ArcsUpTo(v, i - 1), ArcsFrom(v, i - 1, |v|));
    }
  }

  /** Forgetting orientation, the oriented pairs of all groups are their pairs. */
  lemma {:induction false} AllArcsKeys(vs: seq<seq<Member>>)
    ensures EdgeKeys(AllArcs(vs)) == AllPairs(vs)
  {
    if vs != [] {
      var last := vs[|vs| - 1];
      AllArcsKeys(vs[..|vs| - 1]);
      ArcsUpToKeys(last, if |last| == 0 then 0 else |last| - 1);
      EdgeKeysAppend(AllArcs(vs[..|vs| - 1]), Arcs(last));
    }
  }
}
