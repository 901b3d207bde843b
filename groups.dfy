/**
 * The record grouper of modules/get_wiki_graph.py: the row loops of
 * `get_graph_users` (group contributors by page) and `get_graph_pages`
 * (group pages by contributor). Rows come in as a sequence; reading the
 * `;`-separated dump file is not modelled.
 */
module Groups {
  import opened Seqs

  type Key = string

  /** The contributor name the dump gives to edits without an account. */
  const Anonymous: string := "Anonymous"

  /** One edit record of the dump. */
  datatype Row = Row(pageId: string, pageTitle: string, contributorId: string, contributorName: string)

  /** A group member: the `(id, label)` tuple appended to a group's list. */
  datatype Member = Member(id: string, name: string)

  /** A row resolved to the key it is grouped under and the member it adds. */
  datatype Entry = Entry(key: Key, member: Member)

  /**
   * A Python dict from group key to member list: `keys` is its insertion
   * order, `lists` its contents.
   */
  datatype Grouping = Grouping(keys: seq<Key>, lists: map<Key, seq<Member>>) {

    ghost predicate WellFormed() {
      NoDup(keys) && forall k :: k in lists <==> k in keys
    }

    /** The member lists in iteration order, as `dict.items()` yields them. */
    function Values(): (vs: seq<seq<Member>>)
      requires WellFormed()
      ensures |vs| == |keys|
      ensures forall i :: 0 <= i < |keys| ==> vs[i] == lists[keys[i]]
    {
      seq(|keys|, i requires 0 <= i < |keys| => lists[keys[i]])
    }
  }

  /** The keys of the entries, in row order. */
  function KeysOf(es: seq<Entry>): seq<Key>
  {
    if es == [] then [] else KeysOf(es[..|es| - 1]) + [es[|es| - 1].key]
  }

  /** The members the entries add under key `k`, in row order. */
  function MembersOf(es: seq<Entry>, k: Key): seq<Member>
  {
    if es == [] then []
    else
      var e := es[|es| - 1];
      MembersOf(es[..|es| - 1], k) + (if e.key == k then [e.member] else [])
  }

  /**
   * What the grouping loop builds from a sequence of entries: the keys in
   * order of first appearance, and under each key its members, each
   * `(id, label)` pair once, in order of first appearance.
   */
  function GroupEntries(es: seq<Entry>): (g: Grouping)
    ensures g.WellFormed()
  {
    var ks := KeysOf(es);
    DedupNoDup(ks);
    DedupSameElements(ks);
    Grouping(Dedup(ks), ListsOf(es))
  }

  /** Under each key that occurs, its members, each once, in order of first appearance. */
  function ListsOf(es: seq<Entry>): map<Key, seq<Member>>
  {
    map k | k in KeysOf(es) :: Dedup(MembersOf(es, k))
  }

  /** Whether `get_graph_users` skips the row. */
  predicate Dropped(r: Row, cleanAnonymous: bool): (b: bool)
    ensures b ==> cleanAnonymous && r.contributorName == Anonymous
    ensures cleanAnonymous && r.contributorName == Anonymous ==> b
  {
    r.contributorName == Anonymous && cleanAnonymous
  }

  /** The member a kept row adds to its page's group in `get_graph_users`. */
  function Contributor(r: Row, cleanAnonymousLabel: bool): (m: Member)
    ensures m.id == r.contributorId
    ensures r.contributorName != Anonymous ==> m.name == r.contributorName
    ensures r.contributorName == Anonymous ==> m.name == if cleanAnonymousLabel then "" else Anonymous
  {
    Member(r.contributorId, if r.contributorName == Anonymous && cleanAnonymousLabel then "" else r.contributorName)
  }

  /** The rows of `get_graph_users` resolved to entries keyed by page. */
  function UserEntries(rows: seq<Row>, cleanAnonymous: bool, cleanAnonymousLabel: bool): seq<Entry>
  {
    if rows == [] then []
    else
      var r := rows[|rows| - 1];
      UserEntries(rows[..|rows| - 1], cleanAnonymous, cleanAnonymousLabel)
      + (if Dropped(r, cleanAnonymous) then [] else [Entry(r.pageId, Contributor(r, cleanAnonymousLabel))])
  }

  /** The rows of `get_graph_pages` resolved to entries keyed by contributor. */
  function PageEntries(rows: seq<Row>): seq<Entry>
  {
    if rows == [] then []
    else
      var r := rows[|rows| - 1];
      PageEntries(rows[..|rows| - 1]) + [Entry(r.contributorId, Member(r.pageId, r.pageTitle))]
  }

  /** A key that never occurs has no members. */
  lemma {:induction false} MembersOfAbsent(es: seq<Entry>, k: Key)
    requires k !in KeysOf(es)
    ensures MembersOf(es, k) == []
  {
    if es != [] {
      MembersOfAbsent(es[..|es| - 1], k);
    }
  }

  /**
   * One turn of the grouping loop: a new key starts a one-member list at
   * the end of the dict; a known key gets the member appended unless the
   * same `(id, label)` pair is already in its list.
   */
  lemma GroupStep(es: seq<Entry>, e: Entry)
    ensures var g := GroupEntries(es);
            var g' := GroupEntries(es + [e]);
            g' == if e.key !in g.lists then Grouping(g.keys + [e.key], g.lists[e.key := [e.member]])
                  else if e.member in g.lists[e.key] then g
                  else Grouping(g.keys, g.lists[e.key := g.lists[e.key] + [e.member]])
  {
    KeysStep(es, e);
    DedupSameElements(KeysOf(es));
    DedupAppend(KeysOf(es), e.key);
    ListsStep(es, e);
  }

  /** One more entry appends its key and, under that key only, its member. */
  lemma KeysStep(es: seq<Entry>, e: Entry)
    ensures KeysOf(es + [e]) == KeysOf(es) + [e.key]
    ensures MembersOf(es + [e], e.key) == MembersOf(es, e.key) + [e.member]
    ensures forall k :: k != e.key ==> MembersOf(es + [e], k) == MembersOf(es, k)
  {
    assert (es + [e])[..|es|] == es;
  }

  /** The member lists after one more entry. */
  lemma ListsStep(es: seq<Entry>, e: Entry)
    ensures var l, l' := ListsOf(es), ListsOf(es + [e]);
            l' == if e.key !in l then l[e.key := [e.member]]
                  else if e.member in l[e.key] then l
                  else l[e.key := l[e.key] + [e.member]]
  {
    var l, l' := ListsOf(es), ListsOf(es + [e]);
    KeysStep(es, e);
    var ms := MembersOf(es, e.key);
    DedupAppend(ms, e.member);
    assert l'.Keys == l.Keys + {e.key};
    forall x | x in l && x != e.key ensures l'[x] == l[x] {
    }
    if e.key !in l {
      MembersOfAbsent(es, e.key);
      assert ms + [e.member] == [e.member];
      MapUpdate(l, l', e.key, [e.member]);
    } else {
      MapUpdate(l, l', e.key, Dedup(ms + [e.member]));
    }
  }

  /** Map extensionality for a one-key update. */
  lemma MapUpdate(m: map<Key, seq<Member>>, m': map<Key, seq<Member>>, k: Key, v: seq<Member>)
    requires m'.Keys == m.Keys + {k}
    requires k in m' && m'[k] == v
    requires forall x :: x in m && x != k ==> m'[x] == m[x]
    ensures m' == m[k := v]
  {
  }

  /**
   * `get_graph_users`, lines 28-40: group the contributors of the rows by
   * page, dropping anonymous rows or blanking their names when asked to.
   */
  method GroupByPage(rows: seq<Row>, cleanAnonymous: bool, cleanAnonymousLabel: bool) returns (g: Grouping)
    ensures g == GroupEntries(UserEntries(rows, cleanAnonymous, cleanAnonymousLabel))
  {
    var keys: seq<Key> := [];
    var lists: map<Key, seq<Member>> := map[];
    var i := 0;
    while i < |rows|
      invariant i <= |rows|
      invariant Grouping(keys, lists) == GroupEntries(UserEntries(rows[..i], cleanAnonymous, cleanAnonymousLabel))
    {
      var es := UserEntries(rows[..i], cleanAnonymous, cleanAnonymousLabel);
      assert rows[..i + 1][..i] == rows[..i];
      var pageId := rows[i].pageId;
      var contributorId := rows[i].contributorId;
      var contributorName := rows[i].contributorName;
      if contributorName == Anonymous && cleanAnonymous {
        assert UserEntries(rows[..i + 1], cleanAnonymous, cleanAnonymousLabel) == es;
        i := i + 1;
        continue;
      }
      if contributorName == Anonymous && cleanAnonymousLabel {
        contributorName := "";
      }
      var m := Member(contributorId, contributorName);
      assert UserEntries(rows[..i + 1], cleanAnonymous, cleanAnonymousLabel) == es + [Entry(pageId, m)];
      GroupStep(es, Entry(pageId, m));
      if pageId !in lists {
        keys := keys + [pageId];
        lists := lists[pageId := [m]];
      } else if m !in lists[pageId] {
        lists := lists[pageId := lists[pageId] + [m]];
      }
      i := i + 1;
    }
    assert rows[..i] == rows;
    g := Grouping(keys, lists);
  }

  /**
   * `get_graph_pages`, lines 49-57: group the pages of the rows by
   * contributor id.
   */
  method GroupByContributor(rows: seq<Row>) returns (g: Grouping)
    ensures g == GroupEntries(PageEntries(rows))
  {
    var keys: seq<Key> := [];
    var lists: map<Key, seq<Member>> := map[];
    var i := 0;
    while i < |rows|
      invariant i <= |rows|
      invariant Grouping(keys, lists) == GroupEntries(PageEntries(rows[..i]))
    {
      var es := PageEntries(rows[..i]);
      assert rows[..i + 1][..i] == rows[..i];
      var pageId := rows[i].pageId;
      var pageTitle := rows[i].pageTitle;
      var contributorId := rows[i].contributorId;
      var m := Member(pageId, pageTitle);
      assert PageEntries(rows[..i + 1]) == es + [Entry(contributorId, m)];
      GroupStep(es, Entry(contributorId, m));
      if contributorId !in lists {
        keys := keys + [contributorId];
        lists := lists[contributorId := [m]];
      } else if m !in lists[contributorId] {
        lists := lists[contributorId := lists[contributorId] + [m]];
      }
      i := i + 1;
    }
    assert rows[..i] == rows;
    g := Grouping(keys, lists);
  }

  // ---------------------------------------------------------------------
  // Properties of the grouping

  /** A key occurs in the entries exactly when some entry has it. */
  lemma {:induction false} KeysOfElements(es: seq<Entry>, k: Key)
    ensures k in KeysOf(es) <==> exists m :: Entry(k, m) in es
  {
    if es != [] {
      var p := es[..|es| - 1];
      var e := es[|es| - 1];
      assert es == p + [e];
      KeysOfElements(p, k);
      if k in KeysOf(es) && k !in KeysOf(p) {
        assert Entry(k, e.member) in es;
      }
      if exists m :: Entry(k, m) in es {
        var m :| Entry(k, m) in es;
        if Entry(k, m) in p {
          assert k in KeysOf(p);
        }
      }
    }
  }

  /** A member occurs under key `k` exactly when some entry adds it there. */
  lemma {:induction false} MembersOfElements(es: seq<Entry>, k: Key, m: Member)
    ensures m in MembersOf(es, k) <==> Entry(k, m) in es
  {
    if es != [] {
      var p := es[..|es| - 1];
      assert es == p + [es[|es| - 1]];
      MembersOfElements(p, k, m);
    }
  }

  /**
   * Every group is a non-empty list without duplicate `(id, label)` pairs,
   * and it holds exactly the members the entries add under its key.
   */
  lemma GroupContents(es: seq<Entry>, k: Key, m: Member)
    ensures var g := GroupEntries(es);
            (k in g.lists && m in g.lists[k]) <==> Entry(k, m) in es
    ensures var g := GroupEntries(es);
            k in g.lists ==> g.lists[k] != [] && NoDup(g.lists[k])
  {
    var g := GroupEntries(es);
    KeysOfElements(es, k);
    MembersOfElements(es, k, m);
    DedupElements(MembersOf(es, k), m);
    if k in g.lists {
      DedupNoDup(MembersOf(es, k));
      var m' :| Entry(k, m') in es;
      MembersOfElements(es, k, m');
      DedupElements(MembersOf(es, k), m');
    }
  }

  /**
   * A group lists its members in order of first appearance: of two listed
   * members, the earlier one was first added by an earlier row.
   */
  lemma GroupOrder(es: seq<Entry>, k: Key, i: nat, j: nat)
    requires k in GroupEntries(es).lists && i < j < |GroupEntries(es).lists[k]|
    ensures var l := GroupEntries(es).lists[k];
            l[i] in MembersOf(es, k) && l[j] in MembersOf(es, k)
            && FirstIndex(MembersOf(es, k), l[i]) < FirstIndex(MembersOf(es, k), l[j])
  {
    DedupOrder(MembersOf(es, k), i, j);
  }

  /** The entries of `get_graph_users` are exactly the kept rows. */
  lemma {:induction false} UserEntriesElements(rows: seq<Row>, cleanAnonymous: bool, cleanAnonymousLabel: bool, e: Entry)
    ensures e in UserEntries(rows, cleanAnonymous, cleanAnonymousLabel)
            <==> exists i :: 0 <= i < |rows| && !Dropped(rows[i], cleanAnonymous)
                             && e == Entry(rows[i].pageId, Contributor(rows[i], cleanAnonymousLabel))
  {
    if rows != [] {
      var p := rows[..|rows| - 1];
      UserEntriesElements(p, cleanAnonymous, cleanAnonymousLabel, e);
      if exists i :: 0 <= i < |rows| && !Dropped(rows[i], cleanAnonymous)
                     && e == Entry(rows[i].pageId, Contributor(rows[i], cleanAnonymousLabel)) {
        var i :| 0 <= i < |rows| && !Dropped(rows[i], cleanAnonymous)
                 && e == Entry(rows[i].pageId, Contributor(rows[i], cleanAnonymousLabel));
        if i < |p| {
          assert p[i] == rows[i];
        }
      }
      if e in UserEntries(p, cleanAnonymous, cleanAnonymousLabel) {
        var i :| 0 <= i < |p| && !Dropped(p[i], cleanAnonymous)
                 && e == Entry(p[i].pageId, Contributor(p[i], cleanAnonymousLabel));
        assert rows[i] == p[i];
      }
    }
  }

  /**
   * `get_graph_users` groups: contributor `m` is listed under page `k`
   * exactly when some kept row of page `k` resolves to `m`.
   */
  lemma UserGroupMembers(rows: seq<Row>, cleanAnonymous: bool, cleanAnonymousLabel: bool, k: Key, m: Member)
    ensures var g := GroupEntries(UserEntries(rows, cleanAnonymous, cleanAnonymousLabel));
            (k in g.lists && m in g.lists[k])
            <==> exists i :: 0 <= i < |rows| && rows[i].pageId == k && !Dropped(rows[i], cleanAnonymous)
                             && m == Contributor(rows[i], cleanAnonymousLabel)
  {
    var es := UserEntries(rows, cleanAnonymous, cleanAnonymousLabel);
    GroupContents(es, k, m);
    UserEntriesElements(rows, cleanAnonymous, cleanAnonymousLabel, Entry(k, m));
  }

  /**
   * With `clean_anonymous` no anonymous row contributes: no member of any
   * group carries the name "Anonymous", and the label switch makes no
   * difference (dropping takes priority over relabelling).
   */
  lemma {:induction false} AnonymousDropped(rows: seq<Row>, cleanAnonymousLabel: bool)
    ensures UserEntries(rows, true, cleanAnonymousLabel) == UserEntries(rows, true, false)
    ensures var g := GroupEntries(UserEntries(rows, true, cleanAnonymousLabel));
            forall k, m :: k in g.lists && m in g.lists[k] ==> m.name != Anonymous
  {
    if rows != [] {
      AnonymousDropped(rows[..|rows| - 1], cleanAnonymousLabel);
    }
    var g := GroupEntries(UserEntries(rows, true, cleanAnonymousLabel));
    forall k, m | k in g.lists && m in g.lists[k] ensures m.name != Anonymous {
      UserGroupMembers(rows, true, cleanAnonymousLabel, k, m);
    }
  }

  /**
   * With only `clean_anonymous_label`, an anonymous row stays in its
   * page's group with the empty label, and no member is labelled
   * "Anonymous".
   */
  lemma AnonymousRelabelled(rows: seq<Row>)
    ensures var g := GroupEntries(UserEntries(rows, false, true));
            forall i :: 0 <= i < |rows| && rows[i].contributorName == Anonymous
              ==> rows[i].pageId in g.lists && Member(rows[i].contributorId, "") in g.lists[rows[i].pageId]
    ensures var g := GroupEntries(UserEntries(rows, false, true));
            forall k, m :: k in g.lists && m in g.lists[k] ==> m.name != Anonymous
  {
    var g := GroupEntries(UserEntries(rows, false, true));
    forall i | 0 <= i < |rows| && rows[i].contributorName == Anonymous
      ensures rows[i].pageId in g.lists && Member(rows[i].contributorId, "") in g.lists[rows[i].pageId]
    {
      UserGroupMembers(rows, false, true, rows[i].pageId, Member(rows[i].contributorId, ""));
    }
    forall k, m | k in g.lists && m in g.lists[k] ensures m.name != Anonymous {
      UserGroupMembers(rows, false, true, k, m);
    }
  }

  /** The entries of `get_graph_pages` are exactly the rows. */
  lemma {:induction false} PageEntriesElements(rows: seq<Row>, e: Entry)
    ensures e in PageEntries(rows)
            <==> exists i :: 0 <= i < |rows| && e == Entry(rows[i].contributorId, Member(rows[i].pageId, rows[i].pageTitle))
  {
    if rows != [] {
      var p := rows[..|rows| - 1];
      PageEntriesElements(p, e);
      if exists i :: 0 <= i < |rows| && e == Entry(rows[i].contributorId, Member(rows[i].pageId, rows[i].pageTitle)) {
        var i :| 0 <= i < |rows| && e == Entry(rows[i].contributorId, Member(rows[i].pageId, rows[i].pageTitle));
        if i < |p| {
          assert p[i] == rows[i];
        }
      }
      if e in PageEntries(p) {
        var i :| 0 <= i < |p| && e == Entry(p[i].contributorId, Member(p[i].pageId, p[i].pageTitle));
        assert rows[i] == p[i];
      }
    }
  }

  /**
   * `get_graph_pages` groups: page `m` is listed under contributor `k`
   * exactly when some row by `k` edits `m`.
   */
  lemma PageGroupMembers(rows: seq<Row>, k: Key, m: Member)
    ensures var g := GroupEntries(PageEntries(rows));
            (k in g.lists && m in g.lists[k])
            <==> exists i :: 0 <= i < |rows| && rows[i].contributorId == k && m == Member(rows[i].pageId, rows[i].pageTitle)
  {
    GroupContents(PageEntries(rows), k, m);
    PageEntriesElements(rows, Entry(k, m));
  }
}
