/** What myMenus guarantees, proved about the functions that specify its steps:
    which menus become nodes, where each node is attached, the order of
    siblings, how each node is shaped, and that the forest shows every node at
    most once (exactly once when no parent chain is cyclic). */
module MenuTreeProofs {
  import opened Collections
  import opened Schema
  import opened MenuController

  // ---------------------------------------------------------------------------
  // The map of nodes

  /** The last row carrying `id`: the one whose node `$byId` keeps. */
  function LastRowWith(rows: seq<MenuRow>, id: int): (r: MenuRow)
    requires id in Ids(rows)
    ensures r in rows && r.id == id
  {
    var last := rows[|rows| - 1];
    if last.id == id then last else LastRowWith(rows[..|rows| - 1], id)
  }

  /** The node stored for `id` is the shaping of the last row with that id. */
  lemma {:induction false} NodeMapFromLastRow(rows: seq<MenuRow>, id: int)
    requires id in Ids(rows)
    ensures id in NodeMap(rows) && NodeMap(rows)[id] == MakeNode(LastRowWith(rows, id))
  {
    var last := rows[|rows| - 1];
    if last.id != id {
      NodeMapFromLastRow(rows[..|rows| - 1], id);
    }
  }

  /** Rows with equal ids are equal rows (true of any join on the catalog). */
  ghost predicate Consistent(rows: seq<MenuRow>) {
    forall i, j :: 0 <= i < |rows| && 0 <= j < |rows| && rows[i].id == rows[j].id ==> rows[i] == rows[j]
  }

  /** Duplicate rows collapse: with consistent rows every row's id maps to that row's node. */
  lemma DuplicatesCollapse(rows: seq<MenuRow>, i: int)
    requires Consistent(rows) && 0 <= i < |rows|
    ensures rows[i].id in NodeMap(rows) && NodeMap(rows)[rows[i].id] == MakeNode(rows[i])
  {
    assert rows[i].id in Ids(rows);
    NodeMapFromLastRow(rows, rows[i].id);
    var r := LastRowWith(rows, rows[i].id);
    var j :| 0 <= j < |rows| && rows[j] == r;
  }

  /** The nodes are exactly the permitted active menus, each built from its
      catalog entry and appearing once in the key order; a user without roles
      selects no rows. */
  lemma QuerySelectsPermitted(rows: seq<MenuRow>, catalog: map<int, Menu>, grants: set<Grant>, roleIds: set<int>)
    requires IsMenuQuery(rows, catalog, grants, roleIds)
    ensures Consistent(rows)
    ensures forall id :: id in NodeMap(rows) <==> Permitted(catalog, grants, roleIds, id)
    ensures forall id :: id in NodeMap(rows) ==> NodeMap(rows)[id] == MakeNode(RowOf(id, catalog[id]))
    ensures NoDup(Dedup(Ids(rows))) && forall id :: id in Dedup(Ids(rows)) <==> id in NodeMap(rows)
    ensures roleIds == {} ==> rows == []
  {
    var m := NodeMap(rows);
    forall id | id in m ensures Permitted(catalog, grants, roleIds, id) && m[id] == MakeNode(RowOf(id, catalog[id])) {
      NodeMapFromLastRow(rows, id);
      var r := LastRowWith(rows, id);
      var j :| 0 <= j < |rows| && rows[j] == r;
    }
    forall id | Permitted(catalog, grants, roleIds, id) ensures id in m {
      var j :| 0 <= j < |rows| && rows[j] == RowOf(id, catalog[id]);
      assert Ids(rows)[j] == id;
    }
    if rows != [] {
      assert Permitted(catalog, grants, roleIds, rows[0].id);
      var r :| r in roleIds && Grant(r, rows[0].id) in grants;
    }
  }

  /** Each id of the answer carries the catalog's columns for that id. */
  lemma QueryRowsFromCatalog(rows: seq<MenuRow>, catalog: map<int, Menu>, grants: set<Grant>, roleIds: set<int>, id: int)
    requires IsMenuQuery(rows, catalog, grants, roleIds) && id in Ids(rows)
    ensures id in catalog && LastRowWith(rows, id) == RowOf(id, catalog[id])
  {
    var r := LastRowWith(rows, id);
    var j :| 0 <= j < |rows| && rows[j] == r;
  }

  // ---------------------------------------------------------------------------
  // Attaching under parents

  /** A sub-list keeps the absence of duplicates. */
  lemma {:induction false} FiltersKeepDistinct(ids: seq<int>, byId: map<int, Node>, p: int)
    requires NoDup(ids)
    ensures NoDup(RootsOf(ids, byId)) && NoDup(ChildrenOf(ids, byId, p))
  {
    if ids != [] {
      var init := ids[..|ids| - 1];
      assert NoDup(init);
      FiltersKeepDistinct(init, byId, p);
      assert ids[|ids| - 1] !in init;
    }
  }

  /** After linking, every node is placed exactly once: it is a root exactly
      when its `parent_id` is empty or not among the nodes, and otherwise it is
      in the children list of its parent and of no other node. No list holds a
      node twice. */
  lemma PlacedOnce(rows: seq<MenuRow>)
    ensures var order := Dedup(Ids(rows));
      var byId := NodeMap(rows);
      var linked := Linked(order, byId);
      var roots := RootsOf(order, byId);
      && linked.Keys == byId.Keys
      && NoDup(roots)
      && (forall k :: k in roots <==> k in byId && (EmptyId(byId[k].parentId) || byId[k].parentId.value !in byId))
      && (forall k, p :: p in linked && k in linked[p].children <==>
            k in byId && !EmptyId(byId[k].parentId) && byId[k].parentId.value == p && p in byId)
      && (forall p :: p in linked ==> NoDup(linked[p].children))
  {
    var order := Dedup(Ids(rows));
    var byId := NodeMap(rows);
    var linked := Linked(order, byId);
    FiltersKeepDistinct(order, byId, 0);
    forall p | p in linked ensures NoDup(linked[p].children) {
      FiltersKeepDistinct(order, byId, p);
      assert linked[p].children == ChildrenOf(order, byId, p);
    }
    forall k, p | p in linked && k in linked[p].children
      ensures k in byId && !EmptyId(byId[k].parentId) && byId[k].parentId.value == p
    {
      assert linked[p].children == ChildrenOf(order, byId, p);
    }
  }

  // ---------------------------------------------------------------------------
  // Order of siblings and roots

  /** The sort key of the row the node of `id` comes from. */
  function KeyOfId(rows: seq<MenuRow>, id: int): (int, int)
    requires id in Ids(rows)
  {
    RowKey(LastRowWith(rows, id))
  }

  /** `ids` lists nodes of `rows` in non-decreasing key order. */
  ghost predicate InKeyOrder(rows: seq<MenuRow>, ids: seq<int>) {
    && (forall i :: 0 <= i < |ids| ==> ids[i] in Ids(rows))
    && (forall i, j :: 0 <= i < j < |ids| ==> KeyLe(KeyOfId(rows, ids[i]), KeyOfId(rows, ids[j])))
  }

  /** Extending the rows by one leaves the key of every earlier id unchanged. */
  lemma KeyOfIdStable(rows: seq<MenuRow>, r: MenuRow, id: int)
    requires Consistent(rows + [r]) && id in Ids(rows)
    ensures Ids(rows + [r]) == Ids(rows) + [r.id]
    ensures id in Ids(rows + [r]) && KeyOfId(rows + [r], id) == KeyOfId(rows, id)
  {
    var rs := rows + [r];
    assert rs[..|rows|] == rows;
    if r.id == id {
      var prior := LastRowWith(rows, id);
      var j :| 0 <= j < |rows| && rows[j] == prior;
      assert rs[j] == prior && rs[|rows|] == r;
    }
  }

  /** The key order of the rows carries over to the key order of `$byId`. */
  lemma {:induction false} NodeOrderFollowsRows(rows: seq<MenuRow>)
    requires SortedRows(rows) && Consistent(rows)
    ensures InKeyOrder(rows, Dedup(Ids(rows)))
  {
    if rows != [] {
      var init := rows[..|rows| - 1];
      var r := rows[|rows| - 1];
      assert rows == init + [r];
      assert Consistent(init) && SortedRows(init);
      NodeOrderFollowsRows(init);
      NodeOrderStep(init, r);
    }
  }

  /** One row more: the key order of `$byId` survives the assignment. */
  lemma NodeOrderStep(init: seq<MenuRow>, r: MenuRow)
    requires SortedRows(init + [r]) && Consistent(init + [r])
    requires InKeyOrder(init, Dedup(Ids(init)))
    ensures InKeyOrder(init + [r], Dedup(Ids(init + [r])))
  {
    var rows := init + [r];
    var prev := Dedup(Ids(init));
    forall id | id in Ids(init) ensures id in Ids(rows) && KeyOfId(rows, id) == KeyOfId(init, id) {
      KeyOfIdStable(init, r, id);
    }
    assert rows[..|rows| - 1] == init;
    assert Ids(rows)[..|Ids(rows)| - 1] == Ids(init);
    if r.id !in prev {
      forall i | 0 <= i < |prev| ensures KeyLe(KeyOfId(rows, prev[i]), KeyOfId(rows, r.id)) {
        KeyBelowLast(init, r, prev[i]);
      }
    }
  }

  /** Every earlier row sorts at or before the last one. */
  lemma KeyBelowLast(init: seq<MenuRow>, r: MenuRow, id: int)
    requires SortedRows(init + [r]) && id in Ids(init)
    ensures KeyLe(KeyOfId(init, id), RowKey(r))
  {
    var w := LastRowWith(init, id);
    var j :| 0 <= j < |init| && init[j] == w;
    assert (init + [r])[j] == w && (init + [r])[|init|] == r;
  }

  /** Taking the roots or the children of one node keeps the key order. */
  lemma {:induction false} FiltersKeepKeyOrder(rows: seq<MenuRow>, ids: seq<int>, byId: map<int, Node>, p: int)
    requires InKeyOrder(rows, ids)
    ensures InKeyOrder(rows, RootsOf(ids, byId)) && InKeyOrder(rows, ChildrenOf(ids, byId, p))
  {
    if ids != [] {
      var init := ids[..|ids| - 1];
      var last := ids[|ids| - 1];
      assert InKeyOrder(rows, init);
      FiltersKeepKeyOrder(rows, init, byId, p);
      forall x | x in init ensures KeyLe(KeyOfId(rows, x), KeyOfId(rows, last)) {
        var i :| 0 <= i < |init| && init[i] == x;
      }
    }
  }

  /** Siblings come out in ascending `order_no` when the database returned the
      rows in key order. */
  lemma SiblingsInOrder(rows: seq<MenuRow>, p: int)
    requires SortedRows(rows) && Consistent(rows)
    ensures var order := Dedup(Ids(rows));
      var kids := ChildrenOf(order, NodeMap(rows), p);
      forall i, j :: 0 <= i < j < |kids| ==>
        kids[i] in Ids(rows) && kids[j] in Ids(rows) &&
        LastRowWith(rows, kids[i]).orderNo <= LastRowWith(rows, kids[j]).orderNo
  {
    var order := Dedup(Ids(rows));
    var byId := NodeMap(rows);
    NodeOrderFollowsRows(rows);
    FiltersKeepKeyOrder(rows, order, byId, p);
    var kids := ChildrenOf(order, byId, p);
    forall i, j | 0 <= i < j < |kids|
      ensures kids[i] in Ids(rows) && kids[j] in Ids(rows)
      ensures LastRowWith(rows, kids[i]).orderNo <= LastRowWith(rows, kids[j]).orderNo
    {
      SiblingKey(rows, kids[i], p);
      SiblingKey(rows, kids[j], p);
      assert KeyLe(KeyOfId(rows, kids[i]), KeyOfId(rows, kids[j]));
    }
  }

  /** A node attached under `p` sorts with key `(p, order_no)`. */
  lemma SiblingKey(rows: seq<MenuRow>, x: int, p: int)
    requires ParentIs(NodeMap(rows), x, p)
    ensures x in Ids(rows) && KeyOfId(rows, x) == (p, LastRowWith(rows, x).orderNo)
  {
    NodeMapFromLastRow(rows, x);
  }

  /** The roots come out in ascending `(COALESCE(parent_id, 0), order_no)`: the
      order of the rows, restricted to the roots. */
  lemma RootsInOrder(rows: seq<MenuRow>)
    requires SortedRows(rows) && Consistent(rows)
    ensures var roots := RootsOf(Dedup(Ids(rows)), NodeMap(rows));
      forall i, j :: 0 <= i < j < |roots| ==>
        roots[i] in Ids(rows) && roots[j] in Ids(rows) &&
        KeyLe(RowKey(LastRowWith(rows, roots[i])), RowKey(LastRowWith(rows, roots[j])))
  {
    NodeOrderFollowsRows(rows);
    FiltersKeepKeyOrder(rows, Dedup(Ids(rows)), NodeMap(rows), 0);
  }

  /** When siblings have distinct `order_no`, their order is fixed: the
      children of `p` are the list `t` of the nodes whose parent is `p`,
      written in strictly ascending `order_no`. */
  lemma ChildrenByDistinctOrder(rows: seq<MenuRow>, p: int, t: seq<int>, ord: int -> int)
    requires SortedRows(rows) && Consistent(rows)
    requires forall x :: x in NodeMap(rows) ==> x in Ids(rows) && LastRowWith(rows, x).orderNo == ord(x)
    requires forall x :: x in t <==> ParentIs(NodeMap(rows), x, p)
    requires forall i, j :: 0 <= i < j < |t| ==> ord(t[i]) < ord(t[j])
    ensures ChildrenOf(Dedup(Ids(rows)), NodeMap(rows), p) == t
  {
    var order := Dedup(Ids(rows));
    var byId := NodeMap(rows);
    var kids := ChildrenOf(order, byId, p);
    FiltersKeepDistinct(order, byId, p);
    NodeOrderFollowsRows(rows);
    FiltersKeepKeyOrder(rows, order, byId, p);
    forall i, j | 0 <= i < j < |t| ensures t[i] != t[j] {
      assert ord(t[i]) < ord(t[j]);
    }
    forall i, j | 0 <= i < j < |kids| ensures ord(kids[i]) <= ord(kids[j]) {
      assert kids[i] in kids && kids[j] in kids;
      SiblingKey(rows, kids[i], p);
      SiblingKey(rows, kids[j], p);
      assert KeyLe(KeyOfId(rows, kids[i]), KeyOfId(rows, kids[j]));
    }
    SortedByDistinctKeys(kids, t, ord);
  }

  /** A root of the map whose row has an empty parent sorts with key
      `(0, order_no)`. */
  lemma RootKey(rows: seq<MenuRow>, x: int)
    requires IsRoot(NodeMap(rows), x) && EmptyId(NodeMap(rows)[x].parentId)
    ensures x in Ids(rows) && KeyOfId(rows, x) == (0, LastRowWith(rows, x).orderNo)
  {
    NodeMapFromLastRow(rows, x);
  }

  /** The same for the roots when none of them has a dangling parent id, so
      that each sorts with key `(0, order_no)`. */
  lemma RootsByDistinctOrder(rows: seq<MenuRow>, t: seq<int>, ord: int -> int)
    requires SortedRows(rows) && Consistent(rows)
    requires forall x :: x in NodeMap(rows) ==> x in Ids(rows) && LastRowWith(rows, x).orderNo == ord(x)
    requires forall x :: x in t <==> IsRoot(NodeMap(rows), x)
    requires forall x :: x in t ==> x in NodeMap(rows) && EmptyId(NodeMap(rows)[x].parentId)
    requires forall i, j :: 0 <= i < j < |t| ==> ord(t[i]) < ord(t[j])
    ensures RootsOf(Dedup(Ids(rows)), NodeMap(rows)) == t
  {
    var order := Dedup(Ids(rows));
    var byId := NodeMap(rows);
    var roots := RootsOf(order, byId);
    FiltersKeepDistinct(order, byId, 0);
    NodeOrderFollowsRows(rows);
    FiltersKeepKeyOrder(rows, order, byId, 0);
    forall i, j | 0 <= i < j < |t| ensures t[i] != t[j] {
      assert ord(t[i]) < ord(t[j]);
    }
    forall i, j | 0 <= i < j < |roots| ensures ord(roots[i]) <= ord(roots[j]) {
      assert roots[i] in roots && roots[j] in roots;
      RootKey(rows, roots[i]);
      RootKey(rows, roots[j]);
      assert KeyLe(KeyOfId(rows, roots[i]), KeyOfId(rows, roots[j]));
    }
    SortedByDistinctKeys(roots, t, ord);
  }

  // ---------------------------------------------------------------------------
  // The shaped forest

  /** What the second loop leaves: `order` lists every node once, and each
      node's children are the nodes attached under it, in `order`. */
  ghost predicate WellLinked(order: seq<int>, nodes: map<int, Node>) {
    && NoDup(order)
    && (forall k :: k in nodes <==> k in order)
    && (forall k :: k in nodes ==> nodes[k].children == ChildrenOf(order, nodes, k))
  }

  /** Two maps with the same keys and the same parent ids. */
  ghost predicate SameParents(a: map<int, Node>, b: map<int, Node>) {
    a.Keys == b.Keys && forall k :: k in a ==> a[k].parentId == b[k].parentId
  }

  /** Roots and children depend only on the keys and the parent ids. */
  lemma {:induction false} SameParentsSameFilters(ids: seq<int>, a: map<int, Node>, b: map<int, Node>, p: int)
    requires SameParents(a, b)
    ensures RootsOf(ids, a) == RootsOf(ids, b) && ChildrenOf(ids, a, p) == ChildrenOf(ids, b, p)
  {
    if ids != [] {
      SameParentsSameFilters(ids[..|ids| - 1], a, b, p);
      var last := ids[|ids| - 1];
      assert IsRoot(a, last) == IsRoot(b, last);
      assert ParentIs(a, last, p) == ParentIs(b, last, p);
    }
  }

  /** The map the two loops build is well linked, and its roots are the roots
      the second loop collected. */
  lemma LinkedIsWellLinked(rows: seq<MenuRow>)
    ensures var order := Dedup(Ids(rows));
      var byId := NodeMap(rows);
      var linked := Linked(order, byId);
      && WellLinked(order, linked)
      && SameParents(byId, linked)
      && RootsOf(order, byId) == RootsOf(order, linked)
  {
    var order := Dedup(Ids(rows));
    var byId := NodeMap(rows);
    var linked := Linked(order, byId);
    assert SameParents(byId, linked);
    SameParentsSameFilters(order, byId, linked, 0);
    forall k | k in linked ensures linked[k].children == ChildrenOf(order, linked, k) {
      SameParentsSameFilters(order, byId, linked, k);
      assert byId[k].children == [];
      assert linked[k].children == [] + ChildrenOf(order, byId, k);
    }
  }

  /** `s` is a path from a root down to its last node, each node attached under
      the one before it. */
  ghost predicate IsChain(nodes: map<int, Node>, s: seq<int>) {
    && |s| > 0
    && (forall j :: 0 <= j < |s| ==> s[j] in nodes)
    && IsRoot(nodes, s[0])
    && (forall j :: 0 < j < |s| ==> ParentIs(nodes, s[j], s[j - 1]))
  }

  lemma {:induction false} ChainDistinctAt(nodes: map<int, Node>, s: seq<int>, i: int, j: int)
    requires IsChain(nodes, s) && 0 <= i < j < |s|
    ensures s[i] != s[j]
    decreases i
  {
    assert ParentIs(nodes, s[j], s[j - 1]);
    if i > 0 {
      assert ParentIs(nodes, s[i], s[i - 1]);
      ChainDistinctAt(nodes, s, i - 1, j - 1);
    }
  }

  /** No node occurs twice on a path from a root. */
  lemma ChainDistinct(nodes: map<int, Node>, s: seq<int>)
    requires IsChain(nodes, s)
    ensures NoDup(s)
  {
    forall i, j | 0 <= i < j < |s| ensures s[i] != s[j] {
      ChainDistinctAt(nodes, s, i, j);
    }
  }

  /** The last node of a path is a root exactly when the path is that node alone. */
  lemma ChainLast(nodes: map<int, Node>, s: seq<int>)
    requires IsChain(nodes, s)
    ensures |s| > 1 <==> !IsRoot(nodes, s[|s| - 1])
  {
    if |s| > 1 {
      assert ParentIs(nodes, s[|s| - 1], s[|s| - 2]);
    }
  }

  /** A node has at most one path from a root: its parent ids determine it. */
  lemma {:induction false} ChainUnique(nodes: map<int, Node>, s: seq<int>, t: seq<int>)
    requires IsChain(nodes, s) && IsChain(nodes, t) && s[|s| - 1] == t[|t| - 1]
    ensures s == t
    decreases |s|
  {
    ChainLast(nodes, s);
    ChainLast(nodes, t);
    if |s| > 1 {
      assert ParentIs(nodes, s[|s| - 1], s[|s| - 2]);
      assert ParentIs(nodes, t[|t| - 1], t[|t| - 2]);
      var s', t' := s[..|s| - 1], t[..|t| - 1];
      assert IsChain(nodes, s') && IsChain(nodes, t');
      ChainUnique(nodes, s', t');
      assert s == s' + [s[|s| - 1]] && t == t' + [t[|t| - 1]];
    }
  }

  /** Every item of `items` continues the path `pre` (for the roots, `pre` is empty). */
  ghost predicate Extends(nodes: map<int, Node>, pre: seq<int>, items: seq<int>) {
    forall i :: 0 <= i < |items| ==> IsChain(nodes, pre + [items[i]])
  }

  /** Every child listed under a node is a node attached under it, and no
      child is listed twice. */
  ghost predicate ChildrenAttached(nodes: map<int, Node>) {
    forall k :: k in nodes ==>
      && NoDup(nodes[k].children)
      && forall c :: c in nodes[k].children ==> c in nodes && ParentIs(nodes, c, k)
  }

  lemma WellLinkedAttached(order: seq<int>, nodes: map<int, Node>)
    requires WellLinked(order, nodes)
    ensures ChildrenAttached(nodes)
  {
    forall k | k in nodes
      ensures NoDup(nodes[k].children)
      ensures forall c :: c in nodes[k].children ==> c in nodes && ParentIs(nodes, c, k)
    {
      FiltersKeepDistinct(order, nodes, k);
    }
  }

  /** The children of the last node of a path continue that path. */
  lemma ChildrenExtend(nodes: map<int, Node>, s: seq<int>)
    requires ChildrenAttached(nodes) && IsChain(nodes, s)
    ensures Extends(nodes, s, nodes[s[|s| - 1]].children)
  {
    var p := s[|s| - 1];
    var kids := nodes[p].children;
    forall i | 0 <= i < |kids| ensures IsChain(nodes, s + [kids[i]]) {
      assert kids[i] in kids;
      var t := s + [kids[i]];
      assert t[|s|] == kids[i] && t[|s| - 1] == p;
      forall j | 0 < j < |t| ensures ParentIs(nodes, t[j], t[j - 1]) {
        if j < |s| {
          assert t[j] == s[j] && t[j - 1] == s[j - 1];
        }
      }
    }
  }

  /** The guard of `Clean` lets a node continuing the path through, and the set
      passed below it is the set of nodes off the longer path. */
  lemma GuardPasses(nodes: map<int, Node>, pre: seq<int>, c: int)
    requires IsChain(nodes, pre + [c])
    ensures c in nodes && c in nodes.Keys - Elems(pre)
    ensures (nodes.Keys - Elems(pre)) - {c} == nodes.Keys - Elems(pre + [c])
  {
    var s := pre + [c];
    ChainDistinct(nodes, s);
    assert s[|pre|] == c;
    forall i | 0 <= i < |pre| ensures pre[i] != c {
      assert s[i] == pre[i];
    }
    assert Elems(pre + [c]) == Elems(pre) + {c};
  }

  /** Nothing the guard would drop: each item is cleaned in place. */
  lemma {:induction false} CleanAll(items: seq<int>, nodes: map<int, Node>, avail: set<int>)
    requires forall i :: 0 <= i < |items| ==> items[i] in avail && items[i] in nodes
    ensures |Clean(items, nodes, avail)| == |items|
    ensures forall i :: 0 <= i < |items| ==> Clean(items, nodes, avail)[i] == CleanItem(items[i], nodes, avail)
  {
    if items != [] {
      CleanAll(items[1..], nodes, avail);
      var out := Clean(items, nodes, avail);
      assert out == [CleanItem(items[0], nodes, avail)] + Clean(items[1..], nodes, avail);
    }
  }

  /** Shaping a list whose first node is available renders that node first. */
  lemma CleanCons(x: int, rest: seq<int>, nodes: map<int, Node>, avail: set<int>)
    requires x in avail && x in nodes
    ensures Clean([x] + rest, nodes, avail) == [CleanItem(x, nodes, avail)] + Clean(rest, nodes, avail)
  {
    assert ([x] + rest)[1..] == rest;
  }

  /** An available node with children renders as the group of its rendered
      children. */
  lemma GroupRendered(nodes: map<int, Node>, k: int, avail: set<int>, items: seq<NavItem>)
    requires k in avail && k in nodes && nodes[k].children != []
    requires Clean(nodes[k].children, nodes, avail - {k}) == items
    ensures CleanItem(k, nodes, avail) == Group(nodes[k].title, nodes[k].icon, items)
  {
  }

  /** A list of nodes continuing a path is cleaned item by item, none dropped. */
  lemma CleanKeepsAllChildren(nodes: map<int, Node>, pre: seq<int>, items: seq<int>)
    requires Extends(nodes, pre, items)
    ensures forall i :: 0 <= i < |items| ==> items[i] in nodes.Keys - Elems(pre) && items[i] in nodes
    ensures |Clean(items, nodes, nodes.Keys - Elems(pre))| == |items|
    ensures forall i :: 0 <= i < |items| ==>
      Clean(items, nodes, nodes.Keys - Elems(pre))[i] == CleanItem(items[i], nodes, nodes.Keys - Elems(pre))
  {
    forall i | 0 <= i < |items| ensures items[i] in nodes.Keys - Elems(pre) && items[i] in nodes {
      GuardPasses(nodes, pre, items[i]);
    }
    CleanAll(items, nodes, nodes.Keys - Elems(pre));
  }

  /** The ids `Clean` renders, in preorder: each node that passes the guard,
      followed by the nodes rendered beneath it. */
  ghost function Visited(items: seq<int>, nodes: map<int, Node>, avail: set<int>): seq<int>
    decreases avail, |items|
  {
    if items == [] then []
    else if items[0] in avail && items[0] in nodes then
      VisitedItem(items[0], nodes, avail) + Visited(items[1..], nodes, avail)
    else Visited(items[1..], nodes, avail)
  }

  ghost function VisitedItem(id: int, nodes: map<int, Node>, avail: set<int>): seq<int>
    requires id in avail && id in nodes
    decreases avail, 0
  {
    [id] + Visited(nodes[id].children, nodes, avail - {id})
  }

  /** The number of entries of a rendered forest, groups and leaves alike. */
  function ItemCount(items: seq<NavItem>): nat {
    if items == [] then 0
    else
      (match items[0]
        case Leaf(_, _, _) => 1
        case Group(_, _, children) => 1 + ItemCount(children))
      + ItemCount(items[1..])
  }

  /** `Clean` renders as many entries as it visits ids. */
  lemma {:induction false} CountMatchesVisit(items: seq<int>, nodes: map<int, Node>, avail: set<int>)
    ensures ItemCount(Clean(items, nodes, avail)) == |Visited(items, nodes, avail)|
    decreases avail, |items|
  {
    if items != [] {
      var rest := Clean(items[1..], nodes, avail);
      CountMatchesVisit(items[1..], nodes, avail);
      if items[0] in avail && items[0] in nodes {
        var id := items[0];
        var item := CleanItem(id, nodes, avail);
        var out := [item] + rest;
        assert Clean(items, nodes, avail) == out;
        assert out[0] == item && out[1..] == rest;
        CountMatchesVisit(nodes[id].children, nodes, avail - {id});
      } else {
        assert Clean(items, nodes, avail) == rest;
      }
    }
  }

  /** Every id `Clean` visits is the end of a path from a root through one of
      the items. */
  lemma {:induction false} VisitedHasChain(nodes: map<int, Node>, pre: seq<int>, items: seq<int>, v: int)
    returns (i: nat, t: seq<int>)
    requires ChildrenAttached(nodes) && Extends(nodes, pre, items)
    requires v in Visited(items, nodes, nodes.Keys - Elems(pre))
    ensures i < |items| && IsChain(nodes, t) && t[|t| - 1] == v
    ensures |pre| < |t| && t[..|pre| + 1] == pre + [items[i]]
    decreases nodes.Keys - Elems(pre), |items|
  {
    var avail := nodes.Keys - Elems(pre);
    var c := items[0];
    GuardPasses(nodes, pre, c);
    var here := VisitedItem(c, nodes, avail);
    assert Visited(items, nodes, avail) == here + Visited(items[1..], nodes, avail);
    if v in here {
      if v == c {
        i, t := 0, pre + [c];
        assert t[..|pre| + 1] == t;
      } else {
        var kids := nodes[c].children;
        assert v in Visited(kids, nodes, avail - {c});
        ChildrenExtend(nodes, pre + [c]);
        var i0, t0 := VisitedHasChain(nodes, pre + [c], kids, v);
        i, t := 0, t0;
        assert t[..|pre| + 1] == t[..|pre| + 2][..|pre| + 1];
        assert (pre + [c] + [kids[i0]])[..|pre| + 1] == pre + [c];
      }
    } else {
      var tail := items[1..];
      assert Extends(nodes, pre, tail);
      var i0, t0 := VisitedHasChain(nodes, pre, tail, v);
      assert tail[i0] == items[i0 + 1];
      i, t := i0 + 1, t0;
    }
  }

  /** `Clean` visits no id twice. */
  lemma {:induction false} VisitedOnce(nodes: map<int, Node>, pre: seq<int>, items: seq<int>)
    requires ChildrenAttached(nodes) && Extends(nodes, pre, items) && NoDup(items)
    ensures NoDup(Visited(items, nodes, nodes.Keys - Elems(pre)))
    decreases nodes.Keys - Elems(pre), |items|
  {
    if items != [] {
      var avail := nodes.Keys - Elems(pre);
      var c := items[0];
      GuardPasses(nodes, pre, c);
      var kids := nodes[c].children;
      var below := Visited(kids, nodes, avail - {c});
      var here := VisitedItem(c, nodes, avail);
      assert here == [c] + below;
      ChildrenExtend(nodes, pre + [c]);
      assert c in nodes;
      VisitedOnce(nodes, pre + [c], kids);
      if c in below {
        var i0, t0 := VisitedHasChain(nodes, pre + [c], kids, c);
        assert IsChain(nodes, pre + [c]) && |pre + [c]| < |t0|;
        ChainUnique(nodes, t0, pre + [c]);
        assert false;
      }
      NoDupConcat([c], below);
      var restItems := items[1..];
      assert Extends(nodes, pre, restItems) && NoDup(restItems);
      VisitedOnce(nodes, pre, restItems);
      var rest := Visited(restItems, nodes, avail);
      assert Visited([c], nodes, avail) == here + Visited([], nodes, avail);
      assert Extends(nodes, pre, [c]);
      forall v | v in here ensures v !in rest {
        if v in rest {
          var i1, t1 := VisitedHasChain(nodes, pre, [c], v);
          var i2, t2 := VisitedHasChain(nodes, pre, restItems, v);
          assert t1[|pre|] == t1[..|pre| + 1][|pre|] == c;
          assert t2[|pre|] == t2[..|pre| + 1][|pre|] == restItems[i2];
          assert restItems[i2] == items[i2 + 1] != c;
          ChainUnique(nodes, t1, t2);
          assert false;
        }
      }
      NoDupConcat(here, rest);
      assert Visited(items, nodes, avail) == here + rest;
    }
  }

  /** Every path from a root through one of the items ends at a visited id. */
  lemma {:induction false} ChainIsVisited(order: seq<int>, nodes: map<int, Node>, pre: seq<int>, items: seq<int>, t: seq<int>)
    requires WellLinked(order, nodes) && Extends(nodes, pre, items)
    requires IsChain(nodes, t) && |pre| < |t| && t[..|pre|] == pre && t[|pre|] in items
    ensures t[|t| - 1] in Visited(items, nodes, nodes.Keys - Elems(pre))
    decreases nodes.Keys - Elems(pre), |items|
  {
    var avail := nodes.Keys - Elems(pre);
    var c := items[0];
    GuardPasses(nodes, pre, c);
    WellLinkedAttached(order, nodes);
    var here := VisitedItem(c, nodes, avail);
    assert Visited(items, nodes, avail) == here + Visited(items[1..], nodes, avail);
    if t[|pre|] == c {
      if |t| > |pre| + 1 {
        var kids := nodes[c].children;
        var next := t[|pre| + 1];
        assert ParentIs(nodes, next, c);
        assert next in order;
        assert next in kids;
        ChildrenExtend(nodes, pre + [c]);
        assert t[..|pre| + 1] == pre + [c];
        ChainIsVisited(order, nodes, pre + [c], kids, t);
        assert here == [c] + Visited(kids, nodes, avail - {c});
      }
    } else {
      assert t[|pre|] in items[1..];
      assert Extends(nodes, pre, items[1..]);
      ChainIsVisited(order, nodes, pre, items[1..], t);
    }
  }

  /** IsChain depends only on the keys and the parent ids. */
  lemma ChainSameParents(a: map<int, Node>, b: map<int, Node>, t: seq<int>)
    requires SameParents(a, b)
    ensures IsChain(a, t) <==> IsChain(b, t)
  {
    if |t| > 0 && t[0] in a {
      assert IsRoot(a, t[0]) == IsRoot(b, t[0]);
    }
  }

  /** Node `v` hangs below a root through its chain of parent ids. */
  ghost predicate HasRootChain(nodes: map<int, Node>, v: int) {
    exists t :: IsChain(nodes, t) && t[|t| - 1] == v
  }

  /** The roots of a well-linked map start paths of their own, each once. */
  lemma RootsExtend(order: seq<int>, nodes: map<int, Node>)
    requires WellLinked(order, nodes)
    ensures Extends(nodes, [], RootsOf(order, nodes)) && NoDup(RootsOf(order, nodes))
    ensures nodes.Keys - Elems([]) == nodes.Keys
  {
    var roots := RootsOf(order, nodes);
    assert nodes.Keys - Elems([]) == nodes.Keys;
    forall i | 0 <= i < |roots| ensures IsChain(nodes, [] + [roots[i]]) {
      assert roots[i] in roots;
      assert [] + [roots[i]] == [roots[i]];
    }
    FiltersKeepDistinct(order, nodes, 0);
  }

  /** A node is visited from the roots exactly when its parent chain leads up
      to a root. */
  lemma ShownIffRootChain(order: seq<int>, byId: map<int, Node>, nodes: map<int, Node>, v: int)
    requires WellLinked(order, nodes) && SameParents(byId, nodes)
    ensures v in Visited(RootsOf(order, nodes), nodes, nodes.Keys) <==> v in byId && HasRootChain(byId, v)
  {
    var roots := RootsOf(order, nodes);
    RootsExtend(order, nodes);
    WellLinkedAttached(order, nodes);
    if v in Visited(roots, nodes, nodes.Keys) {
      var i, t := VisitedHasChain(nodes, [], roots, v);
      ChainSameParents(byId, nodes, t);
    }
    if v in byId && HasRootChain(byId, v) {
      var t :| IsChain(byId, t) && t[|t| - 1] == v;
      ChainSameParents(byId, nodes, t);
      assert t[0] in order;
      assert t[0] in roots;
      ChainIsVisited(order, nodes, [], roots, t);
    }
  }

  /** Shaping a well-linked map from its roots renders one entry per visited
      id, visits no node twice, and visits exactly the nodes of `byId` (a map
      with the same parents) whose parent chain leads up to a root. */
  lemma ShownOnce(order: seq<int>, byId: map<int, Node>, nodes: map<int, Node>)
    requires WellLinked(order, nodes) && SameParents(byId, nodes)
    ensures var shown := Visited(RootsOf(order, nodes), nodes, nodes.Keys);
      && ItemCount(Clean(RootsOf(order, nodes), nodes, nodes.Keys)) == |shown|
      && NoDup(shown)
      && (forall v :: v in shown <==> v in byId && HasRootChain(byId, v))
  {
    var roots := RootsOf(order, nodes);
    RootsExtend(order, nodes);
    CountMatchesVisit(roots, nodes, nodes.Keys);
    WellLinkedAttached(order, nodes);
    VisitedOnce(nodes, [], roots);
    forall v ensures v in Visited(roots, nodes, nodes.Keys) <==> v in byId && HasRootChain(byId, v) {
      ShownIffRootChain(order, byId, nodes, v);
    }
  }

  /** The rendered forest of `myMenus`: it has one entry per visited id, it
      visits no node twice, and it visits exactly the nodes whose parent
      chain leads up to a root. */
  lemma ForestShowsNodesOnce(rows: seq<MenuRow>)
    ensures var order := Dedup(Ids(rows));
      var byId := NodeMap(rows);
      var linked := Linked(order, byId);
      var shown := Visited(RootsOf(order, byId), linked, linked.Keys);
      && ItemCount(Forest(rows)) == |shown|
      && NoDup(shown)
      && (forall v :: v in shown <==> v in byId && HasRootChain(byId, v))
  {
    var order := Dedup(Ids(rows));
    var byId := NodeMap(rows);
    var linked := Linked(order, byId);
    LinkedIsWellLinked(rows);
    ShownOnce(order, byId, linked);
  }

  /** Every node leads up to a root: no parent chain loops. */
  ghost predicate Acyclic(nodes: map<int, Node>) {
    forall k :: k in nodes ==> HasRootChain(nodes, k)
  }

  /** Without loops in the parent chains, shaping shows every node once. */
  lemma ShownAll(order: seq<int>, byId: map<int, Node>, nodes: map<int, Node>)
    requires WellLinked(order, nodes) && SameParents(byId, nodes) && Acyclic(byId)
    ensures ItemCount(Clean(RootsOf(order, nodes), nodes, nodes.Keys)) == |nodes.Keys|
  {
    var shown := Visited(RootsOf(order, nodes), nodes, nodes.Keys);
    ShownOnce(order, byId, nodes);
    forall v ensures v in shown <==> v in nodes.Keys {
      if v in nodes {
        assert v in byId && HasRootChain(byId, v);
      }
    }
    CountOfCover(shown, nodes.Keys);
  }

  /** Without loops in the parent chains (the shape every menu catalog is meant
      to have), the rendered forest shows each selected menu exactly once. */
  lemma AcyclicForestShowsAll(rows: seq<MenuRow>)
    requires Acyclic(NodeMap(rows))
    ensures ItemCount(Forest(rows)) == |NodeMap(rows).Keys|
  {
    var order := Dedup(Ids(rows));
    var byId := NodeMap(rows);
    var linked := Linked(order, byId);
    LinkedIsWellLinked(rows);
    ShownAll(order, byId, linked);
    assert linked.Keys == byId.Keys;
  }

  /** How shaping renders a node it reaches along its path `s` from a root: the
      node's title and icon, a group exactly when it has children, with one
      entry per child in child order (none dropped), and otherwise a leaf with
      the node's target or `#`. */
  lemma RenderedAlongPath(order: seq<int>, nodes: map<int, Node>, s: seq<int>)
    requires WellLinked(order, nodes) && IsChain(nodes, s)
    ensures var id := s[|s| - 1];
      var avail := nodes.Keys - Elems(s[..|s| - 1]);
      var n := nodes[id];
      && id in avail
      && (forall i :: 0 <= i < |n.children| ==> n.children[i] in avail - {id} && n.children[i] in nodes)
      && (var item := CleanItem(id, nodes, avail);
          && item.title == n.title
          && item.icon == n.icon
          && (item.Group? <==> n.children != [])
          && (item.Leaf? ==> item.to == LeafTarget(n))
          && (item.Group? ==>
                && |item.children| == |n.children|
                && forall i :: 0 <= i < |n.children| ==>
                     item.children[i] == CleanItem(n.children[i], nodes, avail - {id})))
  {
    var id := s[|s| - 1];
    var init := s[..|s| - 1];
    assert s == init + [id];
    GuardPasses(nodes, init, id);
    WellLinkedAttached(order, nodes);
    ChildrenExtend(nodes, s);
    CleanKeepsAllChildren(nodes, s, nodes[id].children);
  }

  /** A node of the linked map, read back in terms of the last row with its id:
      the row's name as title, its icon when not empty, the leaf target rule
      (the path when not empty, else the route name when not empty, else `#`),
      and as children the nodes attached under it in key order. */
  lemma NodeOfRow(rows: seq<MenuRow>, id: int)
    requires id in Ids(rows)
    ensures var order := Dedup(Ids(rows));
      var byId := NodeMap(rows);
      var r := LastRowWith(rows, id);
      var n := Linked(order, byId)[id];
      && n.parentId == r.parentId
      && n.title == r.name
      && n.icon == (if EmptyStr(r.icon) then None else Some(r.icon.value))
      && LeafTarget(n) == (if !EmptyStr(r.path) then ByPath(r.path.value)
                           else if !EmptyStr(r.routeName) then ByName(r.routeName.value)
                           else ByPath("#"))
      && n.children == ChildrenOf(order, byId, id)
  {
    NodeMapFromLastRow(rows, id);
    assert NodeMap(rows)[id].children == [];
  }
}
