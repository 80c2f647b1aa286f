/** The navigation tree builder behind `GET /auth/my-menus`
    (MenuController::myMenus): the user's roles select the active menus they
    grant; the rows are indexed by id, every node is attached under its parent
    when that parent was selected too (otherwise it becomes a root), and the
    forest is shaped for the client: a node with children is a group without
    a target, a node without children is a leaf that always has a target. */
module MenuController {
  import opened Collections
  import opened Schema

  // ---------------------------------------------------------------------------
  // Data

  /** One row of the menu query: the selected columns of `menus`. */
  datatype MenuRow = MenuRow(
    id: int,
    parentId: Option<int>,
    name: string,
    path: Option<string>,
    routeName: Option<string>,
    icon: Option<string>,
    orderNo: int)

  /** The `to` of a leaf: `{path: ...}` or `{name: ...}`. */
  datatype Target = ByPath(path: string) | ByName(name: string)

  /** An entry of `$byId`. `icon` is `Some(s)` for `{icon: s}` and `None` for null;
      `to` is `None` for null. The PHP code appends references to child nodes
      into `children`; here `children` holds the child ids, which resolve through
      the same map, as the references resolve to the live nodes. */
  datatype Node = Node(
    id: int,
    parentId: Option<int>,
    title: string,
    icon: Option<string>,
    to: Option<Target>,
    children: seq<int>)

  /** A node of the JSON answer. A group has `children` and no `to`, a leaf has
      `to` and no `children`; neither carries `id` or `parent_id`. */
  datatype NavItem =
    | Leaf(title: string, icon: Option<string>, to: Target)
    | Group(title: string, icon: Option<string>, children: seq<NavItem>)

  // ---------------------------------------------------------------------------
  // Step 2: the menu query (run by the database; its answer is a parameter)

  /** The columns the query selects from a catalog entry. */
  function RowOf(id: int, m: Menu): MenuRow {
    MenuRow(id, m.parentId, m.name, m.path, m.routeName, m.icon, m.orderNo)
  }

  /** Menu `id` is joined in: it exists, is active, and one of the roles grants it. */
  predicate Permitted(catalog: map<int, Menu>, grants: set<Grant>, roleIds: set<int>, id: int) {
    id in catalog && catalog[id].isActive && exists r :: r in roleIds && Grant(r, id) in grants
  }

  /** The sort key `COALESCE(parent_id, 0), order_no`. */
  function RowKey(r: MenuRow): (int, int) {
    (CoalesceZero(r.parentId), r.orderNo)
  }

  /** Lexicographic order on sort keys (ties are left in any order by the database). */
  predicate KeyLe(a: (int, int), b: (int, int)) {
    a.0 < b.0 || (a.0 == b.0 && a.1 <= b.1)
  }

  predicate SortedRows(rows: seq<MenuRow>) {
    forall i, j :: 0 <= i < j < |rows| ==> KeyLe(RowKey(rows[i]), RowKey(rows[j]))
  }

  /** `rows` is an answer the database may give to the join of `menus` with
      `role_menus` for `roleIds`, filtered on `is_active` and ordered by the sort
      key: every row is a permitted catalog entry, every permitted entry occurs,
      and the rows are in key order. (A menu granted by several of the roles
      occurs once per grant; only its presence is described.) */
  ghost predicate IsMenuQuery(rows: seq<MenuRow>, catalog: map<int, Menu>, grants: set<Grant>, roleIds: set<int>) {
    && (forall i :: 0 <= i < |rows| ==>
          Permitted(catalog, grants, roleIds, rows[i].id) && rows[i] == RowOf(rows[i].id, catalog[rows[i].id]))
    && (forall id :: Permitted(catalog, grants, roleIds, id) ==> RowOf(id, catalog[id]) in rows)
    && SortedRows(rows)
  }

  // ---------------------------------------------------------------------------
  // Step 3: the map of nodes by id

  /** `{icon: s}` when `s` is not empty, otherwise null. */
  function IconOf(s: Option<string>): Option<string> {
    if !EmptyStr(s) then Some(s.value) else None
  }

  /** `{path}` when the path is not empty, else `{name: route_name}` when the
      route name is not empty, else null. */
  function TargetOf(r: MenuRow): Option<Target> {
    if !EmptyStr(r.path) then Some(ByPath(r.path.value))
    else if !EmptyStr(r.routeName) then Some(ByName(r.routeName.value))
    else None
  }

  /** The node the loop stores for a row, with no children yet. */
  function MakeNode(r: MenuRow): Node {
    Node(r.id, r.parentId, r.name, IconOf(r.icon), TargetOf(r), [])
  }

  /** The ids of the rows, in row order. */
  function Ids(rows: seq<MenuRow>): (ids: seq<int>)
    ensures |ids| == |rows|
    ensures forall i :: 0 <= i < |rows| ==> ids[i] == rows[i].id
  {
    if rows == [] then [] else Ids(rows[..|rows| - 1]) + [rows[|rows| - 1].id]
  }

  /** The value `$byId` holds after the rows: a later row with the same id
      overwrites the node of an earlier one. */
  function NodeMap(rows: seq<MenuRow>): (m: map<int, Node>)
    ensures forall k :: k in m <==> k in Ids(rows)
    ensures forall k :: k in m ==> m[k].id == k && m[k].children == []
  {
    if rows == [] then map[]
    else NodeMap(rows[..|rows| - 1])[rows[|rows| - 1].id := MakeNode(rows[|rows| - 1])]
  }

  /** The first loop (`foreach ($rows as $r) $byId[$r->id] = ...`). A PHP array
      is an ordered map; `order` is its key order and `byId` its contents. */
  method IndexRows(rows: seq<MenuRow>) returns (order: seq<int>, byId: map<int, Node>)
    ensures order == Dedup(Ids(rows))
    ensures byId == NodeMap(rows)
  {
    order, byId := [], map[];
    for i := 0 to |rows|
      invariant order == Dedup(Ids(rows[..i]))
      invariant byId == NodeMap(rows[..i])
    {
      var r := rows[i];
      assert rows[..i + 1][..i] == rows[..i];
      if r.id !in byId {
        order := order + [r.id];
      }
      byId := byId[r.id := MakeNode(r)];
    }
    assert rows[..|rows|] == rows;
  }

  // ---------------------------------------------------------------------------
  // Step 4: attaching nodes to parents

  /** `!empty($pid) && isset($byId[$pid])`. */
  predicate Attached(n: Node, byId: map<int, Node>) {
    !EmptyId(n.parentId) && n.parentId.value in byId
  }

  /** Node `k` goes to the top level. */
  predicate IsRoot(byId: map<int, Node>, k: int) {
    k in byId && !Attached(byId[k], byId)
  }

  /** Node `k` is attached under node `p`. */
  predicate ParentIs(byId: map<int, Node>, k: int, p: int) {
    k in byId && Attached(byId[k], byId) && byId[k].parentId.value == p
  }

  /** The ids of `ids` that are roots, in order. */
  function RootsOf(ids: seq<int>, byId: map<int, Node>): (r: seq<int>)
    ensures forall x :: x in r <==> x in ids && IsRoot(byId, x)
    ensures |r| <= |ids|
  {
    if ids == [] then []
    else
      var last := ids[|ids| - 1];
      RootsOf(ids[..|ids| - 1], byId) + (if IsRoot(byId, last) then [last] else [])
  }

  /** The ids of `ids` attached under `p`, in order. */
  function ChildrenOf(ids: seq<int>, byId: map<int, Node>, p: int): (r: seq<int>)
    ensures forall x :: x in r <==> x in ids && ParentIs(byId, x, p)
    ensures |r| <= |ids|
  {
    if ids == [] then []
    else
      var last := ids[|ids| - 1];
      ChildrenOf(ids[..|ids| - 1], byId, p) + (if ParentIs(byId, last, p) then [last] else [])
  }

  /** `$byId` after the second loop: each node's children list is extended by
      the nodes attached under it, in iteration order. */
  function Linked(order: seq<int>, byId: map<int, Node>): (m: map<int, Node>)
    ensures m.Keys == byId.Keys
    ensures forall k :: k in m ==> m[k].parentId == byId[k].parentId
  {
    map k | k in byId :: byId[k].(children := byId[k].children + ChildrenOf(order, byId, k))
  }

  /** The second loop (`foreach ($byId as $id => &$node)`): attach the node under
      its parent or append it to `$tree`. */
  method Link(order: seq<int>, byId: map<int, Node>) returns (tree: seq<int>, linked: map<int, Node>)
    requires forall i :: 0 <= i < |order| ==> order[i] in byId
    ensures tree == RootsOf(order, byId)
    ensures linked == Linked(order, byId)
  {
    tree, linked := [], byId;
    LinkedNone(byId);
    for i := 0 to |order|
      invariant tree == RootsOf(order[..i], byId)
      invariant linked == Linked(order[..i], byId)
    {
      var id := order[i];
      LinkStep(order, i, byId);
      var pid := linked[id].parentId;
      if !EmptyId(pid) && pid.value in linked {
        linked := linked[pid.value := linked[pid.value].(children := linked[pid.value].children + [id])];
      } else {
        tree := tree + [id];
      }
    }
    assert order[..|order|] == order;
  }

  /** Before the second loop nothing is attached. */
  lemma LinkedNone(byId: map<int, Node>)
    ensures Linked([], byId) == byId
  {
    forall k | k in byId ensures Linked([], byId)[k] == byId[k] {
      assert byId[k].children + [] == byId[k].children;
    }
  }

  /** One iteration of the second loop, on the `i`-th key. */
  lemma LinkStep(order: seq<int>, i: int, byId: map<int, Node>)
    requires 0 <= i < |order| && order[i] in byId
    ensures var x := order[i];
      RootsOf(order[..i + 1], byId) == RootsOf(order[..i], byId) + (if IsRoot(byId, x) then [x] else [])
    ensures var x := order[i];
      var before := Linked(order[..i], byId);
      Linked(order[..i + 1], byId) ==
        if Attached(byId[x], byId) then
          before[byId[x].parentId.value := before[byId[x].parentId.value].(children := before[byId[x].parentId.value].children + [x])]
        else before
  {
    var x := order[i];
    assert order[..i + 1] == order[..i] + [x];
    RootsOfSnoc(order[..i], x, byId);
    if Attached(byId[x], byId) {
      LinkedSnocAttached(order[..i], x, byId);
    } else {
      LinkedSnocRoot(order[..i], x, byId);
    }
  }

  lemma RootsOfSnoc(ids: seq<int>, x: int, byId: map<int, Node>)
    ensures RootsOf(ids + [x], byId) == RootsOf(ids, byId) + (if IsRoot(byId, x) then [x] else [])
  {
    assert (ids + [x])[..|ids|] == ids;
  }

  lemma ChildrenOfSnoc(ids: seq<int>, x: int, byId: map<int, Node>, p: int)
    ensures ChildrenOf(ids + [x], byId, p) == ChildrenOf(ids, byId, p) + (if ParentIs(byId, x, p) then [x] else [])
  {
    assert (ids + [x])[..|ids|] == ids;
  }

  /** One iteration of the second loop, seen from one entry of the map: its
      children list grows by `x` exactly when `x` is attached under it. */
  lemma LinkedAt(ids: seq<int>, x: int, byId: map<int, Node>, k: int)
    requires k in byId
    ensures var before := Linked(ids, byId)[k];
      Linked(ids + [x], byId)[k] == before.(children := before.children + (if ParentIs(byId, x, k) then [x] else []))
  {
    ChildrenOfSnoc(ids, x, byId, k);
    var c := byId[k].children;
    var prev := ChildrenOf(ids, byId, k);
    var e := if ParentIs(byId, x, k) then [x] else [];
    assert c + (prev + e) == (c + prev) + e;
  }

  /** One iteration of the second loop, on the map, for a node that has its
      parent in the map: the parent's children list grows by the node. */
  lemma LinkedSnocAttached(ids: seq<int>, x: int, byId: map<int, Node>)
    requires x in byId && Attached(byId[x], byId)
    ensures var before := Linked(ids, byId);
      var p := byId[x].parentId.value;
      Linked(ids + [x], byId) == before[p := before[p].(children := before[p].children + [x])]
  {
    var before := Linked(ids, byId);
    var after := Linked(ids + [x], byId);
    var p := byId[x].parentId.value;
    var want := before[p := before[p].(children := before[p].children + [x])];
    forall k | k in after ensures after[k] == want[k] {
      LinkedAt(ids, x, byId, k);
    }
  }

  /** One iteration of the second loop, on the map, for a node that goes to
      the top level: no children list changes. */
  lemma LinkedSnocRoot(ids: seq<int>, x: int, byId: map<int, Node>)
    requires x in byId && !Attached(byId[x], byId)
    ensures Linked(ids + [x], byId) == Linked(ids, byId)
  {
    var before := Linked(ids, byId);
    var after := Linked(ids + [x], byId);
    forall k | k in after ensures after[k] == before[k] {
      LinkedAt(ids, x, byId, k);
      assert before[k].children + [] == before[k].children;
    }
  }

  // ---------------------------------------------------------------------------
  // Step 5: shaping the output ($clean)

  /** A leaf's `to`: its own target, or `{path: '#'}` when it has none. */
  function LeafTarget(n: Node): Target {
    if n.to.Some? then n.to.value else ByPath("#")
  }

  /** `$clean($items)`. The closure recurses into the children without a guard;
      it terminates in PHP because a node reachable from a root is never its own
      ancestor. Here `avail` is the set of nodes not yet on the current path,
      which makes termination evident; the guard `items[0] in avail` never fails
      for the forest built from the map (MenuTreeProofs.CleanKeepsAllChildren). */
  function Clean(items: seq<int>, nodes: map<int, Node>, avail: set<int>): seq<NavItem>
    decreases avail, |items|
  {
    if items == [] then []
    else
      (if items[0] in avail && items[0] in nodes then [CleanItem(items[0], nodes, avail)] else [])
      + Clean(items[1..], nodes, avail)
  }

  /** The shaping of one node: drop ids, keep the icon only when there is one, a
      node with children becomes a group (no `to`), a node without becomes a
      leaf whose `to` is never empty. */
  function CleanItem(id: int, nodes: map<int, Node>, avail: set<int>): NavItem
    requires id in avail && id in nodes
    decreases avail, 0
  {
    var n := nodes[id];
    if n.children != [] then Group(n.title, n.icon, Clean(n.children, nodes, avail - {id}))
    else Leaf(n.title, n.icon, LeafTarget(n))
  }

  /** The answer for a non-empty row set: index, link, shape the roots. */
  function Forest(rows: seq<MenuRow>): seq<NavItem> {
    var order := Dedup(Ids(rows));
    var byId := NodeMap(rows);
    var linked := Linked(order, byId);
    Clean(RootsOf(order, byId), linked, linked.Keys)
  }

  /** myMenus: the request's user and the answer of the menu query are parameters. */
  method MyMenus(userRoles: set<UserRole>, userId: int, rows: seq<MenuRow>) returns (result: seq<NavItem>)
    ensures RolesOfUser(userRoles, userId) == {} ==> result == []
    ensures rows == [] ==> result == []
    ensures RolesOfUser(userRoles, userId) != {} ==> result == Forest(rows)
  {
    var roleIds := RolesOfUser(userRoles, userId);
    if roleIds == {} {
      return [];
    }
    if rows == [] {
      return [];
    }
    var order, byId := IndexRows(rows);
    var tree, linked := Link(order, byId);
    result := Clean(tree, linked, linked.Keys);
  }
}
