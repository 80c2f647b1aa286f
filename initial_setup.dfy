/** The menu tree and grants of InitialSetupSeeder on a fresh database: menus
    1 to 17 in insert order, role 1 (ADMIN) granted all of them, and user 1
    holding role 1. Whatever answer the menu query gives for that user (the
    database may order rows with equal keys either way), myMenus returns
    Dashboard, Master (Regional with its four children, then Cabang,
    Departemen, Vendor, Terminal) and Auth (Users, Roles, Role Menu, Produk,
    PBBKB), every menu once, with the icons and paths the seeder gives. */
module InitialSetup {
  import opened Collections
  import opened Schema
  import opened MenuController
  import opened MenuTreeProofs

  const Admin: int := 1
  const AdminUser: int := 1

  /** The ids of the seeded menus, named as in the seeder. */
  const Dashboard: int := 1
  const Master: int := 2
  const Regional: int := 3
  const Auth: int := 4
  const Users: int := 5
  const Provinsi: int := 6
  const Kabupaten: int := 7
  const Wilayah: int := 8
  const Area: int := 9
  const Cabang: int := 10
  const Departemen: int := 11
  const Vendor: int := 12
  const Terminal: int := 13
  const Roles: int := 14
  const RoleMenu: int := 15
  const Produk: int := 16
  const Pbbkb: int := 17

  /** The seeded parent of each menu: Regional and the other master-data
      menus under Master, the regional lists under Regional, the user and
      permission menus under Auth, and no parent for the top level. */
  function SeedParent(id: int): Option<int> {
    if id in {Regional, Cabang, Departemen, Vendor, Terminal} then Some(Master)
    else if id in {Provinsi, Kabupaten, Wilayah, Area} then Some(Regional)
    else if id in {Users, Roles, RoleMenu, Produk, Pbbkb} then Some(Auth)
    else None
  }

  /** The seeded `order_no` of each menu (ids 1 to 17). */
  function SeedOrder(id: int): int {
    if id == Dashboard || id == Regional || id == Users then 1
    else if id == Master || id == Provinsi || id == Roles then 2
    else if id == Auth || id == Kabupaten || id == RoleMenu then 3
    else if id == Wilayah || id == Produk then 4
    else if id == Area || id == Pbbkb then 5
    else if id == Cabang then 8
    else if id == Departemen then 9
    else if id == Vendor then 10
    else 11
  }

  /** The seeded name, path, route name and icon of each menu (ids 1 to 17;
      the last branch is PBBKB). */
  function SeedLabels(id: int): (string, Option<string>, Option<string>, Option<string>) {
    if id == Dashboard then ("Dashboard", Some("/dashboard"), Some("dashboard"), Some("tabler-smart-home"))
    else if id == Master then ("Master", None, None, Some("tabler-settings"))
    else if id == Regional then ("Regional", None, None, Some("tabler-map-2"))
    else if id == Auth then ("Auth", None, None, Some("tabler-lock"))
    else if id == Users then ("Users", Some("/master/users"), Some("master-users"), Some("tabler-user"))
    else if id == Provinsi then ("Provinsi", Some("/master/provinsi"), Some("master-provinsi"), Some("tabler-map-pin"))
    else if id == Kabupaten then ("Kabupaten", Some("/master/kabupaten"), Some("master-kabupaten"), Some("tabler-map-pin"))
    else if id == Wilayah then ("Wilayah", Some("/master/wilayah"), Some("master-wilayah"), Some("tabler-map"))
    else if id == Area then ("Area", Some("/master/area"), Some("master-area"), Some("tabler-map-pin"))
    else if id == Cabang then ("Cabang", Some("/master/cabang"), Some("master-cabang"), Some("tabler-building"))
    else if id == Departemen then ("Departemen", Some("/master/departemen"), Some("master-departemen"), Some("tabler-users"))
    else if id == Vendor then ("Vendor", Some("/master/vendor"), Some("master-vendor"), Some("tabler-building-store"))
    else if id == Terminal then ("Terminal", Some("/master/terminal"), Some("master-terminal"), Some("tabler-gas-station"))
    else if id == Roles then ("Roles", Some("/master/roles"), Some("master-roles"), Some("tabler-shield"))
    else if id == RoleMenu then ("Role Menu", Some("/master/role-menus"), Some("master-role-menus"), Some("tabler-lock"))
    else if id == Produk then ("Produk", Some("/master/produk"), Some("master-produk"), Some("tabler-archive"))
    else ("PBBKB", Some("/master/pbbkb"), Some("master-pbbkb"), Some("tabler-article"))
  }

  /** The row the seeder inserts for each menu id; every seeded menu is active. */
  function SeedMenu(id: int): Menu {
    var labels := SeedLabels(id);
    Menu(SeedParent(id), labels.0, labels.1, labels.2, labels.3, SeedOrder(id), true)
  }

  function SeedCatalog(): map<int, Menu> {
    map id | 1 <= id <= 17 :: SeedMenu(id)
  }

  function SeedGrants(): set<Grant> {
    set id | 1 <= id <= 17 :: Grant(Admin, id)
  }

  function SeedUserRoles(): set<UserRole> {
    {UserRole(AdminUser, Admin)}
  }

  // ---------------------------------------------------------------------------
  // The administrator's query answer

  /** The administrator holds role 1 only, and the menus joined in for that
      role are exactly the seeded ones. */
  lemma AdminPermittedAll()
    ensures RolesOfUser(SeedUserRoles(), AdminUser) == {Admin}
    ensures forall id :: Permitted(SeedCatalog(), SeedGrants(), {Admin}, id) <==> 1 <= id <= 17
  {
    assert UserRole(AdminUser, Admin) in SeedUserRoles();
    forall id | 1 <= id <= 17 ensures Permitted(SeedCatalog(), SeedGrants(), {Admin}, id) {
      assert Grant(Admin, id) in SeedGrants();
    }
  }

  /** An answer of the menu query for the administrator. */
  ghost predicate AdminQuery(rows: seq<MenuRow>) {
    IsMenuQuery(rows, SeedCatalog(), SeedGrants(), RolesOfUser(SeedUserRoles(), AdminUser))
  }

  /** The node the first loop builds from the seeded row of `id`. */
  function SeedNode(id: int): Node {
    MakeNode(RowOf(id, SeedMenu(id)))
  }

  /** What any such answer fixes about the tree: rows in key order with one
      row content per id, the seventeen seeded menus as nodes with their
      seeded parents, each id's last row carrying the seeded `order_no`. */
  ghost predicate AdminRows(rows: seq<MenuRow>) {
    && Consistent(rows) && SortedRows(rows)
    && (forall id :: id in NodeMap(rows) <==> 1 <= id <= 17)
    && (forall id :: id in NodeMap(rows) ==> NodeMap(rows)[id].parentId == SeedParent(id))
    && (forall id :: id in NodeMap(rows) ==> id in Ids(rows) && LastRowWith(rows, id).orderNo == SeedOrder(id))
  }

  /** The nodes of such an answer are the seeded ones. */
  ghost predicate AdminContent(rows: seq<MenuRow>) {
    forall id :: id in NodeMap(rows) ==> NodeMap(rows)[id] == SeedNode(id)
  }

  lemma AdminRowsOfQuery(rows: seq<MenuRow>)
    requires AdminQuery(rows)
    ensures AdminRows(rows)
  {
    AdminPermittedAll();
    QuerySelectsPermitted(rows, SeedCatalog(), SeedGrants(), {Admin});
    forall id | id in NodeMap(rows)
      ensures NodeMap(rows)[id].parentId == SeedParent(id)
      ensures id in Ids(rows) && LastRowWith(rows, id).orderNo == SeedOrder(id)
    {
      assert SeedCatalog()[id] == SeedMenu(id);
      QueryRowsFromCatalog(rows, SeedCatalog(), SeedGrants(), {Admin}, id);
    }
  }

  lemma AdminContentOfQuery(rows: seq<MenuRow>)
    requires AdminQuery(rows)
    ensures AdminContent(rows)
  {
    AdminPermittedAll();
    QuerySelectsPermitted(rows, SeedCatalog(), SeedGrants(), {Admin});
    forall id | id in NodeMap(rows) ensures NodeMap(rows)[id] == SeedNode(id) {
      assert SeedCatalog()[id] == SeedMenu(id);
    }
  }

  // ---------------------------------------------------------------------------
  // The tree

  /** The top-level menus, in `order_no` order. */
  const TopLevel: seq<int> := [Dashboard, Master, Auth]
  /** The menus under Master that have no children. */
  const MasterLeaves: seq<int> := [Cabang, Departemen, Vendor, Terminal]
  /** The menus the seeder files under Master, in `order_no` order. */
  const MasterChildren: seq<int> := [Regional] + MasterLeaves
  /** The menus the seeder files under Regional. */
  const RegionalChildren: seq<int> := [Provinsi, Kabupaten, Wilayah, Area]
  /** The menus the seeder files under Auth. */
  const AuthChildren: seq<int> := [Users, Roles, RoleMenu, Produk, Pbbkb]

  /** The children each seeded menu is meant to show. */
  function SeedKids(k: int): seq<int> {
    if k == Master then MasterChildren
    else if k == Regional then RegionalChildren
    else if k == Auth then AuthChildren
    else []
  }

  /** `t` lists the menus seeded under `p` in strictly ascending `order_no`. */
  ghost predicate SeededUnder(p: int, t: seq<int>) {
    && (forall x :: x in t <==> 1 <= x <= 17 && SeedParent(x) == Some(p))
    && (forall i, j :: 0 <= i < j < |t| ==> SeedOrder(t[i]) < SeedOrder(t[j]))
  }

  lemma MasterListed()
    ensures SeededUnder(Master, MasterChildren)
  {
  }

  lemma RegionalListed()
    ensures SeededUnder(Regional, RegionalChildren)
  {
  }

  lemma AuthListed()
    ensures SeededUnder(Auth, AuthChildren)
  {
  }

  /** The children lists above agree with the seeded parents and orders. */
  lemma SeedKidsListed(k: int)
    ensures SeededUnder(k, SeedKids(k))
  {
    if k == Master {
      MasterListed();
    } else if k == Regional {
      RegionalListed();
    } else if k == Auth {
      AuthListed();
    } else {
      assert SeededUnder(k, []);
    }
  }

  /** The top-level menus are the ones without a parent, in strictly
      ascending `order_no`. */
  lemma TopLevelListed()
    ensures forall x :: x in TopLevel <==> 1 <= x <= 17 && SeedParent(x) == None
    ensures forall i, j :: 0 <= i < j < |TopLevel| ==> SeedOrder(TopLevel[i]) < SeedOrder(TopLevel[j])
  {
  }

  /** Each seeded menu's node lists its seeded children, in `order_no` order. */
  lemma AdminChildren(rows: seq<MenuRow>, p: int)
    requires AdminRows(rows) && 1 <= p <= 17
    ensures ChildrenOf(Dedup(Ids(rows)), NodeMap(rows), p) == SeedKids(p)
  {
    var t := SeedKids(p);
    SeedKidsListed(p);
    assert forall x :: x in t <==> ParentIs(NodeMap(rows), x, p);
    ChildrenByDistinctOrder(rows, p, t, SeedOrder);
  }

  /** A node map whose keys are the seeded menus, with the seeded parents. */
  ghost predicate SeedShaped(byId: map<int, Node>) {
    && (forall id :: id in byId <==> 1 <= id <= 17)
    && (forall id :: id in byId ==> byId[id].parentId == SeedParent(id))
  }

  lemma SeedRoot(byId: map<int, Node>, x: int)
    requires SeedShaped(byId)
    ensures x in TopLevel <==> IsRoot(byId, x)
    ensures x in TopLevel ==> x in byId && EmptyId(byId[x].parentId)
  {
    if x in byId && x !in TopLevel {
      assert SeedParent(x).value in byId;
    }
  }

  /** The top level is Dashboard, Master, Auth. */
  lemma AdminRoots(rows: seq<MenuRow>)
    requires AdminRows(rows)
    ensures RootsOf(Dedup(Ids(rows)), NodeMap(rows)) == TopLevel
  {
    assert SeedShaped(NodeMap(rows));
    forall x ensures x in TopLevel <==> IsRoot(NodeMap(rows), x) {
      SeedRoot(NodeMap(rows), x);
    }
    forall x | x in TopLevel ensures x in NodeMap(rows) && EmptyId(NodeMap(rows)[x].parentId) {
      SeedRoot(NodeMap(rows), x);
    }
    TopLevelListed();
    RootsByDistinctOrder(rows, TopLevel, SeedOrder);
  }

  /** A node map holding the seeded menus with their seeded parents and the
      children each is meant to show. */
  ghost predicate SeedLinked(nodes: map<int, Node>) {
    && SeedShaped(nodes)
    && (forall k :: k in nodes ==> nodes[k].children == SeedKids(k))
  }

  /** ... and with the title, icon and target of the node built from the
      seeded row. */
  ghost predicate SeedLabelled(nodes: map<int, Node>) {
    forall k :: k in nodes ==>
      nodes[k].title == SeedNode(k).title && nodes[k].icon == SeedNode(k).icon && nodes[k].to == SeedNode(k).to
  }

  /** After the second loop, the administrator's map is the seeded tree. */
  lemma AdminLinked(rows: seq<MenuRow>)
    requires AdminRows(rows)
    ensures SeedLinked(Linked(Dedup(Ids(rows)), NodeMap(rows)))
  {
    var order := Dedup(Ids(rows));
    var byId := NodeMap(rows);
    var linked := Linked(order, byId);
    forall k | k in linked ensures linked[k].children == SeedKids(k) && linked[k].parentId == SeedParent(k) {
      assert byId[k].children == [];
      assert linked[k].children == [] + ChildrenOf(order, byId, k);
      AdminChildren(rows, k);
    }
  }

  /** Linking keeps each node's title, icon and target. */
  lemma AdminLabelled(rows: seq<MenuRow>)
    requires AdminContent(rows)
    ensures SeedLabelled(Linked(Dedup(Ids(rows)), NodeMap(rows)))
  {
  }

  /** The path from the top level down to a seeded menu. */
  function SeedPath(k: int): seq<int> {
    if SeedParent(k) == Some(Master) then [Master, k]
    else if SeedParent(k) == Some(Regional) then [Master, Regional, k]
    else if SeedParent(k) == Some(Auth) then [Auth, k]
    else [k]
  }

  lemma SeedChain(byId: map<int, Node>, k: int)
    requires SeedShaped(byId) && k in byId
    ensures IsChain(byId, SeedPath(k)) && SeedPath(k)[|SeedPath(k)| - 1] == k
  {
  }

  /** No seeded parent chain loops: each menu's path leads up from a root. */
  lemma AdminAcyclic(rows: seq<MenuRow>)
    requires AdminRows(rows)
    ensures Acyclic(NodeMap(rows))
  {
    var byId := NodeMap(rows);
    assert SeedShaped(byId);
    forall k | k in byId ensures HasRootChain(byId, k) {
      SeedChain(byId, k);
    }
  }

  /** The ids 1 to `n`, in order. */
  function UpTo(n: nat): (s: seq<int>)
    ensures |s| == n && NoDup(s)
    ensures forall x :: x in s <==> 1 <= x <= n
  {
    if n == 0 then []
    else
      var s := UpTo(n - 1);
      NoDupConcat(s, [n]);
      s + [n]
  }

  lemma AdminShowsSeventeen(rows: seq<MenuRow>)
    requires AdminRows(rows)
    ensures |NodeMap(rows).Keys| == 17
  {
    CountOfCover(UpTo(17), NodeMap(rows).Keys);
  }

  /** The seeded administrator's navigation tree: whatever answer the
      database gives to the menu query, the top level is Dashboard, Master,
      Auth; each menu's children are the ones `SeedKids` lists (Master:
      Regional, Cabang, Departemen, Vendor, Terminal; Regional: Provinsi,
      Kabupaten, Wilayah, Area; Auth: Users, Roles, Role Menu, Produk, PBBKB;
      no other menu has children); and the rendered forest shows all
      seventeen menus, each once. */
  lemma AdminTree(rows: seq<MenuRow>)
    requires AdminQuery(rows)
    ensures var order := Dedup(Ids(rows));
      var byId := NodeMap(rows);
      var linked := Linked(order, byId);
      && RootsOf(order, byId) == TopLevel
      && (forall k :: k in linked <==> 1 <= k <= 17)
      && (forall k :: k in linked ==> linked[k].children == SeedKids(k))
      && ItemCount(Forest(rows)) == 17
  {
    AdminRowsOfQuery(rows);
    AdminRoots(rows);
    AdminLinked(rows);
    AdminShowsAll(rows);
  }

  /** Every one of the seventeen menus is rendered, each once. */
  lemma AdminShowsAll(rows: seq<MenuRow>)
    requires AdminRows(rows)
    ensures ItemCount(Forest(rows)) == 17
  {
    AdminAcyclic(rows);
    AcyclicForestShowsAll(rows);
    AdminShowsSeventeen(rows);
  }

  // ---------------------------------------------------------------------------
  // The rendered navigation

  /** The navigation the seeded administrator receives, written out. */
  const RegionalNav: seq<NavItem> :=
    [ Leaf("Provinsi", Some("tabler-map-pin"), ByPath("/master/provinsi")),
      Leaf("Kabupaten", Some("tabler-map-pin"), ByPath("/master/kabupaten")),
      Leaf("Wilayah", Some("tabler-map"), ByPath("/master/wilayah")),
      Leaf("Area", Some("tabler-map-pin"), ByPath("/master/area")) ]
  const MasterLeavesNav: seq<NavItem> :=
    [ Leaf("Cabang", Some("tabler-building"), ByPath("/master/cabang")),
      Leaf("Departemen", Some("tabler-users"), ByPath("/master/departemen")),
      Leaf("Vendor", Some("tabler-building-store"), ByPath("/master/vendor")),
      Leaf("Terminal", Some("tabler-gas-station"), ByPath("/master/terminal")) ]
  const MasterNav: seq<NavItem> :=
    [Group("Regional", Some("tabler-map-2"), RegionalNav)] + MasterLeavesNav
  const AuthNav: seq<NavItem> :=
    [ Leaf("Users", Some("tabler-user"), ByPath("/master/users")),
      Leaf("Roles", Some("tabler-shield"), ByPath("/master/roles")),
      Leaf("Role Menu", Some("tabler-lock"), ByPath("/master/role-menus")),
      Leaf("Produk", Some("tabler-archive"), ByPath("/master/produk")),
      Leaf("PBBKB", Some("tabler-article"), ByPath("/master/pbbkb")) ]
  const AdminNav: seq<NavItem> :=
    [ Leaf("Dashboard", Some("tabler-smart-home"), ByPath("/dashboard")),
      Group("Master", Some("tabler-settings"), MasterNav),
      Group("Auth", Some("tabler-lock"), AuthNav) ]

  /** The item a seeded menu without children renders as. */
  function SeedLeaf(k: int): NavItem {
    var n := SeedNode(k);
    Leaf(n.title, n.icon, LeafTarget(n))
  }

  lemma RegionalLeavesAsWritten()
    ensures forall i :: 0 <= i < |RegionalChildren| ==> SeedLeaf(RegionalChildren[i]) == RegionalNav[i]
  {
    assert SeedLeaf(Provinsi) == RegionalNav[0];
    assert SeedLeaf(Kabupaten) == RegionalNav[1];
    assert SeedLeaf(Wilayah) == RegionalNav[2];
    assert SeedLeaf(Area) == RegionalNav[3];
  }

  lemma MasterLeavesAsWritten()
    ensures forall i :: 0 <= i < |MasterLeaves| ==> SeedLeaf(MasterLeaves[i]) == MasterLeavesNav[i]
  {
    assert SeedLeaf(Cabang) == MasterLeavesNav[0];
    assert SeedLeaf(Departemen) == MasterLeavesNav[1];
    assert SeedLeaf(Vendor) == MasterLeavesNav[2];
    assert SeedLeaf(Terminal) == MasterLeavesNav[3];
  }

  lemma AuthLeavesAsWritten()
    ensures forall i :: 0 <= i < |AuthChildren| ==> SeedLeaf(AuthChildren[i]) == AuthNav[i]
  {
    assert SeedLeaf(Users) == AuthNav[0];
    assert SeedLeaf(Roles) == AuthNav[1];
    assert SeedLeaf(RoleMenu) == AuthNav[2];
    assert SeedLeaf(Produk) == AuthNav[3];
    assert SeedLeaf(Pbbkb) == AuthNav[4];
  }

  /** The title and icon of Dashboard and of the three groups. */
  lemma HeadsAsWritten()
    ensures SeedLeaf(Dashboard) == AdminNav[0]
    ensures SeedNode(Master).title == "Master" && SeedNode(Master).icon == Some("tabler-settings")
    ensures SeedNode(Regional).title == "Regional" && SeedNode(Regional).icon == Some("tabler-map-2")
    ensures SeedNode(Auth).title == "Auth" && SeedNode(Auth).icon == Some("tabler-lock")
  {
  }

  /** In the seeded tree, an available menu without children renders as its
      leaf. */
  lemma LeafRendered(nodes: map<int, Node>, k: int, avail: set<int>)
    requires SeedLinked(nodes) && SeedLabelled(nodes)
    requires 1 <= k <= 17 && SeedKids(k) == [] && k in avail
    ensures CleanItem(k, nodes, avail) == SeedLeaf(k)
  {
    assert LeafTarget(nodes[k]) == LeafTarget(SeedNode(k));
  }

  /** A list of available menus without children renders as their leaves. */
  lemma LeavesRendered(nodes: map<int, Node>, t: seq<int>, avail: set<int>)
    requires SeedLinked(nodes) && SeedLabelled(nodes)
    requires forall i :: 0 <= i < |t| ==> 1 <= t[i] <= 17 && SeedKids(t[i]) == [] && t[i] in avail
    ensures |Clean(t, nodes, avail)| == |t|
    ensures forall i :: 0 <= i < |t| ==> Clean(t, nodes, avail)[i] == SeedLeaf(t[i])
  {
    forall i | 0 <= i < |t| ensures CleanItem(t[i], nodes, avail) == SeedLeaf(t[i]) {
      LeafRendered(nodes, t[i], avail);
    }
    CleanAll(t, nodes, avail);
  }

  lemma RegionalRendered(nodes: map<int, Node>, avail: set<int>)
    requires SeedLinked(nodes) && SeedLabelled(nodes)
    requires {Provinsi, Kabupaten, Wilayah, Area} <= avail
    ensures Clean(RegionalChildren, nodes, avail) == RegionalNav
  {
    LeavesRendered(nodes, RegionalChildren, avail);
    RegionalLeavesAsWritten();
  }

  lemma RegionalItem(nodes: map<int, Node>, avail: set<int>)
    requires SeedLinked(nodes) && SeedLabelled(nodes)
    requires {Regional, Provinsi, Kabupaten, Wilayah, Area} <= avail
    ensures CleanItem(Regional, nodes, avail) == MasterNav[0]
  {
    RegionalRendered(nodes, avail - {Regional});
    HeadsAsWritten();
    GroupRendered(nodes, Regional, avail, RegionalNav);
  }

  lemma MasterLeavesRendered(nodes: map<int, Node>, avail: set<int>)
    requires SeedLinked(nodes) && SeedLabelled(nodes)
    requires {Cabang, Departemen, Vendor, Terminal} <= avail
    ensures Clean(MasterLeaves, nodes, avail) == MasterLeavesNav
  {
    LeavesRendered(nodes, MasterLeaves, avail);
    MasterLeavesAsWritten();
  }

  lemma MasterItem(nodes: map<int, Node>, avail: set<int>)
    requires SeedLinked(nodes) && SeedLabelled(nodes)
    requires {Master, Regional, Provinsi, Kabupaten, Wilayah, Area, Cabang, Departemen, Vendor, Terminal} <= avail
    ensures CleanItem(Master, nodes, avail) == AdminNav[1]
  {
    var rest := avail - {Master};
    RegionalItem(nodes, rest);
    MasterLeavesRendered(nodes, rest);
    CleanCons(Regional, MasterLeaves, nodes, rest);
    HeadsAsWritten();
    GroupRendered(nodes, Master, avail, MasterNav);
  }

  lemma AuthItem(nodes: map<int, Node>, avail: set<int>)
    requires SeedLinked(nodes) && SeedLabelled(nodes)
    requires {Auth, Users, Roles, RoleMenu, Produk, Pbbkb} <= avail
    ensures CleanItem(Auth, nodes, avail) == AdminNav[2]
  {
    LeavesRendered(nodes, AuthChildren, avail - {Auth});
    AuthLeavesAsWritten();
    HeadsAsWritten();
    GroupRendered(nodes, Auth, avail, AuthNav);
  }

  /** Shaping the seeded tree from its top level gives the navigation written
      out above. */
  lemma SeedForest(nodes: map<int, Node>)
    requires SeedLinked(nodes) && SeedLabelled(nodes)
    ensures Clean(TopLevel, nodes, nodes.Keys) == AdminNav
  {
    var all := nodes.Keys;
    forall i | 0 <= i < |TopLevel| ensures CleanItem(TopLevel[i], nodes, all) == AdminNav[i] {
      TopItem(nodes, i);
    }
    CleanAll(TopLevel, nodes, all);
  }

  lemma TopItem(nodes: map<int, Node>, i: int)
    requires SeedLinked(nodes) && SeedLabelled(nodes) && 0 <= i < |TopLevel|
    ensures TopLevel[i] in nodes && CleanItem(TopLevel[i], nodes, nodes.Keys) == AdminNav[i]
  {
    var all := nodes.Keys;
    assert forall k :: 1 <= k <= 17 ==> k in all;
    if i == 0 {
      LeafRendered(nodes, Dashboard, all);
      HeadsAsWritten();
    } else if i == 1 {
      MasterItem(nodes, all);
    } else {
      AuthItem(nodes, all);
    }
  }

  /** What myMenus returns to the seeded administrator, whatever answer the
      database gives to the menu query: exactly the navigation written out
      above (Dashboard; Master with Regional and its four lists, then Cabang,
      Departemen, Vendor, Terminal; Auth with Users, Roles, Role Menu, Produk,
      PBBKB), each leaf linking to its path. */
  lemma AdminForest(rows: seq<MenuRow>)
    requires AdminQuery(rows)
    ensures Forest(rows) == AdminNav
  {
    AdminRowsOfQuery(rows);
    AdminContentOfQuery(rows);
    AdminRoots(rows);
    AdminLinked(rows);
    AdminLabelled(rows);
    SeedForest(Linked(Dedup(Ids(rows)), NodeMap(rows)));
  }
}
