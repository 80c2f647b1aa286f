# Role-menu permissions, modelled in Dafny

This project models the role→menu permission subsystem of a Laravel back
office. It has two parts.

- **The navigation tree builder** (`MenuController::myMenus`, behind
  `GET /auth/my-menus`):
  - the user's roles select the active menus they grant, ordered by
    `COALESCE(parent_id, 0), order_no`;
  - the rows are indexed by id in `$byId`;
  - a second loop attaches every node under its parent when that parent was
    selected too, and otherwise makes it a root;
  - the recursive `$clean` closure shapes the forest for the client. A node
    with children becomes a group without `to`. A node without children
    becomes a leaf whose `to` is its path, else its route name, else `#`.
    The icon becomes `{icon}` or is dropped, and ids are stripped.
- **The role-menu reconciler** (`RoleMenuController`, behind
  `/master/role-menus`):
  - `index` is the read-only editing view: active roles, active menus, and
    the menu ids granted to one role;
  - `store` validates the request, casts and deduplicates the ids, then in
    one transaction deletes every `role_menus` row of the role and inserts
    one row per id, and finally reads the role's rows back.

Modules:

- `Collections`: Option, duplicate-freedom, first-occurrence deduplication
  (Laravel's `unique()->values()`, and the key order of a PHP array), and
  PHP `empty()` on the nullable columns.
- `Schema`: the rows of `menus`, `roles`, `role_menus` and `user_roles`.
  The unique index on `(role_id, menu_id)` makes `role_menus` a set of pairs.
- `MenuController`:
  - the two loops as methods `IndexRows` and `Link`, proved against the
    functions `NodeMap`, `Linked` and `RootsOf`;
  - `$clean` as the recursive functions `Clean` and `CleanItem`;
  - the endpoint as `MyMenus`. The user and the answer of the SQL query are
    its parameters, and the predicate `IsMenuQuery` describes the answers
    the database may give.
- `MenuTreeProofs`: what the endpoint guarantees.
  - which menus become nodes, and that duplicate rows collapse;
  - where each node is placed, exactly once;
  - sibling and root order;
  - how each node is rendered;
  - that no node is shown twice, and that with acyclic parents every node
    is shown.
- `RoleMenuController`:
  - validation, as written and as intended;
  - the replace as a value `Replaced`, with its algebra: idempotence, the
    last write wins, only the set of ids matters, distinct roles commute;
  - `index`;
  - a class `Database` whose `roleMenus` field the methods `Replace` (the
    transaction body, with rollback), `Save`, `Store` and `StoreIntended`
    update in place.
- `InitialSetup`: the seeded database (17 menus, role ADMIN granted all of
  them, one admin user). For every answer the query may give, `myMenus`
  returns exactly the navigation written out in `AdminNav`.

## Model

| member | source | states |
|---|---|---|
| Collections.Dedup | app/Http/Controllers/Api/Master/RoleMenuController.php:54 | the deduplicated ids hold no duplicate, the same ids as the submission, and are never more |
| Collections.DedupOfDistinct | app/Http/Controllers/Api/Master/RoleMenuController.php:54 | deduplication leaves a duplicate-free list unchanged |
| Collections.DedupIdempotent | app/Http/Controllers/Api/Master/RoleMenuController.php:54 | deduplicating twice is deduplicating once |
| Collections.SortedByDistinctKeys | app/Http/Controllers/Api/MenuController.php:31-32 | two listings of the same ids, one in non-decreasing and one in strictly increasing key order, are the same list: distinct sort keys fix the order |
| Schema.GrantedTo | app/Http/Controllers/Api/Master/RoleMenuController.php:30-32 | a menu id is plucked for a role exactly when the pair is in `role_menus` |
| Schema.RolesOfUser | app/Http/Controllers/Api/MenuController.php:16-18 | a role id is plucked for a user exactly when the pair is in `user_roles` |
| MenuController.NodeMap | app/Http/Controllers/Api/MenuController.php:43-65 | the keys of `$byId` are exactly the ids of the rows; each node carries its own id and starts with no children |
| MenuController.IndexRows | app/Http/Controllers/Api/MenuController.php:41-65 | the first loop leaves `$byId` with its keys in first-occurrence order of the row ids and the node of each id's last row |
| MenuController.RootsOf | app/Http/Controllers/Api/MenuController.php:73-77 | an id goes to `$tree` exactly when it is iterated and its parent id is empty or not a key |
| MenuController.ChildrenOf | app/Http/Controllers/Api/MenuController.php:73-74 | an id is appended under `p` exactly when it is iterated and attached to `p` |
| MenuController.Linked | app/Http/Controllers/Api/MenuController.php:70-79 | linking keeps every key and every parent id of `$byId` |
| MenuController.Link | app/Http/Controllers/Api/MenuController.php:68-79 | the second loop leaves `$tree` holding the roots in iteration order, and every node holding the nodes attached under it in iteration order |
| MenuController.LinkStep | app/Http/Controllers/Api/MenuController.php:70-78 | one iteration either appends the node to its parent's children, changing no other entry, or appends it to `$tree`, changing no entry |
| MenuController.LinkedSnocAttached | app/Http/Controllers/Api/MenuController.php:73-74 | attaching a node grows its parent's children list by that node and changes no other entry |
| MenuController.LinkedSnocRoot | app/Http/Controllers/Api/MenuController.php:75-76 | a node sent to `$tree` changes no children list |
| MenuController.MyMenus | app/Http/Controllers/Api/MenuController.php:11-113 | a user with no roles and an empty row set both get `[]`; otherwise the answer is the shaped forest of the rows |
| MenuController.IsMenuQuery | app/Http/Controllers/Api/MenuController.php:26-33 | no contract of its own: the answers the join may give (permitted catalog rows only, every permitted menu present, sorted by the key); used as the hypothesis of QuerySelectsPermitted, SiblingsInOrder and RootsInOrder |
| MenuController.IconOf | app/Http/Controllers/Api/MenuController.php:61 | no contract of its own; specified by NodeOfRow (the icon is present exactly when not empty) |
| MenuController.TargetOf | app/Http/Controllers/Api/MenuController.php:47-53 | no contract of its own; specified by NodeOfRow (the path when not empty, else the route name when not empty, else none) |
| MenuController.MakeNode | app/Http/Controllers/Api/MenuController.php:55-64 | no contract of its own; specified by NodeMapFromLastRow and NodeOfRow |
| MenuController.LeafTarget | app/Http/Controllers/Api/MenuController.php:101-104 | no contract of its own; specified by NodeOfRow and RenderedAlongPath (a leaf's target, or `#` when it has none) |
| MenuController.Clean | app/Http/Controllers/Api/MenuController.php:86-109 | no contract of its own; specified by CleanAll, CleanKeepsAllChildren, ShownOnce and RenderedAlongPath |
| MenuController.CleanItem | app/Http/Controllers/Api/MenuController.php:87-107 | no contract of its own; specified by RenderedAlongPath (group exactly when there are children, title and icon kept, leaf target never empty) |
| MenuController.Forest | app/Http/Controllers/Api/MenuController.php:43-111 | no contract of its own; specified by ForestShowsNodesOnce, AcyclicForestShowsAll and, for the seeded database, InitialSetup.AdminForest |
| MenuTreeProofs.LastRowWith | app/Http/Controllers/Api/MenuController.php:55 | the row whose node `$byId` keeps for an id is an answer row with that id |
| MenuTreeProofs.NodeMapFromLastRow | app/Http/Controllers/Api/MenuController.php:43-65 | the node stored for an id is built from the last row with that id |
| MenuTreeProofs.DuplicatesCollapse | app/Http/Controllers/Api/MenuController.php:55 | when equal ids carry equal rows (as in a join), every row's id maps to that row's node: duplicates from several roles collapse |
| MenuTreeProofs.QuerySelectsPermitted | app/Http/Controllers/Api/MenuController.php:16-33 | a menu becomes a node exactly when it exists, is active and is granted to one of the user's roles; its node is built from the catalog; the key order lists each node once; no roles means no rows |
| MenuTreeProofs.QueryRowsFromCatalog | app/Http/Controllers/Api/MenuController.php:26-30 | the row kept for a selected id is that menu's catalog row |
| MenuTreeProofs.FiltersKeepDistinct | app/Http/Controllers/Api/MenuController.php:70-77 | neither `$tree` nor any children list holds a node twice |
| MenuTreeProofs.PlacedOnce | app/Http/Controllers/Api/MenuController.php:70-78 | every node is a root exactly when its parent id is empty or not a key, and otherwise sits in the children of its parent and of no other node; no list repeats a node |
| MenuTreeProofs.NodeOrderFollowsRows | app/Http/Controllers/Api/MenuController.php:31-65 | when the rows come in key order, the keys of `$byId` are in key order too |
| MenuTreeProofs.FiltersKeepKeyOrder | app/Http/Controllers/Api/MenuController.php:70-77 | taking the roots or the children of a node keeps the key order |
| MenuTreeProofs.SiblingsInOrder | app/Http/Controllers/Api/MenuController.php:31-74 | the children of every node come out in ascending `order_no` |
| MenuTreeProofs.RootsInOrder | app/Http/Controllers/Api/MenuController.php:31-76 | the roots come out in ascending `(COALESCE(parent_id, 0), order_no)` |
| MenuTreeProofs.ChildrenByDistinctOrder | app/Http/Controllers/Api/MenuController.php:31-74 | when the siblings under a node have distinct `order_no`, its children list is exactly those siblings sorted by `order_no` |
| MenuTreeProofs.RootsByDistinctOrder | app/Http/Controllers/Api/MenuController.php:31-76 | when the top-level roots have distinct `order_no`, `$tree` is exactly those roots sorted by `order_no` |
| MenuTreeProofs.LinkedIsWellLinked | app/Http/Controllers/Api/MenuController.php:70-79 | the linked map lists as children exactly the nodes attached under each node, keeps the parents, and has the same roots as `$byId` |
| MenuTreeProofs.CleanAll | app/Http/Controllers/Api/MenuController.php:86-109 | shaping a list of available nodes yields one item per node, position by position |
| MenuTreeProofs.CleanKeepsAllChildren | app/Http/Controllers/Api/MenuController.php:95-96 | on a path from a root, no child is ever dropped from the recursion: every child is still available and is rendered at its position |
| MenuTreeProofs.VisitedOnce | app/Http/Controllers/Api/MenuController.php:86-109 | shaping from the roots visits no node twice |
| MenuTreeProofs.ShownIffRootChain | app/Http/Controllers/Api/MenuController.php:70-111 | a node is shown exactly when its parent chain leads up to a root |
| MenuTreeProofs.ShownOnce | app/Http/Controllers/Api/MenuController.php:70-111 | the forest has one item per visited node, no node is visited twice, and the visited nodes are those with a chain up to a root |
| MenuTreeProofs.ForestShowsNodesOnce | app/Http/Controllers/Api/MenuController.php:43-111 | the answer of `myMenus` shows each node at most once, and shows exactly the nodes whose parent chain reaches a root |
| MenuTreeProofs.ShownAll | app/Http/Controllers/Api/MenuController.php:70-111 | with acyclic parent chains the forest has one item per node |
| MenuTreeProofs.AcyclicForestShowsAll | app/Http/Controllers/Api/MenuController.php:43-111 | with acyclic parent chains the answer of `myMenus` shows every node of `$byId` |
| MenuTreeProofs.RenderedAlongPath | app/Http/Controllers/Api/MenuController.php:89-105 | a node reached from a root renders with its title and icon; it is a group exactly when it has children, with one item per child in order; otherwise it is a leaf with its target or `#` |
| MenuTreeProofs.NodeOfRow | app/Http/Controllers/Api/MenuController.php:47-64 | a node's title is the row's name; its icon is present only when not empty; its leaf target is the path, else the route name, else `#`; its children are the nodes attached under it, in `$byId` iteration order |
| RoleMenuController.Validate | app/Http/Controllers/Api/Master/RoleMenuController.php:47-51 | `role_id` fails when absent or unknown; `menu_ids` fails when absent or empty; `menu_ids.i` fails exactly for an unknown id at index i |
| RoleMenuController.ValidationPasses | app/Http/Controllers/Api/Master/RoleMenuController.php:47-51 | a request passes exactly when its role exists, its selection is non-empty, and every selected menu exists |
| RoleMenuController.EmptySelectionRejected | app/Http/Controllers/Api/Master/RoleMenuController.php:49 | an empty selection for an existing role is refused, with only the `menu_ids` error |
| RoleMenuController.ValidateIntended | app/Http/Controllers/Api/Master/RoleMenuController.php:47-51 | like the written rules, except that `menu_ids` fails only when absent |
| RoleMenuController.IntendedValidationPasses | app/Http/Controllers/Api/Master/RoleMenuController.php:47-51 | under the intended rules a request passes exactly when its role exists, its selection is present, and every selected menu exists |
| RoleMenuController.IntendedEmptySelectionClears | app/Http/Controllers/Api/Master/RoleMenuController.php:56-67 | under the intended rules an empty selection is accepted; it removes every grant of the role and keeps every other role's grants |
| RoleMenuController.AfterDelete | app/Http/Controllers/Api/Master/RoleMenuController.php:58 | the delete removes exactly the rows of the role |
| RoleMenuController.Replaced | app/Http/Controllers/Api/Master/RoleMenuController.php:56-67 | after the replace the role's menu ids are exactly the submitted ids, and every other role's rows are unchanged |
| RoleMenuController.ReplaceIdempotent | app/Http/Controllers/Api/Master/RoleMenuController.php:56-67 | submitting the same ids twice leaves what submitting them once leaves |
| RoleMenuController.LastReplaceWins | app/Http/Controllers/Api/Master/RoleMenuController.php:56-67 | the last submission alone decides a role's grants; nothing stale survives |
| RoleMenuController.ReplaceDependsOnSetOnly | app/Http/Controllers/Api/Master/RoleMenuController.php:53-67 | the order and repetition of the submitted ids do not matter |
| RoleMenuController.DedupBeforeReplace | app/Http/Controllers/Api/Master/RoleMenuController.php:54-66 | deduplicating before the insert gives the table that inserting each distinct id gives |
| RoleMenuController.EmptyReplaceClears | app/Http/Controllers/Api/Master/RoleMenuController.php:58-60 | replacing with no ids is the delete alone |
| RoleMenuController.ReplacesOfDistinctRolesCommute | app/Http/Controllers/Api/Master/RoleMenuController.php:58-66 | replaces for two different roles give the same table in either order |
| RoleMenuController.InsertRows | app/Http/Controllers/Api/Master/RoleMenuController.php:61-64 | the batch holds one row `(role_id, id)` per id, in submission order |
| RoleMenuController.InsertAccepted | database/migrations/2026_01_29_045038_add_menu_id_to_role_menus_table.php:17-18 | no contract of its own: the batch insert breaks neither the unique index on `(role_id, menu_id)` nor the foreign keys; established by ValidInsertAccepted and decides Database.Replace's commit |
| RoleMenuController.ValidInsertAccepted | database/migrations/2026_01_29_045038_add_menu_id_to_role_menus_table.php:17-18 | after the delete, inserting deduplicated existing menus for an existing role violates neither the unique index nor the foreign keys |
| RoleMenuController.Index | app/Http/Controllers/Api/Master/RoleMenuController.php:13-43 | `roles` and `menus` list exactly the active ones; `checked` is empty when `role_id` is missing or 0, and otherwise holds exactly the role's menu ids |
| RoleMenuController.IndexAfterReplace | app/Http/Controllers/Api/Master/RoleMenuController.php:28-36 | after a replace, `index` shows the submitted ids for that role and what it showed before for every other `role_id` |
| RoleMenuController.Database.Replace | app/Http/Controllers/Api/Master/RoleMenuController.php:56-68 | the transaction commits exactly when the insert violates no constraint, leaving the replaced table; otherwise it rolls back to the old table |
| RoleMenuController.Database.Save | app/Http/Controllers/Api/Master/RoleMenuController.php:53-78 | saving valid ids commits the replace, and `checked` is the role's rows read back, which equal the submitted set and name only existing menus |
| RoleMenuController.Database.Store | app/Http/Controllers/Api/Master/RoleMenuController.php:45-79 | a request failing validation is answered with its errors and changes nothing; a valid one replaces the role's grants by the submitted set and answers with that set as read back, which names only existing menus |
| RoleMenuController.Database.StoreIntended | app/Http/Controllers/Api/Master/RoleMenuController.php:45-79 | the same as `Store` under the intended validation, so an empty selection clears the role |
| InitialSetup.AdminPermittedAll | database/seeders/InitialSetupSeeder.php:297-330 | the seeded admin user holds only role ADMIN, which is granted exactly the menus 1 to 17 |
| InitialSetup.AdminRowsOfQuery | database/seeders/InitialSetupSeeder.php:63-283 | every query answer for the admin yields nodes 1 to 17 with the seeded parents and `order_no` |
| InitialSetup.AdminContentOfQuery | database/seeders/InitialSetupSeeder.php:63-283 | every node of the admin's answer is built from its seeded menu row |
| InitialSetup.AdminRoots | database/seeders/InitialSetupSeeder.php:63-114 | the roots are Dashboard, Master and Auth, in that order |
| InitialSetup.AdminChildren | database/seeders/InitialSetupSeeder.php:90-283 | the children of every menu are the seeded ones in `order_no` order: Regional then Cabang, Departemen, Vendor, Terminal under Master; Provinsi to Area under Regional; Users to PBBKB under Auth; none elsewhere |
| InitialSetup.AdminLinked | database/seeders/InitialSetupSeeder.php:63-283 | after linking, every menu keeps its seeded parent and holds its seeded children |
| InitialSetup.AdminAcyclic | database/seeders/InitialSetupSeeder.php:63-283 | every seeded menu has a parent chain up to a root |
| InitialSetup.AdminShowsAll | database/seeders/InitialSetupSeeder.php:63-330 | the admin's navigation shows seventeen items |
| InitialSetup.AdminTree | database/seeders/InitialSetupSeeder.php:63-330 | for every query answer: roots Dashboard, Master, Auth; nodes exactly 1 to 17 with their seeded children; seventeen items rendered |
| InitialSetup.MasterItem | database/seeders/InitialSetupSeeder.php:77-233 | Master renders as a group holding Regional (with Provinsi, Kabupaten, Wilayah, Area), then Cabang, Departemen, Vendor, Terminal |
| InitialSetup.AuthItem | database/seeders/InitialSetupSeeder.php:103-283 | Auth renders as a group holding Users, Roles, Role Menu, Produk, PBBKB |
| InitialSetup.SeedForest | database/seeders/InitialSetupSeeder.php:63-283 | shaping the seeded tree from its roots gives exactly `AdminNav` |
| InitialSetup.AdminForest | database/seeders/InitialSetupSeeder.php:63-330 | for every query answer the admin's navigation is exactly `AdminNav`, with the seeded titles, icons and paths |

## Left out

- SQL execution is left out. The answer of the menu query is a parameter described by `IsMenuQuery`. That predicate states which rows occur and their order, not how often a menu granted by several roles occurs.
- The query orders by `COALESCE(parent_id, 0), order_no` alone (MenuController.php:31-32), so rows with equal keys may come back in either order. Sibling and root order are therefore proved only up to equal keys.
- HTTP, authentication and the JSON encoding are left out. `$request->user()` is a user id parameter.
- The `(int)` casts in `store` and `index` are not modelled, nor the `integer` rule's handling of numeric strings. Request values are modelled as integers already cast.
- `DB::transaction` is modelled as one atomic step that rolls back on a constraint violation. Other database faults, concurrency and isolation are left out.
- RoleMenuController.Index: `roles` and `menus` are the sets of listed ids. Their ordering by `nama`, their `parent_id, order_no` order and their other columns are not modelled. `checked` is a set, so the order of the plucked ids is not modelled either.
- RoleMenuController.Database.Store: `checked` is stated as a set, so the order of the read-back ids is not modelled.
- Nodes on a cyclic parent chain never reach a root and are absent from the answer (`ForestShowsNodesOnce`). Completeness is proved only for acyclic chains (`AcyclicForestShowsAll`). PHP reference aliasing inside a cycle is not modelled.
- PHP references inside `children` are modelled as child ids that resolve through the linked map. Writes through an alias after linking do not occur in the code and are not modelled.
- An `icon` is kept as the string and stands for the JSON object `{icon: s}`.
- `myMenus` applies no check of `roles.is_active`, and neither does the model.
- The single-table CRUD controllers, routes, models, migrations other than the unique index and the two foreign keys of `role_menus`, and the frontend are not part of this model.

## Findings

| source | as written | input that shows it | evidently intended | confidence | as-written member | corrected member |
|---|---|---|---|---|---|---|
| app/Http/Controllers/Api/Master/RoleMenuController.php:49 | `menu_ids` is `required`, and Laravel's `required` fails on an empty array | `{role_id: 1, menu_ids: []}` for an existing role 1 is answered 422 and the role keeps its grants | unchecking every menu clears the role: the code deletes first and guards the insert with `isNotEmpty()` (lines 57-60), which only an empty selection reaches | not executed | RoleMenuController.EmptySelectionRejected | RoleMenuController.IntendedEmptySelectionClears |
