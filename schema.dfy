/** The persisted tables the permission subsystem reads and writes, as values:
    the menu catalog keyed by id, the roles keyed by id, the role_menus pivot
    and the user_roles pivot. The unique index on (role_id, menu_id) of
    role_menus makes that table a set of pairs. */
module Schema {
  import opened Collections

  /** A row of `menus` (the id is its key in the catalog map). */
  datatype Menu = Menu(
    parentId: Option<int>,
    name: string,
    path: Option<string>,
    routeName: Option<string>,
    icon: Option<string>,
    orderNo: int,
    isActive: bool)

  /** A row of `roles` (the id is its key). */
  datatype Role = Role(kode: string, nama: string, isActive: bool)

  /** A row of `role_menus`. */
  datatype Grant = Grant(roleId: int, menuId: int)

  /** A row of `user_roles`. */
  datatype UserRole = UserRole(userId: int, roleId: int)

  /** `role_menus where role_id = r`, plucked `menu_id`, as a set. */
  function GrantedTo(grants: set<Grant>, roleId: int): (ms: set<int>)
    ensures forall m :: m in ms <==> Grant(roleId, m) in grants
  {
    set g | g in grants && g.roleId == roleId :: g.menuId
  }

  /** `user_roles where user_id = u`, plucked `role_id`, as a set. */
  function RolesOfUser(userRoles: set<UserRole>, userId: int): (rs: set<int>)
    ensures forall r :: r in rs <==> UserRole(userId, r) in userRoles
  {
    set ur | ur in userRoles && ur.userId == userId :: ur.roleId
  }
}
