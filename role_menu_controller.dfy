/** The role-menu reconciler behind `/master/role-menus`
    (RoleMenuController): `index` is the read-only admin view (active roles,
    active menus, the menu ids granted to one role), and `store` replaces the
    whole grant set of one role (validate, cast and deduplicate, delete every
    row of the role and insert one row per id inside one transaction, then
    read the role's rows back). */
module RoleMenuController {
  import opened Collections
  import opened Schema

  // ---------------------------------------------------------------------------
  // Requests and answers

  /** The body of `POST /master/role-menus`: `role_id` and `menu_ids`, each
      possibly absent. The values are the integers the `integer` rule admits,
      already cast by `(int)`. */
  datatype StoreRequest = StoreRequest(roleId: Option<int>, menuIds: Option<seq<int>>)

  /** A failed validation rule, keyed like Laravel's error bag: `role_id`,
      `menu_ids`, and `menu_ids.<index>`. */
  datatype FieldError = RoleIdInvalid | MenuIdsMissing | MenuIdInvalid(index: int)

  /** 200 with `{message, checked}`, or 422 with the failed fields. */
  datatype StoreResponse =
    | Saved(message: string, checked: set<int>)
    | Rejected(errors: set<FieldError>)

  /** The answer of `index`: the ids of the listed roles and menus, and `checked`. */
  datatype IndexResponse = IndexResponse(roles: set<int>, menus: set<int>, checked: set<int>)

  const SavedMessage: string := "Role menus saved"

  // ---------------------------------------------------------------------------
  // Validation

  /** The rules `role_id: required|integer|exists:roles,id`,
      `menu_ids: required|array` and `menu_ids.*: integer|exists:menus,id`.
      Laravel's `required` also fails on an empty array. */
  function Validate(req: StoreRequest, roles: map<int, Role>, menus: map<int, Menu>): (errs: set<FieldError>)
    ensures RoleIdInvalid in errs <==> req.roleId.None? || req.roleId.value !in roles
    ensures MenuIdsMissing in errs <==> req.menuIds.None? || req.menuIds.value == []
    ensures forall i :: MenuIdInvalid(i) in errs <==>
      req.menuIds.Some? && 0 <= i < |req.menuIds.value| && req.menuIds.value[i] !in menus
  {
    var ids := if req.menuIds.Some? then req.menuIds.value else [];
    (if req.roleId.None? || req.roleId.value !in roles then {RoleIdInvalid} else {})
      + (if req.menuIds.None? || ids == [] then {MenuIdsMissing} else {})
      + (set i | 0 <= i < |ids| && ids[i] !in menus :: MenuIdInvalid(i))
  }

  /** A request passes validation exactly when the role exists, the selection
      is a non-empty list, and every selected menu exists. */
  lemma ValidationPasses(req: StoreRequest, roles: map<int, Role>, menus: map<int, Menu>)
    ensures Validate(req, roles, menus) == {} <==>
      && req.roleId.Some? && req.roleId.value in roles
      && req.menuIds.Some? && req.menuIds.value != []
      && forall m :: m in req.menuIds.value ==> m in menus
  {
    var errs := Validate(req, roles, menus);
    if req.roleId.Some? && req.roleId.value in roles && req.menuIds.Some? && req.menuIds.value != []
      && (forall m :: m in req.menuIds.value ==> m in menus) {
      forall i | 0 <= i < |req.menuIds.value| ensures req.menuIds.value[i] in menus {
        assert req.menuIds.value[i] in req.menuIds.value;
      }
    }
    if errs == {} {
      forall m | m in req.menuIds.value ensures m in menus {
        var i :| 0 <= i < |req.menuIds.value| && req.menuIds.value[i] == m;
        assert MenuIdInvalid(i) !in errs;
      }
    }
  }

  /** Submitting an empty selection for an existing role is refused by the
      `required` rule: the role's grants cannot be cleared through `store`. */
  lemma EmptySelectionRejected(roles: map<int, Role>, menus: map<int, Menu>, roleId: int)
    requires roleId in roles
    ensures Validate(StoreRequest(Some(roleId), Some([])), roles, menus) == {MenuIdsMissing}
  {
    var errs := Validate(StoreRequest(Some(roleId), Some([])), roles, menus);
    forall e ensures e in errs <==> e == MenuIdsMissing {
      if e.MenuIdInvalid? {
        assert e == MenuIdInvalid(e.index);
      }
    }
  }

  /** The validation the delete-then-insert design calls for: `menu_ids` must
      be present and an array (Laravel's `present|array`), so that an empty
      selection for an existing role is accepted and clears it. */
  function ValidateIntended(req: StoreRequest, roles: map<int, Role>, menus: map<int, Menu>): (errs: set<FieldError>)
    ensures MenuIdsMissing in errs <==> req.menuIds.None?
    ensures forall e :: e != MenuIdsMissing ==> (e in errs <==> e in Validate(req, roles, menus))
  {
    var asWritten := Validate(req, roles, menus);
    if req.menuIds.Some? && req.menuIds.value == [] then asWritten - {MenuIdsMissing} else asWritten
  }

  /** Under the intended rules a request passes exactly when the role exists,
      the selection is present, and every selected menu exists. */
  lemma IntendedValidationPasses(req: StoreRequest, roles: map<int, Role>, menus: map<int, Menu>)
    ensures ValidateIntended(req, roles, menus) == {} <==>
      && req.roleId.Some? && req.roleId.value in roles
      && req.menuIds.Some?
      && forall m :: m in req.menuIds.value ==> m in menus
  {
    var errs := ValidateIntended(req, roles, menus);
    if req.roleId.Some? && req.roleId.value in roles && req.menuIds.Some?
      && (forall m :: m in req.menuIds.value ==> m in menus) {
      forall i | 0 <= i < |req.menuIds.value| ensures req.menuIds.value[i] in menus {
        assert req.menuIds.value[i] in req.menuIds.value;
      }
    }
    if errs == {} {
      forall m | m in req.menuIds.value ensures m in menus {
        var i :| 0 <= i < |req.menuIds.value| && req.menuIds.value[i] == m;
        assert MenuIdInvalid(i) !in errs;
      }
    }
  }

  // ---------------------------------------------------------------------------
  // The replace, as a value

  /** `role_menus` after `delete ... where role_id = roleId`. */
  function AfterDelete(grants: set<Grant>, roleId: int): (g: set<Grant>)
    ensures forall x :: x in g <==> x in grants && x.roleId != roleId
  {
    set x | x in grants && x.roleId != roleId
  }

  /** `role_menus` after the transaction commits: the rows of other roles as
      they were, and one row `(roleId, m)` per submitted id `m`. */
  function Replaced(grants: set<Grant>, roleId: int, menuIds: seq<int>): (g: set<Grant>)
    ensures GrantedTo(g, roleId) == Elems(menuIds)
    ensures forall r :: r != roleId ==> GrantedTo(g, r) == GrantedTo(grants, r)
    ensures forall x: Grant :: x.roleId != roleId ==> (x in g <==> x in grants)
  {
    var g := (set x | x in grants && x.roleId != roleId) + (set m | m in menuIds :: Grant(roleId, m));
    assert forall m :: Grant(roleId, m) in g <==> m in menuIds;
    assert forall m :: m in GrantedTo(g, roleId) <==> m in Elems(menuIds);
    g
  }

  /** Replacing twice with the same ids leaves what replacing once leaves. */
  lemma ReplaceIdempotent(grants: set<Grant>, roleId: int, menuIds: seq<int>)
    ensures Replaced(Replaced(grants, roleId, menuIds), roleId, menuIds) == Replaced(grants, roleId, menuIds)
  {
    LastReplaceWins(grants, roleId, menuIds, menuIds);
  }

  /** The last submission for a role decides its grants; nothing of the
      earlier one survives. */
  lemma LastReplaceWins(grants: set<Grant>, roleId: int, first: seq<int>, second: seq<int>)
    ensures Replaced(Replaced(grants, roleId, first), roleId, second) == Replaced(grants, roleId, second)
  {
    var a := Replaced(Replaced(grants, roleId, first), roleId, second);
    var b := Replaced(grants, roleId, second);
    forall x ensures x in a <==> x in b {
      if x.roleId == roleId {
        assert x in a <==> x.menuId in GrantedTo(a, roleId);
        assert x in b <==> x.menuId in GrantedTo(b, roleId);
      }
    }
  }

  /** Only the set of submitted ids matters: order and repetitions do not. */
  lemma ReplaceDependsOnSetOnly(grants: set<Grant>, roleId: int, a: seq<int>, b: seq<int>)
    requires Elems(a) == Elems(b)
    ensures Replaced(grants, roleId, a) == Replaced(grants, roleId, b)
  {
    var ga := Replaced(grants, roleId, a);
    var gb := Replaced(grants, roleId, b);
    forall x ensures x in ga <==> x in gb {
      if x.roleId == roleId {
        assert x in ga <==> x.menuId in GrantedTo(ga, roleId);
        assert x in gb <==> x.menuId in GrantedTo(gb, roleId);
      }
    }
  }

  /** Deduplicating the submission before the replace changes nothing in the
      resulting table. */
  lemma DedupBeforeReplace(grants: set<Grant>, roleId: int, menuIds: seq<int>)
    ensures Replaced(grants, roleId, Dedup(menuIds)) == Replaced(grants, roleId, menuIds)
  {
    assert Elems(Dedup(menuIds)) == Elems(menuIds);
    ReplaceDependsOnSetOnly(grants, roleId, Dedup(menuIds), menuIds);
  }

  /** An empty submission removes every grant of the role and nothing else. */
  lemma EmptyReplaceClears(grants: set<Grant>, roleId: int)
    ensures Replaced(grants, roleId, []) == AfterDelete(grants, roleId)
  {
    var g := Replaced(grants, roleId, []);
    assert Elems([]) == {};
    forall x ensures x in g <==> x in AfterDelete(grants, roleId) {
      if x.roleId == roleId {
        assert x in g <==> x.menuId in GrantedTo(g, roleId);
      }
    }
  }

  /** Replacing the grants of two different roles gives the same table in
      either order. */
  lemma ReplacesOfDistinctRolesCommute(grants: set<Grant>, r1: int, ids1: seq<int>, r2: int, ids2: seq<int>)
    requires r1 != r2
    ensures Replaced(Replaced(grants, r1, ids1), r2, ids2) == Replaced(Replaced(grants, r2, ids2), r1, ids1)
  {
    var a := Replaced(Replaced(grants, r1, ids1), r2, ids2);
    var b := Replaced(Replaced(grants, r2, ids2), r1, ids1);
    forall x ensures x in a <==> x in b {
      if x.roleId == r1 {
        assert x in a <==> x.menuId in GrantedTo(a, r1);
        assert x in b <==> x.menuId in GrantedTo(b, r1);
      } else if x.roleId == r2 {
        assert x in a <==> x.menuId in GrantedTo(a, r2);
        assert x in b <==> x.menuId in GrantedTo(b, r2);
      }
    }
  }

  /** The rows of the batch insert, one per id, in submission order. */
  function InsertRows(roleId: int, menuIds: seq<int>): (rows: seq<Grant>)
    ensures |rows| == |menuIds|
    ensures forall i :: 0 <= i < |rows| ==> rows[i] == Grant(roleId, menuIds[i])
  {
    if menuIds == [] then [] else [Grant(roleId, menuIds[0])] + InsertRows(roleId, menuIds[1..])
  }

  /** The database accepts the batch insert into `table`: no two rows and no
      row already in the table share `(role_id, menu_id)` (the unique index),
      and each row refers to an existing role and an existing menu (the two
      foreign keys). */
  predicate InsertAccepted(table: set<Grant>, rows: seq<Grant>, roles: map<int, Role>, menus: map<int, Menu>) {
    && NoDup(rows)
    && forall i :: 0 <= i < |rows| ==> rows[i] !in table && rows[i].roleId in roles && rows[i].menuId in menus
  }

  /** After the delete, the insert of a deduplicated list of existing menus for
      an existing role cannot violate a constraint. */
  lemma ValidInsertAccepted(grants: set<Grant>, roleId: int, menuIds: seq<int>, roles: map<int, Role>, menus: map<int, Menu>)
    requires roleId in roles && NoDup(menuIds) && forall m :: m in menuIds ==> m in menus
    ensures InsertAccepted(AfterDelete(grants, roleId), InsertRows(roleId, menuIds), roles, menus)
  {
    var rows := InsertRows(roleId, menuIds);
    forall i, j | 0 <= i < j < |rows| ensures rows[i] != rows[j] {
      assert menuIds[i] != menuIds[j];
    }
    forall i | 0 <= i < |rows| ensures rows[i].menuId in menus {
      assert menuIds[i] in menuIds;
    }
  }

  /** `index`: active roles, active menus, and the grants of `role_id` when it
      is given and truthy (PHP treats a missing value and 0 as false). */
  function Index(roles: map<int, Role>, menus: map<int, Menu>, grants: set<Grant>, roleId: Option<int>): (r: IndexResponse)
    ensures forall k :: k in r.roles <==> k in roles && roles[k].isActive
    ensures forall k :: k in r.menus <==> k in menus && menus[k].isActive
    ensures EmptyId(roleId) ==> r.checked == {}
    ensures !EmptyId(roleId) ==> forall m :: m in r.checked <==> Grant(roleId.value, m) in grants
  {
    IndexResponse(
      set k | k in roles && roles[k].isActive,
      set k | k in menus && menus[k].isActive,
      if EmptyId(roleId) then {} else GrantedTo(grants, roleId.value))
  }

  /** After a replace, `index` for that role shows exactly the submitted ids,
      and for every other role what it showed before. */
  lemma IndexAfterReplace(roles: map<int, Role>, menus: map<int, Menu>, grants: set<Grant>, roleId: int, menuIds: seq<int>, other: Option<int>)
    requires roleId != 0
    ensures Index(roles, menus, Replaced(grants, roleId, menuIds), Some(roleId)).checked == Elems(menuIds)
    ensures other != Some(roleId) ==>
      Index(roles, menus, Replaced(grants, roleId, menuIds), other) == Index(roles, menus, grants, other)
  {
    var g := Replaced(grants, roleId, menuIds);
    var r := Index(roles, menus, g, Some(roleId));
    forall m ensures m in r.checked <==> m in Elems(menuIds) {
      assert m in GrantedTo(g, roleId) <==> Grant(roleId, m) in g;
    }
    if other != Some(roleId) && !EmptyId(other) {
      var a := Index(roles, menus, g, other);
      var b := Index(roles, menus, grants, other);
      forall m ensures m in a.checked <==> m in b.checked {
        assert m in GrantedTo(g, other.value) <==> m in GrantedTo(grants, other.value);
      }
    }
  }

  /** An accepted empty selection (under the intended validation) clears the
      role's grants and leaves every other role's grants alone. */
  lemma IntendedEmptySelectionClears(grants: set<Grant>, roles: map<int, Role>, menus: map<int, Menu>, roleId: int)
    requires roleId in roles
    ensures ValidateIntended(StoreRequest(Some(roleId), Some([])), roles, menus) == {}
    ensures Replaced(grants, roleId, Dedup([])) == AfterDelete(grants, roleId)
    ensures GrantedTo(Replaced(grants, roleId, Dedup([])), roleId) == {}
    ensures forall r :: r != roleId ==> GrantedTo(Replaced(grants, roleId, Dedup([])), r) == GrantedTo(grants, r)
  {
    IntendedValidationPasses(StoreRequest(Some(roleId), Some([])), roles, menus);
    EmptyReplaceClears(grants, roleId);
  }

  // ---------------------------------------------------------------------------
  // The tables, updated in place

  /** The tables `store` and `index` work on. Only `roleMenus` is written. */
  class Database {
    var roles: map<int, Role>
    var menus: map<int, Menu>
    var roleMenus: set<Grant>

    /** The foreign keys of `role_menus`: every row names an existing role
        and an existing menu. It is why the read-back `checked` of `store`
        only ever names existing menus. */
    ghost predicate Valid()
      reads this
    {
      forall g :: g in roleMenus ==> g.roleId in roles && g.menuId in menus
    }

    constructor (roles: map<int, Role>, menus: map<int, Menu>, roleMenus: set<Grant>)
      requires forall g :: g in roleMenus ==> g.roleId in roles && g.menuId in menus
      ensures Valid()
      ensures this.roles == roles && this.menus == menus && this.roleMenus == roleMenus
    {
      this.roles := roles;
      this.menus := menus;
      this.roleMenus := roleMenus;
    }

    /** The closure passed to `DB::transaction`: delete the role's rows, then,
        when there are ids, insert one row per id. A constraint violation
        aborts the transaction and rolls the table back. */
    method Replace(roleId: int, menuIds: seq<int>) returns (committed: bool)
      requires Valid()
      modifies this`roleMenus
      ensures Valid()
      ensures committed <==>
        menuIds == [] || InsertAccepted(AfterDelete(old(roleMenus), roleId), InsertRows(roleId, menuIds), roles, menus)
      ensures committed ==> roleMenus == Replaced(old(roleMenus), roleId, menuIds)
      ensures !committed ==> roleMenus == old(roleMenus)
    {
      var prior := roleMenus;
      roleMenus := AfterDelete(roleMenus, roleId);
      if menuIds != [] {
        var rows := InsertRows(roleId, menuIds);
        if !InsertAccepted(roleMenus, rows, roles, menus) {
          roleMenus := prior;
          return false;
        }
        roleMenus := roleMenus + RowSet(rows);
      }
      ghost var want := Replaced(prior, roleId, menuIds);
      assert forall x :: x in roleMenus <==> x in want by {
        forall x ensures x in roleMenus <==> x in want {
          if x.roleId == roleId {
            assert x in want <==> x.menuId in GrantedTo(want, roleId);
            if x.menuId in Elems(menuIds) {
              var i :| 0 <= i < |menuIds| && menuIds[i] == x.menuId;
              assert InsertRows(roleId, menuIds)[i] == x;
            }
          }
        }
      }
      committed := true;
    }

    /** `store`: validate, then save. */
    method Store(req: StoreRequest) returns (resp: StoreResponse)
      requires Valid()
      modifies this`roleMenus
      ensures Valid()
      ensures Validate(req, roles, menus) != {} ==>
        resp == Rejected(Validate(req, roles, menus)) && roleMenus == old(roleMenus)
      ensures Validate(req, roles, menus) == {} ==>
        && roleMenus == Replaced(old(roleMenus), req.roleId.value, req.menuIds.value)
        && resp == Saved(SavedMessage, Elems(req.menuIds.value))
        && resp.checked == GrantedTo(roleMenus, req.roleId.value)
      ensures resp.Saved? ==> forall m :: m in resp.checked ==> m in menus
    {
      var errs := Validate(req, roles, menus);
      ValidationPasses(req, roles, menus);
      if errs != {} {
        return Rejected(errs);
      }
      resp := Save(req.roleId.value, req.menuIds.value);
    }

    /** `store` with the intended validation (ValidateIntended): an empty
        selection is saved and clears the role. */
    method StoreIntended(req: StoreRequest) returns (resp: StoreResponse)
      requires Valid()
      modifies this`roleMenus
      ensures Valid()
      ensures ValidateIntended(req, roles, menus) != {} ==>
        resp == Rejected(ValidateIntended(req, roles, menus)) && roleMenus == old(roleMenus)
      ensures ValidateIntended(req, roles, menus) == {} ==>
        && roleMenus == Replaced(old(roleMenus), req.roleId.value, req.menuIds.value)
        && resp == Saved(SavedMessage, Elems(req.menuIds.value))
        && resp.checked == GrantedTo(roleMenus, req.roleId.value)
    {
      var errs := ValidateIntended(req, roles, menus);
      IntendedValidationPasses(req, roles, menus);
      if errs != {} {
        return Rejected(errs);
      }
      resp := Save(req.roleId.value, req.menuIds.value);
    }

    /** The part of `store` after validation: cast and deduplicate the ids,
        run the transaction (which commits, as the ids are valid), and read
        the role's rows back into `checked`. */
    method Save(roleId: int, ids: seq<int>) returns (resp: StoreResponse)
      requires Valid() && roleId in roles && forall m :: m in ids ==> m in menus
      modifies this`roleMenus
      ensures Valid()
      ensures roleMenus == Replaced(old(roleMenus), roleId, ids)
      ensures resp == Saved(SavedMessage, Elems(ids))
      ensures resp.checked == GrantedTo(roleMenus, roleId)
      ensures forall m :: m in resp.checked ==> m in menus
    {
      var menuIds := Dedup(ids);
      ValidInsertAccepted(roleMenus, roleId, menuIds, roles, menus);
      var committed := Replace(roleId, menuIds);
      assert committed;
      DedupBeforeReplace(old(roleMenus), roleId, ids);
      resp := Saved(SavedMessage, GrantedTo(roleMenus, roleId));
    }
  }

  /** The set of rows of an insert batch. */
  function RowSet(rows: seq<Grant>): (s: set<Grant>)
    ensures forall x :: x in s <==> x in rows
  {
    set x | x in rows
  }
}
