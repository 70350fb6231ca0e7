/** `create_menu` and `update_menu`: the JSON endpoints that create a menu and edit or archive
    its metadata (name, description, active flag). */
module MenuAdmin {
  import opened Basics
  import opened Text
  import opened Schema

  /** The `active` flag a new menu gets (the model's default; the models module is not part of
      this model). */
  const NewMenuActive: bool := true

  const NameRequiredMessage: string := "Menu name is required"

  datatype AdminResponse =
    | AuthenticationRequired   // 401
    | MethodNotAllowed         // 405
    | UserNotFound(user: Id)   // 500: the session's user has no row
    | NameRequired             // 400, with NameRequiredMessage
    | MenuNotFound             // 404 from get_object_or_404
    | Created(id: Id, name: string, description: string)
    | Updated

  /** The status code each response is sent with. */
  function Status(r: AdminResponse): int
  {
    match r
    case AuthenticationRequired => 401
    case MethodNotAllowed => 405
    case UserNotFound(_) => 500
    case NameRequired => 400
    case MenuNotFound => 404
    case Created(_, _, _) => 200
    case Updated => 200
  }

  /** The menu `create_menu` stores: owned by the caller, with the stripped name and description,
      not archived, stamped `now`. */
  function NewMenu(user: Id, name: string, description: string, now: int): Menu
  {
    Menu(user, Strip(name), Strip(description), NewMenuActive, false, now)
  }

  /** `create_menu(request)`: `name` and `description` are the body's fields ("" when absent). */
  function CreateMenu(db: Db, user: Option<Id>, verb: HttpMethod, name: string, description: string, now: int): (r: (Db, AdminResponse))
  {
    if user.None? then (db, AuthenticationRequired)
    else if verb != POST then (db, MethodNotAllowed)
    else if !IsRow(db.users, user.value) then (db, UserNotFound(user.value))
    else if Strip(name) == [] then (db, NameRequired)
    else
      var m := NewMenu(user.value, name, description, now);
      (db.(menus := db.menus + [m]), Created(|db.menus| + 1, m.name, m.description))
  }

  /** What `update_menu` writes on PUT: the name only when the stripped new name is not empty, the
      stripped description always, `active` only when the field was sent; the save stamps `now`. */
  function PutMenu(m: Menu, name: string, description: string, active: Option<bool>, now: int): (r: Menu)
    ensures r.owner == m.owner && r.archived == m.archived
  {
    m.(name := if Strip(name) != [] then Strip(name) else m.name,
       description := Strip(description),
       active := active.GetOr(m.active),
       updatedAt := now)
  }

  /** What `update_menu` writes on DELETE: the archive flag; the save stamps `now`. */
  function ArchiveMenu(m: Menu, now: int): (r: Menu)
    ensures r.owner == m.owner
  {
    m.(archived := true, updatedAt := now)
  }

  /** `update_menu(request, menu_id)`: `active` is None when the body has no `active` field or it
      is null. The menu is looked up among the caller's own menus before the method is checked. */
  function UpdateMenu(db: Db, user: Option<Id>, verb: HttpMethod, menuId: int, name: string, description: string,
                      active: Option<bool>, now: int): (r: (Db, AdminResponse))
  {
    if user.None? then (db, AuthenticationRequired)
    else if !(IsRow(db.menus, menuId) && db.menus[menuId - 1].owner == user.value) then (db, MenuNotFound)
    else if verb == PUT then
      (db.(menus := db.menus[menuId - 1 := PutMenu(db.menus[menuId - 1], name, description, active, now)]), Updated)
    else if verb == DELETE then
      (db.(menus := db.menus[menuId - 1 := ArchiveMenu(db.menus[menuId - 1], now)]), Updated)
    else (db, MethodNotAllowed)
  }

  // ---------------------------------------------------------------------------------------------
  // Properties.

  /** A menu is created exactly when an existing user POSTs a name that is not blank; every
      refusal writes nothing, and the checks come in the order 401, 405, 500, 400. */
  lemma CreateMenuOutcome(db: Db, user: Option<Id>, verb: HttpMethod, name: string, description: string, now: int)
    ensures var (db', r) := CreateMenu(db, user, verb, name, description, now);
      && (r.Created? <==> user.Some? && verb == POST && IsRow(db.users, user.value) && !AllSpace(name))
      && (!r.Created? ==> db' == db)
      && (user.None? ==> Status(r) == 401)
      && (user.Some? && verb != POST ==> Status(r) == 405)
      && (user.Some? && verb == POST && !IsRow(db.users, user.value) ==> r == UserNotFound(user.value))
      && (user.Some? && verb == POST && IsRow(db.users, user.value) && AllSpace(name) ==> Status(r) == 400)
  {
    StripEmptyIffBlank(name);
    var r := CreateMenu(db, user, verb, name, description, now);
    if user.Some? && verb == POST && IsRow(db.users, user.value) {
      if AllSpace(name) {
        assert r == (db, NameRequired);
      } else {
        assert r.1.Created?;
      }
    }
  }

  /** A created menu is appended with the next key, belongs to the caller, is not archived, and
      carries the name and description without surrounding whitespace; the response echoes what
      was stored. */
  lemma CreateMenuStores(db: Db, user: Id, name: string, description: string, now: int)
    requires IsRow(db.users, user) && !AllSpace(name)
    ensures var (db', r) := CreateMenu(db, Some(user), POST, name, description, now);
      && r.Created? && r.id == |db.menus| + 1
      && |db'.menus| == |db.menus| + 1 && db'.menus[..|db.menus|] == db.menus
      && db' == db.(menus := db'.menus)
      && var m := db'.menus[r.id - 1];
      && m.owner == user && !m.archived && m.active == NewMenuActive && m.updatedAt == now
      && m.name == Strip(name) && m.description == Strip(description)
      && r.name == m.name && r.description == m.description
  {
    StripEmptyIffBlank(name);
    var (db', r) := CreateMenu(db, Some(user), POST, name, description, now);
    assert db'.menus[..|db.menus|] == db.menus;
  }

  /** The stored name of a created menu is not empty and neither starts nor ends with
      whitespace. */
  lemma CreatedNameTrimmed(user: Id, name: string, description: string, now: int)
    requires !AllSpace(name)
    ensures var n := NewMenu(user, name, description, now).name;
      n != [] && !IsSpace(n[0]) && !IsSpace(n[|n| - 1])
  {
    StripEmptyIffBlank(name);
    StripEnds(name);
  }

  /** Creating a menu keeps the store consistent. */
  lemma CreateMenuValid(db: Db, user: Option<Id>, verb: HttpMethod, name: string, description: string, now: int)
    requires Valid(db)
    ensures Valid(CreateMenu(db, user, verb, name, description, now).0)
  {
    var db' := CreateMenu(db, user, verb, name, description, now).0;
    CreateMenuRows(db, user, verb, name, description, now);
    MenusGrowValid(db, db'.menus);
  }

  /** What creating a menu writes: at most one menu, owned by an existing user. */
  lemma CreateMenuRows(db: Db, user: Option<Id>, verb: HttpMethod, name: string, description: string, now: int)
    ensures var db' := CreateMenu(db, user, verb, name, description, now).0;
      && db' == db.(menus := db'.menus)
      && |db.menus| <= |db'.menus|
      && (forall k :: 0 <= k < |db.menus| ==> db'.menus[k] == db.menus[k])
      && (forall k :: |db.menus| <= k < |db'.menus| ==> IsRow(db.users, db'.menus[k].owner))
  {
  }

  /** Menus that keep the owners of the old rows and add rows owned by existing users keep the
      store consistent. */
  lemma MenusGrowValid(db: Db, menus: seq<Menu>)
    requires Valid(db) && |db.menus| <= |menus|
    requires forall k :: 0 <= k < |db.menus| ==> menus[k].owner == db.menus[k].owner
    requires forall k :: |db.menus| <= k < |menus| ==> IsRow(db.users, menus[k].owner)
    ensures Valid(db.(menus := menus))
  {
    forall k | 0 <= k < |db.categories| ensures IsRow(menus, db.categories[k].menu) {
    }
  }

  /** An update is refused with 401 without a user and with 404, whatever the method, when the
      menu is not one of the caller's; a method other than PUT and DELETE gets 405. Refusals
      write nothing. */
  lemma UpdateMenuOutcome(db: Db, user: Option<Id>, verb: HttpMethod, menuId: int, name: string, description: string,
                          active: Option<bool>, now: int)
    ensures var (db', r) := UpdateMenu(db, user, verb, menuId, name, description, active, now);
      var owned := user.Some? && IsRow(db.menus, menuId) && db.menus[menuId - 1].owner == user.value;
      && (r == Updated <==> owned && (verb == PUT || verb == DELETE))
      && (user.None? ==> r == AuthenticationRequired)
      && (user.Some? && !owned ==> r == MenuNotFound)
      && (owned && verb != PUT && verb != DELETE ==> r == MethodNotAllowed)
      && (r != Updated ==> db' == db)
  {
  }

  /** On PUT only the caller's menu changes: its name becomes the stripped new name unless that
      is blank, its description becomes the stripped new description (empty when none was
      sent), its `active` flag follows the field only when sent; owner and archive flag stay. */
  lemma UpdateMenuPut(db: Db, user: Id, menuId: Id, name: string, description: string, active: Option<bool>, now: int)
    requires IsRow(db.menus, menuId) && db.menus[menuId - 1].owner == user
    ensures var db' := UpdateMenu(db, Some(user), PUT, menuId, name, description, active, now).0;
      var m, m' := db.menus[menuId - 1], db'.menus[menuId - 1];
      && db' == db.(menus := db'.menus)
      && |db'.menus| == |db.menus|
      && (forall k :: 0 <= k < |db.menus| && k != menuId - 1 ==> db'.menus[k] == db.menus[k])
      && (AllSpace(name) ==> m'.name == m.name)
      && (!AllSpace(name) ==> m'.name == Strip(name))
      && m'.description == Strip(description)
      && (active.None? ==> m'.active == m.active)
      && (active.Some? ==> m'.active == active.value)
      && m'.owner == m.owner && m'.archived == m.archived
  {
    StripEmptyIffBlank(name);
  }

  /** On DELETE only the caller's menu changes, and of its fields only the archive flag (set)
      and the save time. Archiving twice is archiving once. */
  lemma UpdateMenuDelete(db: Db, user: Id, menuId: Id, now: int)
    requires IsRow(db.menus, menuId) && db.menus[menuId - 1].owner == user
    ensures var db' := UpdateMenu(db, Some(user), DELETE, menuId, "", "", None, now).0;
      && db' == db.(menus := db.menus[menuId - 1 := db.menus[menuId - 1].(archived := true, updatedAt := now)])
      && UpdateMenu(db', Some(user), DELETE, menuId, "", "", None, now).0 == db'
  {
  }

  /** The body of a DELETE is not read. */
  lemma UpdateMenuDeleteIgnoresBody(db: Db, user: Option<Id>, menuId: int, name: string, description: string,
                                    active: Option<bool>, now: int)
    ensures UpdateMenu(db, user, DELETE, menuId, name, description, active, now)
         == UpdateMenu(db, user, DELETE, menuId, "", "", None, now)
  {
  }

  /** Editing a menu keeps the store consistent. */
  lemma UpdateMenuValid(db: Db, user: Option<Id>, verb: HttpMethod, menuId: int, name: string, description: string,
                        active: Option<bool>, now: int)
    requires Valid(db)
    ensures Valid(UpdateMenu(db, user, verb, menuId, name, description, active, now).0)
  {
    var db' := UpdateMenu(db, user, verb, menuId, name, description, active, now).0;
    UpdateMenuRows(db, user, verb, menuId, name, description, active, now);
    MenusGrowValid(db, db'.menus);
  }

  /** What editing a menu writes: the menus, in place, each keeping its owner. */
  lemma UpdateMenuRows(db: Db, user: Option<Id>, verb: HttpMethod, menuId: int, name: string, description: string,
                       active: Option<bool>, now: int)
    ensures var db' := UpdateMenu(db, user, verb, menuId, name, description, active, now).0;
      && db' == db.(menus := db'.menus)
      && |db'.menus| == |db.menus|
      && (forall k :: 0 <= k < |db.menus| ==> db'.menus[k].owner == db.menus[k].owner)
  {
    if user.Some? && IsRow(db.menus, menuId) && db.menus[menuId - 1].owner == user.value {
      var m := db.menus[menuId - 1];
      if verb == PUT {
        OwnerKept(db.menus, menuId - 1, PutMenu(m, name, description, active, now));
      } else if verb == DELETE {
        OwnerKept(db.menus, menuId - 1, ArchiveMenu(m, now));
      }
    }
  }

  lemma OwnerKept(menus: seq<Menu>, k: nat, m: Menu)
    requires k < |menus| && m.owner == menus[k].owner
    ensures |menus[k := m]| == |menus|
    ensures forall j :: 0 <= j < |menus| ==> menus[k := m][j].owner == menus[j].owner
  {
  }
}
