/** The database as the views change it: one mutable table per model, updated in place by the
    state-changing views. Each method is proved to leave the store in the state, and to give the
    response, that the matching function on `Db` values prescribes; the properties of the views
    are proved about those functions. */
module Store {
  import opened Basics
  import opened Text
  import opened Schema
  import MS = MenuSync
  import OS = OrderSubmission
  import MA = MenuAdmin
  import AC = Accounts
  import FM = Forms

  class Store {
    var users: seq<User>
    var menus: seq<Menu>
    var categories: seq<Category>
    var items: seq<Item>
    var tables: seq<Table>
    var orders: seq<Order>
    var lines: seq<OrderLine>

    /** The tables as one value. */
    function State(): Db
      reads this
    {
      Db(users, menus, categories, items, tables, orders, lines)
    }

    constructor (db: Db)
      ensures State() == db
    {
      users, menus, categories, items := db.users, db.menus, db.categories, db.items;
      tables, orders, lines := db.tables, db.orders, db.lines;
    }

    /** `item.save()` on an existing item. */
    method SetItem(k: nat, item: Item)
      requires k < |items|
      modifies this
      ensures State() == old(State()).(items := old(items)[k := item])
    {
      items := items[k := item];
    }

    /** `MenuItem.objects.create(...)`. */
    method AddItem(item: Item)
      modifies this
      ensures State() == old(State()).(items := old(items) + [item])
    {
      items := items + [item];
    }

    /** One item spec of `save_menu_data`: skipped, saved or raising. */
    method SaveItem(menuId: Id, catId: Id, spec: MS.ItemSpec) returns (ok: bool)
      modifies this
      ensures MS.Progress(State(), ok) == MS.ApplyItem(old(State()), menuId, catId, spec)
    {
      if Strip(spec.name) == [] {
        return true;
      }
      if !MS.ImageUnpacks(spec.image) {
        return false;
      }
      StoreItem(menuId, catId, spec);
      return true;
    }

    /** The item spec has a name and an image that unpacks: update the item its id names in this
        menu, or create one under `catId`. */
    method StoreItem(menuId: Id, catId: Id, spec: MS.ItemSpec)
      requires Strip(spec.name) != [] && MS.ImageUnpacks(spec.image)
      modifies this
      ensures MS.Progress(State(), true) == MS.ApplyItem(old(State()), menuId, catId, spec)
    {
      if MS.HasId(spec) && MS.ItemInMenu(State(), spec.id.value - 1, menuId) {
        UpdateItem(menuId, catId, spec);
      } else {
        CreateItem(menuId, catId, spec);
      }
    }

    /** `item.save()` after overwriting the fields of the item the spec's id names. */
    method UpdateItem(menuId: Id, catId: Id, spec: MS.ItemSpec)
      requires Strip(spec.name) != [] && MS.ImageUnpacks(spec.image)
      requires MS.HasId(spec) && MS.ItemInMenu(State(), spec.id.value - 1, menuId)
      modifies this
      ensures MS.Progress(State(), true) == MS.ApplyItem(old(State()), menuId, catId, spec)
    {
      ghost var db := State();
      MS.ApplyItemCases(db, menuId, catId, spec);
      var k := spec.id.value - 1;
      var updated := items[k].(name := Strip(spec.name), price := spec.price.GetOr(0), description := Strip(spec.description),
                               image := MS.NewImage(spec.image, items[k].image), active := true);
      SetItem(k, updated);
    }

    /** `MenuItem.objects.create(...)` under `catId`. */
    method CreateItem(menuId: Id, catId: Id, spec: MS.ItemSpec)
      requires Strip(spec.name) != [] && MS.ImageUnpacks(spec.image)
      requires !(MS.HasId(spec) && MS.ItemInMenu(State(), spec.id.value - 1, menuId))
      modifies this
      ensures MS.Progress(State(), true) == MS.ApplyItem(old(State()), menuId, catId, spec)
    {
      MS.ApplyItemCases(State(), menuId, catId, spec);
      var created := Item(catId, Strip(spec.name), spec.price.GetOr(0), Strip(spec.description), MS.NewImage(spec.image, None), true);
      AddItem(created);
    }

    /** `save_menu_data(request, menu_id)`. */
    method SaveMenuData(user: Option<Id>, verb: HttpMethod, menuId: Id, data: seq<MS.CategorySpec>) returns (resp: MS.SaveResponse)
      modifies this
      ensures (State(), resp) == MS.SaveMenuData(old(State()), user, verb, menuId, data)
    {
      if user.None? {
        return MS.AuthenticationRequired;
      }
      if verb != POST {
        return MS.MethodNotAllowed;
      }
      if !MS.OwnsMenu(State(), menuId, user.value) {
        return MS.MenuNotFound;
      }
      categories := DeactivateCategoriesOf(categories, menuId);
      ghost var start := State();
      var i := 0;
      while i < |data|
        invariant 0 <= i <= |data|
        invariant MS.ApplyCategoriesFrom(State(), menuId, data, i) == MS.ApplyCategoriesFrom(start, menuId, data, 0)
      {
        ghost var before := State();
        var ac := MS.ActivateCategory(categories, menuId, data[i].name, i);
        var catId := ac.1;
        categories := ac.0;
        items := DeactivateItemsOf(items, catId);
        ghost var mid := State();
        var specs := data[i].items;
        var j := 0;
        while j < |specs|
          invariant 0 <= j <= |specs|
          invariant MS.ApplyItemsFrom(State(), menuId, catId, specs, j) == MS.ApplyItemsFrom(mid, menuId, catId, specs, 0)
        {
          var ok := SaveItem(menuId, catId, specs[j]);
          if !ok {
            assert MS.ApplyCategory(before, menuId, i, data[i]) == MS.Progress(State(), false);
            return MS.ServerError;
          }
          j := j + 1;
        }
        assert MS.ApplyCategory(before, menuId, i, data[i]) == MS.Progress(State(), true);
        i := i + 1;
      }
      return MS.Saved;
    }

    /** `submit_order(request)`. */
    method SubmitOrder(verb: HttpMethod, user: Option<Id>, form: OS.OrderForm, acceptsJson: bool, now: int)
      returns (resp: OS.SubmitResponse)
      modifies this
      ensures (State(), resp) == OS.SubmitOrder(old(State()), verb, user, form, acceptsJson, now)
    {
      if verb != POST {
        return OS.BadRequest(OS.BadMethodMessage);
      }
      if form.table.None? || form.table.value == "" || form.total.None? {
        return OS.BadRequest(OS.MissingFieldsMessage);
      }
      var number := form.table.value;
      var tableId := TableNumbered(number, user);
      var orderId := |orders| + 1;
      orders := orders + [Order(tableId, user, OS.InitialStatus, form.total.value, now)];
      AddOrderLines(orderId, form.lines);
      if acceptsJson {
        return OS.Submitted(orderId);
      }
      return OS.BackToTable(number);
    }

    /** `Table.objects.get_or_create(table_number=number, defaults={'user': user, 'active': True})`. */
    method TableNumbered(number: string, user: Option<Id>) returns (id: Id)
      modifies this
      ensures (tables, id) == OS.FindOrCreateTable(old(tables), number, user)
      ensures State() == old(State()).(tables := tables)
    {
      match FindTable(tables, number) {
        case Some(found) =>
          id := found;
        case None =>
          tables := tables + [Table(number, user, true)];
          id := |tables|;
      }
    }

    /** The `while True` walk over the `item_<n>` fields with its `item_count` counter: stops at
        the first index missing a name, quantity or price, and creates an order line for every
        index before it that names an active item. */
    method AddOrderLines(orderId: Id, fields: seq<OS.LineFields>)
      modifies this
      ensures State() == old(State()).(lines := old(lines) + OS.AcceptedLines(items, orderId, fields[..OS.FirstIncomplete(fields)]))
    {
      ghost var start := State();
      ghost var stop := OS.FirstIncomplete(fields);
      var count := 0;
      while count < |fields| && OS.Complete(fields[count])
        invariant 0 <= count <= stop
        invariant State() == start.(lines := start.lines + OS.AcceptedLines(start.items, orderId, fields[..count]))
      {
        var f := fields[count];
        OS.AcceptedLinesAppend(start.items, orderId, fields[..count], [f]);
        assert fields[..count + 1] == fields[..count] + [f];
        AddLine(orderId, f);
        count := count + 1;
      }
    }

    /** One pass of the walk: an order line for a basket line that names an active item. */
    method AddLine(orderId: Id, f: OS.LineFields)
      requires OS.Complete(f)
      modifies this
      ensures State() == old(State()).(lines := old(lines) + OS.AcceptedLines(old(items), orderId, [f]))
    {
      OS.AcceptedLine(items, orderId, f);
      if OS.ActiveItem(items, f.itemId) {
        lines := lines + [OrderLine(orderId, f.itemId.value, f.quantity.value, f.price.value)];
      }
    }

    /** `create_menu(request)`. */
    method CreateMenu(user: Option<Id>, verb: HttpMethod, name: string, description: string, now: int)
      returns (resp: MA.AdminResponse)
      modifies this
      ensures (State(), resp) == MA.CreateMenu(old(State()), user, verb, name, description, now)
    {
      ghost var db := State();
      ghost var expected := MA.CreateMenu(db, user, verb, name, description, now);
      if user.None? {
        resp := MA.AuthenticationRequired;
      } else if verb != POST {
        resp := MA.MethodNotAllowed;
      } else if !IsRow(users, user.value) {
        resp := MA.UserNotFound(user.value);
      } else {
        var menu := MA.NewMenu(user.value, name, description, now);
        if menu.name == [] {
          resp := MA.NameRequired;
        } else {
          assert expected == (db.(menus := db.menus + [menu]), MA.Created(|db.menus| + 1, menu.name, menu.description));
          AddMenu(menu);
          resp := MA.Created(|menus|, menu.name, menu.description);
        }
      }
    }

    /** `Menu.objects.create(...)`. */
    method AddMenu(menu: Menu)
      modifies this
      ensures State() == old(State()).(menus := old(menus) + [menu])
    {
      menus := menus + [menu];
    }

    /** `update_menu(request, menu_id)`. */
    method UpdateMenu(user: Option<Id>, verb: HttpMethod, menuId: int, name: string, description: string,
                      active: Option<bool>, now: int) returns (resp: MA.AdminResponse)
      modifies this
      ensures (State(), resp) == MA.UpdateMenu(old(State()), user, verb, menuId, name, description, active, now)
    {
      if user.None? {
        return MA.AuthenticationRequired;
      }
      if !(IsRow(menus, menuId) && menus[menuId - 1].owner == user.value) {
        return MA.MenuNotFound;
      }
      var menu := menus[menuId - 1];
      if verb == PUT {
        var menuName := Strip(name);
        if menuName != [] {
          menu := menu.(name := menuName);
        }
        menu := menu.(description := Strip(description));
        if active.Some? {
          menu := menu.(active := active.value);
        }
        menus := menus[menuId - 1 := menu.(updatedAt := now)];
        return MA.Updated;
      } else if verb == DELETE {
        menus := menus[menuId - 1 := menu.(archived := true, updatedAt := now)];
        return MA.Updated;
      }
      return MA.MethodNotAllowed;
    }

    /** `register_view(request)`. */
    method Register(verb: HttpMethod, f: AC.SignUp) returns (resp: AC.RegisterResponse)
      modifies this
      ensures (State(), resp) == AC.Register(old(State()), verb, f)
    {
      if verb != POST {
        return AC.RegisterPage;
      }
      var failed := AC.FirstFailedCheck(users, f);
      if failed.Some? {
        return AC.RegisterError(failed.value);
      }
      users := users + [AC.NewUser(f)];
      return AC.AccountCreated(|users|);
    }

    /** `SubscriberArchiveView.post(request, pk=pk)`. */
    method ArchiveSubscriber(pk: int) returns (resp: AC.ArchiveResponse)
      modifies this
      ensures (State(), resp) == AC.ArchiveSubscriber(old(State()), pk)
    {
      if !IsRow(users, pk) {
        return AC.UserNotFound;
      }
      var user := users[pk - 1];
      users := users[pk - 1 := user.(isArchived := true)];
      return AC.Archived(user.username);
    }

    /** `CustomUserCreationForm.save(commit)`. */
    method SaveCreationForm(u: User, password1: string, commit: bool) returns (saved: User)
      modifies this
      ensures (State(), saved) == FM.SaveCreation(old(State()), u, password1, commit)
    {
      saved := u.(password := Hashed(password1));
      if commit {
        users := users + [saved];
      }
    }

    /** `CustomUserUpdateForm.save(commit)` for user `pk`. */
    method SaveUpdateForm(pk: Id, u: User, password1: Option<string>, commit: bool) returns (saved: User)
      requires IsRow(users, pk)
      modifies this
      ensures (State(), saved) == FM.SaveUpdate(old(State()), pk, u, password1, commit)
    {
      saved := u;
      if password1.Some? && password1.value != "" {
        saved := saved.(password := Hashed(password1.value));
      }
      if commit {
        users := users[pk - 1 := saved];
      }
    }
  }
}
