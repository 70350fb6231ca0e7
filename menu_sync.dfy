/** `save_menu_data`: the reconciliation of a submitted menu tree (category name -> item specs)
    against the stored categories and items of one menu, by tombstoning and reactivating rows. */
module MenuSync {
  import opened Basics
  import opened Text
  import opened Schema

  /** One submitted item: `id` is absent or null when not sent, `price` defaults to 0. */
  datatype ItemSpec = ItemSpec(id: Option<int>, name: string, price: Option<Money>, description: string, image: string)

  /** One entry of the submitted `data` object: a category name and its items, in submission order. */
  datatype CategorySpec = CategorySpec(name: string, items: seq<ItemSpec>)

  datatype SaveResponse = Saved | AuthenticationRequired | MethodNotAllowed | MenuNotFound | ServerError

  /** The store after a step, and whether the step finished (false: an exception ended the call). */
  datatype Progress = Progress(db: Db, ok: bool)

  const DataUrlPrefix: string := "data:image"
  const Base64Marker: string := ";base64,"

  /** The submitted `data` is a JSON object, so its keys are distinct. */
  predicate DistinctNames(data: seq<CategorySpec>)
  {
    forall a, b :: 0 <= a < b < |data| ==> data[a].name != data[b].name
  }

  /** The position of category `name` in the submission, if it was submitted. */
  function NameIndex(data: seq<CategorySpec>, name: string): (r: Option<nat>)
    ensures r.Some? ==> r.value < |data| && data[r.value].name == name
    ensures r.None? ==> forall k :: 0 <= k < |data| ==> data[k].name != name
  {
    if data == [] then None
    else if data[0].name == name then Some(0)
    else match NameIndex(data[1..], name)
      case Some(k) => Some(k + 1)
      case None => None
  }

  /** The image field is a data URL, so the item's picture is replaced by it. */
  predicate IsDataUrl(image: string)
  {
    image != "" && StartsWith(image, DataUrlPrefix)
  }

  /** `format, imgstr = image.split(';base64,')` does not raise: either no data URL is
      decoded, or the marker splits it in exactly two parts. */
  predicate ImageUnpacks(image: string)
  {
    !IsDataUrl(image) || |Split(image, Base64Marker)| == 2
  }

  function NewImage(image: string, current: Option<string>): Option<string>
  {
    if IsDataUrl(image) then Some(image) else current
  }

  /** `if item_id:` -- a present, non-zero id. */
  predicate HasId(spec: ItemSpec)
  {
    spec.id.Some? && spec.id.value != 0
  }

  /** The item at position k belongs to a category of menu `menuId` (`category__menu=menu`). */
  predicate ItemInMenu(db: Db, k: int, menuId: Id)
  {
    0 <= k < |db.items| && IsRow(db.categories, db.items[k].category)
    && db.categories[db.items[k].category - 1].menu == menuId
  }

  predicate OwnsMenu(db: Db, menuId: Id, user: Id)
  {
    IsRow(db.menus, menuId) && db.menus[menuId - 1].owner == user
  }

  /** `b` differs from `a` at most in the items table. */
  predicate OnlyItemsChange(a: Db, b: Db)
  {
    a.(items := b.items) == b
  }

  /** `b` differs from `a` at most in the categories and items tables. */
  predicate OnlyMenuTreeChanges(a: Db, b: Db)
  {
    a.(categories := b.categories, items := b.items) == b
  }

  /** One pass of the inner loop: skip a blank name, update the item the id names if it belongs
      to this menu, otherwise create a new item under `catId`. A data URL that does not unpack
      raises before anything is saved. */
  function ApplyItem(db: Db, menuId: Id, catId: Id, spec: ItemSpec): (r: Progress)
    ensures OnlyItemsChange(db, r.db)
  {
    var name := Strip(spec.name);
    var price := spec.price.GetOr(0);
    var description := Strip(spec.description);
    if name == [] then Progress(db, true)
    else if !ImageUnpacks(spec.image) then Progress(db, false)
    else if HasId(spec) && ItemInMenu(db, spec.id.value - 1, menuId) then
      var k := spec.id.value - 1;
      var updated := db.items[k].(name := name, price := price, description := description,
                                  image := NewImage(spec.image, db.items[k].image), active := true);
      Progress(db.(items := db.items[k := updated]), true)
    else
      var created := Item(catId, name, price, description, NewImage(spec.image, None), true);
      Progress(db.(items := db.items + [created]), true)
  }

  /** How one item spec is handled: a blank name is skipped and changes nothing; a data URL that
      does not unpack aborts and changes nothing; an id naming an item of this menu overwrites its
      name, price, description (and image, for a data URL) and reactivates it, leaving its category
      as it was; any other spec creates a new active item under the current category. */
  lemma ApplyItemCases(db: Db, menuId: Id, catId: Id, spec: ItemSpec)
    ensures var r := ApplyItem(db, menuId, catId, spec);
      var name, price, description := Strip(spec.name), spec.price.GetOr(0), Strip(spec.description);
      && (name == [] ==> r == Progress(db, true))
      && (name != [] && !ImageUnpacks(spec.image) ==> r == Progress(db, false))
      && (name != [] && ImageUnpacks(spec.image) && HasId(spec) && ItemInMenu(db, spec.id.value - 1, menuId) ==>
            var k := spec.id.value - 1;
            && r.ok && |r.db.items| == |db.items|
            && r.db.items[k] == db.items[k].(name := name, price := price, description := description,
                                             image := NewImage(spec.image, db.items[k].image), active := true)
            && forall j :: 0 <= j < |db.items| && j != k ==> r.db.items[j] == db.items[j])
      && (name != [] && ImageUnpacks(spec.image) && !(HasId(spec) && ItemInMenu(db, spec.id.value - 1, menuId)) ==>
            r.ok && r.db.items == db.items + [Item(catId, name, price, description, NewImage(spec.image, None), true)])
  {
    var unpacks := ImageUnpacks(spec.image);
    if Strip(spec.name) == [] {
    } else if !unpacks {
    } else if HasId(spec) && ItemInMenu(db, spec.id.value - 1, menuId) {
    } else {
    }
  }

  /** Some spec among `specs[lo..hi]` carries id `id`. */
  predicate ListedIn(specs: seq<ItemSpec>, lo: int, hi: int, id: int)
  {
    exists j :: lo <= j < hi && 0 <= j < |specs| && specs[j].id == Some(id)
  }

  /** The inner loop from spec `from` on; it stops at the first spec that raises. */
  function ApplyItemsFrom(db: Db, menuId: Id, catId: Id, specs: seq<ItemSpec>, from: nat): (r: Progress)
    requires from <= |specs|
    ensures OnlyItemsChange(db, r.db)
    ensures |db.items| <= |r.db.items|
    decreases |specs| - from
  {
    if from == |specs| then Progress(db, true)
    else
      var p := ApplyItem(db, menuId, catId, specs[from]);
      if !p.ok then p else ApplyItemsFrom(p.db, menuId, catId, specs, from + 1)
  }

  /** The effect of one item spec on the rows that existed before it: categories are kept, no
      row is deactivated, and only the row its id names (within this menu) can change. */
  predicate ItemStepFrame(db: Db, db': Db, menuId: Id, catId: Id, spec: ItemSpec)
  {
    && |db.items| <= |db'.items|
    && (forall k :: 0 <= k < |db.items| ==> db'.items[k].category == db.items[k].category)
    && (forall k :: 0 <= k < |db.items| && db.items[k].active ==> db'.items[k].active)
    && (forall k :: 0 <= k < |db.items| && (!ItemInMenu(db, k, menuId) || spec.id != Some(k + 1)) ==> db'.items[k] == db.items[k])
    && (forall k :: |db.items| <= k < |db'.items| ==> db'.items[k].category == catId && db'.items[k].active)
  }

  lemma ApplyItemFrame(db: Db, menuId: Id, catId: Id, spec: ItemSpec)
    ensures ItemStepFrame(db, ApplyItem(db, menuId, catId, spec).db, menuId, catId, spec)
  {
    ApplyItemCases(db, menuId, catId, spec);
    var r := ApplyItem(db, menuId, catId, spec);
    var go := Strip(spec.name) != [] && ImageUnpacks(spec.image);
    var byId := HasId(spec) && ItemInMenu(db, spec.id.value - 1, menuId);
    StepFrame(db, r.db, menuId, catId, spec, go, byId);
  }

  lemma StepFrame(db: Db, db': Db, menuId: Id, catId: Id, spec: ItemSpec, go: bool, byId: bool)
    requires !go ==> db' == db
    requires go && byId ==>
      && HasId(spec) && ItemInMenu(db, spec.id.value - 1, menuId) && |db'.items| == |db.items|
      && db'.items[spec.id.value - 1].category == db.items[spec.id.value - 1].category
      && db'.items[spec.id.value - 1].active
      && (forall j :: 0 <= j < |db.items| && j != spec.id.value - 1 ==> db'.items[j] == db.items[j])
    requires go && !byId ==> exists it: Item :: it.category == catId && it.active && db'.items == db.items + [it]
    ensures ItemStepFrame(db, db', menuId, catId, spec)
  {
    if go && !byId {
      var it: Item :| it.category == catId && it.active && db'.items == db.items + [it];
      assert forall k :: 0 <= k < |db.items| ==> db'.items[k] == db.items[k];
    }
  }

  /** What the inner loop from spec `from` may do to the rows that existed before it. */
  predicate ItemsLoopFrame(db: Db, db': Db, menuId: Id, catId: Id, specs: seq<ItemSpec>, from: int)
  {
    && |db.items| <= |db'.items|
    && (forall k :: 0 <= k < |db.items| ==> db'.items[k].category == db.items[k].category)
    && (forall k :: 0 <= k < |db.items| && db.items[k].active ==> db'.items[k].active)
    && (forall k :: 0 <= k < |db.items| && (!ItemInMenu(db, k, menuId) || !ListedIn(specs, from, |specs|, k + 1)) ==>
          db'.items[k] == db.items[k])
    && (forall k :: |db.items| <= k < |db'.items| ==> db'.items[k].category == catId && db'.items[k].active)
  }

  lemma FrameCompose(db: Db, mid: Db, db': Db, menuId: Id, catId: Id, specs: seq<ItemSpec>, from: nat)
    requires from < |specs| && mid.categories == db.categories
    requires ItemStepFrame(db, mid, menuId, catId, specs[from])
    requires ItemsLoopFrame(mid, db', menuId, catId, specs, from + 1)
    ensures ItemsLoopFrame(db, db', menuId, catId, specs, from)
  {
    forall k | 0 <= k < |db.items| && (!ItemInMenu(db, k, menuId) || !ListedIn(specs, from, |specs|, k + 1))
      ensures db'.items[k] == db.items[k]
    {
      assert ItemInMenu(mid, k, menuId) == ItemInMenu(db, k, menuId);
      if ListedIn(specs, from + 1, |specs|, k + 1) {
        var j :| from + 1 <= j < |specs| && specs[j].id == Some(k + 1);
        assert ListedIn(specs, from, |specs|, k + 1);
      }
      if specs[from].id == Some(k + 1) {
        assert ListedIn(specs, from, |specs|, k + 1);
      }
    }
  }

  /** What the inner loop does to existing rows, finished or not: no item changes category, none
      is deactivated, rows of other menus and rows no remaining spec names by id are untouched,
      and every row it creates is an active item of `catId`. */
  lemma {:induction false} ApplyItemsFromEffect(db: Db, menuId: Id, catId: Id, specs: seq<ItemSpec>, from: nat)
    requires from <= |specs|
    ensures ItemsLoopFrame(db, ApplyItemsFrom(db, menuId, catId, specs, from).db, menuId, catId, specs, from)
    decreases |specs| - from
  {
    if from < |specs| {
      var p := ApplyItem(db, menuId, catId, specs[from]);
      ApplyItemFrame(db, menuId, catId, specs[from]);
      if p.ok {
        ApplyItemsFromEffect(p.db, menuId, catId, specs, from + 1);
        FrameCompose(db, p.db, ApplyItemsFrom(p.db, menuId, catId, specs, from + 1).db, menuId, catId, specs, from);
      } else {
        assert ItemsLoopFrame(db, p.db, menuId, catId, specs, from) by {
          assert p.db == db;
        }
      }
    }
  }

  /** `get_or_create(menu=menu, name=name, defaults={'order': index, 'active': True})` and, for a
      row that already existed, its reactivation at `index`. Returns the categories and the row's id. */
  function ActivateCategory(cats: seq<Category>, menuId: Id, name: string, index: int): (r: (seq<Category>, Id))
    ensures IsRow(r.0, r.1) && r.0[r.1 - 1] == Category(menuId, name, index, true)
    ensures FindCategory(cats, menuId, name).Some? ==> r.1 == FindCategory(cats, menuId, name).value && |r.0| == |cats|
    ensures FindCategory(cats, menuId, name).None? ==> r.0 == cats + [Category(menuId, name, index, true)]
    ensures forall k :: 0 <= k < |cats| && k != r.1 - 1 ==> r.0[k] == cats[k]
    ensures UniqueCategoryNames(cats) ==> UniqueCategoryNames(r.0)
  {
    match FindCategory(cats, menuId, name)
    case Some(id) =>
      (cats[id - 1 := cats[id - 1].(active := true, order := index)], id)
    case None =>
      (cats + [Category(menuId, name, index, true)], |cats| + 1)
  }

  /** One pass of the outer loop: activate category `cs.name` at position `index`, tombstone
      all its items, then apply its item specs. */
  function ApplyCategory(db: Db, menuId: Id, index: int, cs: CategorySpec): (r: Progress)
    ensures OnlyMenuTreeChanges(db, r.db)
  {
    var ac := ActivateCategory(db.categories, menuId, cs.name, index);
    ApplyItemsFrom(db.(categories := ac.0, items := DeactivateItemsOf(db.items, ac.1)), menuId, ac.1, cs.items, 0)
  }

  /** The outer loop from category `i` on; it stops at the first category that raises. */
  function ApplyCategoriesFrom(db: Db, menuId: Id, data: seq<CategorySpec>, i: nat): (r: Progress)
    requires i <= |data|
    ensures OnlyMenuTreeChanges(db, r.db)
    decreases |data| - i
  {
    if i == |data| then Progress(db, true)
    else
      var p := ApplyCategory(db, menuId, i, data[i]);
      if !p.ok then p else ApplyCategoriesFrom(p.db, menuId, data, i + 1)
  }

  /** `save_menu_data(request, menu_id)` with `user` the authenticated principal, if any. */
  function SaveMenuData(db: Db, user: Option<Id>, verb: HttpMethod, menuId: Id, data: seq<CategorySpec>): (r: (Db, SaveResponse))
    ensures (r.1 == Saved || r.1 == ServerError) <==> (user.Some? && verb == POST && OwnsMenu(db, menuId, user.value))
    ensures r.1 != Saved && r.1 != ServerError ==> r.0 == db
    ensures r.0.users == db.users && r.0.menus == db.menus && r.0.tables == db.tables
            && r.0.orders == db.orders && r.0.lines == db.lines
  {
    if user.None? then (db, AuthenticationRequired)
    else if verb != POST then (db, MethodNotAllowed)
    else if !OwnsMenu(db, menuId, user.value) then (db, MenuNotFound)
    else
      var p := ApplyCategoriesFrom(db.(categories := DeactivateCategoriesOf(db.categories, menuId)), menuId, data, 0);
      (p.db, if p.ok then Saved else ServerError)
  }

  // ---------------------------------------------------------------------------------------------
  // What a call does to the menu's categories and items.

  /** Category row `c0` of the menu once the first `i` submitted categories have been processed:
      reactivated at its position if its name is among them, tombstoned otherwise. */
  function Settled(c0: Category, data: seq<CategorySpec>, i: int): Category
  {
    var idx := NameIndex(data, c0.name);
    if idx.Some? && idx.value < i then c0.(active := true, order := idx.value) else c0.(active := false)
  }

  /** A category row created by the call: active, of this menu, at the position of its name. */
  predicate NewCategoryRow(row: Category, menuId: Id, data: seq<CategorySpec>, i: int)
  {
    var idx := NameIndex(data, row.name);
    row.menu == menuId && row.active && idx.Some? && idx.value < i && row.order == idx.value
  }

  /** Pre-existing category row `c` once the first `i` submitted categories are processed. */
  predicate OldCategoryAt(db0: Db, db: Db, menuId: Id, data: seq<CategorySpec>, i: int, c: int)
  {
    && 0 <= c < |db0.categories| && c < |db.categories|
    && db.categories[c] == if db0.categories[c].menu == menuId then Settled(db0.categories[c], data, i) else db0.categories[c]
  }

  predicate NewCategoryAt(db: Db, menuId: Id, data: seq<CategorySpec>, i: int, c: int)
  {
    0 <= c < |db.categories| && NewCategoryRow(db.categories[c], menuId, data, i)
  }

  /** Submitted category `k` has a row of this menu. */
  predicate CategoryStored(db: Db, menuId: Id, data: seq<CategorySpec>, k: int)
  {
    0 <= k < |data| && FindCategory(db.categories, menuId, data[k].name).Some?
  }

  predicate CatInv(db0: Db, db: Db, menuId: Id, data: seq<CategorySpec>, i: int)
  {
    && 0 <= i <= |data|
    && |db0.categories| <= |db.categories|
    && (forall c :: 0 <= c < |db0.categories| ==> OldCategoryAt(db0, db, menuId, data, i, c))
    && (forall c :: |db0.categories| <= c < |db.categories| ==> NewCategoryAt(db, menuId, data, i, c))
    && (forall k :: 0 <= k < i ==> CategoryStored(db, menuId, data, k))
    && UniqueCategoryNames(db.categories)
  }

  /** Position in the submission of the category of pre-existing item `k`, when that category
      belongs to this menu and its name was submitted. */
  function SubmittedPosition(db0: Db, k: int, menuId: Id, data: seq<CategorySpec>): Option<nat>
  {
    if ItemInMenu(db0, k, menuId) then NameIndex(data, db0.categories[db0.items[k].category - 1].name) else None
  }

  /** Some item spec of the categories at positions lo .. hi-1 carries id `id`. */
  predicate ListedBetween(data: seq<CategorySpec>, lo: int, hi: int, id: int)
  {
    exists a :: lo <= a < hi && 0 <= a < |data| && ListedIn(data[a].items, 0, |data[a].items|, id)
  }

  /** Pre-existing item `k` sits under a submitted category already processed, and no category
      processed since then lists its id. */
  predicate StaleAt(db0: Db, k: int, menuId: Id, data: seq<CategorySpec>, i: int)
  {
    var a := SubmittedPosition(db0, k, menuId, data);
    a.Some? && a.value < i && !ListedBetween(data, a.value, i, k + 1)
  }

  /** Pre-existing item `k` once the first `i` submitted categories are processed: it keeps its
      category; outside this menu it is untouched; under a category that was not submitted it is
      never deactivated, and untouched unless some processed spec names it by id; under a
      processed category it is inactive unless a spec processed since then names it by id. */
  predicate OldItemAt(db0: Db, db: Db, menuId: Id, data: seq<CategorySpec>, i: int, k: int)
  {
    && 0 <= k < |db0.items| && k < |db.items|
    && db.items[k].category == db0.items[k].category
    && (!ItemInMenu(db0, k, menuId) ==> db.items[k] == db0.items[k])
    && (SubmittedPosition(db0, k, menuId, data).None? && db0.items[k].active ==> db.items[k].active)
    && (SubmittedPosition(db0, k, menuId, data).None? && !ListedBetween(data, 0, i, k + 1) ==> db.items[k] == db0.items[k])
    && (StaleAt(db0, k, menuId, data, i) ==> !db.items[k].active)
  }

  /** An item row created by the call: active, under a category of this menu that was submitted
      and has been processed. */
  predicate NewItemAt(db: Db, menuId: Id, data: seq<CategorySpec>, i: int, k: int)
  {
    && 0 <= k < |db.items|
    && var it := db.items[k];
    && it.active && IsRow(db.categories, it.category) && db.categories[it.category - 1].menu == menuId
    && var idx := NameIndex(data, db.categories[it.category - 1].name); idx.Some? && idx.value < i
  }

  predicate ItemInv(db0: Db, db: Db, menuId: Id, data: seq<CategorySpec>, i: int)
  {
    && |db0.items| <= |db.items|
    && (forall k :: 0 <= k < |db0.items| ==> OldItemAt(db0, db, menuId, data, i, k))
    && (forall k :: |db0.items| <= k < |db.items| ==> NewItemAt(db, menuId, data, i, k))
  }

  /** What holds of the store once the first `i` submitted categories have been processed. */
  predicate Inv(db0: Db, db: Db, menuId: Id, data: seq<CategorySpec>, i: int)
  {
    && db0.(categories := db.categories, items := db.items) == db
    && CatInv(db0, db, menuId, data, i) && ItemInv(db0, db, menuId, data, i)
  }

  lemma NameIndexAt(data: seq<CategorySpec>, k: nat)
    requires DistinctNames(data) && k < |data|
    ensures NameIndex(data, data[k].name) == Some(k)
  {
  }

  /** Rows keep their menu and name while categories are processed; a row created by the call
      carries the name of a category processed already. */
  lemma CategoryRowKeys(db0: Db, db: Db, menuId: Id, data: seq<CategorySpec>, i: int, c: nat)
    requires DistinctNames(data) && CatInv(db0, db, menuId, data, i) && c < |db.categories|
    ensures c < |db0.categories| ==> db.categories[c].menu == db0.categories[c].menu && db.categories[c].name == db0.categories[c].name
    ensures c >= |db0.categories| ==>
      && db.categories[c].menu == menuId
      && NameIndex(data, db.categories[c].name).Some? && NameIndex(data, db.categories[c].name).value < i
  {
    if c < |db0.categories| {
      assert OldCategoryAt(db0, db, menuId, data, i, c);
    } else {
      assert NewCategoryAt(db, menuId, data, i, c);
    }
  }

  /** The row category `i` is activated in: an old row of the menu carrying its name, or a row
      appended after all existing ones. */
  lemma ActivatedRow(db0: Db, db: Db, menuId: Id, data: seq<CategorySpec>, i: nat)
    requires DistinctNames(data) && i < |data| && CatInv(db0, db, menuId, data, i)
    ensures var id := ActivateCategory(db.categories, menuId, data[i].name, i).1;
      && (id - 1 < |db0.categories| ==> db0.categories[id - 1].menu == menuId && db0.categories[id - 1].name == data[i].name)
      && (id - 1 >= |db0.categories| ==> id == |db.categories| + 1)
      && (forall c :: 0 <= c < |db.categories| && db.categories[c].menu == menuId && db.categories[c].name == data[i].name ==> c == id - 1)
  {
    var name := data[i].name;
    NameIndexAt(data, i);
    FindCategoryMeaning(db.categories, menuId, name);
    var found := FindCategory(db.categories, menuId, name);
    if found.Some? {
      var f := found.value - 1;
      CategoryRowKeys(db0, db, menuId, data, i, f);
      forall c | 0 <= c < |db.categories| && db.categories[c].menu == menuId && db.categories[c].name == name
        ensures c == f
      {
        FindCategoryAt(db.categories, menuId, name, c);
      }
    }
  }

  lemma ActivateOldRow(db0: Db, db: Db, db': Db, menuId: Id, data: seq<CategorySpec>, i: nat, c: nat)
    requires DistinctNames(data) && i < |data| && CatInv(db0, db, menuId, data, i)
    requires db'.categories == ActivateCategory(db.categories, menuId, data[i].name, i).0
    requires c < |db0.categories|
    ensures OldCategoryAt(db0, db', menuId, data, i + 1, c)
  {
    var name := data[i].name;
    var id := ActivateCategory(db.categories, menuId, name, i).1;
    ActivatedRow(db0, db, menuId, data, i);
    NameIndexAt(data, i);
    assert OldCategoryAt(db0, db, menuId, data, i, c);
    var c0 := db0.categories[c];
    if c == id - 1 {
      assert Settled(c0, data, i + 1) == c0.(active := true, order := i);
    } else {
      assert db'.categories[c] == db.categories[c];
      if c0.menu == menuId {
        var idx := NameIndex(data, c0.name);
        assert idx != Some(i);
      }
    }
  }

  lemma ActivateFinds(db: Db, db': Db, menuId: Id, data: seq<CategorySpec>, i: nat)
    requires i < |data| && UniqueCategoryNames(db.categories)
    requires forall k :: 0 <= k < i ==> CategoryStored(db, menuId, data, k)
    requires db'.categories == ActivateCategory(db.categories, menuId, data[i].name, i).0
    ensures forall k :: 0 <= k < i + 1 ==> CategoryStored(db', menuId, data, k)
  {
    var ac := ActivateCategory(db.categories, menuId, data[i].name, i);
    forall k | 0 <= k < i + 1 ensures CategoryStored(db', menuId, data, k) {
      if k == i {
        FindCategoryAt(ac.0, menuId, data[i].name, ac.1 - 1);
      } else {
        assert CategoryStored(db, menuId, data, k);
        FindCategoryMeaning(db.categories, menuId, data[k].name);
        var f := FindCategory(db.categories, menuId, data[k].name).value;
        FindCategoryAt(ac.0, menuId, data[k].name, f - 1);
      }
    }
  }

  /** Processing category `i` keeps the category invariant: its row is found or created and
      reactivated at position `i`, and no other row changes. */
  lemma ActivateStep(db0: Db, db: Db, db': Db, menuId: Id, data: seq<CategorySpec>, i: nat)
    requires DistinctNames(data) && i < |data| && CatInv(db0, db, menuId, data, i)
    requires db'.categories == ActivateCategory(db.categories, menuId, data[i].name, i).0
    ensures CatInv(db0, db', menuId, data, i + 1)
  {
    var id := ActivateCategory(db.categories, menuId, data[i].name, i).1;
    ActivatedRow(db0, db, menuId, data, i);
    NameIndexAt(data, i);
    var next := i + 1;
    forall c | 0 <= c < |db0.categories| ensures OldCategoryAt(db0, db', menuId, data, next, c) {
      ActivateOldRow(db0, db, db', menuId, data, i, c);
    }
    forall c | |db0.categories| <= c < |db'.categories| ensures NewCategoryAt(db', menuId, data, next, c) {
      if c != id - 1 {
        assert NewCategoryAt(db, menuId, data, i, c);
        assert db'.categories[c] == db.categories[c];
      }
    }
    ActivateFinds(db, db', menuId, data, i);
  }

  lemma ListedBetweenExtend(data: seq<CategorySpec>, a: int, i: nat, id: int)
    requires 0 <= a <= i < |data|
    ensures ListedBetween(data, a, i + 1, id) <==> ListedBetween(data, a, i, id) || ListedIn(data[i].items, 0, |data[i].items|, id)
  {
    if ListedBetween(data, a, i + 1, id) && !ListedIn(data[i].items, 0, |data[i].items|, id) {
      var b :| a <= b < i + 1 && 0 <= b < |data| && ListedIn(data[b].items, 0, |data[b].items|, id);
      assert b < i;
    }
  }

  /** The row category `i` is activated in is the category of pre-existing item `k` exactly when
      that item sits under category `i` of the submission; rows keep their menu and name. */
  lemma CategoryOfOldItem(db0: Db, db: Db, menuId: Id, data: seq<CategorySpec>, i: nat, k: nat)
    requires Valid(db0) && DistinctNames(data) && i < |data| && CatInv(db0, db, menuId, data, i)
    requires k < |db0.items|
    ensures var ac := ActivateCategory(db.categories, menuId, data[i].name, i);
      var c0 := db0.items[k].category;
      && IsRow(ac.0, c0) && ac.0[c0 - 1].menu == db0.categories[c0 - 1].menu && ac.0[c0 - 1].name == db0.categories[c0 - 1].name
      && (c0 == ac.1 <==> SubmittedPosition(db0, k, menuId, data) == Some(i))
  {
    var c0 := db0.items[k].category;
    ActivatedRow(db0, db, menuId, data, i);
    NameIndexAt(data, i);
    assert IsRow(db0.categories, c0);
    CategoryRowKeys(db0, db, menuId, data, i, c0 - 1);
  }

  lemma ItemStepOld(db0: Db, db: Db, db': Db, menuId: Id, data: seq<CategorySpec>, i: nat, k: nat)
    requires Valid(db0) && DistinctNames(data) && i < |data|
    requires CatInv(db0, db, menuId, data, i) && OldItemAt(db0, db, menuId, data, i, k)
    requires var ac := ActivateCategory(db.categories, menuId, data[i].name, i);
      && db'.categories == ac.0
      && ItemsLoopFrame(db.(categories := ac.0, items := DeactivateItemsOf(db.items, ac.1)), db', menuId, ac.1, data[i].items, 0)
    ensures OldItemAt(db0, db', menuId, data, i + 1, k)
  {
    var ac := ActivateCategory(db.categories, menuId, data[i].name, i);
    var dbA := db.(categories := ac.0, items := DeactivateItemsOf(db.items, ac.1));
    CategoryOfOldItem(db0, db, menuId, data, i, k);
    assert ItemInMenu(dbA, k, menuId) == ItemInMenu(db0, k, menuId);
    var a := SubmittedPosition(db0, k, menuId, data);
    ListedBetweenExtend(data, 0, i, k + 1);
    if a.Some? && a.value <= i {
      ListedBetweenExtend(data, a.value, i, k + 1);
    }
  }

  lemma ItemStepNew(db0: Db, db: Db, db': Db, menuId: Id, data: seq<CategorySpec>, i: nat, k: nat)
    requires Valid(db0) && DistinctNames(data) && i < |data|
    requires CatInv(db0, db, menuId, data, i) && ItemInv(db0, db, menuId, data, i)
    requires var ac := ActivateCategory(db.categories, menuId, data[i].name, i);
      && db'.categories == ac.0
      && ItemsLoopFrame(db.(categories := ac.0, items := DeactivateItemsOf(db.items, ac.1)), db', menuId, ac.1, data[i].items, 0)
    requires |db0.items| <= k < |db'.items|
    ensures NewItemAt(db', menuId, data, i + 1, k)
  {
    var ac := ActivateCategory(db.categories, menuId, data[i].name, i);
    ActivatedRow(db0, db, menuId, data, i);
    NameIndexAt(data, i);
    if k < |db.items| {
      assert NewItemAt(db, menuId, data, i, k);
      var it := db.items[k];
      assert it.category != ac.1;
      assert db'.items[k].category == it.category && db'.items[k].active;
      assert ac.0[it.category - 1].menu == db.categories[it.category - 1].menu;
      assert ac.0[it.category - 1].name == db.categories[it.category - 1].name;
    }
  }

  /** Processing category `i` keeps the item invariant. */
  lemma ItemStep(db0: Db, db: Db, db': Db, menuId: Id, data: seq<CategorySpec>, i: nat)
    requires Valid(db0) && DistinctNames(data) && i < |data|
    requires CatInv(db0, db, menuId, data, i) && ItemInv(db0, db, menuId, data, i)
    requires var ac := ActivateCategory(db.categories, menuId, data[i].name, i);
      && db'.categories == ac.0
      && ItemsLoopFrame(db.(categories := ac.0, items := DeactivateItemsOf(db.items, ac.1)), db', menuId, ac.1, data[i].items, 0)
    ensures ItemInv(db0, db', menuId, data, i + 1)
  {
    var next := i + 1;
    forall k | 0 <= k < |db0.items| ensures OldItemAt(db0, db', menuId, data, next, k) {
      ItemStepOld(db0, db, db', menuId, data, i, k);
    }
    forall k | |db0.items| <= k < |db'.items| ensures NewItemAt(db', menuId, data, next, k) {
      ItemStepNew(db0, db, db', menuId, data, i, k);
    }
  }

  /** One pass of the outer loop keeps the invariant, whether or not an item spec aborts it. */
  lemma CategoryStep(db0: Db, db: Db, menuId: Id, data: seq<CategorySpec>, i: nat)
    requires Valid(db0) && DistinctNames(data) && i < |data| && Inv(db0, db, menuId, data, i)
    ensures Inv(db0, ApplyCategory(db, menuId, i, data[i]).db, menuId, data, i + 1)
  {
    var ac := ActivateCategory(db.categories, menuId, data[i].name, i);
    var dbA := db.(categories := ac.0, items := DeactivateItemsOf(db.items, ac.1));
    var r := ApplyItemsFrom(dbA, menuId, ac.1, data[i].items, 0);
    ApplyItemsFromEffect(dbA, menuId, ac.1, data[i].items, 0);
    ActivateStep(db0, db, r.db, menuId, data, i);
    ItemStep(db0, db, r.db, menuId, data, i);
  }

  /** The loop, started at category `i`, ended at some category `j` at or after `i` with the
      invariant holding there; if it succeeded, `j` is the end of the submission. */
  predicate StopsWithInv(db0: Db, p: Progress, menuId: Id, data: seq<CategorySpec>, i: int)
  {
    exists j :: i <= j <= |data| && Inv(db0, p.db, menuId, data, j) && (p.ok ==> j == |data|)
  }

  /** The outer loop from category `i` stops at some category `j` with the invariant holding
      there; when it reports success it processed every category. */
  lemma {:induction false} CategoriesFromEffect(db0: Db, db: Db, menuId: Id, data: seq<CategorySpec>, i: nat)
    requires Valid(db0) && DistinctNames(data) && i <= |data| && Inv(db0, db, menuId, data, i)
    ensures StopsWithInv(db0, ApplyCategoriesFrom(db, menuId, data, i), menuId, data, i)
    decreases |data| - i
  {
    if i < |data| {
      var p := ApplyCategory(db, menuId, i, data[i]);
      CategoryStep(db0, db, menuId, data, i);
      if p.ok {
        CategoriesFromEffect(db0, p.db, menuId, data, i + 1);
        var q := ApplyCategoriesFrom(p.db, menuId, data, i + 1);
        assert q == ApplyCategoriesFrom(db, menuId, data, i);
      } else {
        assert p == ApplyCategoriesFrom(db, menuId, data, i);
        assert Inv(db0, p.db, menuId, data, i + 1);
      }
    } else {
      var p := ApplyCategoriesFrom(db, menuId, data, i);
      assert p.db == db;
      assert Inv(db0, p.db, menuId, data, i);
    }
  }

  /** Tombstoning every category of the menu establishes the invariant before the loop. */
  lemma InitialInv(db: Db, menuId: Id, data: seq<CategorySpec>)
    requires Valid(db)
    ensures Inv(db, db.(categories := DeactivateCategoriesOf(db.categories, menuId)), menuId, data, 0)
  {
    var db1 := db.(categories := DeactivateCategoriesOf(db.categories, menuId));
    forall c | 0 <= c < |db.categories| ensures OldCategoryAt(db, db1, menuId, data, 0, c) {
    }
    forall k | 0 <= k < |db.items| ensures OldItemAt(db, db1, menuId, data, 0, k) {
    }
  }

  /** Whatever point the call stops at, the store stays consistent. */
  lemma InvValid(db0: Db, db: Db, menuId: Id, data: seq<CategorySpec>, j: int)
    requires Valid(db0) && DistinctNames(data) && IsRow(db0.menus, menuId) && Inv(db0, db, menuId, data, j)
    ensures Valid(db)
  {
    forall c | 0 <= c < |db.categories| ensures IsRow(db.menus, db.categories[c].menu) {
      CategoryRowKeys(db0, db, menuId, data, j, c);
    }
    forall k | 0 <= k < |db.items| ensures IsRow(db.categories, db.items[k].category) {
      if k < |db0.items| {
        assert OldItemAt(db0, db, menuId, data, j, k);
      } else {
        assert NewItemAt(db, menuId, data, j, k);
      }
    }
  }

  /** Submitted category `k` has a live row of this menu at position `k`. */
  predicate CategoryLive(db: Db, menuId: Id, data: seq<CategorySpec>, k: int)
  {
    && 0 <= k < |data|
    && var f := FindCategory(db.categories, menuId, data[k].name);
    && f.Some? && db.categories[f.value - 1].active && db.categories[f.value - 1].order == k
  }

  /** What any call leaves alone: no row disappears, no category changes menu or name, categories
      of other menus and items of other menus are untouched, no item changes category, and an item whose category was not
      submitted is never deactivated. */
  predicate Untouched(db: Db, db': Db, menuId: Id, data: seq<CategorySpec>)
  {
    && |db.categories| <= |db'.categories| && |db.items| <= |db'.items|
    && (forall c :: 0 <= c < |db.categories| ==>
          && db'.categories[c].menu == db.categories[c].menu && db'.categories[c].name == db.categories[c].name
          && (db.categories[c].menu != menuId ==> db'.categories[c] == db.categories[c]))
    && (forall k :: 0 <= k < |db.items| ==>
          && db'.items[k].category == db.items[k].category
          && (!ItemInMenu(db, k, menuId) ==> db'.items[k] == db.items[k])
          && (SubmittedPosition(db, k, menuId, data).None? && db.items[k].active ==> db'.items[k].active))
  }

  /** What a call that processed every category guarantees: each submitted category is live at
      its position, a category of the menu is active exactly when its name was submitted, an
      item left under a submitted category with no spec from that category on naming it is
      inactive, and every item created is active. */
  predicate Settles(db: Db, db': Db, menuId: Id, data: seq<CategorySpec>)
    requires |db.items| <= |db'.items|
  {
    && (forall k :: 0 <= k < |data| ==> CategoryLive(db', menuId, data, k))
    && (forall c :: 0 <= c < |db'.categories| && db'.categories[c].menu == menuId ==>
          (db'.categories[c].active <==> NameIndex(data, db'.categories[c].name).Some?))
    && (forall k :: 0 <= k < |db.items| && StaleAt(db, k, menuId, data, |data|) ==> !db'.items[k].active)
    && (forall k :: |db.items| <= k < |db'.items| ==> db'.items[k].active)
  }

  lemma FinalInv(db0: Db, db: Db, menuId: Id, data: seq<CategorySpec>)
    requires Valid(db0) && DistinctNames(data) && Inv(db0, db, menuId, data, |data|)
    ensures |db0.items| <= |db.items| && Settles(db0, db, menuId, data)
  {
    var n := |data|;
    forall k | 0 <= k < |data| ensures CategoryLive(db, menuId, data, k) {
      assert CategoryStored(db, menuId, data, k);
      FindCategoryMeaning(db.categories, menuId, data[k].name);
      var f := FindCategory(db.categories, menuId, data[k].name).value - 1;
      CategoryRowKeys(db0, db, menuId, data, n, f);
      NameIndexAt(data, k);
      if f < |db0.categories| {
        assert OldCategoryAt(db0, db, menuId, data, n, f);
      } else {
        assert NewCategoryAt(db, menuId, data, n, f);
      }
    }
    forall c | 0 <= c < |db.categories| && db.categories[c].menu == menuId
      ensures db.categories[c].active <==> NameIndex(data, db.categories[c].name).Some?
    {
      if c < |db0.categories| {
        assert OldCategoryAt(db0, db, menuId, data, n, c);
      } else {
        assert NewCategoryAt(db, menuId, data, n, c);
      }
    }
    forall k | 0 <= k < |db0.items| && StaleAt(db0, k, menuId, data, n) ensures !db.items[k].active {
      assert OldItemAt(db0, db, menuId, data, n, k);
    }
    forall k | |db0.items| <= k < |db.items| ensures db.items[k].active {
      assert NewItemAt(db, menuId, data, n, k);
    }
  }

  lemma InvUntouched(db0: Db, db: Db, menuId: Id, data: seq<CategorySpec>, j: int)
    requires Inv(db0, db, menuId, data, j)
    ensures Untouched(db0, db, menuId, data)
  {
    forall c | 0 <= c < |db0.categories|
      ensures && db.categories[c].menu == db0.categories[c].menu && db.categories[c].name == db0.categories[c].name
              && (db0.categories[c].menu != menuId ==> db.categories[c] == db0.categories[c])
    {
      assert OldCategoryAt(db0, db, menuId, data, j, c);
    }
    forall k | 0 <= k < |db0.items|
      ensures && db.items[k].category == db0.items[k].category
              && (!ItemInMenu(db0, k, menuId) ==> db.items[k] == db0.items[k])
              && (SubmittedPosition(db0, k, menuId, data).None? && db0.items[k].active ==> db.items[k].active)
    {
      assert OldItemAt(db0, db, menuId, data, j, k);
    }
  }

  /** The reconciliation proper, run by the menu's owner. */
  lemma ReconcileEffect(db: Db, menuId: Id, data: seq<CategorySpec>)
    requires Valid(db) && DistinctNames(data) && IsRow(db.menus, menuId)
    ensures var p := ApplyCategoriesFrom(db.(categories := DeactivateCategoriesOf(db.categories, menuId)), menuId, data, 0);
      && Valid(p.db) && Untouched(db, p.db, menuId, data)
      && (p.ok ==> Settles(db, p.db, menuId, data))
  {
    var db1 := db.(categories := DeactivateCategoriesOf(db.categories, menuId));
    InitialInv(db, menuId, data);
    CategoriesFromEffect(db, db1, menuId, data, 0);
    var p := ApplyCategoriesFrom(db1, menuId, data, 0);
    assert StopsWithInv(db, p, menuId, data, 0);
    var j :| 0 <= j <= |data| && Inv(db, p.db, menuId, data, j) && (p.ok ==> j == |data|);
    InvValid(db, p.db, menuId, data, j);
    InvUntouched(db, p.db, menuId, data, j);
    if p.ok {
      FinalInv(db, p.db, menuId, data);
    }
  }

  /** `save_menu_data` keeps the store consistent and leaves alone what `Untouched` names; when it
      answers success, the menu's categories are settled as `Settles` describes. */
  lemma SaveMenuDataFrame(db: Db, user: Option<Id>, verb: HttpMethod, menuId: Id, data: seq<CategorySpec>)
    requires Valid(db) && DistinctNames(data)
    ensures var (db', resp) := SaveMenuData(db, user, verb, menuId, data);
      && Valid(db') && Untouched(db, db', menuId, data)
      && (resp == Saved ==> Settles(db, db', menuId, data))
  {
    if user.Some? && verb == POST && OwnsMenu(db, menuId, user.value) {
      ReconcileEffect(db, menuId, data);
    }
  }

  // ---------------------------------------------------------------------------------------------
  // When the call fails.

  /** An item spec does not raise: its name is blank (it is skipped before its image is looked
      at) or its image unpacks. */
  predicate SpecOk(spec: ItemSpec)
  {
    Strip(spec.name) == [] || ImageUnpacks(spec.image)
  }

  /** No item spec from position `from` on raises. */
  predicate ItemsOkFrom(specs: seq<ItemSpec>, from: nat)
    decreases |specs| - from
  {
    from >= |specs| || (SpecOk(specs[from]) && ItemsOkFrom(specs, from + 1))
  }

  /** No item spec of categories `i ..` raises. */
  predicate SubmissionOk(data: seq<CategorySpec>, i: int)
  {
    forall a :: i <= a < |data| && 0 <= a ==> ItemsOkFrom(data[a].items, 0)
  }

  lemma ApplyItemOk(db: Db, menuId: Id, catId: Id, spec: ItemSpec)
    ensures ApplyItem(db, menuId, catId, spec).ok == SpecOk(spec)
  {
    ApplyItemCases(db, menuId, catId, spec);
  }

  lemma {:induction false} ApplyItemsFromOk(db: Db, menuId: Id, catId: Id, specs: seq<ItemSpec>, from: nat)
    requires from <= |specs|
    ensures ApplyItemsFrom(db, menuId, catId, specs, from).ok == ItemsOkFrom(specs, from)
    decreases |specs| - from
  {
    if from < |specs| {
      var p := ApplyItem(db, menuId, catId, specs[from]);
      ApplyItemOk(db, menuId, catId, specs[from]);
      if p.ok {
        ApplyItemsFromOk(p.db, menuId, catId, specs, from + 1);
      }
    }
  }

  lemma ApplyCategoryOk(db: Db, menuId: Id, index: int, cs: CategorySpec)
    ensures ApplyCategory(db, menuId, index, cs).ok == ItemsOkFrom(cs.items, 0)
  {
    var ac := ActivateCategory(db.categories, menuId, cs.name, index);
    ApplyItemsFromOk(db.(categories := ac.0, items := DeactivateItemsOf(db.items, ac.1)), menuId, ac.1, cs.items, 0);
  }

  lemma {:induction false} ApplyCategoriesFromOk(db: Db, menuId: Id, data: seq<CategorySpec>, i: nat)
    requires i <= |data|
    ensures ApplyCategoriesFrom(db, menuId, data, i).ok <==> SubmissionOk(data, i)
    decreases |data| - i
  {
    if i < |data| {
      var p := ApplyCategory(db, menuId, i, data[i]);
      ApplyCategoryOk(db, menuId, i, data[i]);
      if p.ok {
        ApplyCategoriesFromOk(p.db, menuId, data, i + 1);
        assert SubmissionOk(data, i) <==> SubmissionOk(data, i + 1);
      }
    }
  }

  /** `save_menu_data` answers success exactly when the owner posts and no item spec raises. */
  lemma SaveMenuDataSucceeds(db: Db, user: Option<Id>, verb: HttpMethod, menuId: Id, data: seq<CategorySpec>)
    ensures SaveMenuData(db, user, verb, menuId, data).1 == Saved <==>
      user.Some? && verb == POST && OwnsMenu(db, menuId, user.value) && SubmissionOk(data, 0)
  {
    ApplyCategoriesFromOk(db.(categories := DeactivateCategoriesOf(db.categories, menuId)), menuId, data, 0);
  }
}
