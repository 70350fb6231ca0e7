/** What `save_menu_data` does to the menu's items, row by row: each stored item of the menu
    ends with the fields of the last submitted spec that names it by id, and active exactly when
    such a spec comes at or after its own category in the submission; the rows created are one
    per spec that names no item of the menu, in submission order. */
module MenuSettle {
  import opened Basics
  import opened Text
  import opened Schema
  import opened MenuSync

  // ---------------------------------------------------------------------------------------------
  // One item, followed through the submission.

  /** Spec `s` writes item `id`: its name is not blank and it carries that id. */
  predicate Touches(s: ItemSpec, id: int)
  {
    Strip(s.name) != [] && s.id == Some(id)
  }

  /** With `paint`, a spec that writes the item and also replaces its picture. */
  predicate Writes(s: ItemSpec, id: int, paint: bool)
  {
    Touches(s, id) && (paint ==> IsDataUrl(s.image))
  }

  /** The last spec of `specs[from..]` that `Writes` item `id`. */
  function LastIn(specs: seq<ItemSpec>, from: nat, id: int, paint: bool): Option<ItemSpec>
    requires from <= |specs|
    decreases |specs| - from
  {
    if from == |specs| then None
    else match LastIn(specs, from + 1, id, paint)
      case Some(s) => Some(s)
      case None => if Writes(specs[from], id, paint) then Some(specs[from]) else None
  }

  /** The last spec, in submission order, of the categories at positions 0 .. n-1 that `Writes`
      item `id`. */
  function LastWrite(data: seq<CategorySpec>, n: nat, id: int, paint: bool): Option<ItemSpec>
    requires n <= |data|
  {
    if n == 0 then None
    else match LastIn(data[n - 1].items, 0, id, paint)
      case Some(s) => Some(s)
      case None => LastWrite(data, n - 1, id, paint)
  }

  /** Some spec of the categories at positions lo .. hi-1 writes item `id`. */
  predicate Written(data: seq<CategorySpec>, lo: int, hi: int, id: int)
  {
    exists b, j :: lo <= b < hi && 0 <= b < |data| && 0 <= j < |data[b].items| && Touches(data[b].items[j], id)
  }

  /** `LastIn` finds a spec exactly when one of `specs[from..]` writes the item; the one it finds
      writes it, and none after it does. */
  lemma {:induction false} LastInMeaning(specs: seq<ItemSpec>, from: nat, id: int, paint: bool)
    requires from <= |specs|
    ensures var r := LastIn(specs, from, id, paint);
      && (r.None? <==> forall j :: from <= j < |specs| ==> !Writes(specs[j], id, paint))
      && (r.Some? ==> exists j :: from <= j < |specs| && specs[j] == r.value && Writes(specs[j], id, paint)
                               && forall j' :: j < j' < |specs| ==> !Writes(specs[j'], id, paint))
    decreases |specs| - from
  {
    if from < |specs| {
      LastInMeaning(specs, from + 1, id, paint);
    }
  }

  /** A spec that writes an item, as the update branch of the inner loop applies it. */
  function Overwrite(it: Item, s: ItemSpec): Item
  {
    it.(name := Strip(s.name), price := s.price.GetOr(0), description := Strip(s.description),
        image := NewImage(s.image, it.image), active := true)
  }

  /** Item `id` after the specs `specs[from..]` of one category. */
  function ReplaySpecs(it: Item, specs: seq<ItemSpec>, from: nat, id: int): Item
    requires from <= |specs|
    decreases |specs| - from
  {
    if from == |specs| then it
    else ReplaySpecs(if Touches(specs[from], id) then Overwrite(it, specs[from]) else it, specs, from + 1, id)
  }

  /** Item `id`, whose category sits at position `pos` of the submission (if submitted), after
      the categories at positions 0 .. n-1: its category's turn tombstones it, then the specs of
      each category write it in turn. */
  function ReplayCats(it: Item, pos: Option<nat>, data: seq<CategorySpec>, n: nat, id: int): Item
    requires n <= |data|
  {
    if n == 0 then it
    else
      var before := ReplayCats(it, pos, data, n - 1, id);
      ReplaySpecs(if pos == Some(n - 1) then before.(active := false) else before, data[n - 1].items, 0, id)
  }

  /** One category's specs leave the item as it was when none writes it; otherwise it is active
      and carries the name, price and description of the last spec that writes it, and the
      picture of the last one that sends a data URL (or its own). */
  lemma {:induction false} ReplaySpecsMeaning(it: Item, specs: seq<ItemSpec>, from: nat, id: int)
    requires from <= |specs|
    ensures var r := ReplaySpecs(it, specs, from, id);
      var last, paint := LastIn(specs, from, id, false), LastIn(specs, from, id, true);
      && r.category == it.category
      && (r.active <==> it.active || last.Some?)
      && (last.None? ==> r == it)
      && (last.Some? ==> r.name == Strip(last.value.name) && r.price == last.value.price.GetOr(0)
                         && r.description == Strip(last.value.description))
      && r.image == (if paint.Some? then Some(paint.value.image) else it.image)
    decreases |specs| - from
  {
    if from < |specs| {
      var s := specs[from];
      var it' := if Touches(s, id) then Overwrite(it, s) else it;
      ReplaySpecsMeaning(it', specs, from + 1, id);
    }
  }

  lemma WrittenExtend(data: seq<CategorySpec>, lo: int, n: nat, id: int)
    requires 0 <= lo <= n < |data|
    ensures Written(data, lo, n + 1, id) <==> Written(data, lo, n, id) || LastIn(data[n].items, 0, id, false).Some?
  {
    LastInMeaning(data[n].items, 0, id, false);
    if Written(data, lo, n + 1, id) && !Written(data, lo, n, id) {
      var b, j :| lo <= b < n + 1 && 0 <= b < |data| && 0 <= j < |data[b].items| && Touches(data[b].items[j], id);
      assert b == n;
      assert Writes(data[n].items[j], id, false);
    }
    if LastIn(data[n].items, 0, id, false).Some? {
      var j :| 0 <= j < |data[n].items| && Writes(data[n].items[j], id, false);
      assert Touches(data[n].items[j], id);
    }
  }

  /** The whole submission, replayed on one item: it keeps its category; an item under a
      submitted category is active exactly when a spec from that category on writes it, any
      other item stays active or becomes active when some spec writes it; its name, price and
      description are those of the last spec that writes it (or its own), its picture that of
      the last one that sends a data URL (or its own). */
  lemma {:induction false} ReplayCatsMeaning(it: Item, pos: Option<nat>, data: seq<CategorySpec>, n: nat, id: int)
    requires n <= |data|
    ensures var r := ReplayCats(it, pos, data, n, id);
      var last, paint := LastWrite(data, n, id, false), LastWrite(data, n, id, true);
      && r.category == it.category
      && (pos.Some? && pos.value < n ==> (r.active <==> Written(data, pos.value, n, id)))
      && (!(pos.Some? && pos.value < n) ==> (r.active <==> it.active || Written(data, 0, n, id)))
      && (last.None? ==> r.name == it.name && r.price == it.price && r.description == it.description)
      && (last.Some? ==> r.name == Strip(last.value.name) && r.price == last.value.price.GetOr(0)
                         && r.description == Strip(last.value.description))
      && r.image == (if paint.Some? then Some(paint.value.image) else it.image)
  {
    if n > 0 {
      var m := n - 1;
      ReplayCatsMeaning(it, pos, data, m, id);
      var before := ReplayCats(it, pos, data, m, id);
      var t := if pos == Some(m) then before.(active := false) else before;
      ReplaySpecsMeaning(t, data[m].items, 0, id);
      WrittenExtend(data, 0, m, id);
      if pos.Some? && pos.value <= m {
        WrittenExtend(data, pos.value, m, id);
      }
    }
  }

  // ---------------------------------------------------------------------------------------------
  // The rows the call creates.

  /** Spec `s` creates a row: its name is not blank and its id names no stored item of the menu. */
  predicate Creates(db0: Db, menuId: Id, s: ItemSpec)
  {
    Strip(s.name) != [] && !(HasId(s) && ItemInMenu(db0, s.id.value - 1, menuId))
  }

  /** The row spec `s` creates under the category with row `catId`, if it creates one. */
  function CreatedRow(db0: Db, menuId: Id, s: ItemSpec, catId: Id): seq<Item>
  {
    if Creates(db0, menuId, s) then [Item(catId, Strip(s.name), s.price.GetOr(0), Strip(s.description), NewImage(s.image, None), true)] else []
  }

  /** The rows the specs `specs[from..]` of the category with row `catId` create, in order. */
  function CreatedBy(db0: Db, menuId: Id, specs: seq<ItemSpec>, from: nat, catId: Id): seq<Item>
    requires from <= |specs|
    decreases |specs| - from
  {
    if from == |specs| then []
    else CreatedRow(db0, menuId, specs[from], catId) + CreatedBy(db0, menuId, specs, from + 1, catId)
  }

  /** The key of the row of category `name` of the menu, or 0 when there is none. */
  function RowOf(cats: seq<Category>, menuId: Id, name: string): Id
  {
    FindCategory(cats, menuId, name).GetOr(0)
  }

  /** The rows the categories at positions 0 .. n-1 create, each under its category's row in `cats`. */
  function CreatedRows(db0: Db, menuId: Id, data: seq<CategorySpec>, n: nat, cats: seq<Category>): seq<Item>
    requires n <= |data|
  {
    if n == 0 then []
    else CreatedRows(db0, menuId, data, n - 1, cats) + CreatedBy(db0, menuId, data[n - 1].items, 0, RowOf(cats, menuId, data[n - 1].name))
  }

  /** Every id the submission carries names a row that existed before the call (as the ids the
      menu editor sends back do). */
  predicate NoForwardIds(db0: Db, data: seq<CategorySpec>)
  {
    forall b, j :: 0 <= b < |data| && 0 <= j < |data[b].items| && data[b].items[j].id.Some? ==>
      data[b].items[j].id.value <= |db0.items|
  }

  lemma {:induction false} CreatedRowsStable(db0: Db, menuId: Id, data: seq<CategorySpec>, n: nat, cats: seq<Category>, cats': seq<Category>)
    requires n <= |data|
    requires forall b :: 0 <= b < n ==> FindCategory(cats', menuId, data[b].name) == FindCategory(cats, menuId, data[b].name)
    ensures CreatedRows(db0, menuId, data, n, cats') == CreatedRows(db0, menuId, data, n, cats)
  {
    if n > 0 {
      CreatedRowsStable(db0, menuId, data, n - 1, cats, cats');
    }
  }

  /** Activating one category leaves the lookup of every other name of the menu as it was. */
  lemma ActivateKeepsLookup(cats: seq<Category>, menuId: Id, name: string, index: int, other: string)
    requires other != name && UniqueCategoryNames(cats)
    ensures FindCategory(ActivateCategory(cats, menuId, name, index).0, menuId, other) == FindCategory(cats, menuId, other)
  {
    var ac := ActivateCategory(cats, menuId, name, index);
    FindCategoryMeaning(cats, menuId, other);
    FindCategoryMeaning(ac.0, menuId, other);
    var f := FindCategory(cats, menuId, other);
    if f.Some? {
      assert ac.0[f.value - 1] == cats[f.value - 1];
      FindCategoryAt(ac.0, menuId, other, f.value - 1);
    }
  }

  // ---------------------------------------------------------------------------------------------
  // The inner loop, when no spec raises.

  /** The item loop of one category, when no spec raises, leaves each stored item of the menu
      as `ReplaySpecs` replays its specs on it. */
  lemma {:induction false} ItemsFromReplay(db: Db, menuId: Id, catId: Id, specs: seq<ItemSpec>, from: nat, k: nat)
    requires from <= |specs| && ItemsOkFrom(specs, from) && ItemInMenu(db, k, menuId)
    ensures var r := ApplyItemsFrom(db, menuId, catId, specs, from).db;
      k < |r.items| && r.items[k] == ReplaySpecs(db.items[k], specs, from, k + 1)
    decreases |specs| - from
  {
    if from < |specs| {
      var s := specs[from];
      ApplyItemCases(db, menuId, catId, s);
      var p := ApplyItem(db, menuId, catId, s);
      assert p.db.items[k] == if Touches(s, k + 1) then Overwrite(db.items[k], s) else db.items[k];
      assert ItemInMenu(p.db, k, menuId);
      ItemsFromReplay(p.db, menuId, catId, specs, from + 1, k);
    }
  }

  /** One spec that does not raise appends the row it creates and nothing else, and moves no
      stored row to another category. */
  lemma ItemCreates(db0: Db, db: Db, menuId: Id, catId: Id, s: ItemSpec)
    requires SpecOk(s) && |db0.items| <= |db.items|
    requires forall k :: 0 <= k < |db0.items| ==> (ItemInMenu(db, k, menuId) <==> ItemInMenu(db0, k, menuId))
    requires s.id.Some? ==> s.id.value <= |db0.items|
    ensures var p := ApplyItem(db, menuId, catId, s);
      && p.ok && p.db.categories == db.categories
      && |p.db.items| == |db.items| + |CreatedRow(db0, menuId, s, catId)|
      && p.db.items[|db.items|..] == CreatedRow(db0, menuId, s, catId)
      && (forall k :: 0 <= k < |db.items| ==> p.db.items[k].category == db.items[k].category)
  {
    ApplyItemCases(db, menuId, catId, s);
    var p := ApplyItem(db, menuId, catId, s);
    if Strip(s.name) == [] {
      assert p.db == db;
    } else if HasId(s) && ItemInMenu(db, s.id.value - 1, menuId) {
      assert ItemInMenu(db0, s.id.value - 1, menuId);
      assert |p.db.items| == |db.items|;
    } else {
      assert p.db.items[|db.items|..] == CreatedRow(db0, menuId, s, catId);
    }
  }

  /** The item loop of one category, when no spec raises and every id names a row stored before
      the call, appends exactly the rows its specs create, in order. */
  lemma {:induction false} ItemsFromCreates(db0: Db, db: Db, menuId: Id, catId: Id, specs: seq<ItemSpec>, from: nat)
    requires from <= |specs| && ItemsOkFrom(specs, from)
    requires |db0.items| <= |db.items|
    requires forall k :: 0 <= k < |db0.items| ==> (ItemInMenu(db, k, menuId) <==> ItemInMenu(db0, k, menuId))
    requires forall j :: from <= j < |specs| && specs[j].id.Some? ==> specs[j].id.value <= |db0.items|
    ensures var r := ApplyItemsFrom(db, menuId, catId, specs, from).db;
      r.items[|db.items|..] == CreatedBy(db0, menuId, specs, from, catId)
    decreases |specs| - from
  {
    if from < |specs| {
      var s := specs[from];
      ItemCreates(db0, db, menuId, catId, s);
      var p := ApplyItem(db, menuId, catId, s);
      var head := CreatedRow(db0, menuId, s, catId);
      forall k | 0 <= k < |db0.items| ensures ItemInMenu(p.db, k, menuId) <==> ItemInMenu(db0, k, menuId) {
        assert p.db.items[k].category == db.items[k].category;
      }
      ItemsFromCreates(db0, p.db, menuId, catId, specs, from + 1);
      ApplyItemsFromEffect(p.db, menuId, catId, specs, from + 1);
      var r := ApplyItemsFrom(p.db, menuId, catId, specs, from + 1).db;
      forall k | |db.items| <= k < |p.db.items| ensures r.items[k] == head[k - |db.items|] {
        assert !ListedIn(specs, from + 1, |specs|, k + 1);
        assert p.db.items[k] == head[k - |db.items|];
      }
      assert r.items[|db.items|..] == head + r.items[|p.db.items|..];
    }
  }

  // ---------------------------------------------------------------------------------------------
  // The outer loop, when no spec raises.

  /** After the categories at positions 0 .. i-1: every stored item of the menu is its replay,
      and (when every id names a stored row) the rows appended are those the specs create. */
  predicate ExactAt(db0: Db, db: Db, menuId: Id, data: seq<CategorySpec>, i: nat)
    requires i <= |data|
  {
    && |db0.items| <= |db.items|
    && (forall k :: 0 <= k < |db0.items| && ItemInMenu(db0, k, menuId) ==>
          db.items[k] == ReplayCats(db0.items[k], SubmittedPosition(db0, k, menuId, data), data, i, k + 1))
    && (NoForwardIds(db0, data) ==> db.items[|db0.items|..] == CreatedRows(db0, menuId, data, i, db.categories))
  }

  lemma ExactStepOld(db0: Db, db: Db, menuId: Id, data: seq<CategorySpec>, i: nat, k: nat)
    requires Valid(db0) && DistinctNames(data) && i < |data| && ItemsOkFrom(data[i].items, 0)
    requires CatInv(db0, db, menuId, data, i) && OldItemAt(db0, db, menuId, data, i, k) && ItemInMenu(db0, k, menuId)
    requires db.items[k] == ReplayCats(db0.items[k], SubmittedPosition(db0, k, menuId, data), data, i, k + 1)
    ensures var r := ApplyCategory(db, menuId, i, data[i]).db;
      k < |r.items| && r.items[k] == ReplayCats(db0.items[k], SubmittedPosition(db0, k, menuId, data), data, i + 1, k + 1)
  {
    var ac := ActivateCategory(db.categories, menuId, data[i].name, i);
    var dbA := db.(categories := ac.0, items := DeactivateItemsOf(db.items, ac.1));
    CategoryOfOldItem(db0, db, menuId, data, i, k);
    assert ItemInMenu(dbA, k, menuId);
    ItemsFromReplay(dbA, menuId, ac.1, data[i].items, 0, k);
  }

  /** While category `i` is processed, a stored row belongs to the menu exactly when it did
      before the call. */
  lemma MenuRowsKept(db0: Db, db: Db, menuId: Id, data: seq<CategorySpec>, i: nat)
    requires Valid(db0) && DistinctNames(data) && i < |data|
    requires CatInv(db0, db, menuId, data, i) && ItemInv(db0, db, menuId, data, i)
    ensures var ac := ActivateCategory(db.categories, menuId, data[i].name, i);
      var dbA := db.(categories := ac.0, items := DeactivateItemsOf(db.items, ac.1));
      forall k :: 0 <= k < |db0.items| ==> (ItemInMenu(dbA, k, menuId) <==> ItemInMenu(db0, k, menuId))
  {
    var ac := ActivateCategory(db.categories, menuId, data[i].name, i);
    var dbA := db.(categories := ac.0, items := DeactivateItemsOf(db.items, ac.1));
    forall k | 0 <= k < |db0.items| ensures ItemInMenu(dbA, k, menuId) <==> ItemInMenu(db0, k, menuId) {
      CategoryOfOldItem(db0, db, menuId, data, i, k);
      assert OldItemAt(db0, db, menuId, data, i, k);
    }
  }

  /** Rows created for earlier categories are neither tombstoned nor written while category `i`
      is processed, when every id names a stored row. */
  lemma EarlierRowsKept(db0: Db, db: Db, menuId: Id, data: seq<CategorySpec>, i: nat)
    requires Valid(db0) && DistinctNames(data) && i < |data| && NoForwardIds(db0, data)
    requires CatInv(db0, db, menuId, data, i) && ItemInv(db0, db, menuId, data, i)
    ensures var ac := ActivateCategory(db.categories, menuId, data[i].name, i);
      var dbA := db.(categories := ac.0, items := DeactivateItemsOf(db.items, ac.1));
      var r := ApplyItemsFrom(dbA, menuId, ac.1, data[i].items, 0).db;
      forall k :: |db0.items| <= k < |db.items| ==> r.items[k] == db.items[k]
  {
    var ac := ActivateCategory(db.categories, menuId, data[i].name, i);
    var dbA := db.(categories := ac.0, items := DeactivateItemsOf(db.items, ac.1));
    var r := ApplyItemsFrom(dbA, menuId, ac.1, data[i].items, 0).db;
    ApplyItemsFromEffect(dbA, menuId, ac.1, data[i].items, 0);
    ActivatedRow(db0, db, menuId, data, i);
    NameIndexAt(data, i);
    forall k | |db0.items| <= k < |db.items| ensures r.items[k] == db.items[k] {
      assert NewItemAt(db, menuId, data, i, k);
      assert db.items[k].category != ac.1;
      assert !ListedIn(data[i].items, 0, |data[i].items|, k + 1);
    }
  }

  /** Activating category `i` keeps the rows of the earlier categories where they were, and its
      own row is the one the lookup finds. */
  lemma LookupsKept(db0: Db, db: Db, menuId: Id, data: seq<CategorySpec>, i: nat)
    requires DistinctNames(data) && i < |data| && UniqueCategoryNames(db.categories)
    ensures var ac := ActivateCategory(db.categories, menuId, data[i].name, i);
      && CreatedRows(db0, menuId, data, i, ac.0) == CreatedRows(db0, menuId, data, i, db.categories)
      && RowOf(ac.0, menuId, data[i].name) == ac.1
  {
    var ac := ActivateCategory(db.categories, menuId, data[i].name, i);
    forall b | 0 <= b < i ensures FindCategory(ac.0, menuId, data[b].name) == FindCategory(db.categories, menuId, data[b].name) {
      ActivateKeepsLookup(db.categories, menuId, data[i].name, i, data[b].name);
    }
    CreatedRowsStable(db0, menuId, data, i, db.categories, ac.0);
    FindCategoryAt(ac.0, menuId, data[i].name, ac.1 - 1);
  }

  lemma ExactStepNew(db0: Db, db: Db, menuId: Id, data: seq<CategorySpec>, i: nat)
    requires Valid(db0) && DistinctNames(data) && i < |data| && ItemsOkFrom(data[i].items, 0) && NoForwardIds(db0, data)
    requires CatInv(db0, db, menuId, data, i) && ItemInv(db0, db, menuId, data, i)
    requires db.items[|db0.items|..] == CreatedRows(db0, menuId, data, i, db.categories)
    ensures var r := ApplyCategory(db, menuId, i, data[i]).db;
      |db0.items| <= |r.items| && r.items[|db0.items|..] == CreatedRows(db0, menuId, data, i + 1, r.categories)
  {
    var ac := ActivateCategory(db.categories, menuId, data[i].name, i);
    var dbA := db.(categories := ac.0, items := DeactivateItemsOf(db.items, ac.1));
    var r := ApplyItemsFrom(dbA, menuId, ac.1, data[i].items, 0).db;
    MenuRowsKept(db0, db, menuId, data, i);
    forall j | 0 <= j < |data[i].items| && data[i].items[j].id.Some? ensures data[i].items[j].id.value <= |db0.items| {
    }
    ItemsFromCreates(db0, dbA, menuId, ac.1, data[i].items, 0);
    EarlierRowsKept(db0, db, menuId, data, i);
    assert r.items[|db0.items|..] == db.items[|db0.items|..] + r.items[|db.items|..];
    LookupsKept(db0, db, menuId, data, i);
  }

  lemma {:induction false} ExactFrom(db0: Db, db: Db, menuId: Id, data: seq<CategorySpec>, i: nat)
    requires Valid(db0) && DistinctNames(data) && i <= |data| && SubmissionOk(data, i)
    requires Inv(db0, db, menuId, data, i) && ExactAt(db0, db, menuId, data, i)
    ensures var p := ApplyCategoriesFrom(db, menuId, data, i);
      p.ok && ExactAt(db0, p.db, menuId, data, |data|)
    decreases |data| - i
  {
    if i < |data| {
      var p := ApplyCategory(db, menuId, i, data[i]);
      assert ItemsOkFrom(data[i].items, 0);
      ApplyCategoryOk(db, menuId, i, data[i]);
      CategoryStep(db0, db, menuId, data, i);
      forall k | 0 <= k < |db0.items| && ItemInMenu(db0, k, menuId)
        ensures p.db.items[k] == ReplayCats(db0.items[k], SubmittedPosition(db0, k, menuId, data), data, i + 1, k + 1)
      {
        assert OldItemAt(db0, db, menuId, data, i, k);
        ExactStepOld(db0, db, menuId, data, i, k);
      }
      if NoForwardIds(db0, data) {
        ExactStepNew(db0, db, menuId, data, i);
      }
      ExactFrom(db0, p.db, menuId, data, i + 1);
    }
  }

  // ---------------------------------------------------------------------------------------------
  // What a successful call does to the menu's items.

  /** Stored item `k` of the menu after a successful call, in terms of the submission alone. */
  predicate OldItemSettled(db0: Db, db': Db, menuId: Id, data: seq<CategorySpec>, k: int)
    requires 0 <= k < |db0.items| && k < |db'.items|
  {
    var it0, it := db0.items[k], db'.items[k];
    var pos := SubmittedPosition(db0, k, menuId, data);
    var last, paint := LastWrite(data, |data|, k + 1, false), LastWrite(data, |data|, k + 1, true);
    && it.category == it0.category
    && (pos.Some? ==> (it.active <==> Written(data, pos.value, |data|, k + 1)))
    && (pos.None? ==> (it.active <==> it0.active || Written(data, 0, |data|, k + 1)))
    && (last.None? ==> it.name == it0.name && it.price == it0.price && it.description == it0.description)
    && (last.Some? ==> it.name == Strip(last.value.name) && it.price == last.value.price.GetOr(0)
                       && it.description == Strip(last.value.description))
    && it.image == (if paint.Some? then Some(paint.value.image) else it0.image)
  }

  /** Every stored item of the menu is settled as `OldItemSettled` says, and when every id names
      a stored row, the rows appended are exactly those the specs create, in submission order,
      each under the row of its spec's category. */
  predicate ItemsSettled(db0: Db, db': Db, menuId: Id, data: seq<CategorySpec>)
  {
    && |db0.items| <= |db'.items|
    && (forall k :: 0 <= k < |db0.items| && ItemInMenu(db0, k, menuId) ==> OldItemSettled(db0, db', menuId, data, k))
    && (NoForwardIds(db0, data) ==> db'.items[|db0.items|..] == CreatedRows(db0, menuId, data, |data|, db'.categories))
  }

  /** The replay of every stored item, read through `ReplayCatsMeaning`. */
  lemma SettledFromExact(db0: Db, db': Db, menuId: Id, data: seq<CategorySpec>)
    requires ExactAt(db0, db', menuId, data, |data|)
    ensures ItemsSettled(db0, db', menuId, data)
  {
    forall k | 0 <= k < |db0.items| && ItemInMenu(db0, k, menuId) ensures OldItemSettled(db0, db', menuId, data, k) {
      ReplayCatsMeaning(db0.items[k], SubmittedPosition(db0, k, menuId, data), data, |data|, k + 1);
    }
  }

  /** Before the first category, every stored item is its own replay and nothing is created. */
  lemma InitialExact(db: Db, menuId: Id, data: seq<CategorySpec>)
    ensures ExactAt(db, db.(categories := DeactivateCategoriesOf(db.categories, menuId)), menuId, data, 0)
  {
    assert db.items[|db.items|..] == [];
  }

  /** The reconciliation, run by the menu's owner, succeeds exactly when no spec raises, and
      then settles the items as `ItemsSettled` says. */
  lemma ReconcileItems(db: Db, menuId: Id, data: seq<CategorySpec>)
    requires Valid(db) && DistinctNames(data) && IsRow(db.menus, menuId)
    ensures var p := ApplyCategoriesFrom(db.(categories := DeactivateCategoriesOf(db.categories, menuId)), menuId, data, 0);
      && (p.ok <==> SubmissionOk(data, 0))
      && (p.ok ==> ItemsSettled(db, p.db, menuId, data))
  {
    var db1 := db.(categories := DeactivateCategoriesOf(db.categories, menuId));
    ApplyCategoriesFromOk(db1, menuId, data, 0);
    if SubmissionOk(data, 0) {
      InitialInv(db, menuId, data);
      InitialExact(db, menuId, data);
      ExactFrom(db, db1, menuId, data, 0);
      SettledFromExact(db, ApplyCategoriesFrom(db1, menuId, data, 0).db, menuId, data);
    }
  }

  /** `save_menu_data`: every call keeps the store consistent and leaves alone what `Untouched`
      names; a call that answers success settles the categories as `Settles` and the items as
      `ItemsSettled` describe. */
  lemma SaveMenuDataEffect(db: Db, user: Option<Id>, verb: HttpMethod, menuId: Id, data: seq<CategorySpec>)
    requires Valid(db) && DistinctNames(data)
    ensures var (db', resp) := SaveMenuData(db, user, verb, menuId, data);
      && Valid(db') && Untouched(db, db', menuId, data)
      && (resp == Saved ==> Settles(db, db', menuId, data) && ItemsSettled(db, db', menuId, data))
  {
    if user.Some? && verb == POST && OwnsMenu(db, menuId, user.value) {
      ReconcileEffect(db, menuId, data);
      ReconcileItems(db, menuId, data);
    }
  }
}
