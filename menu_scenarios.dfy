// Two concrete runs of the menu reconciliation, each pinning down one behaviour of the code.
module MenuScenarios {
  import opened Basics
  import opened Schema
  import opened MenuSync

  /** One owner with a lunch menu: category Starters (id 1) holding Soup (id 1) and category
      Mains (id 2) holding Steak (id 2). */
  function Lunch(): Db
  {
    Db([User("ann", "ann@example.com", NoPassword, false, false)],
       [Menu(1, "Lunch", "", true, false, 0)],
       [Category(1, "Starters", 0, true), Category(1, "Mains", 1, true)],
       [Item(1, "Soup", 450, "", None, true), Item(2, "Steak", 1800, "", None, true)],
       [], [], [])
  }

  lemma LunchValid()
    ensures Valid(Lunch())
  {
  }

  lemma DessertsFacts(db: Db, data: seq<CategorySpec>)
    requires db == Lunch()
    requires data == [CategorySpec("Desserts", [ItemSpec(None, "Tart", Some(600), "", "")])]
    ensures SubmissionOk(data, 0) && DistinctNames(data)
    ensures NameIndex(data, "Starters") == None && NameIndex(data, "Mains") == None
    ensures SubmittedPosition(db, 0, 1, data) == None && SubmittedPosition(db, 1, 1, data) == None
  {
    assert SpecOk(data[0].items[0]);
    assert NameIndex(data, "Starters") == None && NameIndex(data, "Mains") == None;
  }

  /** Posting only a new category Desserts tombstones Starters and Mains, yet Soup and Steak stay
      active: items are deactivated only under categories that were submitted. */
  lemma DroppedCategoryKeepsItems(db: Db, data: seq<CategorySpec>)
    requires db == Lunch()
    requires data == [CategorySpec("Desserts", [ItemSpec(None, "Tart", Some(600), "", "")])]
    ensures var (db', resp) := SaveMenuData(db, Some(1), POST, 1, data);
      && resp == Saved && |db'.categories| >= 2 && |db'.items| >= 2
      && !db'.categories[0].active && !db'.categories[1].active
      && db'.items[0].active && db'.items[1].active
  {
    LunchValid();
    DessertsFacts(db, data);
    SaveMenuDataSucceeds(db, Some(1), POST, 1, data);
    SaveMenuDataFrame(db, Some(1), POST, 1, data);
  }

  /** The facts about the second submission that the scenario below relies on. */
  lemma ListedUnderStartersFacts(db: Db, data: seq<CategorySpec>)
    requires db == Lunch()
    requires data == [CategorySpec("Starters", [ItemSpec(Some(2), "Steak", Some(1900), "", "")]), CategorySpec("Mains", [])]
    ensures SubmissionOk(data, 0) && DistinctNames(data)
    ensures NameIndex(data, "Starters") == Some(0) && NameIndex(data, "Mains") == Some(1)
    ensures StaleAt(db, 1, 1, data, 2) && StaleAt(db, 0, 1, data, 2)
  {
    assert SpecOk(data[0].items[0]);
    assert NameIndex(data, "Starters") == Some(0) && NameIndex(data, "Mains") == Some(1);
    assert !ListedBetween(data, 1, 2, 2);
    assert !ListedBetween(data, 0, 2, 1);
  }

  /** Starters lists Steak by id, so Steak is overwritten in place but stays under Mains; Mains
      comes later in the submission with no items, so its tombstone leaves Steak inactive. Soup,
      listed nowhere, is tombstoned with Starters. */
  lemma ItemListedUnderEarlierCategoryEndsInactive(db: Db, data: seq<CategorySpec>)
    requires db == Lunch()
    requires data == [CategorySpec("Starters", [ItemSpec(Some(2), "Steak", Some(1900), "", "")]), CategorySpec("Mains", [])]
    ensures var (db', resp) := SaveMenuData(db, Some(1), POST, 1, data);
      && resp == Saved && |db'.categories| >= 2 && |db'.items| >= 2
      && db'.categories[0].active && db'.categories[1].active
      && db'.items[1].category == 2 && !db'.items[1].active
      && !db'.items[0].active
  {
    LunchValid();
    ListedUnderStartersFacts(db, data);
    SaveMenuDataSucceeds(db, Some(1), POST, 1, data);
    SaveMenuDataFrame(db, Some(1), POST, 1, data);
  }
}
