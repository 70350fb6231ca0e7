/** The relational store the views read and write, as values: one sequence of rows per table.
    The row with primary key k sits at position k - 1, and a new row is appended with key
    |rows| + 1, as an auto-increment key would give it. */
module Schema {
  import opened Basics

  /** A password as `set_password` leaves it; hashing is not modelled, the raw value stands in. */
  datatype Password = NoPassword | Hashed(raw: string)

  datatype User = User(username: string, email: string, password: Password, isSuperuser: bool, isArchived: bool)

  /** `description` is "" where the column holds no text. */
  datatype Menu = Menu(owner: Id, name: string, description: string, active: bool, archived: bool, updatedAt: int)

  datatype Category = Category(menu: Id, name: string, order: int, active: bool)

  /** `image` is the stored picture, kept as the data URL it was decoded from. */
  datatype Item = Item(category: Id, name: string, price: Money, description: string, image: Option<string>, active: bool)

  datatype Table = Table(number: string, owner: Option<Id>, active: bool)

  datatype Order = Order(table: Id, user: Option<Id>, status: string, total: Money, updatedAt: int)

  /** An order line; `price` is the unit price captured when the order was placed. */
  datatype OrderLine = OrderLine(order: Id, item: Id, quantity: int, price: Money)

  datatype Db = Db(users: seq<User>, menus: seq<Menu>, categories: seq<Category>, items: seq<Item>,
                   tables: seq<Table>, orders: seq<Order>, lines: seq<OrderLine>)

  /** `id` is the key of a row of `rows`. */
  predicate IsRow<T>(rows: seq<T>, id: Id)
  {
    1 <= id <= |rows|
  }

  predicate OptionalRow<T>(rows: seq<T>, id: Option<Id>)
  {
    id.None? || IsRow(rows, id.value)
  }

  /** The key of the first row (lowest key) that satisfies `p`, as `.filter(...).first()`
      returns it on an unordered query. */
  function FirstWhere<T>(rows: seq<T>, p: T -> bool): (r: Option<Id>)
    ensures r.Some? ==> IsRow(rows, r.value) && p(rows[r.value - 1])
    ensures r.Some? ==> forall k :: 0 <= k < r.value - 1 ==> !p(rows[k])
    ensures r.None? ==> forall k :: 0 <= k < |rows| ==> !p(rows[k])
  {
    FirstWhereFrom(rows, p, 0)
  }

  function FirstWhereFrom<T>(rows: seq<T>, p: T -> bool, from: nat): (r: Option<Id>)
    ensures r.Some? ==> from < r.value <= |rows| && p(rows[r.value - 1])
    ensures r.Some? ==> forall k :: from <= k < r.value - 1 ==> !p(rows[k])
    ensures r.None? ==> forall k :: from <= k < |rows| ==> !p(rows[k])
    decreases |rows| - from
  {
    if from >= |rows| then None
    else if p(rows[from]) then Some(from + 1)
    else FirstWhereFrom(rows, p, from + 1)
  }

  /** `MenuCategory.objects.get(menu=menuId, name=name)`. */
  function FindCategory(cats: seq<Category>, menuId: Id, name: string): Option<Id>
  {
    FirstWhere(cats, (c: Category) => c.menu == menuId && c.name == name)
  }

  lemma FindCategoryMeaning(cats: seq<Category>, menuId: Id, name: string)
    ensures var r := FindCategory(cats, menuId, name);
      && (r.Some? ==> IsRow(cats, r.value) && cats[r.value - 1].menu == menuId && cats[r.value - 1].name == name)
      && (r.None? ==> forall k :: 0 <= k < |cats| ==> cats[k].menu != menuId || cats[k].name != name)
  {
  }

  /** With unique (menu, name) keys, the lookup finds exactly the row that carries the key. */
  lemma FindCategoryAt(cats: seq<Category>, menuId: Id, name: string, c: nat)
    requires c < |cats| && cats[c].menu == menuId && cats[c].name == name
    requires UniqueCategoryNames(cats)
    ensures FindCategory(cats, menuId, name) == Some(c + 1)
  {
    FindCategoryMeaning(cats, menuId, name);
  }

  /** `Table.objects.get(table_number=number)`. */
  function FindTable(tables: seq<Table>, number: string): Option<Id>
  {
    FirstWhere(tables, (t: Table) => t.number == number)
  }

  lemma FindTableMeaning(tables: seq<Table>, number: string)
    ensures var r := FindTable(tables, number);
      && (r.Some? ==> IsRow(tables, r.value) && tables[r.value - 1].number == number)
      && (r.None? ==> forall k :: 0 <= k < |tables| ==> tables[k].number != number)
  {
  }

  /** No two categories of one menu share a name: categories are looked up by (menu, name). */
  predicate UniqueCategoryNames(cats: seq<Category>)
  {
    forall a, b :: 0 <= a < b < |cats| ==> cats[a].menu != cats[b].menu || cats[a].name != cats[b].name
  }

  /** Table numbers are unique: tables are looked up by number. */
  predicate UniqueTableNumbers(tables: seq<Table>)
  {
    forall a, b :: 0 <= a < b < |tables| ==> tables[a].number != tables[b].number
  }

  /** Every order line names an existing menu item. */
  predicate LinesNameItems(db: Db)
  {
    forall k :: 0 <= k < |db.lines| ==> IsRow(db.items, db.lines[k].item)
  }

  /** Every foreign key names an existing row, and the lookup keys are unique. */
  predicate Valid(db: Db)
  {
    && (forall k :: 0 <= k < |db.menus| ==> IsRow(db.users, db.menus[k].owner))
    && (forall k :: 0 <= k < |db.categories| ==> IsRow(db.menus, db.categories[k].menu))
    && (forall k :: 0 <= k < |db.items| ==> IsRow(db.categories, db.items[k].category))
    && (forall k :: 0 <= k < |db.tables| ==> OptionalRow(db.users, db.tables[k].owner))
    && (forall k :: 0 <= k < |db.orders| ==> IsRow(db.tables, db.orders[k].table) && OptionalRow(db.users, db.orders[k].user))
    && (forall k :: 0 <= k < |db.lines| ==> IsRow(db.orders, db.lines[k].order))
    && LinesNameItems(db)
    && UniqueCategoryNames(db.categories)
    && UniqueTableNumbers(db.tables)
  }

  /** `MenuCategory.objects.filter(menu=menuId).update(active=False)`. */
  function DeactivateCategoriesOf(cats: seq<Category>, menuId: Id): (r: seq<Category>)
    ensures |r| == |cats|
    ensures forall k :: 0 <= k < |cats| && cats[k].menu != menuId ==> r[k] == cats[k]
    ensures forall k :: 0 <= k < |cats| && cats[k].menu == menuId ==> r[k] == cats[k].(active := false)
  {
    seq(|cats|, k requires 0 <= k < |cats| => if cats[k].menu == menuId then cats[k].(active := false) else cats[k])
  }

  /** `MenuItem.objects.filter(category=catId).update(active=False)`. */
  function DeactivateItemsOf(items: seq<Item>, catId: Id): (r: seq<Item>)
    ensures |r| == |items|
    ensures forall k :: 0 <= k < |items| && items[k].category != catId ==> r[k] == items[k]
    ensures forall k :: 0 <= k < |items| && items[k].category == catId ==> r[k] == items[k].(active := false)
  {
    seq(|items|, k requires 0 <= k < |items| => if items[k].category == catId then items[k].(active := false) else items[k])
  }
}
