/** The read-only views: the owner's menus as JSON (`get_menus`), the orders dashboard
    (`order`), one order's details (`get_order_details`) and the menu shown at a table
    (`table_view`). Each is a function of the store. */
module Projections {
  import opened Basics
  import opened Schema
  import opened Sorting

  // ---------------------------------------------------------------------------------------------
  // Filtering a table.

  /** Keys of the rows among the first `n` that satisfy `p`, in key order: `.filter(...)` on
      an unordered query. */
  function IdsWhereBelow<T>(rows: seq<T>, p: T -> bool, n: nat): (r: seq<Id>)
    requires n <= |rows|
    ensures forall i :: 0 <= i < |r| ==> 1 <= r[i] <= n && p(rows[r[i] - 1])
    ensures forall id :: id in r <==> 1 <= id <= n && p(rows[id - 1])
    ensures forall i, j :: 0 <= i < j < |r| ==> r[i] < r[j]
  {
    if n == 0 then []
    else
      var front := IdsWhereBelow(rows, p, n - 1);
      if p(rows[n - 1]) then front + [n] else front
  }

  function IdsWhere<T>(rows: seq<T>, p: T -> bool): (r: seq<Id>)
    ensures forall i :: 0 <= i < |r| ==> IsRow(rows, r[i]) && p(rows[r[i] - 1])
    ensures forall id :: id in r <==> IsRow(rows, id) && p(rows[id - 1])
    ensures forall i, j :: 0 <= i < j < |r| ==> r[i] < r[j]
  {
    IdsWhereBelow(rows, p, |rows|)
  }

  /** Rows appended after the first `n`, of which exactly the new ones satisfy `p`, are listed
      as the keys n + 1 ... in order. */
  lemma {:induction false} IdsWhereOfAppended<T>(rows: seq<T>, p: T -> bool, n: nat, m: nat)
    requires n <= m <= |rows|
    requires forall k :: 0 <= k < n ==> !p(rows[k])
    requires forall k :: n <= k < m ==> p(rows[k])
    ensures IdsWhereBelow(rows, p, m) == seq(m - n, i => n + 1 + i)
  {
    if m == n {
      if n > 0 {
        NoneBelow(rows, p, n);
      }
    } else {
      IdsWhereOfAppended(rows, p, n, m - 1);
      assert p(rows[m - 1]);
    }
  }

  lemma NoneBelow<T>(rows: seq<T>, p: T -> bool, n: nat)
    requires n <= |rows|
    requires forall k :: 0 <= k < n ==> !p(rows[k])
    ensures IdsWhereBelow(rows, p, n) == []
  {
  }

  // ---------------------------------------------------------------------------------------------
  // get_menus

  datatype ItemView = ItemView(id: Id, name: string, description: string, price: Money, image: string)
  datatype CategoryView = CategoryView(name: string, items: seq<ItemView>)
  datatype MenuView = MenuView(id: Id, name: string, description: string, categories: seq<CategoryView>, active: bool)

  datatype MenusResponse = MenusAuthenticationRequired | MenusListed(menus: seq<MenuView>)

  /** The keys name rows of `menus`, listed from the most recently updated down. */
  predicate NewestFirst(menus: seq<Menu>, ids: seq<Id>)
  {
    forall i, j :: 0 <= i < j < |ids| ==>
      IsRow(menus, ids[i]) && IsRow(menus, ids[j]) && menus[ids[i] - 1].updatedAt >= menus[ids[j] - 1].updatedAt
  }

  /** `Menu.objects.filter(user=user, archived=False).order_by('-updated_at')`. */
  function OwnMenuIds(db: Db, user: Id): (r: seq<Id>)
    ensures forall i :: 0 <= i < |r| ==> IsRow(db.menus, r[i])
    ensures forall id :: id in r <==> IsRow(db.menus, id) && db.menus[id - 1].owner == user && !db.menus[id - 1].archived
    ensures NewestFirst(db.menus, r)
  {
    var ids := IdsWhere(db.menus, (m: Menu) => m.owner == user && !m.archived);
    var r := SortBy(ids, (id: Id) => if IsRow(db.menus, id) then -db.menus[id - 1].updatedAt else 0);
    r
  }

  /** `MenuCategory.objects.filter(menu=menu, active=True).order_by('order')`. */
  function LiveCategoryIds(db: Db, menuId: Id): (r: seq<Id>)
    ensures forall i :: 0 <= i < |r| ==> IsRow(db.categories, r[i])
    ensures forall id :: id in r <==> IsRow(db.categories, id) && db.categories[id - 1].menu == menuId && db.categories[id - 1].active
    ensures forall i, j :: 0 <= i < j < |r| ==>
      IsRow(db.categories, r[i]) && IsRow(db.categories, r[j]) && db.categories[r[i] - 1].order <= db.categories[r[j] - 1].order
  {
    var ids := IdsWhere(db.categories, (c: Category) => c.menu == menuId && c.active);
    var r := SortBy(ids, (id: Id) => if IsRow(db.categories, id) then db.categories[id - 1].order else 0);
    r
  }

  /** `MenuItem.objects.filter(category=category, active=True)`. */
  function LiveItemIds(db: Db, catId: Id): (r: seq<Id>)
    ensures forall i :: 0 <= i < |r| ==> IsRow(db.items, r[i])
    ensures forall id :: id in r <==> IsRow(db.items, id) && db.items[id - 1].category == catId && db.items[id - 1].active
    ensures forall i, j :: 0 <= i < j < |r| ==> r[i] < r[j]
  {
    IdsWhere(db.items, (it: Item) => it.category == catId && it.active)
  }

  function ItemViewOf(db: Db, id: Id): (v: ItemView)
    requires IsRow(db.items, id)
    ensures v.id == id && v.name == db.items[id - 1].name && v.price == db.items[id - 1].price
  {
    var it := db.items[id - 1];
    ItemView(id, it.name, it.description, it.price, it.image.GetOr(""))
  }

  /** A category as `get_menus` reports it: its name and its active items. */
  function CategoryViewOf(db: Db, catId: Id): (v: CategoryView)
    requires IsRow(db.categories, catId)
    ensures v.name == db.categories[catId - 1].name
    ensures var ids := LiveItemIds(db, catId);
      |v.items| == |ids| && forall i :: 0 <= i < |ids| ==> v.items[i] == ItemViewOf(db, ids[i])
  {
    var ids := LiveItemIds(db, catId);
    CategoryView(db.categories[catId - 1].name, seq(|ids|, i requires 0 <= i < |ids| => ItemViewOf(db, ids[i])))
  }

  /** A menu as `get_menus` reports it: its fields and its active categories in display order. */
  function MenuViewOf(db: Db, menuId: Id): (v: MenuView)
    requires IsRow(db.menus, menuId)
    ensures v.id == menuId && v.name == db.menus[menuId - 1].name && v.active == db.menus[menuId - 1].active
    ensures var ids := LiveCategoryIds(db, menuId);
      |v.categories| == |ids| && forall c :: 0 <= c < |ids| ==> v.categories[c] == CategoryViewOf(db, ids[c])
  {
    var m := db.menus[menuId - 1];
    var ids := LiveCategoryIds(db, menuId);
    MenuView(menuId, m.name, m.description, seq(|ids|, i requires 0 <= i < |ids| => CategoryViewOf(db, ids[i])), m.active)
  }

  /** `get_menus(request)`: refused without a user; otherwise the caller's menus that are not
      archived, most recently updated first, each with its active categories in display order
      and each category with its active items. */
  function GetMenus(db: Db, user: Option<Id>): (r: MenusResponse)
    ensures r.MenusAuthenticationRequired? <==> user.None?
    ensures r.MenusListed? ==>
      var ids := OwnMenuIds(db, user.value);
      && |r.menus| == |ids|
      && (forall i :: 0 <= i < |ids| ==> r.menus[i] == MenuViewOf(db, ids[i]))
  {
    if user.None? then MenusAuthenticationRequired
    else
      var ids := OwnMenuIds(db, user.value);
      MenusListed(seq(|ids|, i requires 0 <= i < |ids| => MenuViewOf(db, ids[i])))
  }

  /** Every menu the caller sees is one of theirs and not archived, and every such menu is
      listed. */
  lemma GetMenusShows(db: Db, user: Id)
    ensures GetMenus(db, Some(user)).MenusListed?
    ensures var ms := GetMenus(db, Some(user)).menus;
      forall i :: 0 <= i < |ms| ==>
        IsRow(db.menus, ms[i].id) && db.menus[ms[i].id - 1].owner == user && !db.menus[ms[i].id - 1].archived
    ensures var ms := GetMenus(db, Some(user)).menus;
      forall id :: IsRow(db.menus, id) && db.menus[id - 1].owner == user && !db.menus[id - 1].archived ==>
        exists i :: 0 <= i < |ms| && ms[i].id == id
  {
    var ms := GetMenus(db, Some(user)).menus;
    var ids := OwnMenuIds(db, user);
    GetMenusNewestFirst(db, user);
    forall i | 0 <= i < |ms|
      ensures IsRow(db.menus, ms[i].id) && db.menus[ms[i].id - 1].owner == user && !db.menus[ms[i].id - 1].archived
    {
      assert ms[i].id == MenuIds(ms)[i] == ids[i];
      assert ids[i] in ids;
    }
    forall id | IsRow(db.menus, id) && db.menus[id - 1].owner == user && !db.menus[id - 1].archived
      ensures exists i :: 0 <= i < |ms| && ms[i].id == id
    {
      var i :| 0 <= i < |ids| && ids[i] == id;
      assert ms[i].id == MenuIds(ms)[i];
    }
  }

  /** The keys of the listed menus, in the order listed. */
  function MenuIds(ms: seq<MenuView>): (ids: seq<Id>)
    ensures |ids| == |ms| && forall i :: 0 <= i < |ms| ==> ids[i] == ms[i].id
  {
    seq(|ms|, i requires 0 <= i < |ms| => ms[i].id)
  }

  /** The caller's menus are listed in the order of `OwnMenuIds`: most recently updated first. */
  lemma GetMenusNewestFirst(db: Db, user: Id)
    ensures MenuIds(GetMenus(db, Some(user)).menus) == OwnMenuIds(db, user)
    ensures NewestFirst(db.menus, MenuIds(GetMenus(db, Some(user)).menus))
  {
    var ms := GetMenus(db, Some(user)).menus;
    var ids := OwnMenuIds(db, user);
    forall i | 0 <= i < |ids| ensures MenuIds(ms)[i] == ids[i] {
      assert ms[i] == MenuViewOf(db, ids[i]);
    }
  }

  // ---------------------------------------------------------------------------------------------
  // order and get_order_details

  datatype LineView = LineView(itemName: string, quantity: int, price: Money, subtotal: Money)

  /** An order as both views report it; `tableNumber` is the key of the order's table, which
      is what `order.table.id` gives. */
  datatype OrderDetails = OrderDetails(id: Id, tableNumber: Id, status: string, updatedAt: int, total: Money, items: seq<LineView>)

  datatype DashboardRow = DashboardRow(details: OrderDetails, totalItems: int)

  datatype DashboardResponse = LoginRequired | Dashboard(orders: seq<DashboardRow>)

  datatype DetailsResponse = DetailsMethodNotAllowed | OrderNotFound(message: string) | Details(order: OrderDetails)

  const OrderNotFoundMessage: string := "Order not found"

  /** `OrderItem.objects.filter(order=order)`. */
  function LineIdsOf(db: Db, orderId: Id): (r: seq<Id>)
    ensures forall i :: 0 <= i < |r| ==> IsRow(db.lines, r[i]) && db.lines[r[i] - 1].order == orderId
    ensures forall id :: id in r <==> IsRow(db.lines, id) && db.lines[id - 1].order == orderId
  {
    IdsWhere(db.lines, BelongsTo(orderId))
  }

  /** The filter `order=orderId` on order lines. */
  function BelongsTo(orderId: Id): OrderLine -> bool
  {
    (l: OrderLine) => l.order == orderId
  }

  function LineViewOf(items: seq<Item>, l: OrderLine): (v: LineView)
    requires IsRow(items, l.item)
    ensures v.quantity == l.quantity && v.price == l.price && v.subtotal == l.price * l.quantity
  {
    LineView(items[l.item - 1].name, l.quantity, l.price, l.price * l.quantity)
  }

  /** The lines of an order, as rows. */
  function LinesOf(db: Db, orderId: Id): (r: seq<OrderLine>)
    ensures var ids := LineIdsOf(db, orderId);
      |r| == |ids| && forall i :: 0 <= i < |ids| ==> r[i] == db.lines[ids[i] - 1]
  {
    var ids := LineIdsOf(db, orderId);
    seq(|ids|, i requires 0 <= i < |ids| => db.lines[ids[i] - 1])
  }

  function Quantities(lines: seq<OrderLine>): int
  {
    if lines == [] then 0 else lines[0].quantity + Quantities(lines[1..])
  }

  lemma {:induction false} QuantitiesAppend(a: seq<OrderLine>, b: seq<OrderLine>)
    ensures Quantities(a + b) == Quantities(a) + Quantities(b)
  {
    if a == [] {
      assert a + b == b;
    } else {
      assert (a + b)[1..] == a[1..] + b;
      QuantitiesAppend(a[1..], b);
    }
  }

  function DetailsOf(db: Db, orderId: Id): OrderDetails
    requires LinesNameItems(db) && IsRow(db.orders, orderId)
  {
    var o := db.orders[orderId - 1];
    var lines := LinesOf(db, orderId);
    OrderDetails(orderId, o.table, o.status, o.updatedAt, o.total,
                 seq(|lines|, i requires 0 <= i < |lines| => LineViewOf(db.items, lines[i])))
  }

  /** The keys name rows of `orders`, listed from the most recently updated down. */
  predicate OrdersNewestFirst(orders: seq<Order>, ids: seq<Id>)
  {
    forall i, j :: 0 <= i < j < |ids| ==>
      IsRow(orders, ids[i]) && IsRow(orders, ids[j]) && orders[ids[i] - 1].updatedAt >= orders[ids[j] - 1].updatedAt
  }

  /** `Order.objects.all().order_by('-updated_at')`. */
  function OrderIdsNewestFirst(db: Db): (r: seq<Id>)
    ensures forall i :: 0 <= i < |r| ==> IsRow(db.orders, r[i])
    ensures forall id :: id in r <==> IsRow(db.orders, id)
    ensures OrdersNewestFirst(db.orders, r)
  {
    var ids := IdsWhere(db.orders, (o: Order) => true);
    var r := SortBy(ids, (id: Id) => if IsRow(db.orders, id) then -db.orders[id - 1].updatedAt else 0);
    r
  }

  /** One order on the dashboard: its details and the number of items it holds. */
  function DashboardRowOf(db: Db, orderId: Id): (row: DashboardRow)
    requires LinesNameItems(db) && IsRow(db.orders, orderId)
    ensures row.details == DetailsOf(db, orderId) && row.totalItems == Quantities(LinesOf(db, orderId))
  {
    DashboardRow(DetailsOf(db, orderId), Quantities(LinesOf(db, orderId)))
  }

  /** `order(request)`, behind `login_required`: every order, newest first, with its lines and
      the number of items it holds. */
  function OrdersDashboard(db: Db, user: Option<Id>): (r: DashboardResponse)
    requires LinesNameItems(db)
    ensures r.LoginRequired? <==> user.None?
    ensures r.Dashboard? ==>
      var ids := OrderIdsNewestFirst(db);
      && |r.orders| == |ids|
      && forall i :: 0 <= i < |ids| ==> r.orders[i] == DashboardRowOf(db, ids[i])
  {
    if user.None? then LoginRequired
    else
      var ids := OrderIdsNewestFirst(db);
      Dashboard(seq(|ids|, i requires 0 <= i < |ids| => DashboardRowOf(db, ids[i])))
  }

  /** `get_order_details(request, order_id)`, behind `require_GET`. */
  function GetOrderDetails(db: Db, verb: HttpMethod, orderId: int): (r: DetailsResponse)
    requires LinesNameItems(db)
    ensures r.DetailsMethodNotAllowed? <==> verb != GET
    ensures r.OrderNotFound? <==> verb == GET && !IsRow(db.orders, orderId)
    ensures r.OrderNotFound? ==> r.message == OrderNotFoundMessage
    ensures r.Details? ==> r.order == DetailsOf(db, orderId)
  {
    if verb != GET then DetailsMethodNotAllowed
    else if !IsRow(db.orders, orderId) then OrderNotFound(OrderNotFoundMessage)
    else Details(DetailsOf(db, orderId))
  }

  // ---------------------------------------------------------------------------------------------
  // table_view

  datatype TableResponse = NoActiveMenu(message: string) | TablePage(tableNumber: string, menuId: Id, categoryIds: seq<Id>)

  const NoActiveMenuMessage: string := "No active menu available"

  /** `table_view(request, table_number)`: the active, unarchived menu with the lowest key, and
      its active categories in display order. The table number is not looked up. */
  function TableView(db: Db, tableNumber: string): (r: TableResponse)
    ensures r.NoActiveMenu? <==> forall k :: 0 <= k < |db.menus| ==> !(db.menus[k].active && !db.menus[k].archived)
    ensures r.NoActiveMenu? ==> r.message == NoActiveMenuMessage
    ensures r.TablePage? ==>
      && r.tableNumber == tableNumber
      && IsRow(db.menus, r.menuId) && db.menus[r.menuId - 1].active && !db.menus[r.menuId - 1].archived
      && (forall k :: 0 <= k < r.menuId - 1 ==> !(db.menus[k].active && !db.menus[k].archived))
      && r.categoryIds == LiveCategoryIds(db, r.menuId)
  {
    match FirstWhere(db.menus, (m: Menu) => m.active && !m.archived)
    case None => NoActiveMenu(NoActiveMenuMessage)
    case Some(id) => TablePage(tableNumber, id, LiveCategoryIds(db, id))
  }
}
