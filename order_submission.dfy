/** `submit_order`: a customer's basket posted from a table page becomes an order, its table
    (found or created by number) and one order line per basket line that names an active item. */
module OrderSubmission {
  import opened Basics
  import opened Schema

  /** The status a new order starts in (the model's default; the models module is not part of
      this model). */
  const InitialStatus: string := "pending"

  const MissingFieldsMessage: string := "Missing table number or total price"
  const BadMethodMessage: string := "Invalid request method"

  /** The POST fields `item_id_i`, `item_name_i`, `item_quantity_i` and `item_price_i` of one
      basket line. A name, quantity or price that is absent or empty is None, and so is an
      absent item id (its lookup then finds no item); the others hold the parsed value. An
      item id that is present but not a number has no value here. */
  datatype LineFields = LineFields(itemId: Option<int>, name: Option<string>, quantity: Option<int>, price: Option<Money>)

  /** The POST body: `table` and `total_price` (None when absent or empty) and the basket lines
      at indices 0, 1, 2, ...; every index past the end of `lines` has all its fields absent. */
  datatype OrderForm = OrderForm(table: Option<string>, total: Option<Money>, lines: seq<LineFields>)

  datatype SubmitResponse =
    | BadRequest(message: string)
    | Submitted(orderId: Id)           // the JSON answer for a client that accepts JSON
    | BackToTable(tableNumber: string) // the redirect to the table page otherwise
    | Crashed                          // an uncaught exception: a 500

  /** `if not item_name or not item_quantity or not item_price: break`. */
  predicate Complete(f: LineFields)
  {
    f.name.Some? && f.name.value != "" && f.quantity.Some? && f.price.Some?
  }

  /** The index the walk stops at: the first line with a field missing, or the end. */
  function FirstIncomplete(lines: seq<LineFields>): (n: nat)
    ensures n <= |lines|
    ensures forall j :: 0 <= j < n ==> Complete(lines[j])
    ensures n < |lines| ==> !Complete(lines[n])
  {
    if lines == [] || !Complete(lines[0]) then 0 else 1 + FirstIncomplete(lines[1..])
  }

  /** `MenuItem.objects.get(id=item_id, active=True)` finds a row. */
  predicate ActiveItem(items: seq<Item>, id: Option<int>)
  {
    id.Some? && IsRow(items, id.value) && items[id.value - 1].active
  }

  /** The order lines the walk creates for `lines`, in order: one per line naming an active item,
      with the submitted quantity and price. */
  function AcceptedLines(items: seq<Item>, orderId: Id, lines: seq<LineFields>): (r: seq<OrderLine>)
    requires forall j :: 0 <= j < |lines| ==> Complete(lines[j])
    ensures |r| <= |lines|
  {
    if lines == [] then []
    else
      var f := lines[0];
      assert Complete(f);
      var head := if ActiveItem(items, f.itemId) then [OrderLine(orderId, f.itemId.value, f.quantity.value, f.price.value)] else [];
      head + AcceptedLines(items, orderId, lines[1..])
  }

  /** `Table.objects.get_or_create(table_number=number, defaults={'user': user, 'active': True})`. */
  function FindOrCreateTable(tables: seq<Table>, number: string, user: Option<Id>): (r: (seq<Table>, Id))
    ensures IsRow(r.0, r.1) && r.0[r.1 - 1].number == number
    ensures FindTable(tables, number).Some? ==> r == (tables, FindTable(tables, number).value)
    ensures FindTable(tables, number).None? ==> r == (tables + [Table(number, user, true)], |tables| + 1)
  {
    match FindTable(tables, number)
    case Some(id) => (tables, id)
    case None => (tables + [Table(number, user, true)], |tables| + 1)
  }

  /** `submit_order(request)`: `user` is the authenticated principal, if any; `acceptsJson`
      whether the client accepts JSON; `now` the clock reading stamped on the order. */
  function SubmitOrder(db: Db, verb: HttpMethod, user: Option<Id>, form: OrderForm, acceptsJson: bool, now: int): (r: (Db, SubmitResponse))
  {
    if verb != POST then (db, BadRequest(BadMethodMessage))
    else if form.table.None? || form.table.value == "" || form.total.None? then (db, BadRequest(MissingFieldsMessage))
    else
      var (tables, tableId) := FindOrCreateTable(db.tables, form.table.value, user);
      var orderId := |db.orders| + 1;
      var order := Order(tableId, user, InitialStatus, form.total.value, now);
      var walked := form.lines[..FirstIncomplete(form.lines)];
      var db' := db.(tables := tables, orders := db.orders + [order],
                     lines := db.lines + AcceptedLines(db.items, orderId, walked));
      (db', if acceptsJson then Submitted(orderId) else BackToTable(form.table.value))
  }

  // ---------------------------------------------------------------------------------------------
  // Properties.

  lemma {:induction false} AcceptedLinesAppend(items: seq<Item>, orderId: Id, a: seq<LineFields>, b: seq<LineFields>)
    requires forall j :: 0 <= j < |a| ==> Complete(a[j])
    requires forall j :: 0 <= j < |b| ==> Complete(b[j])
    ensures forall j :: 0 <= j < |a + b| ==> Complete((a + b)[j])
    ensures AcceptedLines(items, orderId, a + b) == AcceptedLines(items, orderId, a) + AcceptedLines(items, orderId, b)
  {
    if a == [] {
      assert a + b == b;
    } else {
      assert (a + b)[0] == a[0];
      assert (a + b)[1..] == a[1..] + b;
      AcceptedLinesAppend(items, orderId, a[1..], b);
    }
  }

  /** One basket line yields an order line exactly when it names an active item; the line
      carries the submitted quantity and price, not the item's current price. */
  lemma AcceptedLine(items: seq<Item>, orderId: Id, f: LineFields)
    requires Complete(f)
    ensures ActiveItem(items, f.itemId) ==>
      AcceptedLines(items, orderId, [f]) == [OrderLine(orderId, f.itemId.value, f.quantity.value, f.price.value)]
    ensures !ActiveItem(items, f.itemId) ==> AcceptedLines(items, orderId, [f]) == []
  {
    assert [f][1..] == [];
  }

  /** Every created line belongs to the new order and names an active item, with the quantity
      and price of a basket line that named it. */
  lemma {:induction false} AcceptedLinesSound(items: seq<Item>, orderId: Id, lines: seq<LineFields>)
    requires forall j :: 0 <= j < |lines| ==> Complete(lines[j])
    ensures forall l :: l in AcceptedLines(items, orderId, lines) ==>
      && l.order == orderId && IsRow(items, l.item) && items[l.item - 1].active
      && exists j :: 0 <= j < |lines| && lines[j].itemId == Some(l.item)
           && lines[j].quantity == Some(l.quantity) && lines[j].price == Some(l.price)
  {
    if lines != [] {
      AcceptedLinesSound(items, orderId, lines[1..]);
      forall l | l in AcceptedLines(items, orderId, lines[1..])
        ensures exists j :: (0 <= j < |lines| && lines[j].itemId == Some(l.item)
                             && lines[j].quantity == Some(l.quantity) && lines[j].price == Some(l.price))
      {
        var j :| 0 <= j < |lines[1..]| && lines[1..][j].itemId == Some(l.item)
           && lines[1..][j].quantity == Some(l.quantity) && lines[1..][j].price == Some(l.price);
        assert lines[j + 1] == lines[1..][j];
      }
    }
  }

  /** Every basket line before the stop that names an active item yields an order line. */
  lemma {:induction false} AcceptedLinesComplete(items: seq<Item>, orderId: Id, lines: seq<LineFields>, j: nat)
    requires forall k :: 0 <= k < |lines| ==> Complete(lines[k])
    requires j < |lines| && Complete(lines[j]) && ActiveItem(items, lines[j].itemId)
    ensures OrderLine(orderId, lines[j].itemId.value, lines[j].quantity.value, lines[j].price.value) in AcceptedLines(items, orderId, lines)
  {
    if j > 0 {
      AcceptedLinesComplete(items, orderId, lines[1..], j - 1);
    }
  }

  /** A request that is not a POST, or lacks the table number or the total, is refused with
      the matching message and writes nothing; any other request is accepted. */
  lemma SubmitOrderRefusal(db: Db, verb: HttpMethod, user: Option<Id>, form: OrderForm, acceptsJson: bool, now: int)
    ensures var (db', resp) := SubmitOrder(db, verb, user, form, acceptsJson, now);
      && (resp.BadRequest? <==> verb != POST || form.table.None? || form.table.value == "" || form.total.None?)
      && (verb != POST ==> resp == BadRequest(BadMethodMessage))
      && (verb == POST && resp.BadRequest? ==> resp == BadRequest(MissingFieldsMessage))
      && (resp.BadRequest? ==> db' == db)
  {
  }

  /** An accepted request adds exactly one order, stamped with the submitted total (whatever
      the lines add up to), on the table with that number, created active for the caller if
      none exists and left as it was otherwise; then the lines the walk accepts, and nothing else. */
  lemma SubmitOrderEffect(db: Db, user: Option<Id>, form: OrderForm, acceptsJson: bool, now: int)
    requires form.table.Some? && form.table.value != "" && form.total.Some?
    ensures var (db', resp) := SubmitOrder(db, POST, user, form, acceptsJson, now);
      var number := form.table.value;
      var orderId := |db.orders| + 1;
      && resp == (if acceptsJson then Submitted(orderId) else BackToTable(number))
      && db'.users == db.users && db'.menus == db.menus && db'.categories == db.categories && db'.items == db.items
      && |db'.orders| == |db.orders| + 1 && db'.orders[..|db.orders|] == db.orders
      && var o := db'.orders[orderId - 1];
      && o.total == form.total.value && o.user == user && o.status == InitialStatus
      && IsRow(db'.tables, o.table) && db'.tables[o.table - 1].number == number
      && (FindTable(db.tables, number).Some? ==> db'.tables == db.tables && o.table == FindTable(db.tables, number).value)
      && (FindTable(db.tables, number).None? ==> db'.tables == db.tables + [Table(number, user, true)])
      && db'.lines == db.lines + AcceptedLines(db.items, orderId, form.lines[..FirstIncomplete(form.lines)])
  {
  }

  /** Finding or creating a table keeps table numbers unique. */
  lemma FindOrCreateKeepsUnique(tables: seq<Table>, number: string, user: Option<Id>)
    requires UniqueTableNumbers(tables)
    ensures UniqueTableNumbers(FindOrCreateTable(tables, number, user).0)
  {
    var tables' := FindOrCreateTable(tables, number, user).0;
    FindTableMeaning(tables, number);
    forall a, b | 0 <= a < b < |tables'| ensures tables'[a].number != tables'[b].number {
      if b == |tables| {
        assert tables'[a] == tables[a];
      }
    }
  }

  /** Submitting keeps the store consistent. */
  lemma SubmitOrderValid(db: Db, verb: HttpMethod, user: Option<Id>, form: OrderForm, acceptsJson: bool, now: int)
    requires Valid(db) && OptionalRow(db.users, user)
    ensures Valid(SubmitOrder(db, verb, user, form, acceptsJson, now).0)
  {
    if verb == POST && form.table.Some? && form.table.value != "" && form.total.Some? {
      var number := form.table.value;
      var walked := form.lines[..FirstIncomplete(form.lines)];
      var orderId := |db.orders| + 1;
      var (tables, tableId) := FindOrCreateTable(db.tables, number, user);
      var added := AcceptedLines(db.items, orderId, walked);
      AcceptedLinesSound(db.items, orderId, walked);
      FindOrCreateKeepsUnique(db.tables, number, user);
      OrderAddedValid(db, tables, Order(tableId, user, InitialStatus, form.total.value, now), added);
    }
  }

  /** Appending an order on an existing table, with lines of that order naming existing items,
      to a store whose tables grew by rows owned by existing users keeps it consistent. */
  lemma OrderAddedValid(db: Db, tables: seq<Table>, order: Order, added: seq<OrderLine>)
    requires Valid(db)
    requires |db.tables| <= |tables| && tables[..|db.tables|] == db.tables && UniqueTableNumbers(tables)
    requires forall k :: |db.tables| <= k < |tables| ==> OptionalRow(db.users, tables[k].owner)
    requires IsRow(tables, order.table) && OptionalRow(db.users, order.user)
    requires forall l :: l in added ==> l.order == |db.orders| + 1 && IsRow(db.items, l.item)
    ensures Valid(db.(tables := tables, orders := db.orders + [order], lines := db.lines + added))
  {
    var db' := db.(tables := tables, orders := db.orders + [order], lines := db.lines + added);
    forall k | 0 <= k < |tables| ensures OptionalRow(db.users, tables[k].owner) {
      if k < |db.tables| {
        assert tables[k] == db.tables[k];
      }
    }
    forall k | 0 <= k < |db'.lines| ensures IsRow(db'.orders, db'.lines[k].order) && IsRow(db'.items, db'.lines[k].item) {
      if k >= |db.lines| {
        assert db'.lines[k] == added[k - |db.lines|];
      }
    }
  }

  // ---------------------------------------------------------------------------------------------
  // The redirect as written.

  /** `submit_order` as the code stands: for a client that does not accept JSON the redirect
      calls `reverse`, a name the module never imports, so the view raises once the table, the
      order and its lines are written. `SubmitOrder` above is the view with the redirect working. */
  function SubmitOrderAsWritten(db: Db, verb: HttpMethod, user: Option<Id>, form: OrderForm, acceptsJson: bool, now: int): (r: (Db, SubmitResponse))
  {
    var (db', resp) := SubmitOrder(db, verb, user, form, acceptsJson, now);
    (db', if resp.BackToTable? then Crashed else resp)
  }

  /** A browser posting a basket gets an error although its order was stored; the intended view
      sends it back to its table with the same store. */
  lemma RedirectRaisesAfterWriting(db: Db, user: Option<Id>, form: OrderForm, now: int)
    requires form.table.Some? && form.table.value != "" && form.total.Some?
    ensures var (dbW, rW) := SubmitOrderAsWritten(db, POST, user, form, false, now);
      var (dbC, rC) := SubmitOrder(db, POST, user, form, false, now);
      && rW == Crashed && rC == BackToTable(form.table.value)
      && dbW == dbC && |dbW.orders| == |db.orders| + 1
  {
  }

  /** The same request from a client that accepts JSON is answered normally. */
  lemma JsonClientUnaffected(db: Db, verb: HttpMethod, user: Option<Id>, form: OrderForm, now: int)
    ensures SubmitOrderAsWritten(db, verb, user, form, true, now) == SubmitOrder(db, verb, user, form, true, now)
  {
  }
}
