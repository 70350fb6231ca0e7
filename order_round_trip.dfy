/** What the order views report about an order that `submit_order` has just placed. */
module OrderRoundTrip {
  import opened Basics
  import opened Schema
  import opened OrderSubmission
  import opened Projections

  /** The lines `get_order_details` and the dashboard list for a freshly placed order are
      exactly the lines the basket walk accepted, in basket order. */
  lemma SubmittedOrderLines(db: Db, user: Option<Id>, form: OrderForm, acceptsJson: bool, now: int)
    requires Valid(db) && OptionalRow(db.users, user)
    requires form.table.Some? && form.table.value != "" && form.total.Some?
    ensures var db' := SubmitOrder(db, POST, user, form, acceptsJson, now).0;
      var orderId := |db.orders| + 1;
      LinesOf(db', orderId) == AcceptedLines(db.items, orderId, form.lines[..FirstIncomplete(form.lines)])
  {
    var db' := SubmitOrder(db, POST, user, form, acceptsJson, now).0;
    var orderId := |db.orders| + 1;
    var walked := form.lines[..FirstIncomplete(form.lines)];
    var accepted := AcceptedLines(db.items, orderId, walked);
    SubmitOrderEffect(db, user, form, acceptsJson, now);
    AcceptedLinesSound(db.items, orderId, walked);
    forall k | 0 <= k < |db.lines| ensures db.lines[k].order != orderId {
      assert IsRow(db.orders, db.lines[k].order);
    }
    AppendedLines(db', db.lines, accepted, orderId);
  }

  /** Lines appended after rows of other orders, all of them of order `orderId`, are exactly
      that order's lines. */
  lemma AppendedLines(db: Db, before: seq<OrderLine>, added: seq<OrderLine>, orderId: Id)
    requires db.lines == before + added
    requires forall k :: 0 <= k < |before| ==> before[k].order != orderId
    requires forall l :: l in added ==> l.order == orderId
    ensures LinesOf(db, orderId) == added
  {
    var n := |before|;
    forall k | 0 <= k < n ensures !BelongsTo(orderId)(db.lines[k]) {
      assert db.lines[k] == before[k];
    }
    forall k | n <= k < |db.lines| ensures BelongsTo(orderId)(db.lines[k]) {
      assert db.lines[k] == added[k - n];
      assert added[k - n] in added;
    }
    IdsWhereOfAppended(db.lines, BelongsTo(orderId), n, |db.lines|);
    var ids := LineIdsOf(db, orderId);
    assert ids == seq(|added|, i => n + 1 + i);
    var lines := LinesOf(db, orderId);
    forall i | 0 <= i < |added| ensures lines[i] == added[i] {
      assert ids[i] == n + 1 + i;
    }
  }

  /** The details of a freshly placed order carry the submitted total, one line per accepted
      basket line with its quantity, price and subtotal, and the dashboard counts the sum of
      the accepted quantities. */
  lemma SubmittedOrderDetails(db: Db, user: Option<Id>, form: OrderForm, acceptsJson: bool, now: int)
    requires Valid(db) && OptionalRow(db.users, user)
    requires form.table.Some? && form.table.value != "" && form.total.Some?
    ensures var db' := SubmitOrder(db, POST, user, form, acceptsJson, now).0;
      var orderId := |db.orders| + 1;
      var accepted := AcceptedLines(db.items, orderId, form.lines[..FirstIncomplete(form.lines)]);
      && LinesNameItems(db')
      && var r := GetOrderDetails(db', GET, orderId);
      && r.Details?
      && r.order.total == form.total.value
      && |r.order.items| == |accepted|
      && (forall i :: 0 <= i < |accepted| ==>
            && r.order.items[i].quantity == accepted[i].quantity
            && r.order.items[i].price == accepted[i].price
            && r.order.items[i].subtotal == accepted[i].price * accepted[i].quantity)
      && DashboardRowOf(db', orderId).totalItems == Quantities(accepted)
  {
    SubmitOrderValid(db, POST, user, form, acceptsJson, now);
    SubmitOrderEffect(db, user, form, acceptsJson, now);
    SubmittedOrderLines(db, user, form, acceptsJson, now);
  }
}
