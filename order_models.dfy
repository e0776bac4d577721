/** The order store: the `orders` and `order_items` tables of the order
    service, kept as two maps keyed by row id, with the two `SERIAL` id
    sequences as counters. Money is in integer cents; a timestamp is the
    abstract value `now` of the database clock when a write runs. */
module OrderModels {
  import opened Common
  import opened Paging

  /** The five status names. The column itself accepts any string. */
  const Pending: string := "PENDING"
  const Processing: string := "PROCESSING"
  const Shipped: string := "SHIPPED"
  const Delivered: string := "DELIVERED"
  const Cancelled: string := "CANCELLED"

  predicate IsModelStatus(s: string) {
    s == Pending || s == Processing || s == Shipped || s == Delivered || s == Cancelled
  }

  /** One `order_items` row (its key is the item id). */
  datatype ItemRow = ItemRow(orderId: int, productName: string, quantity: int, price: int, createdAt: int)

  /** One `orders` row (its key is the order id). */
  datatype OrderRow = OrderRow(
    userId: int, userName: string, userEmail: string,
    totalAmount: int, status: string, createdAt: int, updatedAt: int)

  datatype OrderItem = OrderItem(id: int, orderId: int, productName: string, quantity: int, price: int, createdAt: int)

  datatype Order = Order(
    id: int, userId: int, userName: string, userEmail: string,
    items: seq<OrderItem>, totalAmount: int, status: string, createdAt: int, updatedAt: int)

  /** The step of `Create`'s transaction that fails, if any: opening the
      transaction, the order insert, the insert of the item at `index`, or
      the commit. */
  datatype CreateFault = NoFault | BeginFails | OrderInsertFails | ItemInsertFails(index: nat) | CommitFails

  /** Whether `fault` strikes a `Create` of an order with `n` items. */
  predicate Strikes(fault: CreateFault, n: nat) {
    match fault
    case NoFault => false
    case ItemInsertFails(k) => k < n
    case _ => true
  }

  /** The creation time of every order row. */
  function CreatedAt(orders: map<int, OrderRow>): map<int, int> {
    map id | id in orders :: orders[id].createdAt
  }

  function OrderIds(os: seq<Order>): (ids: seq<int>)
    ensures |ids| == |os|
    ensures forall i :: 0 <= i < |os| ==> ids[i] == os[i].id
  {
    seq(|os|, i requires 0 <= i < |os| => os[i].id)
  }

  function ItemIds(s: seq<OrderItem>): (ids: seq<int>)
    ensures |ids| == |s|
    ensures forall i :: 0 <= i < |s| ==> ids[i] == s[i].id
  {
    seq(|s|, i requires 0 <= i < |s| => s[i].id)
  }

  /** Item `it` is the row of `table` stored under its id. */
  ghost predicate ItemMatches(table: map<int, ItemRow>, it: OrderItem) {
    it.id in table && table[it.id] == ItemRow(it.orderId, it.productName, it.quantity, it.price, it.createdAt)
  }

  /** `s` lists the item rows whose `order_id` is `orderId`, each exactly
      once and in any order (the item query has no `ORDER BY`). */
  ghost predicate ExactItems(table: map<int, ItemRow>, orderId: int, s: seq<OrderItem>) {
    && (forall i :: 0 <= i < |s| ==> ItemMatches(table, s[i]) && s[i].orderId == orderId)
    && Distinct(ItemIds(s))
    && (forall k :: k in table && table[k].orderId == orderId ==> k in ItemIds(s))
  }

  /** `o` is the order stored under `o.id`, with exactly its items. */
  ghost predicate StoredOrder(orders: map<int, OrderRow>, table: map<int, ItemRow>, o: Order) {
    && o.id in orders
    && orders[o.id] == OrderRow(o.userId, o.userName, o.userEmail, o.totalAmount, o.status, o.createdAt, o.updatedAt)
    && ExactItems(table, o.id, o.items)
  }

  /** The items of an order are determined by the table up to their order:
      any two readings list the same items, so they have the same length. */
  lemma ExactItemsAgree(table: map<int, ItemRow>, orderId: int, s: seq<OrderItem>, t: seq<OrderItem>)
    requires ExactItems(table, orderId, s) && ExactItems(table, orderId, t)
    ensures |s| == |t|
    ensures forall k :: k in ItemIds(s) <==> k in ItemIds(t)
    ensures forall x :: x in s <==> x in t
  {
    forall k ensures k in ItemIds(s) <==> k in ItemIds(t) {
      if k in ItemIds(s) {
        var i :| 0 <= i < |s| && ItemIds(s)[i] == k;
        assert ItemMatches(table, s[i]);
      }
      if k in ItemIds(t) {
        var i :| 0 <= i < |t| && ItemIds(t)[i] == k;
        assert ItemMatches(table, t[i]);
      }
    }
    forall x | x in s ensures x in t {
      SameItemAtSameId(table, orderId, s, t, x);
    }
    forall x | x in t ensures x in s {
      SameItemAtSameId(table, orderId, t, s, x);
    }
    SameRowsSameCount(ItemIds(s), ItemIds(t));
  }

  /** An item of one exact reading appears in any other: the row under its
      id fixes every field. */
  lemma SameItemAtSameId(table: map<int, ItemRow>, orderId: int, s: seq<OrderItem>, t: seq<OrderItem>, x: OrderItem)
    requires ExactItems(table, orderId, s) && ExactItems(table, orderId, t)
    requires x in s
    ensures x in t
  {
    var i :| 0 <= i < |s| && s[i] == x;
    assert ItemMatches(table, x);
    assert x.id in ItemIds(t);
    var j :| 0 <= j < |t| && ItemIds(t)[j] == x.id;
    assert ItemMatches(table, t[j]);
    assert t[j] == x;
  }

  class OrderRepository {
    var orders: map<int, OrderRow>
    var items: map<int, ItemRow>
    /** The next values of the `orders.id` and `order_items.id` sequences. */
    var nextOrderId: int
    var nextItemId: int

    /** Ids come from the sequences, and every item row references an
        existing order (the foreign key of `order_items.order_id`). */
    ghost predicate Valid()
      reads this
    {
      && nextOrderId >= 1 && nextItemId >= 1
      && (forall id :: id in orders ==> 1 <= id < nextOrderId)
      && (forall k :: k in items ==> 1 <= k < nextItemId && items[k].orderId in orders)
    }

    constructor ()
      ensures Valid()
      ensures orders == map[] && items == map[]
      ensures nextOrderId == 1 && nextItemId == 1
    {
      orders, items := map[], map[];
      nextOrderId, nextItemId := 1, 1;
    }

    /** Inserts the order and then each of its items in one transaction.
        On success the returned order carries the assigned order id, and
        every item carries that id as its `OrderID` and its own assigned id,
        all stamped `now`. On any failure the deferred rollback leaves both
        tables as they were; the sequences keep the values they handed out,
        as database sequences are not rolled back. */
    method Create(order: Order, fault: CreateFault, now: int) returns (r: Result<Order, StoreError>)
      requires Valid()
      modifies this
      ensures Valid()
      ensures r.Err? <==> Strikes(fault, |order.items|)
      ensures r.Err? ==> r.error == DbError && orders == old(orders) && items == old(items)
      ensures nextOrderId == old(nextOrderId) + (if fault == BeginFails || fault == OrderInsertFails then 0 else 1)
      ensures nextItemId == old(nextItemId) + (
        match fault
        case BeginFails => 0
        case OrderInsertFails => 0
        case ItemInsertFails(k) => if k < |order.items| then k else |order.items|
        case _ => |order.items|)
      ensures r.Ok? ==>
        var o := r.value;
        && o.id == old(nextOrderId) && o.id !in old(orders)
        && o == order.(id := o.id, items := o.items, createdAt := now, updatedAt := now)
        && |o.items| == |order.items|
        && (forall i :: 0 <= i < |o.items| ==>
              o.items[i] == OrderItem(old(nextItemId) + i, o.id, order.items[i].productName,
                                      order.items[i].quantity, order.items[i].price, now))
        && orders == old(orders)[o.id := OrderRow(order.userId, order.userName, order.userEmail,
                                                  order.totalAmount, order.status, now, now)]
        && (forall k :: k in items <==> k in old(items) || old(nextItemId) <= k < nextItemId)
        && (forall k :: k in old(items) ==> items[k] == old(items)[k])
        && StoredOrder(orders, items, o)
    {
      if fault == BeginFails {
        return Err(DbError);
      }
      // The transaction's writes stay in these copies until the commit.
      var txOrders, txItems := orders, items;
      if fault == OrderInsertFails {
        return Err(DbError);
      }
      var id := nextOrderId;
      nextOrderId := nextOrderId + 1;
      txOrders := txOrders[id := OrderRow(order.userId, order.userName, order.userEmail,
                                          order.totalAmount, order.status, now, now)];
      var stamped: seq<OrderItem> := [];
      var i := 0;
      while i < |order.items|
        invariant 0 <= i <= |order.items|
        invariant orders == old(orders) && items == old(items) && nextOrderId == id + 1
        invariant nextItemId == old(nextItemId) + i && |stamped| == i
        invariant forall j :: 0 <= j < i ==>
          stamped[j] == OrderItem(old(nextItemId) + j, id, order.items[j].productName,
                                  order.items[j].quantity, order.items[j].price, now)
        invariant forall k :: k in txItems <==> k in old(items) || old(nextItemId) <= k < nextItemId
        invariant forall k :: k in old(items) ==> txItems[k] == old(items)[k]
        invariant forall j :: 0 <= j < i ==> txItems[old(nextItemId) + j] == ItemRow(id, stamped[j].productName, stamped[j].quantity, stamped[j].price, now)
        invariant fault.ItemInsertFails? ==> fault.index >= i
      {
        if fault == ItemInsertFails(i) {
          return Err(DbError);
        }
        var item := order.items[i];
        var itemId := nextItemId;
        nextItemId := nextItemId + 1;
        txItems := txItems[itemId := ItemRow(id, item.productName, item.quantity, item.price, now)];
        stamped := stamped + [OrderItem(itemId, id, item.productName, item.quantity, item.price, now)];
        i := i + 1;
      }
      if fault == CommitFails {
        return Err(DbError);
      }
      orders, items := txOrders, txItems;
      forall k | k in items ensures 1 <= k < nextItemId && items[k].orderId in orders {
        if k !in old(items) {
          assert items[k] == ItemRow(id, stamped[k - old(nextItemId)].productName, stamped[k - old(nextItemId)].quantity,
                                     stamped[k - old(nextItemId)].price, now);
        }
      }
      var o := order.(id := id, items := stamped, createdAt := now, updatedAt := now);
      CreatedItemsExact(old(orders), old(items), items, id, old(nextItemId), stamped);
      r := Ok(o);
    }

    /** The rows of `order_items` whose `order_id` is `orderId`. */
    method GetOrderItems(orderId: int) returns (s: seq<OrderItem>)
      ensures ExactItems(items, orderId, s)
    {
      s := [];
      var rest := items.Keys;
      while rest != {}
        invariant rest <= items.Keys
        invariant forall i :: 0 <= i < |s| ==> ItemMatches(items, s[i]) && s[i].orderId == orderId && s[i].id !in rest
        invariant Distinct(ItemIds(s))
        invariant forall k :: k in items && items[k].orderId == orderId ==> k in rest || k in ItemIds(s)
        decreases |rest|
      {
        var k := AnyOf(rest);
        var row := items[k];
        if row.orderId == orderId {
          assert ItemIds(s + [OrderItem(k, row.orderId, row.productName, row.quantity, row.price, row.createdAt)]) == ItemIds(s) + [k];
          s := s + [OrderItem(k, row.orderId, row.productName, row.quantity, row.price, row.createdAt)];
        }
        rest := rest - {k};
      }
    }

    /** The order row `id` with its items; `NoRows` when there is none. */
    method GetByID(id: int, fault: Fault) returns (r: Result<Order, StoreError>)
      ensures r.Ok? <==> fault == Healthy && id in orders
      ensures r.Err? ==> r.error == (if fault == Broken then DbError else NoRows)
      ensures r.Ok? ==> r.value.id == id && StoredOrder(orders, items, r.value)
    {
      if fault == Broken {
        return Err(DbError);
      }
      if id !in orders {
        return Err(NoRows);
      }
      var row := orders[id];
      var its := GetOrderItems(id);
      r := Ok(Order(id, row.userId, row.userName, row.userEmail, its, row.totalAmount, row.status, row.createdAt, row.updatedAt));
    }

    /** The orders `ids`, each read with its items. */
    method LoadOrders(ids: seq<int>) returns (os: seq<Order>)
      requires forall i :: 0 <= i < |ids| ==> ids[i] in orders
      ensures OrderIds(os) == ids
      ensures forall i :: 0 <= i < |os| ==> StoredOrder(orders, items, os[i])
    {
      os := [];
      var i := 0;
      while i < |ids|
        invariant 0 <= i <= |ids|
        invariant OrderIds(os) == ids[..i]
        invariant forall j :: 0 <= j < |os| ==> StoredOrder(orders, items, os[j])
      {
        var row := orders[ids[i]];
        var its := GetOrderItems(ids[i]);
        os := os + [Order(ids[i], row.userId, row.userName, row.userEmail, its, row.totalAmount, row.status, row.createdAt, row.updatedAt)];
        assert ids[..i + 1] == ids[..i] + [ids[i]];
        i := i + 1;
      }
    }

    /** Overwrites the user snapshot, total and status of row `order.id`
        and stamps it updated at `now`, which it returns; `NoRows` when the
        row does not exist. The owner, creation time and items stay. */
    method Update(order: Order, fault: Fault, now: int) returns (r: Result<int, StoreError>)
      requires Valid()
      modifies this
      ensures Valid()
      ensures items == old(items) && nextOrderId == old(nextOrderId) && nextItemId == old(nextItemId)
      ensures r.Ok? <==> fault == Healthy && order.id in old(orders)
      ensures r.Err? ==> r.error == (if fault == Broken then DbError else NoRows) && orders == old(orders)
      ensures r.Ok? ==> r.value == now && orders == old(orders)[order.id := old(orders)[order.id].(
                          userName := order.userName, userEmail := order.userEmail,
                          totalAmount := order.totalAmount, status := order.status, updatedAt := now)]
    {
      if fault == Broken {
        return Err(DbError);
      }
      if order.id !in orders {
        return Err(NoRows);
      }
      orders := orders[order.id := orders[order.id].(
        userName := order.userName, userEmail := order.userEmail,
        totalAmount := order.totalAmount, status := order.status, updatedAt := now)];
      r := Ok(now);
    }

    /** One page of all orders, newest first, and the number of all order
        rows. `ranking` is the arrangement the `ORDER BY created_at DESC`
        produced; the page is its `LIMIT`/`OFFSET` window. */
    method List(page: int, limit: int, fault: Fault) returns (r: Result<(seq<Order>, int), StoreError>, ghost ranking: seq<int>)
      ensures r.Err? <==> fault == Broken
      ensures r.Err? ==> r.error == DbError
      ensures r.Ok? ==>
        && r.value.1 == |orders|
        && Distinct(ranking) && NewestFirst(ranking, CreatedAt(orders))
        && (forall id :: id in orders ==> id in ranking)
        && OrderIds(r.value.0) == Window(ranking, Offset(NormalizePage(page), NormalizeLimit(limit)), NormalizeLimit(limit))
        && |r.value.0| <= NormalizeLimit(limit)
        && (forall i :: 0 <= i < |r.value.0| ==> StoredOrder(orders, items, r.value.0[i]))
    {
      ranking := [];
      if fault == Broken {
        return Err(DbError), ranking;
      }
      var p := NormalizePage(page);
      var l := NormalizeLimit(limit);
      var offset := Offset(p, l);
      var total := |orders|;
      var created := CreatedAt(orders);
      var ranked := RankNewestFirst(created, orders.Keys);
      ranking := ranked;
      var window := Window(ranked, offset, l);
      var os := LoadOrders(window);
      r := Ok((os, total));
    }

    /** Every order of user `userId`, newest first. */
    method GetByUserID(userId: int, fault: Fault) returns (r: Result<seq<Order>, StoreError>)
      ensures r.Err? <==> fault == Broken
      ensures r.Err? ==> r.error == DbError
      ensures r.Ok? ==>
        && (forall i :: 0 <= i < |r.value| ==> StoredOrder(orders, items, r.value[i]) && r.value[i].userId == userId)
        && (forall id :: id in orders && orders[id].userId == userId ==> id in OrderIds(r.value))
        && Distinct(OrderIds(r.value))
        && NewestFirst(OrderIds(r.value), CreatedAt(orders))
    {
      if fault == Broken {
        return Err(DbError);
      }
      var mine := set id | id in orders && orders[id].userId == userId;
      var ranked := RankNewestFirst(CreatedAt(orders), mine);
      var os := LoadOrders(ranked);
      r := Ok(os);
    }

    /** Sets the status of row `id` and stamps it updated at `now`;
        `NoRows` when no row has that id. */
    method UpdateStatus(id: int, status: string, fault: Fault, now: int) returns (r: Outcome<StoreError>)
      requires Valid()
      modifies this
      ensures Valid()
      ensures items == old(items) && nextOrderId == old(nextOrderId) && nextItemId == old(nextItemId)
      ensures r.Pass? <==> fault == Healthy && id in old(orders)
      ensures r.Fail? ==> r.error == (if fault == Broken then DbError else NoRows) && orders == old(orders)
      ensures r.Pass? ==> orders == old(orders)[id := old(orders)[id].(status := status, updatedAt := now)]
    {
      if fault == Broken {
        return Fail(DbError);
      }
      if id !in orders {
        return Fail(NoRows);
      }
      orders := orders[id := orders[id].(status := status, updatedAt := now)];
      r := Pass;
    }

    /** `UpdateStatus(id, CANCELLED)`. */
    method Cancel(id: int, fault: Fault, now: int) returns (r: Outcome<StoreError>)
      requires Valid()
      modifies this
      ensures Valid()
      ensures items == old(items) && nextOrderId == old(nextOrderId) && nextItemId == old(nextItemId)
      ensures r.Pass? <==> fault == Healthy && id in old(orders)
      ensures r.Fail? ==> r.error == (if fault == Broken then DbError else NoRows) && orders == old(orders)
      ensures r.Pass? ==> orders == old(orders)[id := old(orders)[id].(status := Cancelled, updatedAt := now)]
    {
      r := UpdateStatus(id, Cancelled, fault, now);
    }
  }

  /** After a committed `Create` of order `id` with the fresh item ids
      `first .. first + |stamped| - 1`, the stored items of `id` are exactly
      `stamped`: no older row can reference `id`, which was not yet an order. */
  lemma CreatedItemsExact(
    oldOrders: map<int, OrderRow>, oldItems: map<int, ItemRow>, newItems: map<int, ItemRow>,
    id: int, first: int, stamped: seq<OrderItem>)
    requires id !in oldOrders
    requires forall k :: k in oldItems ==> k < first && oldItems[k].orderId in oldOrders
    requires forall k :: k in newItems <==> k in oldItems || first <= k < first + |stamped|
    requires forall k :: k in oldItems ==> newItems[k] == oldItems[k]
    requires forall j :: 0 <= j < |stamped| ==> stamped[j].id == first + j && stamped[j].orderId == id
    requires forall j :: 0 <= j < |stamped| ==>
      newItems[first + j] == ItemRow(id, stamped[j].productName, stamped[j].quantity, stamped[j].price, stamped[j].createdAt)
    ensures ExactItems(newItems, id, stamped)
  {
    var ids := ItemIds(stamped);
    forall i | 0 <= i < |stamped| ensures ItemMatches(newItems, stamped[i]) && stamped[i].orderId == id {
      assert stamped[i].id == first + i;
    }
    forall i, j | 0 <= i < j < |ids| ensures ids[i] != ids[j] {
      assert ids[i] == first + i && ids[j] == first + j;
    }
    forall k | k in newItems && newItems[k].orderId == id ensures k in ids {
      assert k !in oldItems;
      assert ids[k - first] == k;
    }
  }
}
