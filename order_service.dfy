/** The order service's RPC handlers: validation of the user through the user
    service, the total of a new order, persistence through the order store,
    and the conversion of stored orders to their wire form. */
module OrderService {
  import opened Common
  import opened Paging
  import opened OrderModels

  /** Wire numbers of the `OrderStatus` enum. */
  const PendingWire: int := 0
  const ProcessingWire: int := 1
  const ShippedWire: int := 2
  const DeliveredWire: int := 3
  const CancelledWire: int := 4

  /** The stored status name sent on the wire; an unknown name is sent as
      PENDING. */
  function ModelStatusToProto(s: string): (n: int)
    ensures PendingWire <= n <= CancelledWire
    ensures n == PendingWire <==> !(s == Processing || s == Shipped || s == Delivered || s == Cancelled)
    ensures IsModelStatus(s) ==> ProtoStatusToModel(n) == s
  {
    if s == Pending then PendingWire
    else if s == Processing then ProcessingWire
    else if s == Shipped then ShippedWire
    else if s == Delivered then DeliveredWire
    else if s == Cancelled then CancelledWire
    else PendingWire
  }

  /** The wire status as a stored status name; an unknown number becomes
      PENDING. */
  function ProtoStatusToModel(n: int): (s: string)
    ensures IsModelStatus(s)
    ensures s == Pending <==> !(n == ProcessingWire || n == ShippedWire || n == DeliveredWire || n == CancelledWire)
  {
    if n == PendingWire then Pending
    else if n == ProcessingWire then Processing
    else if n == ShippedWire then Shipped
    else if n == DeliveredWire then Delivered
    else if n == CancelledWire then Cancelled
    else Pending
  }

  /** Each of the five wire numbers survives the trip through the stored
      name. */
  lemma WireStatusRoundTrip(n: int)
    requires PendingWire <= n <= CancelledWire
    ensures ModelStatusToProto(ProtoStatusToModel(n)) == n
  {
  }

  /** One requested line item; the price is in cents. */
  datatype RequestItem = RequestItem(productName: string, quantity: int, price: int)

  datatype CreateOrderRequest = CreateOrderRequest(userId: int, items: seq<RequestItem>)

  /** The display attributes the user service returns for a valid user. */
  datatype UserInfo = UserInfo(name: string, email: string)

  /** What asking the user service about a user yields: a transport error,
      or its answer, which carries the user when it is valid. */
  datatype ValidationReply = TransportError | Reply(isValid: bool, user: Option<UserInfo>)

  datatype ProtoItem = ProtoItem(id: int, productName: string, quantity: int, price: int)

  datatype ProtoOrder = ProtoOrder(
    id: int, userId: int, userName: string, userEmail: string, items: seq<ProtoItem>,
    totalAmount: int, status: int, createdAt: int, updatedAt: int)

  /** The sum of price times quantity over the items. */
  function LineTotal(items: seq<RequestItem>): int {
    if items == [] then 0
    else LineTotal(items[..|items| - 1]) + items[|items| - 1].price * items[|items| - 1].quantity
  }

  /** The total of a concatenation is the sum of the totals: the total does
      not depend on how the items are grouped. */
  lemma {:induction false} LineTotalAppend(a: seq<RequestItem>, b: seq<RequestItem>)
    ensures LineTotal(a + b) == LineTotal(a) + LineTotal(b)
  {
    if b != [] {
      var last := b[|b| - 1];
      assert (a + b)[..|a + b| - 1] == a + b[..|b| - 1];
      LineTotalAppend(a, b[..|b| - 1]);
    } else {
      assert a + b == a;
    }
  }

  /** The total of a single item is its price times its quantity. */
  lemma LineTotalSingle(it: RequestItem)
    ensures LineTotal([it]) == it.price * it.quantity
  {
    assert [it][..0] == [];
  }

  /** Two widgets at 9.99 and one gadget at 5.00 come to 24.98. */
  lemma WidgetGadgetTotal()
    ensures LineTotal([RequestItem("widget", 2, 999), RequestItem("gadget", 1, 500)]) == 2498
  {
    var w, g := RequestItem("widget", 2, 999), RequestItem("gadget", 1, 500);
    LineTotalSingle(w);
    LineTotalSingle(g);
    LineTotalAppend([w], [g]);
    assert [w] + [g] == [w, g];
  }

  /** The wire form of an item: its id, name, quantity and price. */
  function ItemToProto(it: OrderItem): (p: ProtoItem)
    ensures p.id == it.id && p.productName == it.productName
    ensures p.quantity == it.quantity && p.price == it.price
  {
    ProtoItem(it.id, it.productName, it.quantity, it.price)
  }

  /** The wire form of an order: every field copied, the status converted. */
  function ToProto(o: Order): (p: ProtoOrder)
    ensures p.id == o.id && p.userId == o.userId && p.userName == o.userName && p.userEmail == o.userEmail
    ensures p.totalAmount == o.totalAmount && p.createdAt == o.createdAt && p.updatedAt == o.updatedAt
    ensures p.status == ModelStatusToProto(o.status)
    ensures |p.items| == |o.items| && forall i :: 0 <= i < |o.items| ==> p.items[i] == ItemToProto(o.items[i])
  {
    ProtoOrder(o.id, o.userId, o.userName, o.userEmail,
               seq(|o.items|, i requires 0 <= i < |o.items| => ItemToProto(o.items[i])),
               o.totalAmount, ModelStatusToProto(o.status), o.createdAt, o.updatedAt)
  }

  /** The wire form of each order, in the same order. */
  method ToProtoAll(os: seq<Order>) returns (ps: seq<ProtoOrder>)
    ensures |ps| == |os|
    ensures forall i :: 0 <= i < |os| ==> ps[i] == ToProto(os[i])
  {
    ps := [];
    var i := 0;
    while i < |os|
      invariant 0 <= i <= |os| && |ps| == i
      invariant forall j :: 0 <= j < i ==> ps[j] == ToProto(os[j])
    {
      ps := ps + [ToProto(os[i])];
      i := i + 1;
    }
  }

  /** The order to persist for `req`: the total summed in a loop, each item
      copied, status PENDING, and the user's name and email as snapshot. */
  method BuildOrder(req: CreateOrderRequest, user: UserInfo) returns (order: Order)
    ensures order.userId == req.userId && order.userName == user.name && order.userEmail == user.email
    ensures order.totalAmount == LineTotal(req.items) && order.status == Pending
    ensures |order.items| == |req.items|
    ensures forall i :: 0 <= i < |req.items| ==>
      && order.items[i].productName == req.items[i].productName
      && order.items[i].quantity == req.items[i].quantity
      && order.items[i].price == req.items[i].price
  {
    var total := 0;
    var items: seq<OrderItem> := [];
    var i := 0;
    while i < |req.items|
      invariant 0 <= i <= |req.items| && |items| == i
      invariant total == LineTotal(req.items[..i])
      invariant forall j :: 0 <= j < i ==>
        && items[j].productName == req.items[j].productName
        && items[j].quantity == req.items[j].quantity
        && items[j].price == req.items[j].price
    {
      var item := req.items[i];
      assert req.items[..i + 1][..i] == req.items[..i];
      total := total + item.price * item.quantity;
      items := items + [OrderItem(0, 0, item.productName, item.quantity, item.price, 0)];
      i := i + 1;
    }
    assert req.items[..i] == req.items;
    order := Order(0, req.userId, user.name, user.email, items, total, Pending, 0, 0);
  }

  class OrderServiceServer {
    const repo: OrderRepository

    constructor (repo: OrderRepository)
      ensures this.repo == repo
    {
      this.repo := repo;
    }

    /** Validates the user, then persists a PENDING order with the summed
        total and the user's snapshot. A failed validation call and a failed
        store both give Internal; an invalid user gives NotFound; neither
        error leaves a row behind. An empty item list is not refused. */
    method CreateOrder(req: CreateOrderRequest, validation: ValidationReply, fault: CreateFault, now: int)
      returns (r: Result<ProtoOrder, Code>, ghost stored: Order)
      requires repo.Valid()
      requires validation.Reply? && validation.isValid ==> validation.user.Some?
      modifies repo
      ensures repo.Valid()
      ensures validation.TransportError? ==> r == Err(Internal) && unchanged(repo)
      ensures validation.Reply? && !validation.isValid ==> r == Err(NotFound) && unchanged(repo)
      ensures r.Ok? <==> validation.Reply? && validation.isValid && !Strikes(fault, |req.items|)
      ensures r.Err? ==> repo.orders == old(repo.orders) && repo.items == old(repo.items)
      ensures validation.Reply? && validation.isValid && Strikes(fault, |req.items|) ==> r == Err(Internal)
      ensures r.Ok? ==>
        && r.value == ToProto(stored)
        && StoredOrder(repo.orders, repo.items, stored)
        && stored.id == old(repo.nextOrderId) && stored.id !in old(repo.orders)
        && repo.orders == old(repo.orders)[stored.id := repo.orders[stored.id]]
        && (forall k :: k in old(repo.items) ==> k in repo.items && repo.items[k] == old(repo.items)[k])
        && (forall k :: k in repo.items && k !in old(repo.items) ==> k in ItemIds(stored.items))
        && stored.userId == req.userId
        && stored.userName == validation.user.value.name && stored.userEmail == validation.user.value.email
        && stored.totalAmount == LineTotal(req.items)
        && stored.status == Pending && r.value.status == PendingWire
        && stored.createdAt == now && stored.updatedAt == now
        && |stored.items| == |req.items|
        && (forall i :: 0 <= i < |req.items| ==>
              && stored.items[i].orderId == stored.id
              && stored.items[i].productName == req.items[i].productName
              && stored.items[i].quantity == req.items[i].quantity
              && stored.items[i].price == req.items[i].price)
    {
      stored := Order(0, 0, [], [], [], 0, [], 0, 0);
      match validation
      case TransportError =>
        return Err(Internal), stored;
      case Reply(isValid, user) =>
        if !isValid {
          return Err(NotFound), stored;
        }
        var order := BuildOrder(req, user.value);
        var created := repo.Create(order, fault, now);
        if created.Err? {
          return Err(Internal), stored;
        }
        stored := created.value;
        forall k | k in repo.items && k !in old(repo.items) ensures k in ItemIds(stored.items) {
          assert ItemIds(stored.items)[k - old(repo.nextItemId)] == k;
        }
        r := Ok(ToProto(created.value));
    }

    /** The order `id`; NotFound when there is no such row, Internal when
        the store fails. */
    method GetOrder(id: int, fault: Fault) returns (r: Result<ProtoOrder, Code>, ghost order: Order)
      ensures r.Ok? <==> fault == Healthy && id in repo.orders
      ensures r.Err? ==> r.error == (if fault == Broken then Internal else NotFound)
      ensures r.Ok? ==> r.value == ToProto(order) && order.id == id && StoredOrder(repo.orders, repo.items, order)
    {
      order := Order(0, 0, [], [], [], 0, [], 0, 0);
      var got := repo.GetByID(id, fault);
      if got.Err? {
        if got.error == NoRows {
          return Err(NotFound), order;
        }
        return Err(Internal), order;
      }
      order := got.value;
      r := Ok(ToProto(got.value));
    }

    /** Reads the order, replaces its status by the requested one, whatever
        the current status is, and writes it back. Only the status and the
        update time of the row change. */
    method UpdateOrderStatus(id: int, status: int, readFault: Fault, writeFault: Fault, now: int)
      returns (r: Result<ProtoOrder, Code>, ghost order: Order)
      requires repo.Valid()
      modifies repo
      ensures repo.Valid()
      ensures repo.items == old(repo.items)
      ensures repo.nextOrderId == old(repo.nextOrderId) && repo.nextItemId == old(repo.nextItemId)
      ensures r.Ok? <==> readFault == Healthy && writeFault == Healthy && id in old(repo.orders)
      ensures r.Err? ==> repo.orders == old(repo.orders)
      ensures r.Err? ==> r.error == (if readFault == Healthy && id !in old(repo.orders) then NotFound else Internal)
      ensures r.Ok? ==>
        var row := old(repo.orders)[id];
        && repo.orders == old(repo.orders)[id := row.(status := ProtoStatusToModel(status), updatedAt := now)]
        && r.value == ToProto(order) && order.id == id
        && StoredOrder(repo.orders, repo.items, order)
        && ExactItems(old(repo.items), id, order.items)
        && order.userId == row.userId
        && order.userName == row.userName && order.userEmail == row.userEmail
        && order.totalAmount == row.totalAmount && order.createdAt == row.createdAt
        && order.status == ProtoStatusToModel(status) && order.updatedAt == now
        && r.value.status == ModelStatusToProto(ProtoStatusToModel(status))
    {
      order := Order(0, 0, [], [], [], 0, [], 0, 0);
      var got := repo.GetByID(id, readFault);
      if got.Err? {
        if got.error == NoRows {
          return Err(NotFound), order;
        }
        return Err(Internal), order;
      }
      var updated := got.value.(status := ProtoStatusToModel(status));
      var written := repo.Update(updated, writeFault, now);
      if written.Err? {
        return Err(Internal), order;
      }
      updated := updated.(updatedAt := written.value);
      order := updated;
      r := Ok(ToProto(updated));
    }

    /** One page of orders in wire form and the number of all orders. */
    method ListOrders(page: int, limit: int, fault: Fault)
      returns (r: Result<(seq<ProtoOrder>, int), Code>, ghost orders: seq<Order>, ghost ranking: seq<int>)
      ensures r.Err? <==> fault == Broken
      ensures r.Err? ==> r.error == Internal
      ensures r.Ok? ==>
        && r.value.1 == |repo.orders|
        && |r.value.0| == |orders| && (forall i :: 0 <= i < |orders| ==> r.value.0[i] == ToProto(orders[i]))
        && (forall i :: 0 <= i < |orders| ==> StoredOrder(repo.orders, repo.items, orders[i]))
        && Distinct(ranking) && NewestFirst(ranking, CreatedAt(repo.orders))
        && (forall id :: id in repo.orders ==> id in ranking)
        && OrderIds(orders) == Window(ranking, Offset(NormalizePage(page), NormalizeLimit(limit)), NormalizeLimit(limit))
        && |orders| <= NormalizeLimit(limit)
    {
      orders := [];
      var listed;
      listed, ranking := repo.List(page, limit, fault);
      if listed.Err? {
        return Err(Internal), orders, ranking;
      }
      orders := listed.value.0;
      var ps := ToProtoAll(listed.value.0);
      r := Ok((ps, listed.value.1));
    }

    /** Re-validates the user, then returns all of the user's orders newest
        first, with their number as the total. */
    method GetUserOrders(userId: int, validation: ValidationReply, fault: Fault)
      returns (r: Result<(seq<ProtoOrder>, int), Code>, ghost orders: seq<Order>)
      ensures validation.TransportError? ==> r == Err(Internal)
      ensures validation.Reply? && !validation.isValid ==> r == Err(NotFound)
      ensures r.Ok? <==> validation.Reply? && validation.isValid && fault == Healthy
      ensures validation.Reply? && validation.isValid && fault == Broken ==> r == Err(Internal)
      ensures r.Ok? ==>
        && r.value.1 == |r.value.0|
        && |r.value.0| == |orders| && (forall i :: 0 <= i < |orders| ==> r.value.0[i] == ToProto(orders[i]))
        && (forall i :: 0 <= i < |orders| ==> StoredOrder(repo.orders, repo.items, orders[i]) && orders[i].userId == userId)
        && (forall id :: id in repo.orders && repo.orders[id].userId == userId ==> id in OrderIds(orders))
        && Distinct(OrderIds(orders)) && NewestFirst(OrderIds(orders), CreatedAt(repo.orders))
    {
      orders := [];
      match validation
      case TransportError =>
        return Err(Internal), orders;
      case Reply(isValid, _) =>
        if !isValid {
          return Err(NotFound), orders;
        }
        var found := repo.GetByUserID(userId, fault);
        if found.Err? {
          return Err(Internal), orders;
        }
        orders := found.value;
        var ps := ToProtoAll(found.value);
        r := Ok((ps, |ps|));
    }

    /** Checks that the order exists, then sets it CANCELLED; cancelling an
        order that is already cancelled succeeds again. */
    method CancelOrder(id: int, readFault: Fault, writeFault: Fault, now: int) returns (r: Result<bool, Code>)
      requires repo.Valid()
      modifies repo
      ensures repo.Valid()
      ensures repo.items == old(repo.items)
      ensures repo.nextOrderId == old(repo.nextOrderId) && repo.nextItemId == old(repo.nextItemId)
      ensures r.Ok? <==> readFault == Healthy && writeFault == Healthy && id in old(repo.orders)
      ensures r.Err? ==> repo.orders == old(repo.orders)
      ensures r.Err? ==> r.error == (if readFault == Healthy && id !in old(repo.orders) then NotFound else Internal)
      ensures r.Ok? ==> r.value && repo.orders == old(repo.orders)[id := old(repo.orders)[id].(status := Cancelled, updatedAt := now)]
    {
      var got := repo.GetByID(id, readFault);
      if got.Err? {
        if got.error == NoRows {
          return Err(NotFound);
        }
        return Err(Internal);
      }
      var cancelled := repo.Cancel(id, writeFault, now);
      if cancelled.Fail? {
        return Err(Internal);
      }
      r := Ok(true);
    }
  }

  /** A created order reads back PENDING with the items that were requested;
      shipping it then changes its status and nothing the reader sees
      besides the update time. */
  method CreateShipAndRead(server: OrderServiceServer, req: CreateOrderRequest, user: UserInfo, t1: int, t2: int)
    returns (created: ProtoOrder, pending: ProtoOrder, shipped: ProtoOrder, read: ProtoOrder)
    requires server.repo.Valid()
    modifies server.repo
    ensures |created.items| == |req.items| && created.status == PendingWire
    ensures created.totalAmount == LineTotal(req.items)
    ensures pending.id == created.id && pending.status == PendingWire && |pending.items| == |req.items|
    ensures forall p :: p in pending.items <==> p in created.items
    ensures pending.totalAmount == created.totalAmount && pending.userId == req.userId
    ensures read.id == created.id && read.status == ShippedWire && shipped.status == ShippedWire
    ensures |read.items| == |req.items| && read.totalAmount == created.totalAmount
    ensures forall p :: p in read.items <==> p in created.items
    ensures read.userId == req.userId && created.userId == req.userId
    ensures read.userName == created.userName && read.userEmail == created.userEmail
    ensures read.createdAt == created.createdAt && read.updatedAt == t2
  {
    var c, stored := server.CreateOrder(req, Reply(true, Some(user)), NoFault, t1);
    created := c.value;
    var p, before := server.GetOrder(created.id, Healthy);
    pending := p.value;
    ExactItemsAgree(server.repo.items, created.id, before.items, stored.items);
    SameItemsSameWireItems(before, stored);
    var s, _ := server.UpdateOrderStatus(created.id, ShippedWire, Healthy, Healthy, t2);
    shipped := s.value;
    var g, order := server.GetOrder(created.id, Healthy);
    read := g.value;
    ExactItemsAgree(server.repo.items, created.id, order.items, stored.items);
    SameItemsSameWireItems(order, stored);
  }

  /** Orders holding the same items, in whatever order, hold the same wire
      items. */
  lemma SameItemsSameWireItems(a: Order, b: Order)
    requires forall x :: x in a.items <==> x in b.items
    ensures forall p :: p in ToProto(a).items <==> p in ToProto(b).items
  {
    forall p | p in ToProto(a).items ensures p in ToProto(b).items {
      var i :| 0 <= i < |a.items| && ToProto(a).items[i] == p;
      assert a.items[i] in b.items;
      var j :| 0 <= j < |b.items| && b.items[j] == a.items[i];
      assert ToProto(b).items[j] == p;
    }
    forall p | p in ToProto(b).items ensures p in ToProto(a).items {
      var j :| 0 <= j < |b.items| && ToProto(b).items[j] == p;
      assert b.items[j] in a.items;
      var i :| 0 <= i < |a.items| && a.items[i] == b.items[j];
      assert ToProto(a).items[i] == p;
    }
  }
}
