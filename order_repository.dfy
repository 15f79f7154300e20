/** The order repository: the queries its declarations stand for, over the
    order table as a sequence of rows, and the one statement that changes
    the table, the targeted update of an order's total amount. */
module OrderRepository {
  import opened Query
  import opened Paging
  import opened Status

  type Id = nat

  /** The order columns the queries read or write; the owning user is kept
      as its id (`o.userID.id`). Amounts are in the currency's smallest unit. */
  datatype Order = Order(id: Id, userId: Id, orderCode: int, status: string, totalAmount: int, createdDate: int)

  function CreatedDateOf(o: Order): int
  {
    o.createdDate
  }

  function AnyOrder(): Order -> bool
  {
    (o: Order) => true
  }

  function WithStatus(status: string): Order -> bool
  {
    (o: Order) => o.status == status
  }

  function WithOrderCode(code: int): Order -> bool
  {
    (o: Order) => o.orderCode == code
  }

  function OfUser(userId: Id): Order -> bool
  {
    (o: Order) => o.userId == userId
  }

  function OfUserWithStatus(userId: Id, status: string): Order -> bool
  {
    (o: Order) => o.userId == userId && o.status == status
  }

  /** `findAllByOrderByCreatedDateDesc(pageable)`: a page of all orders, newest first. */
  function FindAllByOrderByCreatedDateDesc(orders: seq<Order>, p: Pageable): (r: Page<Order>)
    ensures r.totalElements == |orders|
    ensures forall o :: o in r.content ==> o in orders
    ensures SortedDesc(r.content, CreatedDateOf)
  {
    CountAll(orders);
    SelectPage(orders, AnyOrder(), CreatedDateOf, p)
  }

  lemma {:induction false} CountAll(orders: seq<Order>)
    ensures Count(orders, AnyOrder()) == |orders|
  {
    if orders != [] {
      CountAll(orders[1..]);
    }
  }

  /** `findAllByStatusOrderByCreatedDateDesc(status, pageable)`: the page's
      orders with that status, newest first, as a list. */
  function FindAllByStatusOrderByCreatedDateDesc(orders: seq<Order>, status: string, p: Pageable): (r: seq<Order>)
    ensures |r| <= p.size
    ensures forall o :: o in r ==> o in orders && o.status == status
    ensures SortedDesc(r, CreatedDateOf)
  {
    SelectPage(orders, WithStatus(status), CreatedDateOf, p).content
  }

  /** `findByOrderCode(orderCode, pageable)`: a page of the orders with that
      code. The derived query has no ORDER BY, so the rows keep table order. */
  function FindByOrderCodePaged(orders: seq<Order>, code: int, p: Pageable): (r: Page<Order>)
    ensures r.totalElements == Count(orders, WithOrderCode(code))
    ensures |r.content| <= p.size
    ensures forall o :: o in r.content ==> o in orders && o.orderCode == code
  {
    FilterCount(orders, WithOrderCode(code));
    Page(PageOf(Filter(orders, WithOrderCode(code)), p), p, Count(orders, WithOrderCode(code)))
  }

  /** `findAllByUserIdAndStatusActive(userId, pageable)`. */
  function FindAllByUserIdAndStatusActive(orders: seq<Order>, userId: Id, p: Pageable): (r: Page<Order>)
    ensures r.totalElements == Count(orders, OfUserWithStatus(userId, ACTIVE_STATUS))
    ensures forall o :: o in r.content ==> o in orders && o.userId == userId && o.status == ACTIVE_STATUS
    ensures SortedDesc(r.content, CreatedDateOf)
  {
    SelectPage(orders, OfUserWithStatus(userId, ACTIVE_STATUS), CreatedDateOf, p)
  }

  /** `findAllByUserIdAndStatusInactive(userId, pageable)`. */
  function FindAllByUserIdAndStatusInactive(orders: seq<Order>, userId: Id, p: Pageable): (r: Page<Order>)
    ensures r.totalElements == Count(orders, OfUserWithStatus(userId, INACTIVE_STATUS))
    ensures forall o :: o in r.content ==> o in orders && o.userId == userId && o.status == INACTIVE_STATUS
    ensures SortedDesc(r.content, CreatedDateOf)
  {
    SelectPage(orders, OfUserWithStatus(userId, INACTIVE_STATUS), CreatedDateOf, p)
  }

  /** `findAllByUserId(userId, pageable)`: the user's orders of any status. */
  function FindAllByUserId(orders: seq<Order>, userId: Id, p: Pageable): (r: Page<Order>)
    ensures r.totalElements == Count(orders, OfUser(userId))
    ensures forall o :: o in r.content ==> o in orders && o.userId == userId
    ensures SortedDesc(r.content, CreatedDateOf)
  {
    SelectPage(orders, OfUser(userId), CreatedDateOf, p)
  }

  /** Every active or inactive order of a user is one of the user's orders,
      and the two status queries never count more than the user query. */
  lemma StatusQueriesWithinUserQuery(orders: seq<Order>, userId: Id, p: Pageable)
    ensures forall o :: o in FindAllByUserIdAndStatusActive(orders, userId, p).content ==> OfUser(userId)(o)
    ensures forall o :: o in FindAllByUserIdAndStatusInactive(orders, userId, p).content ==> OfUser(userId)(o)
    ensures FindAllByUserIdAndStatusActive(orders, userId, p).totalElements
          + FindAllByUserIdAndStatusInactive(orders, userId, p).totalElements
         <= FindAllByUserId(orders, userId, p).totalElements
  {
    CountDisjointBound(orders, OfUserWithStatus(userId, ACTIVE_STATUS),
                       OfUserWithStatus(userId, INACTIVE_STATUS), OfUser(userId));
  }

  /** Paging through a user's active orders reaches exactly the user's
      active orders: each returned order is one, and each one is returned on
      some page below the page count. */
  lemma UserActiveOrdersExact(orders: seq<Order>, userId: Id, d: PageSize, o: Order)
    ensures (exists k: nat :: k < CeilDiv(Count(orders, OfUserWithStatus(userId, ACTIVE_STATUS)), d)
                          && o in FindAllByUserIdAndStatusActive(orders, userId, Pageable(k, d)).content)
        <==> o in orders && o.userId == userId && o.status == ACTIVE_STATUS
  {
    if o in orders && o.userId == userId && o.status == ACTIVE_STATUS {
      SelectPageCovers(orders, OfUserWithStatus(userId, ACTIVE_STATUS), CreatedDateOf, d, o);
    }
  }

  /** The same for a user's inactive orders. */
  lemma UserInactiveOrdersExact(orders: seq<Order>, userId: Id, d: PageSize, o: Order)
    ensures (exists k: nat :: k < CeilDiv(Count(orders, OfUserWithStatus(userId, INACTIVE_STATUS)), d)
                          && o in FindAllByUserIdAndStatusInactive(orders, userId, Pageable(k, d)).content)
        <==> o in orders && o.userId == userId && o.status == INACTIVE_STATUS
  {
    if o in orders && o.userId == userId && o.status == INACTIVE_STATUS {
      SelectPageCovers(orders, OfUserWithStatus(userId, INACTIVE_STATUS), CreatedDateOf, d, o);
    }
  }

  /** The result of a single-row query: no row (null), the one row, or the
      error Spring Data raises when more than one row matches. */
  datatype SingleResult = NoResult | Unique(order: Order) | NonUniqueResult

  /** `findByOrderCode(orderCode)`: the one order with that code. */
  function FindByOrderCode(orders: seq<Order>, code: int): (r: SingleResult)
    ensures r.NoResult? <==> forall o :: o in orders ==> o.orderCode != code
    ensures r.Unique? ==> r.order in orders && r.order.orderCode == code
    ensures r.Unique? <==> Count(orders, WithOrderCode(code)) == 1
    ensures r.NonUniqueResult? <==> Count(orders, WithOrderCode(code)) >= 2
  {
    var matches := Filter(orders, WithOrderCode(code));
    FilterCount(orders, WithOrderCode(code));
    if |matches| == 0 then
      NoResult
    else
      assert matches[0] in matches;
      if |matches| == 1 then Unique(matches[0]) else NonUniqueResult
  }

  /** `existsByUserIdAndStatus(userId, status)`: `COUNT(o) > 0` over the
      user's orders with that status. */
  function ExistsByUserIdAndStatus(orders: seq<Order>, userId: Id, status: string): (b: bool)
    ensures b <==> exists o :: o in orders && o.userId == userId && o.status == status
  {
    CountPositiveIff(orders, OfUserWithStatus(userId, status));
    assert (exists o :: o in orders && o.userId == userId && o.status == status)
       <==> exists i :: 0 <= i < |orders| && OfUserWithStatus(userId, status)(orders[i]);
    Count(orders, OfUserWithStatus(userId, status)) > 0
  }

  /** One row after `UPDATE Order o SET o.totalAmount = :totalAmount WHERE o.id = :orderId`:
      the row with that id gets the new amount, every other column and
      every other row stays as it was. */
  function SetTotalAmount(o: Order, orderId: Id, totalAmount: int): (n: Order)
    ensures n.id == o.id && n.userId == o.userId && n.orderCode == o.orderCode
    ensures n.status == o.status && n.createdDate == o.createdDate
    ensures n.totalAmount == if o.id == orderId then totalAmount else o.totalAmount
  {
    if o.id == orderId then o.(totalAmount := totalAmount) else o
  }

  /** The table after `updateTotalAmount(orderId, totalAmount)`: the update
      writes the amount of the order with that id and nothing else, so no
      other column and no other order changes. */
  function WithTotalAmount(orders: seq<Order>, orderId: Id, totalAmount: int): (r: seq<Order>)
    ensures |r| == |orders|
    ensures forall i :: 0 <= i < |orders| ==>
              && r[i].id == orders[i].id && r[i].userId == orders[i].userId
              && r[i].orderCode == orders[i].orderCode && r[i].status == orders[i].status
              && r[i].createdDate == orders[i].createdDate
              && r[i].totalAmount == (if orders[i].id == orderId then totalAmount else orders[i].totalAmount)
  {
    seq(|orders|, i requires 0 <= i < |orders| => SetTotalAmount(orders[i], orderId, totalAmount))
  }

  /** An id no order has leaves the table as it was. */
  lemma UpdateTotalAmountUnknownId(orders: seq<Order>, orderId: Id, totalAmount: int)
    requires forall o :: o in orders ==> o.id != orderId
    ensures WithTotalAmount(orders, orderId, totalAmount) == orders
  {
    var r := WithTotalAmount(orders, orderId, totalAmount);
    forall i | 0 <= i < |orders| ensures r[i] == orders[i] {
      assert orders[i] in orders;
    }
  }

  /** Repeating the update changes nothing more. */
  lemma UpdateTotalAmountIdempotent(orders: seq<Order>, orderId: Id, totalAmount: int)
    ensures WithTotalAmount(WithTotalAmount(orders, orderId, totalAmount), orderId, totalAmount)
         == WithTotalAmount(orders, orderId, totalAmount)
  {
  }

  /** Two row sequences that agree, row by row, on a condition select the
      same number of rows. */
  lemma {:induction false} CountPointwise(s: seq<Order>, t: seq<Order>, p: Order -> bool)
    requires |s| == |t|
    requires forall i :: 0 <= i < |s| ==> p(s[i]) == p(t[i])
    ensures Count(s, p) == Count(t, p)
  {
    if s != [] {
      CountPointwise(s[1..], t[1..], p);
    }
  }

  /** Updating an amount does not change which orders exist for a user and
      status. */
  lemma UpdateTotalAmountKeepsExists(orders: seq<Order>, orderId: Id, totalAmount: int, userId: Id, status: string)
    ensures ExistsByUserIdAndStatus(WithTotalAmount(orders, orderId, totalAmount), userId, status)
         == ExistsByUserIdAndStatus(orders, userId, status)
  {
    CountPointwise(orders, WithTotalAmount(orders, orderId, totalAmount), OfUserWithStatus(userId, status));
  }

  /** No two orders share an id (the primary key). */
  ghost predicate DistinctIds(orders: seq<Order>)
  {
    forall i, j :: 0 <= i < j < |orders| ==> orders[i].id != orders[j].id
  }

  /** With ids distinct, the update of an order that exists changes exactly
      one row: the order's own, which gets the new amount. */
  lemma UpdateTotalAmountOneRow(orders: seq<Order>, orderId: Id, totalAmount: int, i: nat)
    requires DistinctIds(orders)
    requires i < |orders| && orders[i].id == orderId
    ensures WithTotalAmount(orders, orderId, totalAmount)[i] == orders[i].(totalAmount := totalAmount)
    ensures forall j :: 0 <= j < |orders| && j != i ==> WithTotalAmount(orders, orderId, totalAmount)[j] == orders[j]
  {
    var r := WithTotalAmount(orders, orderId, totalAmount);
    forall j | 0 <= j < |orders| && j != i ensures r[j] == orders[j] {
      if j < i {
        assert orders[j].id != orders[i].id;
      } else {
        assert orders[i].id != orders[j].id;
      }
    }
  }

  /** The order table, changed in place by `updateTotalAmount`. */
  class OrderTable {
    var orders: seq<Order>

    ghost predicate Valid()
      reads this
    {
      DistinctIds(orders)
    }

    constructor (rows: seq<Order>)
      requires DistinctIds(rows)
      ensures Valid() && orders == rows
    {
      orders := rows;
    }

    /** `updateTotalAmount(orderId, totalAmount)`: sets the amount of the
        order with that id, row by row. */
    method UpdateTotalAmount(orderId: Id, totalAmount: int)
      requires Valid()
      modifies this
      ensures Valid()
      ensures orders == WithTotalAmount(old(orders), orderId, totalAmount)
    {
      var i := 0;
      while i < |orders|
        invariant 0 <= i <= |orders| == |old(orders)|
        invariant forall k :: 0 <= k < i ==> orders[k] == SetTotalAmount(old(orders)[k], orderId, totalAmount)
        invariant forall k :: i <= k < |orders| ==> orders[k] == old(orders)[k]
      {
        if orders[i].id == orderId {
          orders := orders[i := orders[i].(totalAmount := totalAmount)];
        }
        i := i + 1;
      }
    }
  }
}
