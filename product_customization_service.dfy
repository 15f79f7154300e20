/** The product-customization service: lookups, paged listings, creation
    with a derived total price, sparse updates and deactivation of product
    customizations, over an in-memory store that maps ids to records. */
module ProductCustomizationService {
  import opened Wrappers
  import opened Query
  import opened Paging
  import opened Status

  type Id = nat

  const ERROR_404: int := 404
  const ERROR_500: int := 500

  /** The messages the service's errors carry. */
  datatype Message =
    | ProductCustomizationNotFound  // ConstError.ProductCustomization.PRODUCT_CUSTOMIZATION_NOT_FOUND
    | CustomizationOptionNotFound   // ConstError.CustomizationOption.CUSTOMIZATION_OPTION_NOT_FOUND
    | ProductNotFound               // "Product not found"
    | OptionNotFound                // "Customization Option not found"
    | PageRequestRejected(reason: PageRequestError)

  /** `BaseException`: an error code and a message. */
  datatype Error = BaseException(code: int, message: Message)

  /** A 404 error, as the lookups throw it. */
  function NotFound(message: Message): Error
  {
    BaseException(ERROR_404, message)
  }

  /** What a catch block that wraps every exception throws: code 500 with
      the caught exception's message. */
  function Internal(message: Message): Error
  {
    BaseException(ERROR_500, message)
  }

  /** A stored product customization; the product and the option are kept
      as their ids, prices are in the currency's smallest unit. */
  datatype ProductCustomization = ProductCustomization(
    id: Id,
    productId: Id,
    optionId: Id,
    userId: Id,
    status: string,
    imageURL: string,
    customValue: string,
    totalPrice: int,
    reason: Option<string>,
    createdDate: int,
    createdBy: Option<string>,
    modifiedBy: Option<string>)

  /** `AddProductCustomizationRequest`. */
  datatype AddRequest = AddRequest(
    productId: Id,
    optionId: Id,
    userId: Id,
    status: string,
    imageURL: string,
    customValue: string,
    totalPrice: int)

  /** `UpdateProductCustomizationRequest`: every field but the id may be
      null, meaning "leave unchanged". */
  datatype UpdateRequest = UpdateRequest(
    id: Id,
    status: Option<string>,
    imageURL: Option<string>,
    customValue: Option<string>,
    totalPrice: Option<int>,
    productId: Option<Id>,
    optionId: Option<Id>,
    reason: Option<string>)

  function CreatedDateOf(c: ProductCustomization): int
  {
    c.createdDate
  }

  function AnyCustomization(): ProductCustomization -> bool
  {
    (c: ProductCustomization) => true
  }

  function WithStatus(status: string): ProductCustomization -> bool
  {
    (c: ProductCustomization) => c.status == status
  }

  function OfUser(userId: Id): ProductCustomization -> bool
  {
    (c: ProductCustomization) => c.userId == userId
  }

  /// The repository calls the service makes, over the store.

  /** `findAllByOrderByCreatedDateDesc(pageable)`: one page of all records, newest first. */
  function FindAllByOrderByCreatedDateDesc(store: map<Id, ProductCustomization>, p: Pageable): (r: seq<ProductCustomization>)
    ensures |r| <= p.size
    ensures forall c :: c in r ==> c in store.Values
    ensures SortedDesc(r, CreatedDateOf)
    ensures |r| > 0 <==> p.number < CeilDiv(|store|, p.size)
  {
    CountAllRows(store);
    SelectPage(Rows(store), AnyCustomization(), CreatedDateOf, p).content
  }

  /** `findAllByStatusOrderByCreatedDateDesc(status, pageable)`. */
  function FindAllByStatusOrderByCreatedDateDesc(store: map<Id, ProductCustomization>, status: string, p: Pageable)
    : (r: seq<ProductCustomization>)
    ensures |r| <= p.size
    ensures forall c :: c in r ==> c in store.Values && c.status == status
    ensures SortedDesc(r, CreatedDateOf)
    ensures |r| > 0 <==> p.number < CeilDiv(CountByStatus(store, status), p.size)
  {
    SelectPage(Rows(store), WithStatus(status), CreatedDateOf, p).content
  }

  /** `findAllByUserIdOrderByCreatedDateDesc(userId, pageable)`. */
  function FindAllByUserIdOrderByCreatedDateDesc(store: map<Id, ProductCustomization>, userId: Id, p: Pageable)
    : (r: seq<ProductCustomization>)
    ensures |r| <= p.size
    ensures forall c :: c in r ==> c in store.Values && c.userId == userId
    ensures SortedDesc(r, CreatedDateOf)
    ensures |r| > 0 <==> p.number < CeilDiv(CountByUserId(store, userId), p.size)
  {
    SelectPage(Rows(store), OfUser(userId), CreatedDateOf, p).content
  }

  /** The ids of the records with that status. */
  function IdsWithStatus(store: map<Id, ProductCustomization>, status: string): (ids: set<Id>)
    ensures forall id :: id in ids <==> id in store && store[id].status == status
  {
    IdsWhere(store, WithStatus(status))
  }

  /** The ids of the user's records. */
  function IdsOfUser(store: map<Id, ProductCustomization>, userId: Id): (ids: set<Id>)
    ensures forall id :: id in ids <==> id in store && store[id].userId == userId
  {
    IdsWhere(store, OfUser(userId))
  }

  /** `countByStatus(status)`: the number of records with that status. */
  function CountByStatus(store: map<Id, ProductCustomization>, status: string): (n: nat)
    ensures n == |IdsWithStatus(store, status)|
    ensures n == Count(Rows(store), WithStatus(status))
  {
    CountWhere(store, WithStatus(status))
  }

  /** `countByUserId(userId)`: the number of records of that user. */
  function CountByUserId(store: map<Id, ProductCustomization>, userId: Id): (n: nat)
    ensures n == |IdsOfUser(store, userId)|
    ensures n == Count(Rows(store), OfUser(userId))
  {
    CountWhere(store, OfUser(userId))
  }

  /** `count()` and the list query over all records agree. */
  lemma CountAllRows(store: map<Id, ProductCustomization>)
    ensures Count(Rows(store), AnyCustomization()) == |store|
  {
    var n := CountWhere(store, AnyCustomization());
    assert IdsWhere(store, AnyCustomization()) == store.Keys;
    assert |store.Keys| == |store|;
  }

  /** `update`'s merge: every field the request supplies overwrites the
      stored one, every null field leaves it as it is, and the modifying
      user is recorded. A supplied total price is written as given. */
  function Patch(c: ProductCustomization, request: UpdateRequest, currentUser: string): (r: ProductCustomization)
    ensures r.status == request.status.GetOr(c.status)
    ensures r.imageURL == request.imageURL.GetOr(c.imageURL)
    ensures r.customValue == request.customValue.GetOr(c.customValue)
    ensures request.totalPrice.Some? ==> r.totalPrice == request.totalPrice.value
    ensures request.totalPrice.None? ==> r.totalPrice == c.totalPrice
    ensures r.productId == request.productId.GetOr(c.productId)
    ensures r.optionId == request.optionId.GetOr(c.optionId)
    ensures r.reason == if request.reason.Some? then request.reason else c.reason
    ensures r.modifiedBy == Some(currentUser)
    ensures r.id == c.id && r.userId == c.userId && r.createdDate == c.createdDate && r.createdBy == c.createdBy
  {
    c.(status := request.status.GetOr(c.status),
       imageURL := request.imageURL.GetOr(c.imageURL),
       customValue := request.customValue.GetOr(c.customValue),
       totalPrice := request.totalPrice.GetOr(c.totalPrice),
       productId := request.productId.GetOr(c.productId),
       optionId := request.optionId.GetOr(c.optionId),
       reason := if request.reason.Some? then request.reason else c.reason,
       modifiedBy := Some(currentUser))
  }

  /** Applying the same update twice gives what applying it once gives. */
  lemma PatchIdempotent(c: ProductCustomization, request: UpdateRequest, currentUser: string)
    ensures Patch(Patch(c, request, currentUser), request, currentUser) == Patch(c, request, currentUser)
  {
  }

  /** An update that supplies no field changes nothing but the modifying user. */
  lemma EmptyPatchOnlyStampsUser(c: ProductCustomization, id: Id, currentUser: string)
    ensures Patch(c, UpdateRequest(id, None, None, None, None, None, None, None), currentUser)
         == c.(modifiedBy := Some(currentUser))
  {
  }

  /** The store after `changeStatus(id)`: only that record's status changes. */
  function Deactivated(store: map<Id, ProductCustomization>, id: Id): (r: map<Id, ProductCustomization>)
    requires id in store
    ensures r.Keys == store.Keys
    ensures r[id].status == INACTIVE_STATUS
    ensures r[id] == store[id].(status := INACTIVE_STATUS)
    ensures forall other :: other in store && other != id ==> r[other] == store[other]
  {
    store[id := store[id].(status := INACTIVE_STATUS)]
  }

  /** Deactivating a record twice leaves the state the first call left. */
  lemma DeactivatedIdempotent(store: map<Id, ProductCustomization>, id: Id)
    requires id in store
    ensures Deactivated(Deactivated(store, id), id) == Deactivated(store, id)
  {
  }

  /** Every stored record sits under its own id. */
  ghost predicate KeyedById(store: map<Id, ProductCustomization>)
  {
    forall id :: id in store ==> store[id].id == id
  }

  /** `ProductCustomizationServiceImpl` with the repositories it reads: the
      customization store, each product's final price, and the ids of the
      existing customization options. */
  class ProductCustomizationServiceImpl {
    var customizations: map<Id, ProductCustomization>
    var productPrices: map<Id, int>
    var optionIds: set<Id>

    ghost predicate Valid()
      reads this
    {
      KeyedById(customizations)
    }

    constructor (customizations: map<Id, ProductCustomization>, productPrices: map<Id, int>, optionIds: set<Id>)
      requires KeyedById(customizations)
      ensures Valid()
      ensures this.customizations == customizations
      ensures this.productPrices == productPrices && this.optionIds == optionIds
    {
      this.customizations := customizations;
      this.productPrices := productPrices;
      this.optionIds := optionIds;
    }

    /** `totalItems()`: the number of stored records, which is the number
        of rows the listing of all records pages through. */
    function TotalItems(): (n: nat)
      reads this
      ensures n == |Rows(customizations)|
    {
      |customizations|
    }

    /** `totalActiveItems()`: the number of ACTIVE records. */
    function TotalActiveItems(): (n: nat)
      reads this
      ensures n == |IdsWithStatus(customizations, ACTIVE_STATUS)|
    {
      CountByStatus(customizations, ACTIVE_STATUS)
    }

    /** `findById(id)`: the stored record, or a 404 when there is none. */
    method FindById(id: Id) returns (r: Result<ProductCustomization, Error>)
      ensures r.Success? <==> id in customizations
      ensures r.Success? ==> r.value == customizations[id]
      ensures r.Failure? ==> r.error == NotFound(ProductCustomizationNotFound)
    {
      if id !in customizations {
        return Failure(NotFound(ProductCustomizationNotFound));
      }
      r := Success(customizations[id]);
    }

    /** `getAll(page, limit)`: a page of all records, newest first. */
    method GetAll(page: Option<Int32>, limit: Option<Int32>) returns (r: Result<PagingModel<ProductCustomization>, Error>)
      ensures ListOutcome(page, limit, TotalItems(), r)
      ensures ListedFrom(customizations, AnyCustomization(), r)
    {
      var p, l, request := ResolvePaging(page, limit);
      if request.Failure? {
        ListOutcomeFailure(page, limit, p, l, TotalItems(), request.error);
        return Failure(Internal(PageRequestRejected(request.error)));
      }
      var list := FindAllByOrderByCreatedDateDesc(customizations, request.value);
      var totalItems := TotalItems();
      ListOutcomeSuccess(page, limit, p, l, totalItems, list);
      assert list == RequestedRows(customizations, AnyCustomization(), p, l);
      r := Success(PagingModel(p, l, CeilDiv(totalItems, l), list));
    }

    /** `findAllByStatusTrue(page, limit)`: a page of the ACTIVE records, newest first. */
    method FindAllByStatusTrue(page: Option<Int32>, limit: Option<Int32>)
      returns (r: Result<PagingModel<ProductCustomization>, Error>)
      ensures ListOutcome(page, limit, TotalActiveItems(), r)
      ensures ListedFrom(customizations, WithStatus(ACTIVE_STATUS), r)
    {
      var p, l, request := ResolvePaging(page, limit);
      if request.Failure? {
        ListOutcomeFailure(page, limit, p, l, TotalActiveItems(), request.error);
        return Failure(Internal(PageRequestRejected(request.error)));
      }
      var list := FindAllByStatusOrderByCreatedDateDesc(customizations, ACTIVE_STATUS, request.value);
      var totalItems := TotalActiveItems();
      ListOutcomeSuccess(page, limit, p, l, totalItems, list);
      assert list == RequestedRows(customizations, WithStatus(ACTIVE_STATUS), p, l);
      r := Success(PagingModel(p, l, CeilDiv(totalItems, l), list));
    }

    /** `getProductCustomByUserId(userId, page, limit)`: a page of the user's records, newest first. */
    method GetProductCustomByUserId(userId: Id, page: Option<Int32>, limit: Option<Int32>)
      returns (r: Result<PagingModel<ProductCustomization>, Error>)
      ensures ListOutcome(page, limit, CountByUserId(customizations, userId), r)
      ensures ListedFrom(customizations, OfUser(userId), r)
    {
      var p, l, request := ResolvePaging(page, limit);
      if request.Failure? {
        ListOutcomeFailure(page, limit, p, l, CountByUserId(customizations, userId), request.error);
        return Failure(Internal(PageRequestRejected(request.error)));
      }
      var list := FindAllByUserIdOrderByCreatedDateDesc(customizations, userId, request.value);
      var totalItems := CountByUserId(customizations, userId);
      ListOutcomeSuccess(page, limit, p, l, totalItems, list);
      assert list == RequestedRows(customizations, OfUser(userId), p, l);
      r := Success(PagingModel(p, l, CeilDiv(totalItems, l), list));
    }

    /** `create(request)`: stores a new record whose total price is the
        requested price plus the product's final price. A missing product or
        option fails, and, as every exception in this operation, surfaces as
        a 500 error carrying the lookup's message. */
    method Create(request: AddRequest, currentUser: string, now: int) returns (r: Result<ProductCustomization, Error>)
      requires Valid()
      modifies this`customizations
      ensures Valid()
      ensures r.Success? <==> request.productId in productPrices && request.optionId in optionIds
      ensures request.productId !in productPrices ==> r == Failure(Internal(ProductCustomizationNotFound))
      ensures request.productId in productPrices && request.optionId !in optionIds ==>
                r == Failure(Internal(CustomizationOptionNotFound))
      ensures r.Failure? ==> customizations == old(customizations)
      ensures r.Success? ==>
                var c := r.value;
                && c.id !in old(customizations)
                && customizations == old(customizations)[c.id := c]
                && c.totalPrice == request.totalPrice + productPrices[request.productId]
                && c.reason == None
                && c.status == request.status && c.imageURL == request.imageURL
                && c.userId == request.userId && c.customValue == request.customValue
                && c.productId == request.productId && c.optionId == request.optionId
                && c.createdBy == Some(currentUser) && c.modifiedBy == None && c.createdDate == now
    {
      if request.productId !in productPrices {
        return Failure(Internal(ProductCustomizationNotFound));
      }
      var finalPrice := productPrices[request.productId];
      if request.optionId !in optionIds {
        return Failure(Internal(CustomizationOptionNotFound));
      }
      var id := FreshKey(customizations.Keys);
      var c := ProductCustomization(
        id := id,
        productId := request.productId,
        optionId := request.optionId,
        userId := request.userId,
        status := request.status,
        imageURL := request.imageURL,
        customValue := request.customValue,
        totalPrice := request.totalPrice + finalPrice,
        reason := None,
        createdDate := now,
        createdBy := Some(currentUser),
        modifiedBy := None);
      customizations := customizations[id := c];
      r := Success(c);
    }

    /** `update(request)`: applies the request's non-null fields to the
        stored record and saves it. An unknown id, product or option fails
        with its 404 error, rethrown as it is, before anything is saved. */
    method Update(request: UpdateRequest, currentUser: string) returns (r: Result<ProductCustomization, Error>)
      requires Valid()
      modifies this`customizations
      ensures Valid()
      ensures request.id !in old(customizations) ==> r == Failure(NotFound(ProductCustomizationNotFound))
      ensures request.id in old(customizations) && request.productId.Some? && request.productId.value !in productPrices ==>
                r == Failure(NotFound(ProductNotFound))
      ensures request.id in old(customizations) && (request.productId.None? || request.productId.value in productPrices)
              && request.optionId.Some? && request.optionId.value !in optionIds ==>
                r == Failure(NotFound(OptionNotFound))
      ensures r.Failure? ==> customizations == old(customizations)
      ensures r.Success? <==>
                && request.id in old(customizations)
                && (request.productId.None? || request.productId.value in productPrices)
                && (request.optionId.None? || request.optionId.value in optionIds)
      ensures r.Success? ==>
                && r.value == Patch(old(customizations)[request.id], request, currentUser)
                && customizations == old(customizations)[request.id := r.value]
    {
      if request.id !in customizations {
        return Failure(NotFound(ProductCustomizationNotFound));
      }
      var c := customizations[request.id];
      if request.status.Some? {
        c := c.(status := request.status.value);
      }
      if request.imageURL.Some? {
        c := c.(imageURL := request.imageURL.value);
      }
      if request.customValue.Some? {
        c := c.(customValue := request.customValue.value);
      }
      if request.totalPrice.Some? {
        c := c.(totalPrice := request.totalPrice.value);
      }
      if request.productId.Some? {
        if request.productId.value !in productPrices {
          return Failure(NotFound(ProductNotFound));
        }
        c := c.(productId := request.productId.value);
      }
      if request.optionId.Some? {
        if request.optionId.value !in optionIds {
          return Failure(NotFound(OptionNotFound));
        }
        c := c.(optionId := request.optionId.value);
      }
      if request.reason.Some? {
        c := c.(reason := request.reason);
      }
      c := c.(modifiedBy := Some(currentUser));
      customizations := customizations[request.id := c];
      r := Success(c);
    }

    /** `changeStatus(id)`: sets the record's status to INACTIVE and answers
        true, or fails with a 404 when there is no such record. */
    method ChangeStatus(id: Id) returns (r: Result<bool, Error>)
      requires Valid()
      modifies this`customizations
      ensures Valid()
      ensures id in old(customizations) ==> r == Success(true) && customizations == Deactivated(old(customizations), id)
      ensures id !in old(customizations) ==>
                r == Failure(NotFound(ProductCustomizationNotFound)) && customizations == old(customizations)
    {
      if id !in customizations {
        return Failure(NotFound(ProductCustomizationNotFound));
      }
      var c := customizations[id];
      c := c.(status := INACTIVE_STATUS);
      customizations := customizations[id := c];
      r := Success(true);
    }
  }

  /** What every list operation promises, given the number of records its
      count query finds: when either the page or the limit is missing, both
      fall back to page 1 and limit 10; a page below one or a limit below one
      fails with a 500 error; otherwise the result echoes the page and the
      limit, holds at most `limit` records, counts `ceil(count / limit)`
      pages, and is non-empty exactly when the page is one of them. */
  predicate ListOutcome(page: Option<Int32>, limit: Option<Int32>, count: nat, r: Result<PagingModel<ProductCustomization>, Error>)
  {
    var p := if page.Some? && limit.Some? then page.value else DEFAULT_PAGE;
    var l := if page.Some? && limit.Some? then limit.value else DEFAULT_LIMIT;
    && (r.Success? <==> p >= 1 && l >= 1)
    && (r.Failure? ==>
          r.error == Internal(PageRequestRejected(if p < 1 then PageIndexNegative else PageSizeNotPositive)))
    && (r.Success? ==>
          && r.value.page == p && r.value.limit == l
          && r.value.totalPage == CeilDiv(count, l)
          && |r.value.listResult| <= l
          && (|r.value.listResult| > 0 <==> p <= r.value.totalPage))
  }

  /** A list operation that resolved its paging, selected `list` and counted
      `count` records keeps the promise `ListOutcome` makes. */
  lemma ListOutcomeSuccess(page: Option<Int32>, limit: Option<Int32>, p: Int32, l: Int32, count: nat,
                           list: seq<ProductCustomization>)
    requires page.None? || limit.None? ==> p == DEFAULT_PAGE && l == DEFAULT_LIMIT
    requires page.Some? && limit.Some? ==> p == page.value && l == limit.value
    requires p >= 1 && l >= 1
    requires |list| <= l
    requires |list| > 0 <==> p - 1 < CeilDiv(count, l)
    ensures ListOutcome(page, limit, count, Success(PagingModel(p, l, CeilDiv(count, l), list)))
  {
  }

  /** The rows of the store that satisfy `cond`, newest first, on the page
      that the 1-based page number `page` of `limit` rows picks. */
  function RequestedRows(store: map<Id, ProductCustomization>, cond: ProductCustomization -> bool, page: int, limit: int)
    : seq<ProductCustomization>
    requires page >= 1 && limit >= 1
  {
    SelectPage(Rows(store), cond, CreatedDateOf, Pageable(page - 1, limit)).content
  }

  /** What every list operation returns on success: the rows of the store
      that satisfy the operation's condition, newest first, on the page the
      result's page number and limit pick. */
  predicate ListedFrom(store: map<Id, ProductCustomization>, cond: ProductCustomization -> bool,
                       r: Result<PagingModel<ProductCustomization>, Error>)
  {
    r.Success? ==>
      && r.value.page >= 1 && r.value.limit >= 1
      && r.value.listResult == RequestedRows(store, cond, r.value.page, r.value.limit)
  }

  /** A list operation whose page request was rejected keeps the promise
      `ListOutcome` makes. */
  lemma ListOutcomeFailure(page: Option<Int32>, limit: Option<Int32>, p: Int32, l: Int32, count: nat,
                           reason: PageRequestError)
    requires page.None? || limit.None? ==> p == DEFAULT_PAGE && l == DEFAULT_LIMIT
    requires page.Some? && limit.Some? ==> p == page.value && l == limit.value
    requires !(p >= 1 && l >= 1)
    requires reason == if p < 1 then PageIndexNegative else PageSizeNotPositive
    ensures ListOutcome(page, limit, count, Failure(Internal(PageRequestRejected(reason))))
  {
  }

  /** The scenario the service is built for: a customization created at
      price P against a product of final price F costs P + F; updating its
      price to Q stores exactly Q; deactivating it twice leaves it INACTIVE. */
  method CustomizationLifecycle()
  {
    var service := new ProductCustomizationServiceImpl(map[], map[7 := 1500], {3});
    var created := service.Create(AddRequest(7, 3, 42, ACTIVE_STATUS, "bag.png", "green", 250), "alice", 1);
    assert created.Success? && created.value.totalPrice == 1750;
    var id := created.value.id;
    var updated := service.Update(UpdateRequest(id, None, None, None, Some(900), None, None, None), "bob");
    assert updated.Success? && updated.value.totalPrice == 900 && updated.value.modifiedBy == Some("bob");
    var first := service.ChangeStatus(id);
    var afterFirst := service.customizations;
    var second := service.ChangeStatus(id);
    DeactivatedIdempotent(afterFirst, id);
    assert first == second == Success(true);
    assert service.customizations == afterFirst;
    var found := service.FindById(id);
    assert found.Success? && found.value.status == INACTIVE_STATUS;
    var missing := service.ChangeStatus(id + 1);
    assert missing == Failure(NotFound(ProductCustomizationNotFound));
  }
}
