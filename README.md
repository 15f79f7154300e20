# Kalban Green Bag: product customizations and order queries

A Dafny model of two parts of the Kalban Green Bag shop back end:

- **The product-customization service** (`ProductCustomizationServiceImpl`). It looks customizations up by id, lists them page by page (every record, the ACTIVE ones, one user's), creates a customization whose total price adds the product's final price, applies sparse updates where a null field means "leave it", and deactivates customizations. The service is a class whose field `customizations` is the store, a map from id to record. Its `create`, `update` and `changeStatus` methods change that field in place. Errors are `BaseException(code, message)` values: lookups fail with 404, while `create` and the list operations turn every failure into a 500.
- **The order repository** (`OrderRepository`). Each declared query is a function over the order table, which is kept as a sequence of rows: the paged finders, the user queries (all, ACTIVE, INACTIVE), the order-code finders and the `COUNT > 0` existence test. `updateTotalAmount` is a method of the class `OrderTable` that changes one column of the matching row in place.

Files and modules:

- `wrappers.dfy` (`Wrappers`): `Option` for Java's nullable references and `Result` for "a value or the exception thrown".
- `status.dfy` (`Status`): the status strings `ACTIVE` and `INACTIVE`.
- `query.dfy` (`Query`): generic storage-query semantics:
  - WHERE as `Filter` and COUNT as `Count`;
  - ORDER BY … DESC as a stable insertion sort;
  - LIMIT/OFFSET as `Slice`;
  - listing a map-kept table in ascending id order, and COUNT over such a table.
- `paging.dfy` (`Paging`): Java `int` arithmetic, Spring's `PageRequest.of`/`Pageable`/`Page`, the paging defaults, the page count `ceil(n / d)`, and the `PagingModel` envelope.
- `order_repository.dfy` (`OrderRepository`).
- `product_customization_service.dfy` (`ProductCustomizationService`).

Outside inputs become parameters:

- The acting username (`SecurityUtil.getCurrentUsername()`) is the parameter `currentUser`.
- The creation time the persistence layer stamps is the parameter `now`.
- The product and option repositories are the fields `productPrices` (product id to final price) and `optionIds`.

## Model

| member | source | states |
|---|---|---|
| Query.Filter | src/main/java/com/example/kalban_greenbag/repository/OrderRepository.java:24-31 | a WHERE clause keeps exactly the rows of the table that satisfy the condition, and never more rows than the table holds |
| Query.Count | src/main/java/com/example/kalban_greenbag/repository/OrderRepository.java:35-37 | a COUNT query never counts more rows than the table holds |
| Query.FilterCount | src/main/java/com/example/kalban_greenbag/repository/OrderRepository.java:24-31 | the list query and the COUNT query over the same condition agree on the number of rows |
| Query.CountPositiveIff | src/main/java/com/example/kalban_greenbag/repository/OrderRepository.java:35-37 | `COUNT(o) > 0` holds exactly when some row satisfies the condition |
| Query.CountDisjointBound | src/main/java/com/example/kalban_greenbag/repository/OrderRepository.java:24-31 | two conditions that exclude each other and each imply a third never count more rows together than the third |
| Query.SortDesc | src/main/java/com/example/kalban_greenbag/repository/OrderRepository.java:24 | ORDER BY … DESC returns a permutation of its rows, ordered by non-increasing key |
| Query.SelectOrdered | src/main/java/com/example/kalban_greenbag/repository/OrderRepository.java:24-31 | WHERE then ORDER BY … DESC holds exactly the matching rows, as many as COUNT finds, in non-increasing key order |
| Query.Slice | src/main/java/com/example/kalban_greenbag/service/impl/ProductCustomizationServiceImpl.java:70-72 | LIMIT/OFFSET: the rows at positions offset to offset + size of the ordered rows, as many as remain but at most size, and none once the offset is past the last row |
| Query.SliceSorted | src/main/java/com/example/kalban_greenbag/service/impl/ProductCustomizationServiceImpl.java:70-72 | a page cut out of ordered rows is itself ordered |
| Query.FreshKey | src/main/java/com/example/kalban_greenbag/service/impl/ProductCustomizationServiceImpl.java:146 | the id a newly saved record receives is used by no stored record |
| Query.Rows | src/main/java/com/example/kalban_greenbag/service/impl/ProductCustomizationServiceImpl.java:72 | scanning a map-kept table yields each stored record exactly once: as many rows as ids, and exactly the stored records |
| Query.CountWhere | src/main/java/com/example/kalban_greenbag/service/impl/ProductCustomizationServiceImpl.java:117-119 | COUNT over a map-kept table is the number of ids whose record matches, and equals the count over the scanned rows |
| Paging.Wrap32 | src/main/java/com/example/kalban_greenbag/service/impl/ProductCustomizationServiceImpl.java:70 | Java `int` arithmetic is the exact result brought back into 32 bits: congruent modulo 2^32, and unchanged when it fits |
| Paging.PageRequestOf | src/main/java/com/example/kalban_greenbag/service/impl/ProductCustomizationServiceImpl.java:70 | `PageRequest.of` accepts exactly an index of at least 0 and a size of at least 1, then keeps both; a rejection names the negative index first |
| Paging.PageIndex | src/main/java/com/example/kalban_greenbag/service/impl/ProductCustomizationServiceImpl.java:70 | the intended 0-based index of a 1-based page number is non-negative exactly for page numbers of at least one |
| Paging.PageIndexAsWritten | src/main/java/com/example/kalban_greenbag/service/impl/ProductCustomizationServiceImpl.java:70 | the source's 32-bit `page - 1` is non-negative for page numbers of at least one and also for page -2147483648, where it wraps |
| Paging.PageIndexAccepts | src/main/java/com/example/kalban_greenbag/service/impl/ProductCustomizationServiceImpl.java:70 | a page request for the 0-based index of a 1-based page number exists exactly when page and limit are at least one, and is then page `page - 1` of `limit` rows |
| Paging.PageIndexAsWrittenAgrees | src/main/java/com/example/kalban_greenbag/service/impl/ProductCustomizationServiceImpl.java:70 | for every page number above the smallest `int`, the source's wrapping `page - 1` is the intended index |
| Paging.PageIndexAsWrittenWraps | src/main/java/com/example/kalban_greenbag/service/impl/ProductCustomizationServiceImpl.java:70 | for page -2147483648, `page - 1` wraps to 2147483647, so the request is accepted; the intended index is rejected |
| Paging.ResolvePaging | src/main/java/com/example/kalban_greenbag/service/impl/ProductCustomizationServiceImpl.java:64-70 | a missing page or limit resets BOTH to 1 and 10, otherwise both are kept; the page request succeeds exactly for page ≥ 1 and limit ≥ 1, is then page `p - 1` of `l` rows, and otherwise names the failed check, the index first |
| Paging.CeilDiv | src/main/java/com/example/kalban_greenbag/service/impl/ProductCustomizationServiceImpl.java:78 | `(int) Math.ceil((double) n / limit)` is the least number of pages of `limit` rows that hold all `n` rows: they hold them all, and one page fewer would not |
| Paging.PageStartIff | src/main/java/com/example/kalban_greenbag/service/impl/ProductCustomizationServiceImpl.java:78 | page k starts before the last row exactly when k is below the page count |
| Paging.PageOf | src/main/java/com/example/kalban_greenbag/service/impl/ProductCustomizationServiceImpl.java:70-72 | a page holds at most `size` rows, each the row at offset `number * size + i` of the ordered rows |
| Paging.PageNonEmptyIff | src/main/java/com/example/kalban_greenbag/service/impl/ProductCustomizationServiceImpl.java:70-78 | a page holds rows exactly when its index is below the page count |
| Paging.PageFullBeforeLast | src/main/java/com/example/kalban_greenbag/service/impl/ProductCustomizationServiceImpl.java:70-78 | every page before the last non-empty one is full |
| Paging.RowOnPage | src/main/java/com/example/kalban_greenbag/service/impl/ProductCustomizationServiceImpl.java:70-72 | row i of the ordered rows is row `i % d` of page `i / d`: paging skips no row |
| Paging.SelectPage | src/main/java/com/example/kalban_greenbag/repository/OrderRepository.java:20-31 | a paged, ordered query returns the request it was given and the COUNT of matching rows, at most `size` matching rows in non-increasing key order, and rows exactly when the page index is below the page count |
| Paging.PagesCoverRows | src/main/java/com/example/kalban_greenbag/service/impl/ProductCustomizationServiceImpl.java:70-78 | every row of ordered rows is on one of the pages the page count announces |
| Paging.SelectPageCovers | src/main/java/com/example/kalban_greenbag/repository/OrderRepository.java:20-31 | every matching row is on one of the pages below the page count, whatever the page size |
| OrderRepository.FindAllByOrderByCreatedDateDesc | src/main/java/com/example/kalban_greenbag/repository/OrderRepository.java:20 | a page of orders, newest first, whose total is the number of all orders |
| OrderRepository.CountAll | src/main/java/com/example/kalban_greenbag/repository/OrderRepository.java:20 | the unconditional count is the number of orders |
| OrderRepository.FindAllByStatusOrderByCreatedDateDesc | src/main/java/com/example/kalban_greenbag/repository/OrderRepository.java:21 | at most `size` orders, only ones with that status, newest first |
| OrderRepository.FindByOrderCodePaged | src/main/java/com/example/kalban_greenbag/repository/OrderRepository.java:22 | every order on the page has the requested code; the total counts the orders with that code |
| OrderRepository.FindAllByUserIdAndStatusActive | src/main/java/com/example/kalban_greenbag/repository/OrderRepository.java:24-25 | only the user's ACTIVE orders, newest first, with their count as total |
| OrderRepository.FindAllByUserIdAndStatusInactive | src/main/java/com/example/kalban_greenbag/repository/OrderRepository.java:27-28 | only the user's INACTIVE orders, newest first, with their count as total |
| OrderRepository.FindAllByUserId | src/main/java/com/example/kalban_greenbag/repository/OrderRepository.java:30-31 | only the user's orders, newest first, with their count as total |
| OrderRepository.StatusQueriesWithinUserQuery | src/main/java/com/example/kalban_greenbag/repository/OrderRepository.java:24-31 | every order either status query returns is one of the user's orders, and the two status totals together never exceed the user's total |
| OrderRepository.UserActiveOrdersExact | src/main/java/com/example/kalban_greenbag/repository/OrderRepository.java:24-25 | paging through the query reaches an order exactly when it is one of the user's ACTIVE orders |
| OrderRepository.UserInactiveOrdersExact | src/main/java/com/example/kalban_greenbag/repository/OrderRepository.java:27-28 | paging through the query reaches an order exactly when it is one of the user's INACTIVE orders |
| OrderRepository.FindByOrderCode | src/main/java/com/example/kalban_greenbag/repository/OrderRepository.java:33 | no result exactly when no order has the code; the order itself exactly when one order has it; the non-unique-result error exactly when two or more do |
| OrderRepository.ExistsByUserIdAndStatus | src/main/java/com/example/kalban_greenbag/repository/OrderRepository.java:35-37 | true exactly when some order has that user and that status |
| OrderRepository.SetTotalAmount | src/main/java/com/example/kalban_greenbag/repository/OrderRepository.java:41 | on one row, the UPDATE writes the new amount exactly when the row's id is the order id, and keeps every other column |
| OrderRepository.WithTotalAmount | src/main/java/com/example/kalban_greenbag/repository/OrderRepository.java:39-42 | the table after the update has the same rows in the same order; the amount of each order with that id is the new one, and no other column of any order and no other order changes |
| OrderRepository.UpdateTotalAmountUnknownId | src/main/java/com/example/kalban_greenbag/repository/OrderRepository.java:41 | an id no order has leaves the table as it was |
| OrderRepository.UpdateTotalAmountIdempotent | src/main/java/com/example/kalban_greenbag/repository/OrderRepository.java:39-42 | repeating the update changes nothing more |
| OrderRepository.UpdateTotalAmountOneRow | src/main/java/com/example/kalban_greenbag/repository/OrderRepository.java:39-42 | with ids distinct (the primary key), updating an existing order changes exactly one row, the order's own, which gets the new amount |
| OrderRepository.UpdateTotalAmountKeepsExists | src/main/java/com/example/kalban_greenbag/repository/OrderRepository.java:35-42 | updating an amount does not change whether a user has orders of a status |
| OrderRepository.OrderTable.UpdateTotalAmount | src/main/java/com/example/kalban_greenbag/repository/OrderRepository.java:39-42 | the loop leaves the table equal to the specified update of the old table, and keeps ids distinct |
| ProductCustomizationService.FindAllByOrderByCreatedDateDesc | src/main/java/com/example/kalban_greenbag/service/impl/ProductCustomizationServiceImpl.java:72 | at most `size` stored records, newest first, non-empty exactly when the page index is below `ceil(count() / size)` |
| ProductCustomizationService.FindAllByStatusOrderByCreatedDateDesc | src/main/java/com/example/kalban_greenbag/service/impl/ProductCustomizationServiceImpl.java:102 | at most `size` stored records, only ones with the status, newest first, non-empty exactly when the page index is below `ceil(countByStatus / size)` |
| ProductCustomizationService.FindAllByUserIdOrderByCreatedDateDesc | src/main/java/com/example/kalban_greenbag/service/impl/ProductCustomizationServiceImpl.java:253 | at most `size` stored records, only the user's, newest first, non-empty exactly when the page index is below `ceil(countByUserId / size)` |
| ProductCustomizationService.CountByStatus | src/main/java/com/example/kalban_greenbag/service/impl/ProductCustomizationServiceImpl.java:117-119 | `countByStatus` is the number of ids stored with that status, and equals the count the listing pages through |
| ProductCustomizationService.CountByUserId | src/main/java/com/example/kalban_greenbag/service/impl/ProductCustomizationServiceImpl.java:260 | `countByUserId` is the number of the user's stored ids, and equals the count the listing pages through |
| ProductCustomizationService.CountAllRows | src/main/java/com/example/kalban_greenbag/service/impl/ProductCustomizationServiceImpl.java:87-89 | `count()` and the listing of all records agree on the number of records |
| ProductCustomizationService.Patch | src/main/java/com/example/kalban_greenbag/service/impl/ProductCustomizationServiceImpl.java:164-205 | each of status, imageURL, customValue, totalPrice, product, option and reason is overwritten exactly when the request supplies it; totalPrice is written as given; modifiedBy is the current user; id, userId, createdDate and createdBy keep their values |
| ProductCustomizationService.PatchIdempotent | src/main/java/com/example/kalban_greenbag/service/impl/ProductCustomizationServiceImpl.java:164-205 | applying the same update twice gives what applying it once gives |
| ProductCustomizationService.EmptyPatchOnlyStampsUser | src/main/java/com/example/kalban_greenbag/service/impl/ProductCustomizationServiceImpl.java:164-205 | an update that supplies no field changes only modifiedBy |
| ProductCustomizationService.Deactivated | src/main/java/com/example/kalban_greenbag/service/impl/ProductCustomizationServiceImpl.java:230-231 | the same ids stay stored; that record becomes INACTIVE with every other field kept; every other record is unchanged |
| ProductCustomizationService.DeactivatedIdempotent | src/main/java/com/example/kalban_greenbag/service/impl/ProductCustomizationServiceImpl.java:223-233 | deactivating twice leaves the state that deactivating once leaves |
| ProductCustomizationService.ProductCustomizationServiceImpl.TotalItems | src/main/java/com/example/kalban_greenbag/service/impl/ProductCustomizationServiceImpl.java:87-89 | the number of stored records, which is the number of rows the listing of all records pages through |
| ProductCustomizationService.ProductCustomizationServiceImpl.TotalActiveItems | src/main/java/com/example/kalban_greenbag/service/impl/ProductCustomizationServiceImpl.java:117-119 | the number of ids stored with status ACTIVE |
| ProductCustomizationService.ProductCustomizationServiceImpl.FindById | src/main/java/com/example/kalban_greenbag/service/impl/ProductCustomizationServiceImpl.java:46-58 | succeeds exactly for a stored id and then returns that record; otherwise fails with the 404 not-found error |
| ProductCustomizationService.ProductCustomizationServiceImpl.GetAll | src/main/java/com/example/kalban_greenbag/service/impl/ProductCustomizationServiceImpl.java:62-85 | the paging defaults, the 500 error for a rejected page request, the echoed page and limit, `totalPage = ceil(count() / limit)`, and on success exactly the requested page of all records, newest first |
| ProductCustomizationService.ProductCustomizationServiceImpl.FindAllByStatusTrue | src/main/java/com/example/kalban_greenbag/service/impl/ProductCustomizationServiceImpl.java:92-115 | as GetAll, with `totalPage = ceil(countByStatus(ACTIVE) / limit)` and exactly the requested page of the ACTIVE records, newest first |
| ProductCustomizationService.ProductCustomizationServiceImpl.GetProductCustomByUserId | src/main/java/com/example/kalban_greenbag/service/impl/ProductCustomizationServiceImpl.java:243-268 | as GetAll, with `totalPage = ceil(countByUserId / limit)` and exactly the requested page of the user's records, newest first |
| ProductCustomizationService.ProductCustomizationServiceImpl.Create | src/main/java/com/example/kalban_greenbag/service/impl/ProductCustomizationServiceImpl.java:122-152 | succeeds exactly when both product and option exist. Otherwise it fails with a 500 carrying the product's or the option's not-found message, product checked first, and stores nothing. On success the new record has a fresh id, totalPrice = requested price + product's final price, no reason, createdBy = current user, and the requested fields copied; it is stored and nothing else changes |
| ProductCustomizationService.ProductCustomizationServiceImpl.Update | src/main/java/com/example/kalban_greenbag/service/impl/ProductCustomizationServiceImpl.java:155-219 | an unknown id, then an unresolvable product, then an unresolvable option fail with their own 404 and store nothing; otherwise the stored record becomes `Patch` of the old one and no other record changes |
| ProductCustomizationService.ProductCustomizationServiceImpl.ChangeStatus | src/main/java/com/example/kalban_greenbag/service/impl/ProductCustomizationServiceImpl.java:223-240 | for a stored id it returns true and leaves `Deactivated` of the old store; for an unknown id it fails with the 404 and changes nothing |
| ProductCustomizationService.ListOutcomeSuccess | src/main/java/com/example/kalban_greenbag/service/impl/ProductCustomizationServiceImpl.java:64-81 | a list operation that resolved its paging and counted its rows returns what the paging rules promise |
| ProductCustomizationService.ListOutcomeFailure | src/main/java/com/example/kalban_greenbag/service/impl/ProductCustomizationServiceImpl.java:82-84 | a list operation whose page request was rejected fails with the 500 error that carries the reason |

## Left out

- Null fields in a create request are not modelled. The request's fields are plain values. A null `totalPrice` makes the source throw a NullPointerException, which it wraps into a 500.
- A null id in an update request is not modelled. The id is always present; in the source the null id would surface as a 500.
- `BigDecimal` amounts and prices are unbounded integers, in the currency's smallest unit. Scale and precision are not modelled.
- Counts are unbounded naturals. The source's `(int)` cast of a `long` count, and the `double` division behind `Math.ceil`, are modelled as exact integer ceiling division. The two agree for every count below 2^31.
- The mapping to response objects (ModelMapper) is the identity: a response is the stored record.
- Database-generated UUIDs are replaced by `Query.FreshKey`, which gives one more than the largest stored id. `createdDate` is the parameter `now`. JPA auditing of `modifiedDate` is not modelled.
- Spring Data leaves ties in `createdDate` unordered. The model breaks ties by table order: ascending id for the customization store, row order for the order table. Likewise `findByOrderCode(code, pageable)` has no ORDER BY and returns rows in table order.
- The values of `ConstStatus` and `ConstError` are not part of this model. The statuses are the strings the order queries spell out, `ACTIVE` and `INACTIVE`; the error messages are the constructors of `Message`.
- `BaseException` is modelled as a code and the message argument. Its third, descriptive argument is dropped.
- Exceptions that storage itself raises (connection loss, constraint violations) are not modelled. Every operation's failure cases are the ones its own code raises.
- Concurrency and transactions: concurrent `update`s or `changeStatus` calls, and the `@Transactional` boundary of `updateTotalAmount`, are not modelled.
- `ProductCustomizationRepository.java` declares ascending `…OrderByCreatedDate` finders and no `countByUserId`. The model follows the calls the service makes: descending order, and a count by user.
- Wrapping of not-found errors: `create` turns every failure into a 500 that carries the failure's message, the lookups' product and option not-found errors included. Unlike `findById`, `update` and `changeStatus`, it does not rethrow a 404 as it is.
- Paging.ResolvePaging: builds the page request from the intended index `page - 1` (`Paging.PageIndex`), not from the source's wrapping 32-bit `page - 1`. So for page -2147483648 it rejects the request, where the source accepts page 2147483647 (see Findings).
- ProductCustomizationService.ProductCustomizationServiceImpl.GetAll: follows the intended index, as `Paging.ResolvePaging` does. For page -2147483648 it fails with a 500, where the source builds an accepted request and returns the empty page 2147483647 with the echoed page, limit and page count.
- ProductCustomizationService.ProductCustomizationServiceImpl.FindAllByStatusTrue: follows the intended index, with the same difference at page -2147483648 as `GetAll`.
- ProductCustomizationService.ProductCustomizationServiceImpl.GetProductCustomByUserId: follows the intended index, with the same difference at page -2147483648 as `GetAll`.
- The controller, security configuration, order and user service interfaces, payment DTO and purchase-order entity are not part of this model: they hold routing, configuration, declarations or plain data, and no behaviour of the modelled core.

## Findings

| source | as written | input that shows it | evidently intended | confidence | as-written member | corrected member |
|---|---|---|---|---|---|---|
| src/main/java/com/example/kalban_greenbag/service/impl/ProductCustomizationServiceImpl.java:70 | `PageRequest.of(page - 1, limit)` computes `page - 1` in 32-bit `int`, which wraps | page = -2147483648, limit = 1: `page - 1` is 2147483647, and the request for page 2147483647 of one row is accepted, although the page number is below one | every page number below one is rejected with a 500 (so too at lines 100 and 251) | not executed | Paging.PageIndexAsWrittenWraps | Paging.PageIndexAccepts |
