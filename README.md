# Order listing with join fetch, in-memory pagination and error mapping

This project models the data-access core of a small order service. Each order references one product. The model covers three parts.

- **The repository query** `SELECT DISTINCT o FROM Order o JOIN FETCH o.product ORDER BY o.id DESC`. It is a pure function over an abstract store. The store has an order table and a product table, each holding every row under its own id. The result is an inner join: an order whose product does not resolve is dropped. No order appears twice, ids strictly decrease, and each row's product has the id its order refers to. The repository is a class. It holds the two tables, the id generator and an abstract count of database round trips. Listing costs one round trip, and `save` stores a transient order under a fresh positive id.
- **The service** `getAllOrders`. It fetches the whole listing once and cuts the page out in memory: `start = page * size`, `end = min(start + size, n)`, content `subList(start, end)`, total `n`. When `start > n`, `subList` refuses the range, so the model returns a failure rather than a page. `createOrder` hands the order to the repository unchanged.
- **The controller advice**. A not-found exception becomes status 404 with the exception's message and the error "Resource Not Found". Any other exception becomes status 500 with a fixed message and the exception's simple class name. In both cases the path is the request description after `replace("uri=", "")`. That rewrite is a single left-to-right pass. It is modelled twice, as a character-wise recursion and as the library's indexOf loop, and the two are proved equal.

Files:
- `wrappers.dfy`: Option, Result and Min.
- `entities.dfy`: Product, Order, the transient NewOrder, and OrderWithProduct.
- `repository.dfy`: the query semantics and the `OrderRepository` class.
- `service.dfy`: `PageOf`, the pagination lemmas and the `OrderServiceImpl` class.
- `exceptions.dfy`: the handlers and the `"uri="` rewrite.

The model follows the code in three places where one might expect otherwise:
- A page whose offset lies past the end of the listing is an error (the `subList` range check), not an empty page.
- "Last page" follows the page object's rule `pageNumber + 1 >= totalPages`. So a page that starts exactly at the end of a non-empty listing is also marked last, and `FirstAndLast` states that a page is last exactly when it reaches the end of the listing.
- `createOrder` checks neither the product, the quantity nor the price. It only saves.

## Model

| member | source | states |
|---|---|---|
| Repository.SortDescending | src/main/java/com/example/backendfix/repository/OrderRepository.java:33 | `ORDER BY o.id DESC`: the result holds exactly the given ids, each once, in strictly descending order |
| Repository.OrdersWithProducts | src/main/java/com/example/backendfix/repository/OrderRepository.java:29-33 | the join-fetch result: ids strictly descending (so DISTINCT holds), every row is a stored order paired with the product its foreign key resolves to, that product's id equals the order's product id, and every stored order whose product resolves is present |
| Repository.DescendingIsUnique | src/main/java/com/example/backendfix/repository/OrderRepository.java:33 | two strictly descending id sequences with the same members are equal, so the id order is total and fixes the listing |
| Repository.ListingIsDetermined | src/main/java/com/example/backendfix/repository/OrderRepository.java:16-33 | any sequence that meets the query's contract (descending ids, resolved rows, complete) is the query's result, so an unchanged store always gives the identical listing |
| Repository.NewestOrderFirst | src/main/java/com/example/backendfix/repository/OrderRepository.java:33 | newest first: an order whose id exceeds every stored id and whose product resolves is the first row of the listing |
| Repository.SingleOrderListing | src/main/java/com/example/backendfix/repository/OrderRepository.java:29-31 | inner join on a one-order store: the order with its product when the product exists, and nothing when it does not |
| Repository.OrderRepository.FindAllOrdersWithProducts | src/main/java/com/example/backendfix/repository/OrderRepository.java:19-34 | returns the join-fetch result of the current tables, keeps the table invariant, and costs exactly one round trip, whatever the number of orders |
| Repository.OrderRepository.Save | src/main/java/com/example/backendfix/service/impl/OrderServiceImpl.java:39 | stores the order under a fresh positive id that was not in use, keeps product reference, quantity and price, sets both timestamps, changes nothing else, and keeps the table invariant |
| Service.PageOf | src/main/java/com/example/backendfix/service/impl/OrderServiceImpl.java:27-34 | succeeds exactly when the offset is at most the listing size; otherwise fails with fromIndex = offset greater than toIndex = n |
| Service.PageContents | src/main/java/com/example/backendfix/service/impl/OrderServiceImpl.java:30-34 | an in-range page holds min(size, n - offset) elements, never more than the page size and none exactly when offset = n; its i-th element is the listing's element at offset + i; its total is n |
| Service.CeilingDivision | src/test/java/com/example/backendfix/service/OrderServiceTest.java:97 | k pages of the given size cover n elements exactly when k is at least totalPages = ceil(n / size) |
| Service.FirstAndLast | src/test/java/com/example/backendfix/service/OrderServiceTest.java:98-99 | a page is first exactly when it is page 0, and last exactly when offset + size reaches n |
| Service.PagesUpToIsPrefix | src/main/java/com/example/backendfix/service/impl/OrderServiceImpl.java:30-33 | the pages 0 .. count - 1 concatenated are the listing's prefix of length min(count * size, n), so consecutive pages abut |
| Service.PagesCoverListing | src/main/java/com/example/backendfix/service/impl/OrderServiceImpl.java:27-34 | all totalPages pages concatenated in index order reproduce the full listing |
| Service.PagesDisjoint | src/main/java/com/example/backendfix/service/impl/OrderServiceImpl.java:30-33 | over a listing without repeats, two different page indices share no element |
| Service.ListingHasNoRepeats | src/main/java/com/example/backendfix/repository/OrderRepository.java:33 | the join-fetch listing contains no row twice, so its pages are disjoint |
| Service.FifteenOrdersInPagesOfTen | src/test/java/com/example/backendfix/service/OrderServiceTest.java:76-99 | 15 elements in pages of 10: page 0 has 10 and page 1 has 5, total 15, 2 pages, page 0 first and not last, page 1 last |
| Service.EmptyListing | src/main/java/com/example/backendfix/service/impl/OrderServiceImpl.java:30-34 | an empty listing gives an empty page 0 with total 0 and 0 pages |
| Service.OrderServiceImpl.GetAllOrders | src/main/java/com/example/backendfix/service/impl/OrderServiceImpl.java:21-35 | the result is the page of the current join-fetch listing, obtained with exactly one round trip |
| Service.OrderServiceImpl.CreateOrder | src/main/java/com/example/backendfix/service/impl/OrderServiceImpl.java:38-40 | the same outcome as the repository's save: fresh positive id, quantity and price unchanged, only the new row added |
| Service.CreateThenListFirstPage | src/test/java/com/example/backendfix/service/OrderServiceTest.java:52-69 | after one create on an empty store, the first page of ten holds exactly the saved order, with the same id and its product loaded, and the total is 1 |
| Exceptions.RemoveMarker | src/main/java/com/example/backendfix/exception/GlobalExceptionHandler.java:28 | `replace("uri=", "")` never lengthens the description |
| Exceptions.IndexOfMarker | src/main/java/com/example/backendfix/exception/GlobalExceptionHandler.java:46 | `indexOf("uri=", from)`: the first match at or after `from`, with no match before it, or -1 when there is none |
| Exceptions.CopiesUpToFirstMatch | src/main/java/com/example/backendfix/exception/GlobalExceptionHandler.java:28 | the characters before the first match are copied through unchanged |
| Exceptions.NoMarkerUnchanged | src/main/java/com/example/backendfix/exception/GlobalExceptionHandler.java:46 | a description with no "uri=" is returned unchanged |
| Exceptions.MarkerShortens | src/main/java/com/example/backendfix/exception/GlobalExceptionHandler.java:28 | a description holding "uri=" comes back strictly shorter |
| Exceptions.UnchangedIffNoMarker | src/main/java/com/example/backendfix/exception/GlobalExceptionHandler.java:28 | the rewrite leaves the description unchanged exactly when it holds no "uri=" |
| Exceptions.MarkerInSuffix | src/main/java/com/example/backendfix/exception/GlobalExceptionHandler.java:46 | a match in a suffix is a match in the whole description, at a shifted position |
| Exceptions.ReplaceFromIsRemoveMarker | src/main/java/com/example/backendfix/exception/GlobalExceptionHandler.java:46 | from any start position, the indexOf-driven replacement loop equals the left-to-right removal of the rest |
| Exceptions.ReplaceIsRemoveMarker | src/main/java/com/example/backendfix/exception/GlobalExceptionHandler.java:28 | the library's replace loop and the recursive removal give the same path |
| Exceptions.DescriptionGivesUri | src/main/java/com/example/backendfix/exception/GlobalExceptionHandler.java:28 | a description "uri=" + u gives the path u when u holds no further "uri=" |
| Exceptions.NoEqualsNoMarker | src/main/java/com/example/backendfix/exception/GlobalExceptionHandler.java:46 | a description without '=' holds no match |
| Exceptions.OrdersPath | src/main/java/com/example/backendfix/exception/GlobalExceptionHandler.java:28 | "uri=/api/orders" becomes "/api/orders" |
| Exceptions.SinglePassIsNotIdempotent | src/main/java/com/example/backendfix/exception/GlobalExceptionHandler.java:46 | "uuri=ri=" becomes "uri=", and a second pass would change it again, so the rewrite is a single pass and not idempotent |
| Exceptions.Handle | src/main/java/com/example/backendfix/exception/GlobalExceptionHandler.java:16-49 | the body's status equals the response status; 404 exactly for a not-found exception, with its message and "Resource Not Found"; 500 for every other exception, with the fixed message and the simple class name; the timestamp is set; the path is the rewritten description |
| Exceptions.GlobalHandlerHidesMessage | src/main/java/com/example/backendfix/exception/GlobalExceptionHandler.java:41-47 | the 500 response does not depend on the exception's message, so the message is never exposed |
| Exceptions.NotFoundHandlerShowsMessage | src/main/java/com/example/backendfix/exception/GlobalExceptionHandler.java:23-29 | the 404 response always carries the message: different messages give different responses |

## Left out

- Spring and JPA machinery are not modelled: the real `JpaRepository.save`, Hibernate proxies and lazy loading, transactions and dependency injection. The store is two maps, an id counter and a round-trip counter.
- The database's execution of the query is not modelled. The claim that the join costs one round trip rests on the abstract counter, which `FindAllOrdersWithProducts` increments once.
- Only the page-object metadata that the tests read is modelled: content, request, total, total pages, first and last. Its internals are not shown. The page object adjusts the total only when the content is non-empty and the page overruns the total, and in that case the adjusted total equals `n`, so the model stores `n` directly.
- The `(int)` cast of the long offset and its overflow are not modelled; offsets are unbounded naturals.
- Prices are whole cents, not `BigDecimal` values.
- Timestamps come from the clock, so they enter as a `now` parameter. Logging (`log.warn`, `log.error`) is I/O and is omitted.
- The request description that Spring computes (`getDescription(false)`) enters as a string parameter.
- Input validation and product-existence checks on create are not modelled, because the code performs none. An order saved with an unknown product is stored but never listed.
- `save` with an order that already carries an id (a merge) is not modelled; the service is only given transient orders.
- Products are given when the repository is built. Creating or cascading products is not part of the core.
- A page request with size 0 is excluded by a precondition, because `PageRequest.of` refuses sizes below one.
- The failure returned for an offset past the end is not turned into the advice's response. The exception would be an `IllegalArgumentException` from `ArrayList.subList`, so the catch-all handler would answer 500. Its message text comes from the Java library and is not modelled.
- Subclasses of the not-found exception are represented by the single `ResourceNotFoundException` case.
- `OrderService.java` is an interface with no logic.
- The exception and error-response classes are not part of this model. They are represented by the `Exception` and `ErrorResponse` datatypes.
- Concurrency is not modelled: each call runs alone.
