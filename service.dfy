/** The order service: the requested page is cut out of the full join-fetch listing in
    memory, and creation is handed straight to the repository. */
module Service {
  import opened Wrappers
  import opened Entities
  import opened Repository

  /** A page request: zero-based page number and page size. */
  datatype Pageable = PageRequest(pageNumber: nat, pageSize: nat)
  {
    /** The index of the page's first element. */
    function Offset(): nat
    {
      pageNumber * pageSize
    }
  }

  /** The number of pages needed for `total` elements: ceil(total / size), and 1 for the
      unpaged size 0. */
  function TotalPagesFor(total: nat, size: nat): nat
  {
    if size == 0 then 1 else (total + size - 1) / size
  }

  /** The page value handed back to the caller: its content, the request it answers and the
      total number of elements, with the derived navigation metadata. */
  datatype Page<T> = Page(content: seq<T>, pageable: Pageable, totalElements: nat)
  {
    function TotalPages(): nat
    {
      TotalPagesFor(totalElements, pageable.pageSize)
    }

    predicate IsFirst()
    {
      pageable.pageNumber == 0
    }

    predicate HasNext()
    {
      pageable.pageNumber + 1 < TotalPages()
    }

    predicate IsLast()
    {
      !HasNext()
    }
  }

  /** `subList(fromIndex, toIndex)` refuses a range whose start lies after its end. */
  datatype SubListError = FromIndexAfterToIndex(fromIndex: nat, toIndex: nat)

  /** The page that `getAllOrders` builds from the fetched listing `orders`:
      start = offset, end = min(start + size, n), content = orders.subList(start, end),
      total = n. */
  function PageOf<T>(orders: seq<T>, pageable: Pageable): (r: Result<Page<T>, SubListError>)
    requires pageable.pageSize >= 1
    ensures r.Success? <==> pageable.Offset() <= |orders|
    ensures r.Failure? ==> r.error.toIndex == |orders| < r.error.fromIndex == pageable.Offset()
  {
    var start := pageable.Offset();
    var end := Min(start + pageable.pageSize, |orders|);
    if start > end then Failure(FromIndexAfterToIndex(start, end))
    else Success(Page(orders[start..end], pageable, |orders|))
  }

  /** The content of a page, or nothing for a refused request. */
  function ContentOf<T>(r: Result<Page<T>, SubListError>): seq<T>
  {
    if r.Success? then r.value.content else []
  }

  /** Unfolds an in-range page: the listing's run from the offset to min(offset + size, n),
      in listing order, reporting the whole listing's size as its total. */
  lemma PageIsSlice<T>(orders: seq<T>, pageable: Pageable)
    requires pageable.pageSize >= 1 && pageable.Offset() <= |orders|
    ensures PageOf(orders, pageable).Success?
    ensures PageOf(orders, pageable).value.content ==
      orders[pageable.Offset()..Min(pageable.Offset() + pageable.pageSize, |orders|)]
    ensures PageOf(orders, pageable).value.totalElements == |orders|
    ensures PageOf(orders, pageable).value.pageable == pageable
  {
  }

  /** A page holds min(size, n - offset) elements, never more than the page size and none
      exactly when the offset is the listing's end; its i-th element is the listing's element
      at offset + i, and its total is the listing's size. */
  lemma PageContents<T>(orders: seq<T>, pageable: Pageable)
    requires pageable.pageSize >= 1
    ensures PageOf(orders, pageable).Success? ==>
      && |PageOf(orders, pageable).value.content| == Min(pageable.pageSize, |orders| - pageable.Offset())
      && |PageOf(orders, pageable).value.content| <= pageable.pageSize
      && (PageOf(orders, pageable).value.content == [] <==> pageable.Offset() == |orders|)
      && (forall i :: 0 <= i < |PageOf(orders, pageable).value.content| ==>
            PageOf(orders, pageable).value.content[i] == orders[pageable.Offset() + i])
      && PageOf(orders, pageable).value.totalElements == |orders|
  {
  }

  lemma {:induction false} MulMonotone(a: nat, b: nat, c: nat)
    requires a <= b
    ensures a * c <= b * c
    decreases b - a
  {
    if a < b {
      MulMonotone(a, b - 1, c);
      assert b * c == (b - 1) * c + c;
    }
  }

  /** k pages of `size` elements reach `n` exactly when k is at least ceil(n / size). */
  lemma CeilingDivision(n: nat, size: nat, k: nat)
    requires size >= 1
    ensures k >= TotalPagesFor(n, size) <==> k * size >= n
  {
    var q := (n + size - 1) / size;
    var r := (n + size - 1) % size;
    assert n + size - 1 == q * size + r && 0 <= r < size;
    if k >= q {
      MulMonotone(q, k, size);
    } else {
      MulMonotone(k + 1, q, size);
      assert (k + 1) * size == k * size + size;
    }
  }

  /** The reported metadata: the first page is page 0, and a page is the last one exactly
      when it reaches the end of the listing. */
  lemma FirstAndLast<T>(orders: seq<T>, pageable: Pageable)
    requires pageable.pageSize >= 1 && pageable.Offset() <= |orders|
    ensures PageOf(orders, pageable).value.IsFirst() <==> pageable.pageNumber == 0
    ensures PageOf(orders, pageable).value.IsLast() <==>
      pageable.Offset() + pageable.pageSize >= |orders|
  {
    var size := pageable.pageSize;
    CeilingDivision(|orders|, size, pageable.pageNumber + 1);
    assert (pageable.pageNumber + 1) * size == pageable.Offset() + size;
  }

  /** The contents of pages 0 .. count - 1, concatenated in page order. */
  function PagesUpTo<T>(orders: seq<T>, size: nat, count: nat): seq<T>
    requires size >= 1
  {
    if count == 0 then []
    else PagesUpTo(orders, size, count - 1) + ContentOf(PageOf(orders, PageRequest(count - 1, size)))
  }

  /** Consecutive pages abut: the first `count` pages together are the listing's prefix of
      length min(count * size, n). */
  lemma {:induction false} PagesUpToIsPrefix<T>(orders: seq<T>, size: nat, count: nat)
    requires size >= 1
    ensures PagesUpTo(orders, size, count) == orders[..Min(count * size, |orders|)]
  {
    if count > 0 {
      PagesUpToIsPrefix(orders, size, count - 1);
      var off := (count - 1) * size;
      assert count * size == off + size;
      assert PageRequest(count - 1, size).Offset() == off;
      if off <= |orders| {
        var end := Min(off + size, |orders|);
        assert ContentOf(PageOf(orders, PageRequest(count - 1, size))) == orders[off..end];
        assert orders[..off] + orders[off..end] == orders[..end];
      }
    }
  }

  /** All pages 0 .. totalPages - 1, concatenated in page order, reproduce the listing. */
  lemma PagesCoverListing<T>(orders: seq<T>, size: nat)
    requires size >= 1
    ensures PagesUpTo(orders, size, TotalPagesFor(|orders|, size)) == orders
  {
    var pages := TotalPagesFor(|orders|, size);
    CeilingDivision(|orders|, size, pages);
    PagesUpToIsPrefix(orders, size, pages);
    assert orders[..|orders|] == orders;
  }

  lemma LaterPageStartsAfter(i: nat, j: nat, size: nat)
    requires i < j
    ensures PageRequest(i, size).Offset() + size <= PageRequest(j, size).Offset()
  {
    assert j * size == i * size + size + (j - i - 1) * size;
    assert (j - i - 1) * size >= 0;
  }

  /** Over a listing without repeated elements, two different pages share no element. */
  lemma PagesDisjoint<T>(orders: seq<T>, size: nat, i: nat, j: nat)
    requires size >= 1 && i < j
    requires forall a, b :: 0 <= a < b < |orders| ==> orders[a] != orders[b]
    ensures forall x :: x in ContentOf(PageOf(orders, PageRequest(i, size))) ==>
      x !in ContentOf(PageOf(orders, PageRequest(j, size)))
  {
    var ci := ContentOf(PageOf(orders, PageRequest(i, size)));
    var cj := ContentOf(PageOf(orders, PageRequest(j, size)));
    var si, sj := PageRequest(i, size).Offset(), PageRequest(j, size).Offset();
    LaterPageStartsAfter(i, j, size);
    if sj <= |orders| {
      var ei := Min(si + size, |orders|);
      var ej := Min(sj + size, |orders|);
      PageIsSlice(orders, PageRequest(i, size));
      PageIsSlice(orders, PageRequest(j, size));
      assert ci == orders[si..ei] && cj == orders[sj..ej];
      forall x | x in ci ensures x !in cj {
        var a :| si <= a < ei && orders[a] == x;
        assert forall b :: sj <= b < ej ==> orders[b] != x;
      }
    } else {
      assert cj == [];
    }
  }

  /** Every element of the join-fetch listing is a different row, so its pages are disjoint. */
  lemma ListingHasNoRepeats(orders: map<int, Order>, products: map<int, Product>)
    requires WellKeyed(orders) && ProductsKeyed(products)
    ensures forall a, b :: 0 <= a < b < |OrdersWithProducts(orders, products)| ==>
      OrdersWithProducts(orders, products)[a] != OrdersWithProducts(orders, products)[b]
  {
    var r := OrdersWithProducts(orders, products);
    assert IdsDescending(r);
  }

  /** Fifteen orders in pages of ten: two pages, of ten and five, the first marked first and
      the second marked last. */
  lemma FifteenOrdersInPagesOfTen<T>(orders: seq<T>)
    requires |orders| == 15
    ensures PageOf(orders, PageRequest(0, 10)).Success?
    ensures PageOf(orders, PageRequest(1, 10)).Success?
    ensures |PageOf(orders, PageRequest(0, 10)).value.content| == 10
    ensures |PageOf(orders, PageRequest(1, 10)).value.content| == 5
    ensures PageOf(orders, PageRequest(0, 10)).value.totalElements == 15
    ensures PageOf(orders, PageRequest(0, 10)).value.TotalPages() == 2
    ensures PageOf(orders, PageRequest(0, 10)).value.IsFirst()
    ensures !PageOf(orders, PageRequest(0, 10)).value.IsLast()
    ensures PageOf(orders, PageRequest(1, 10)).value.IsLast()
  {
  }

  /** An empty listing gives an empty first page with no elements and no pages. */
  lemma EmptyListing<T>(orders: seq<T>, size: nat)
    requires |orders| == 0 && size >= 1
    ensures PageOf(orders, PageRequest(0, size)).Success?
    ensures PageOf(orders, PageRequest(0, size)).value.content == []
    ensures PageOf(orders, PageRequest(0, size)).value.totalElements == 0
    ensures PageOf(orders, PageRequest(0, size)).value.TotalPages() == 0
  {
  }

  /** The service over one repository. */
  class OrderServiceImpl {
    const orderRepository: OrderRepository

    constructor (orderRepository: OrderRepository)
      ensures this.orderRepository == orderRepository
    {
      this.orderRepository := orderRepository;
    }

    /** One join-fetch round trip, then the requested page of its result. */
    method GetAllOrders(pageable: Pageable) returns (r: Result<Page<OrderWithProduct>, SubListError>)
      requires orderRepository.Valid() && pageable.pageSize >= 1
      modifies orderRepository`roundTrips
      ensures orderRepository.Valid()
      ensures r == PageOf(OrdersWithProducts(orderRepository.orders, orderRepository.products), pageable)
      ensures orderRepository.roundTrips == old(orderRepository.roundTrips) + 1
    {
      var orders := orderRepository.FindAllOrdersWithProducts();
      r := PageOf(orders, pageable);
    }

    /** Passes the order to the repository's `save` unchanged. */
    method CreateOrder(order: NewOrder, now: Timestamp) returns (saved: Order)
      requires orderRepository.Valid()
      modifies orderRepository`orders, orderRepository`nextId, orderRepository`roundTrips
      ensures orderRepository.Valid()
      ensures saved.id == old(orderRepository.nextId) && saved.id > 0 && saved.id !in old(orderRepository.orders)
      ensures saved.productId == order.productId
      ensures saved.quantity == order.quantity && saved.price == order.price
      ensures saved.createdAt == now && saved.updatedAt == now
      ensures orderRepository.orders == old(orderRepository.orders)[saved.id := saved]
      ensures orderRepository.nextId == old(orderRepository.nextId) + 1
      ensures orderRepository.roundTrips == old(orderRepository.roundTrips) + 1
      ensures orderRepository.products == old(orderRepository.products)
    {
      saved := orderRepository.Save(order, now);
    }
  }

  /** Creating one order in an empty store and listing the first page of ten gives back
      exactly that order, under the id it was saved with, with its product loaded. */
  method CreateThenListFirstPage(product: Product, order: NewOrder, now: Timestamp)
    returns (saved: Order, page: Result<Page<OrderWithProduct>, SubListError>)
    requires order.productId == product.id
    ensures saved.id > 0 && saved.quantity == order.quantity && saved.price == order.price
    ensures page.Success?
    ensures page.value.content == [OrderWithProduct(saved, product)]
    ensures page.value.totalElements == 1
  {
    var repository := new OrderRepository(map[product.id := product]);
    var service := new OrderServiceImpl(repository);
    saved := service.CreateOrder(order, now);
    assert repository.orders == map[saved.id := saved];
    SingleOrderListing(saved, repository.products);
    page := service.GetAllOrders(PageRequest(0, 10));
  }
}
