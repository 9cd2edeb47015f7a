/** The order store and the semantics of its join-fetch query: every order together with
    its product (an inner join), each order once, newest id first. The store is abstract:
    an order table keyed by id and a product table keyed by id. */
module Repository {
  import opened Entities

  /** The primary-key discipline of the order table: each row is stored under its own id. */
  ghost predicate WellKeyed(orders: map<int, Order>)
  {
    forall k :: k in orders ==> orders[k].id == k
  }

  /** The primary-key discipline of the product table: each product is stored under its own
      id, so looking up a foreign key is the join condition product_id = id. */
  ghost predicate ProductsKeyed(products: map<int, Product>)
  {
    forall k :: k in products ==> products[k].id == k
  }

  predicate StrictlyDescending(ks: seq<int>)
  {
    forall i, j :: 0 <= i < j < |ks| ==> ks[i] > ks[j]
  }

  lemma NonEmptyHasMember(s: set<int>)
    requires s != {}
    ensures exists x :: x in s
  {
    if forall x :: x !in s {
      assert false;
    }
  }

  lemma SingletonMax(s: set<int>, x: int)
    requires x in s && s - {x} == {}
    ensures forall y :: y in s ==> y <= x
  {
    forall y | y in s ensures y <= x {
      assert y !in s - {x};
    }
  }

  lemma ExtendMax(s: set<int>, x: int, m: int)
    requires x in s && m in s - {x}
    requires forall y :: y in s - {x} ==> y <= m
    ensures forall y :: y in s ==> y <= (if x > m then x else m)
  {
    forall y | y in s ensures y <= (if x > m then x else m) {
      if y != x {
        assert y in s - {x};
      }
    }
  }

  lemma {:induction false} MaxExists(s: set<int>)
    requires s != {}
    ensures exists m :: m in s && forall y :: y in s ==> y <= m
  {
    NonEmptyHasMember(s);
    var x :| x in s;
    if s - {x} == {} {
      SingletonMax(s, x);
    } else {
      MaxExists(s - {x});
      var m :| m in s - {x} && forall y :: y in s - {x} ==> y <= m;
      ExtendMax(s, x, m);
      var top := if x > m then x else m;
      assert top in s;
    }
  }

  /** The largest id of a non-empty set of ids. */
  function MaxOf(s: set<int>): (m: int)
    requires s != {}
    ensures m in s && forall y :: y in s ==> y <= m
  {
    MaxExists(s);
    var m :| m in s && forall y :: y in s ==> y <= m;
    m
  }

  /** The ids of `s`, largest first (ORDER BY id DESC). */
  function SortDescending(s: set<int>): (ks: seq<int>)
    ensures |ks| == |s|
    ensures forall i :: 0 <= i < |ks| ==> ks[i] in s
    ensures forall k :: k in s ==> k in ks
    ensures StrictlyDescending(ks)
    decreases s
  {
    if s == {} then []
    else
      var m := MaxOf(s);
      var rest := SortDescending(s - {m});
      assert |s - {m}| == |s| - 1;
      assert forall i :: 0 <= i < |rest| ==> rest[i] < m;
      ConsDescending(m, rest);
      [m] + rest
  }

  lemma ConsDescending(m: int, rest: seq<int>)
    requires StrictlyDescending(rest)
    requires forall i :: 0 <= i < |rest| ==> rest[i] < m
    ensures StrictlyDescending([m] + rest)
  {
    var ks := [m] + rest;
    forall i, j | 0 <= i < j < |ks| ensures ks[i] > ks[j] {
      assert ks[j] == rest[j - 1];
      if i > 0 {
        assert ks[i] == rest[i - 1];
      }
    }
  }

  /** Pairs each id with its order row and that row's product. */
  function Join(ks: seq<int>, orders: map<int, Order>, products: map<int, Product>): (r: seq<OrderWithProduct>)
    requires forall i :: 0 <= i < |ks| ==> ks[i] in orders && orders[ks[i]].productId in products
    ensures |r| == |ks|
    ensures forall i :: 0 <= i < |ks| ==>
      r[i] == OrderWithProduct(orders[ks[i]], products[orders[ks[i]].productId])
  {
    if ks == [] then []
    else [OrderWithProduct(orders[ks[0]], products[orders[ks[0]].productId])] + Join(ks[1..], orders, products)
  }

  /** The ids the inner join keeps: orders whose product reference resolves. */
  function JoinedIds(orders: map<int, Order>, products: map<int, Product>): set<int>
  {
    set k | k in orders && orders[k].productId in products
  }

  /** ORDER BY o.id DESC over distinct orders: ids strictly decrease, so none repeats. */
  predicate IdsDescending(r: seq<OrderWithProduct>)
  {
    forall i, j :: 0 <= i < j < |r| ==> r[i].order.id > r[j].order.id
  }

  /** A row of the inner join: a stored order together with the product it references. */
  ghost predicate RowResolved(x: OrderWithProduct, orders: map<int, Order>, products: map<int, Product>)
  {
    && x.order.id in orders && orders[x.order.id] == x.order
    && x.order.productId in products && x.product == products[x.order.productId]
  }

  ghost predicate AllResolved(r: seq<OrderWithProduct>, orders: map<int, Order>, products: map<int, Product>)
  {
    forall i :: 0 <= i < |r| ==> RowResolved(r[i], orders, products)
  }

  /** Every stored order whose product resolves is among the rows. */
  ghost predicate Complete(r: seq<OrderWithProduct>, orders: map<int, Order>, products: map<int, Product>)
  {
    forall k :: k in orders && orders[k].productId in products ==>
      exists i :: 0 <= i < |r| && r[i].order.id == k
  }

  /** The position of `k` in `ks`. */
  function IndexIn(ks: seq<int>, k: int): (i: nat)
    requires k in ks
    ensures i < |ks| && ks[i] == k
  {
    if ks[0] == k then 0 else 1 + IndexIn(ks[1..], k)
  }

  lemma JoinOfSortedIds(ks: seq<int>, orders: map<int, Order>, products: map<int, Product>)
    requires WellKeyed(orders)
    requires StrictlyDescending(ks)
    requires forall i :: 0 <= i < |ks| ==> ks[i] in JoinedIds(orders, products)
    requires forall k :: k in JoinedIds(orders, products) ==> k in ks
    ensures forall i :: 0 <= i < |ks| ==> ks[i] in orders && orders[ks[i]].productId in products
    ensures IdsDescending(Join(ks, orders, products))
    ensures AllResolved(Join(ks, orders, products), orders, products)
    ensures Complete(Join(ks, orders, products), orders, products)
  {
    var ids := JoinedIds(orders, products);
    assert forall i :: 0 <= i < |ks| ==> ks[i] in orders && orders[ks[i]].productId in products;
    var r := Join(ks, orders, products);
    assert forall i :: 0 <= i < |r| ==> r[i].order.id == ks[i];
    forall k | k in orders && orders[k].productId in products
      ensures exists i :: 0 <= i < |r| && r[i].order.id == k
    {
      assert k in ids;
      var i := IndexIn(ks, k);
      assert r[i].order.id == k;
    }
  }

  /** The result of the join-fetch query on a given store. */
  function OrdersWithProducts(orders: map<int, Order>, products: map<int, Product>): (r: seq<OrderWithProduct>)
    requires WellKeyed(orders) && ProductsKeyed(products)
    ensures IdsDescending(r)
    ensures AllResolved(r, orders, products)
    // the join condition: each row's product has the id the order refers to
    ensures forall i :: 0 <= i < |r| ==> r[i].product.id == r[i].order.productId
    ensures Complete(r, orders, products)
  {
    var ks := SortDescending(JoinedIds(orders, products));
    JoinOfSortedIds(ks, orders, products);
    Join(ks, orders, products)
  }

  /** Two strictly descending id sequences with the same members are equal:
      the listing is fixed by the stored data alone, not by how rows are laid out. */
  lemma {:induction false} DescendingIsUnique(a: seq<int>, b: seq<int>)
    requires StrictlyDescending(a) && StrictlyDescending(b)
    requires forall k :: k in a <==> k in b
    ensures a == b
  {
    assert a != [] ==> a[0] in a && a[0] in b;
    assert b != [] ==> b[0] in b && b[0] in a;
    if a != [] && b != [] {
      var ja := IndexIn(b, a[0]);
      var jb := IndexIn(a, b[0]);
      assert b[0] >= b[ja];
      assert a[0] >= a[jb];
      forall k ensures k in a[1..] <==> k in b[1..] {
        if k in a[1..] {
          var j := IndexIn(a[1..], k);
          assert a[0] > a[1..][j];
          assert k in b && k != b[0];
          var h := IndexIn(b, k);
          assert b[1..][h - 1] == k;
        }
        if k in b[1..] {
          var j := IndexIn(b[1..], k);
          assert b[0] > b[1..][j];
          assert k in a && k != a[0];
          var h := IndexIn(a, k);
          assert a[1..][h - 1] == k;
        }
      }
      DescendingIsUnique(a[1..], b[1..]);
    }
  }

  function Ids(r: seq<OrderWithProduct>): (ids: seq<int>)
    ensures |ids| == |r| && forall i :: 0 <= i < |r| ==> ids[i] == r[i].order.id
  {
    seq(|r|, i requires 0 <= i < |r| => r[i].order.id)
  }

  lemma SameIdsSameRows(r: seq<OrderWithProduct>, q: seq<OrderWithProduct>, orders: map<int, Order>, products: map<int, Product>)
    requires AllResolved(r, orders, products) && AllResolved(q, orders, products)
    requires Ids(r) == Ids(q)
    ensures r == q
  {
    assert |r| == |Ids(r)| == |q|;
    forall i | 0 <= i < |r| ensures r[i] == q[i] {
      assert Ids(r)[i] == Ids(q)[i];
      assert RowResolved(r[i], orders, products) && RowResolved(q[i], orders, products);
    }
  }

  lemma SameMembers(r: seq<OrderWithProduct>, q: seq<OrderWithProduct>, orders: map<int, Order>, products: map<int, Product>)
    requires AllResolved(r, orders, products) && Complete(r, orders, products)
    requires AllResolved(q, orders, products) && Complete(q, orders, products)
    ensures forall k :: k in Ids(r) ==> k in Ids(q)
  {
    forall k | k in Ids(r) ensures k in Ids(q) {
      var i := IndexIn(Ids(r), k);
      assert RowResolved(r[i], orders, products);
      var j :| 0 <= j < |q| && q[j].order.id == k;
      assert Ids(q)[j] == k;
    }
  }

  /** Any listing that satisfies the query's contract (ids strictly descending, only joinable
      orders with their own row and product, all of them) is the one the query returns. */
  lemma ListingIsDetermined(orders: map<int, Order>, products: map<int, Product>, r: seq<OrderWithProduct>)
    requires WellKeyed(orders) && ProductsKeyed(products)
    requires IdsDescending(r) && AllResolved(r, orders, products) && Complete(r, orders, products)
    ensures r == OrdersWithProducts(orders, products)
  {
    var q := OrdersWithProducts(orders, products);
    SameMembers(r, q, orders, products);
    SameMembers(q, r, orders, products);
    DescendingIsUnique(Ids(r), Ids(q));
    SameIdsSameRows(r, q, orders, products);
  }

  /** A store holding one order lists exactly that order with its product when the
      product exists, and nothing when it does not (the join is an inner join). */
  lemma SingleOrderListing(o: Order, products: map<int, Product>)
    requires ProductsKeyed(products)
    ensures WellKeyed(map[o.id := o])
    ensures OrdersWithProducts(map[o.id := o], products) ==
      if o.productId in products then [OrderWithProduct(o, products[o.productId])] else []
  {
    var orders := map[o.id := o];
    var r: seq<OrderWithProduct> := if o.productId in products then [OrderWithProduct(o, products[o.productId])] else [];
    assert AllResolved(r, orders, products);
    assert Complete(r, orders, products) by {
      forall k | k in orders && orders[k].productId in products
        ensures exists i :: 0 <= i < |r| && r[i].order.id == k
      {
        assert k == o.id && r[0].order.id == k;
      }
    }
    ListingIsDetermined(orders, products, r);
  }

  /** In a listing that meets the query's contract, a resolvable order whose id bounds every
      stored id is the first row. */
  lemma HeadIsLargest(r: seq<OrderWithProduct>, orders: map<int, Order>, products: map<int, Product>, o: Order)
    requires IdsDescending(r) && AllResolved(r, orders, products) && Complete(r, orders, products)
    requires o.id in orders && orders[o.id] == o && o.productId in products
    requires forall k :: k in orders ==> k <= o.id
    ensures |r| > 0 && r[0] == OrderWithProduct(o, products[o.productId])
  {
    var i :| 0 <= i < |r| && r[i].order.id == o.id;
    assert r[0].order.id >= o.id by {
      assert i == 0 || r[0].order.id > r[i].order.id;
    }
    assert RowResolved(r[0], orders, products);
    assert r[0].order.id == o.id;
  }

  /** Newest first: an order whose id exceeds every stored id, as `save` issues it, heads
      the listing once its product resolves. */
  lemma NewestOrderFirst(orders: map<int, Order>, products: map<int, Product>, o: Order)
    requires WellKeyed(orders) && ProductsKeyed(products)
    requires forall k :: k in orders ==> k < o.id
    requires o.productId in products
    ensures WellKeyed(orders[o.id := o])
    ensures |OrdersWithProducts(orders[o.id := o], products)| > 0
    ensures OrdersWithProducts(orders[o.id := o], products)[0] == OrderWithProduct(o, products[o.productId])
  {
    var all := orders[o.id := o];
    assert forall k :: k in all ==> k <= o.id;
    assert WellKeyed(all);
    HeadIsLargest(OrdersWithProducts(all, products), all, products, o);
  }

  /** The order table, the product table, the id generator and an abstract count of the
      round trips issued to the database. */
  class OrderRepository {
    var orders: map<int, Order>
    var products: map<int, Product>
    var nextId: int
    var roundTrips: nat

    /** Keys are ids in both tables, and every stored id is positive and below the next one to be issued. */
    ghost predicate Valid()
      reads this
    {
      && nextId >= 1
      && WellKeyed(orders)
      && ProductsKeyed(products)
      && forall k :: k in orders ==> 1 <= k < nextId
    }

    /** An empty order table over pre-existing products. */
    constructor (products: map<int, Product>)
      requires ProductsKeyed(products)
      ensures Valid()
      ensures this.orders == map[] && this.products == products
      ensures this.nextId == 1 && this.roundTrips == 0
    {
      this.orders := map[];
      this.products := products;
      this.nextId := 1;
      this.roundTrips := 0;
    }

    /** The join-fetch query: one round trip, whatever the number of orders. */
    method FindAllOrdersWithProducts() returns (rows: seq<OrderWithProduct>)
      requires Valid()
      modifies this`roundTrips
      ensures Valid()
      ensures rows == OrdersWithProducts(orders, products)
      ensures roundTrips == old(roundTrips) + 1
    {
      rows := OrdersWithProducts(orders, products);
      roundTrips := roundTrips + 1;
    }

    /** Persists a transient order under a freshly generated id, stamping both timestamps
        with `now`; quantity, price and product reference are stored as given. */
    method Save(order: NewOrder, now: Timestamp) returns (saved: Order)
      requires Valid()
      modifies this`orders, this`nextId, this`roundTrips
      ensures Valid()
      ensures saved.id == old(nextId) && saved.id > 0 && saved.id !in old(orders)
      ensures saved.productId == order.productId
      ensures saved.quantity == order.quantity && saved.price == order.price
      ensures saved.createdAt == now && saved.updatedAt == now
      ensures orders == old(orders)[saved.id := saved]
      ensures nextId == old(nextId) + 1 && roundTrips == old(roundTrips) + 1
      ensures products == old(products)
    {
      saved := Order(nextId, order.productId, order.quantity, order.price, now, now);
      orders := orders[nextId := saved];
      nextId := nextId + 1;
      roundTrips := roundTrips + 1;
    }
  }
}
