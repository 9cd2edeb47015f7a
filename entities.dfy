/** The persisted records: products, orders, and an order joined with its product.
    Timestamps are opaque instants supplied by the caller; prices are whole cents. */
module Entities {
  import opened Wrappers

  /** An instant as returned by the clock; the model never inspects it. */
  type Timestamp = int

  datatype Product = Product(id: int, name: string, description: Option<string>)

  /** A stored order row: `productId` is the foreign key to the product table,
      `price` is the DECIMAL(10,2) column counted in cents. */
  datatype Order = Order(
    id: int,
    productId: int,
    quantity: int,
    price: int,
    createdAt: Timestamp,
    updatedAt: Timestamp)

  /** A transient order handed to `save`: it has no id and no timestamps yet. */
  datatype NewOrder = NewOrder(productId: int, quantity: int, price: int)

  /** An order whose product reference has been fetched in the same query. */
  datatype OrderWithProduct = OrderWithProduct(order: Order, product: Product)
}
