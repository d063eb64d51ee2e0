/** The records and enumerations the restaurant app passes around
    (src/types/index.ts). Prices, images and map coordinates are not
    modelled; dates are instants given as integers. */
module Domain {
  import opened Wrappers

  datatype OrderStatus = Pending | InProgress | Ready | Served | Completed | Cancelled

  datatype OrderItemStatus = ItemPending | Preparing | ItemReady | ItemServed

  datatype TableStatus = Available | Occupied | Reserved | Dirty

  datatype MenuItem = MenuItem(id: string, name: string, category: string, preparationTime: int)

  /** One line of an order: a menu item and how many of it. */
  datatype OrderItem = OrderItem(menuItemId: string, name: string, quantity: int, status: OrderItemStatus)

  datatype Order = Order(
    id: string,
    tableNumber: int,
    items: seq<OrderItem>,
    status: OrderStatus,
    createdAt: int,
    updatedAt: int,
    waiterId: Option<string>,
    specialInstructions: Option<string>)

  /** What a caller hands to `addOrder`: an order without the id, the
      timestamps and the status, which `addOrder` fills in. */
  datatype OrderRequest = OrderRequest(
    tableNumber: int,
    items: seq<OrderItem>,
    waiterId: Option<string>,
    specialInstructions: Option<string>)

  datatype Waiter = Waiter(id: string, name: string, tables: seq<int>, currentOrders: seq<string>)

  /** An entry of the undo history. */
  datatype Change = Change(timestamp: int, orderId: string, previousStatus: OrderStatus, newStatus: OrderStatus)

  datatype RestaurantTable = RestaurantTable(id: int, seats: int, status: TableStatus, currentOrderId: Option<string>)
}
