/** The order lifecycle of the app's shared state
    (src/context/AppContext.tsx): new orders wait in a queue, move to the
    kitchen list and on to the served list, every status change is pushed
    on an undo stack, and waiters take orders in turn from a ring. */
module AppContext {
  import opened Wrappers
  import opened Sequences
  import opened Domain
  import opened Queues
  import opened Stacks
  import opened LinkedLists
  import opened DoublyLinkedLists
  import opened CircularLists
  import opened Stages

  /** `findIndex(order => order.id === id)`, as an index: the first order
      with that id, or `|os|` when there is none. */
  function IndexOfId(os: seq<Order>, id: string): (i: nat)
    ensures i <= |os|
    ensures i < |os| ==> os[i].id == id
    ensures forall j :: 0 <= j < i ==> os[j].id != id
  {
    if os == [] then 0
    else if os[0].id == id then 0
    else 1 + IndexOfId(os[1..], id)
  }

  /** No two orders share an id (ids come from `uuidv4`). */
  ghost predicate UniqueIds(os: seq<Order>)
  {
    forall i, j :: 0 <= i < j < |os| ==> os[i].id != os[j].id
  }

  /** The order `addOrder` builds from a request (src/context/AppContext.tsx:200-206). */
  function NewOrder(req: OrderRequest, id: string, now: int): Order
  {
    Order(id, req.tableNumber, req.items, Pending, now, now, req.waiterId, req.specialInstructions)
  }

  /** `prevOrders.map(order => order.id === id ? o : order)`. */
  function Replaced(os: seq<Order>, id: string, o: Order): seq<Order>
  {
    seq(|os|, i requires 0 <= i < |os| => if os[i].id == id then o else os[i])
  }

  /** Every order with that id gets status `s` and `updatedAt` `now`. */
  function SetStatus(os: seq<Order>, id: string, s: OrderStatus, now: int): seq<Order>
  {
    seq(|os|, i requires 0 <= i < |os| => if os[i].id == id then os[i].(status := s, updatedAt := now) else os[i])
  }

  /** Every order with that id gets waiter `w` and `updatedAt` `now`. */
  function SetWaiter(os: seq<Order>, id: string, w: string, now: int): seq<Order>
  {
    seq(|os|, i requires 0 <= i < |os| => if os[i].id == id then os[i].(waiterId := Some(w), updatedAt := now) else os[i])
  }

  /** The change records `updateOrderStatus` pushes, one per order with
      that id, in the order of `os`, each carrying that order's status. */
  function ChangesFor(os: seq<Order>, id: string, s: OrderStatus, now: int): seq<Change>
  {
    if os == [] then []
    else
      var last := os[|os| - 1];
      ChangesFor(os[..|os| - 1], id, s, now) + (if last.id == id then [Change(now, id, last.status, s)] else [])
  }

  /** `addOrder`'s table update: the table numbered like the order becomes
      occupied by it. */
  function Occupy(tables: seq<RestaurantTable>, n: int, orderId: string): seq<RestaurantTable>
  {
    seq(|tables|, i requires 0 <= i < |tables| =>
      if tables[i].id == n then tables[i].(status := Occupied, currentOrderId := Some(orderId)) else tables[i])
  }

  /** `assignWaiterToOrder`'s waiter update: the order id is appended to the
      current orders of the waiter with id `w`. */
  function WithCurrentOrder(waiters: seq<Waiter>, w: string, orderId: string): seq<Waiter>
  {
    seq(|waiters|, i requires 0 <= i < |waiters| =>
      if waiters[i].id == w then waiters[i].(currentOrders := waiters[i].currentOrders + [orderId]) else waiters[i])
  }

  /** The queue after `moveOrderToKitchen` takes out position `i`: the
      orders behind it, then the ones that were ahead of it. */
  function Requeued(q: seq<Order>, i: nat): seq<Order>
    requires i < |q|
  {
    q[i + 1..] + q[..i]
  }

  /** Requeueing loses exactly the target order and keeps all the others. */
  lemma {:induction false} RequeuedFacts(q: seq<Order>, i: nat)
    requires i < |q|
    ensures |Requeued(q, i)| == |q| - 1
    ensures multiset(Requeued(q, i)) == multiset(q) - multiset{q[i]}
  {
    assert q == q[..i] + [q[i]] + q[i + 1..];
  }

  /** The order found by id is also the first one equal to it (an earlier
      equal order would carry the same id), so removing it by value removes
      exactly that position. */
  lemma {:induction false} RemoveFoundOrder(s: seq<Order>, id: string)
    requires IndexOfId(s, id) < |s|
    ensures var i := IndexOfId(s, id);
      RemoveFirst(s, s[i]) == s[..i] + s[i + 1..]
  {
    var i := IndexOfId(s, id);
    assert forall j :: 0 <= j < i ==> s[j] != s[i];
  }

  /** No order with that id: no change records. */
  lemma {:induction false} ChangesForNone(os: seq<Order>, id: string, s: OrderStatus, now: int)
    requires forall j :: 0 <= j < |os| ==> os[j].id != id
    ensures ChangesFor(os, id, s, now) == []
  {
    if os != [] {
      ChangesForNone(os[..|os| - 1], id, s, now);
    }
  }

  /** Exactly one order with that id: exactly one record, carrying its
      status before the change. */
  lemma {:induction false} ChangesForOne(os: seq<Order>, id: string, s: OrderStatus, now: int, k: nat)
    requires UniqueIds(os) && k < |os| && os[k].id == id
    ensures ChangesFor(os, id, s, now) == [Change(now, id, os[k].status, s)]
  {
    var init := os[..|os| - 1];
    if k == |os| - 1 {
      ChangesForNone(init, id, s, now);
    } else {
      assert UniqueIds(init);
      assert init[k] == os[k];
      ChangesForOne(init, id, s, now, k);
    }
  }

  /** `updateOrderStatus` followed by `undoLastChange`, on orders with unique
      ids: every order is as it was except that the changed one carries the
      later `updatedAt`. */
  lemma {:induction false} UndoRestoresStatus(os: seq<Order>, id: string, s: OrderStatus, t1: int, t2: int, k: nat)
    requires UniqueIds(os) && k < |os| && os[k].id == id
    ensures var c := ChangesFor(os, id, s, t1);
      && |c| == 1
      && var r := SetStatus(SetStatus(os, id, s, t1), c[0].orderId, c[0].previousStatus, t2);
      && |r| == |os|
      && r[k] == os[k].(updatedAt := t2)
      && (forall j :: 0 <= j < |os| && j != k ==> r[j] == os[j])
  {
    ChangesForOne(os, id, s, t1, k);
  }

  /** The `forEach` that adds each waiter to the ring. */
  method SeededRing(ws: seq<Waiter>) returns (ring: CircularDoublyLinkedList<Waiter>)
    ensures ring.Valid() && fresh(ring.Repr) && ring.Contents == ws
  {
    ring := new CircularDoublyLinkedList<Waiter>();
    var i := 0;
    while i < |ws|
      invariant 0 <= i <= |ws|
      invariant ring.Valid() && fresh(ring.Repr) && ring.Contents == ws[..i]
    {
      ring.Add(ws[i]);
      i := i + 1;
    }
    assert ws[..i] == ws;
  }

  /** The shared state of the app: the arrays the React state holds and the
      container instances the actions mutate. */
  class AppState {
    var orders: seq<Order>
    var waiters: seq<Waiter>
    var tables: seq<RestaurantTable>
    const pendingOrdersQueue: Queue<Order>
    const kitchenOrdersList: LinkedList<Order>
    const servedOrdersList: DoublyLinkedList<Order>
    const waitersRotation: CircularDoublyLinkedList<Waiter>
    const changesStack: Stack<Change>

    /** The containers are sound and share no objects, and each stage holds
        only orders of its status: pending in the queue, in progress in the
        kitchen list, served in the served list. */
    ghost predicate Valid()
      reads pendingOrdersQueue
      reads kitchenOrdersList, kitchenOrdersList.Repr, servedOrdersList, servedOrdersList.Repr
      reads waitersRotation, waitersRotation.Repr
    {
      && kitchenOrdersList.Valid() && servedOrdersList.Valid() && waitersRotation.Valid()
      && Separate(kitchenOrdersList.Repr, servedOrdersList.Repr, waitersRotation.Repr,
                  this, pendingOrdersQueue, changesStack)
      && Staged(pendingOrdersQueue.items, kitchenOrdersList.Contents, servedOrdersList.Contents)
    }

    /** The provider's initial state, with the waiters added to the ring in
        roster order (src/context/AppContext.tsx:58-79). */
    constructor (initialWaiters: seq<Waiter>, initialTables: seq<RestaurantTable>)
      ensures Valid()
      ensures orders == [] && waiters == initialWaiters && tables == initialTables
      ensures pendingOrdersQueue.items == [] && kitchenOrdersList.Contents == [] && servedOrdersList.Contents == []
      ensures changesStack.items == [] && waitersRotation.Contents == initialWaiters
      ensures fresh(pendingOrdersQueue) && fresh(changesStack)
      ensures fresh(kitchenOrdersList.Repr) && fresh(servedOrdersList.Repr) && fresh(waitersRotation.Repr)
    {
      var queue := new Queue<Order>();
      var kitchen := new LinkedList<Order>();
      var served := new DoublyLinkedList<Order>();
      var changes := new Stack<Change>();
      var ring := SeededRing(initialWaiters);
      orders, waiters, tables := [], initialWaiters, initialTables;
      pendingOrdersQueue, kitchenOrdersList, servedOrdersList := queue, kitchen, served;
      waitersRotation, changesStack := ring, changes;
    }

    // The single steps the actions are built from. Each keeps `Valid()`,
    // so an action chains them without re-establishing the containers'
    // invariants after every step.

    /** React's `setOrders`: the orders array is replaced. */
    method SetOrders(os: seq<Order>)
      requires Valid()
      modifies this
      ensures Valid() && orders == os
      ensures waiters == old(waiters) && tables == old(tables)
    {
      orders := os;
    }

    /** React's `setWaiters`. */
    method SetWaiters(ws: seq<Waiter>)
      requires Valid()
      modifies this
      ensures Valid() && waiters == ws
      ensures orders == old(orders) && tables == old(tables)
    {
      waiters := ws;
    }

    /** React's `setTables`. */
    method SetTables(ts: seq<RestaurantTable>)
      requires Valid()
      modifies this
      ensures Valid() && tables == ts
      ensures orders == old(orders) && waiters == old(waiters)
    {
      tables := ts;
    }

    /** `pendingOrdersQueue.enqueue` of a pending order. */
    method QueueOrder(o: Order)
      requires Valid() && o.status == Pending
      modifies pendingOrdersQueue
      ensures Valid() && pendingOrdersQueue.items == old(pendingOrdersQueue.items) + [o]
    {
      pendingOrdersQueue.Enqueue(o);
    }

    /** The dequeue-and-requeue of `moveOrderToKitchen`
        (src/context/AppContext.tsx:232-243): dequeue the `index` orders
        ahead of the target, dequeue the target, enqueue the others again. */
    method TakeFromQueue(index: nat) returns (target: Option<Order>)
      requires Valid() && index < |pendingOrdersQueue.items|
      modifies pendingOrdersQueue
      ensures Valid()
      ensures target == Some(old(pendingOrdersQueue.items)[index])
      ensures pendingOrdersQueue.items == Requeued(old(pendingOrdersQueue.items), index)
    {
      target := TakeOut(pendingOrdersQueue, index);
    }

    /** The body of `TakeFromQueue` on the queue alone: the requeued queue
        holds only orders it held before. */
    static method TakeOut(queue: Queue<Order>, index: nat) returns (target: Option<Order>)
      requires index < |queue.items|
      modifies queue
      ensures target == Some(old(queue.items)[index])
      ensures queue.items == Requeued(old(queue.items), index)
      ensures forall o :: o in queue.items ==> o in old(queue.items)
    {
      ghost var q := queue.items;
      var tempQueue := DequeueAhead(queue, index);
      target := queue.Dequeue();
      EnqueueAll(queue, tempQueue);
      RequeuedFacts(q, index);
      forall o | o in queue.items
        ensures o in q
      {
        assert o in multiset(queue.items);
      }
    }

    /** The first loop of `moveOrderToKitchen`: the `count` orders at the
        front of the queue, dequeued in order. */
    static method DequeueAhead(queue: Queue<Order>, count: nat) returns (ahead: seq<Order>)
      requires count <= |queue.items|
      modifies queue
      ensures ahead == old(queue.items)[..count]
      ensures queue.items == old(queue.items)[count..]
    {
      ahead := [];
      var i := 0;
      while i < count
        invariant 0 <= i <= count
        invariant queue.items == old(queue.items)[i..]
        invariant ahead == old(queue.items)[..i]
      {
        var order := queue.Dequeue();
        if order.Some? {
          ahead := ahead + [order.value];
        }
        i := i + 1;
      }
    }

    /** The `forEach` that requeues: every order of `os` is enqueued, in order. */
    static method EnqueueAll(queue: Queue<Order>, os: seq<Order>)
      modifies queue
      ensures queue.items == old(queue.items) + os
    {
      var j := 0;
      while j < |os|
        invariant 0 <= j <= |os|
        invariant queue.items == old(queue.items) + os[..j]
      {
        queue.Enqueue(os[j]);
        j := j + 1;
      }
      assert os[..j] == os;
    }

    /** `kitchenOrdersList.append` of an order in progress. */
    method AppendToKitchen(o: Order)
      requires Valid() && o.status == InProgress
      modifies kitchenOrdersList.Repr
      ensures Valid() && kitchenOrdersList.Contents == old(kitchenOrdersList.Contents) + [o]
      ensures unchanged(this, pendingOrdersQueue, changesStack, servedOrdersList)
    {
      kitchenOrdersList.Append(o);
    }

    /** `kitchenOrdersList.remove`: the first equal order leaves the list. */
    method RemoveFromKitchen(o: Order)
      requires Valid()
      modifies kitchenOrdersList.Repr
      ensures Valid() && kitchenOrdersList.Contents == RemoveFirst(old(kitchenOrdersList.Contents), o)
      ensures unchanged(this, pendingOrdersQueue, changesStack, servedOrdersList)
    {
      Unlist(kitchenOrdersList, o);
    }

    /** The body of `RemoveFromKitchen` on the list alone: what is left is
        a sub-collection of what was there. */
    static method Unlist(list: LinkedList<Order>, o: Order)
      requires list.Valid()
      modifies list.Repr
      ensures list.Valid() && list.Repr <= old(list.Repr)
      ensures list.Contents == RemoveFirst(old(list.Contents), o)
      ensures forall x :: x in list.Contents ==> x in old(list.Contents)
    {
      ghost var k := list.Contents;
      var _ := list.Remove(o);
      RemoveFirstFacts(k, o);
      forall x | x in list.Contents
        ensures x in k
      {
        assert x in multiset(list.Contents);
      }
    }

    /** `servedOrdersList.append` of a served order. */
    method AppendToServed(o: Order)
      requires Valid() && o.status == Served
      modifies servedOrdersList.Repr
      ensures Valid() && servedOrdersList.Contents == old(servedOrdersList.Contents) + [o]
      ensures unchanged(this, pendingOrdersQueue, changesStack, kitchenOrdersList)
    {
      servedOrdersList.Append(o);
    }

    /** `changesStack.push`. */
    method Record(c: Change)
      requires Valid()
      modifies changesStack
      ensures Valid() && changesStack.items == old(changesStack.items) + [c]
    {
      changesStack.Push(c);
    }

    /** `addOrder` (src/context/AppContext.tsx:199-222): the new pending
        order joins the back of the queue and the end of `orders`, and its
        table becomes occupied by it. */
    method AddOrder(req: OrderRequest, id: string, now: int)
      requires Valid()
      modifies this, pendingOrdersQueue
      ensures Valid()
      ensures pendingOrdersQueue.items == old(pendingOrdersQueue.items) + [NewOrder(req, id, now)]
      ensures orders == old(orders) + [NewOrder(req, id, now)]
      ensures tables == Occupy(old(tables), req.tableNumber, id)
      ensures waiters == old(waiters)
    {
      var newOrder := NewOrder(req, id, now);
      QueueOrder(newOrder);
      SetOrders(orders + [newOrder]);
      SetTables(Occupy(tables, newOrder.tableNumber, newOrder.id));
    }

    /** `moveOrderToKitchen` (src/context/AppContext.tsx:224-274). An id
        that is not queued changes nothing. Otherwise the queue is dequeued
        up to the target and the orders ahead of it are enqueued again
        behind the rest; the target goes to the kitchen list as in progress,
        a record with the fixed previous status `Pending` is pushed (the
        queued copy is always pending, whatever `orders` says about it),
        and `orders` takes the moved copy. */
    method MoveOrderToKitchen(orderId: string, now: int)
      requires Valid()
      modifies this, pendingOrdersQueue, kitchenOrdersList.Repr, changesStack
      ensures Valid()
      ensures var q := old(pendingOrdersQueue.items);
        var i := IndexOfId(q, orderId);
        if i == |q| then
          && pendingOrdersQueue.items == q && kitchenOrdersList.Contents == old(kitchenOrdersList.Contents)
          && changesStack.items == old(changesStack.items) && orders == old(orders)
        else
          var moved := q[i].(status := InProgress, updatedAt := now);
          && pendingOrdersQueue.items == Requeued(q, i)
          && kitchenOrdersList.Contents == old(kitchenOrdersList.Contents) + [moved]
          && q[i].status == Pending
          && changesStack.items == old(changesStack.items) + [Change(now, orderId, Pending, InProgress)]
          && orders == Replaced(old(orders), orderId, moved)
      ensures waiters == old(waiters) && tables == old(tables)
    {
      var pendingOrders := pendingOrdersQueue.GetAll();
      var orderIndex := IndexOfId(pendingOrders, orderId);
      if orderIndex == |pendingOrders| {
        return;
      }
      var currentOrder := TakeFromQueue(orderIndex);
      // The source returns here when nothing was dequeued; the target was
      // in the queue, so something always is.
      var updatedOrder := currentOrder.value.(status := InProgress, updatedAt := now);
      AppendToKitchen(updatedOrder);
      Record(Change(now, updatedOrder.id, Pending, InProgress));
      SetOrders(Replaced(orders, orderId, updatedOrder));
    }

    /** `moveOrderToServed` (src/context/AppContext.tsx:276-313). An id not
        in the kitchen list changes nothing. Otherwise that order leaves the
        kitchen list, a served copy joins the served list, a record with the
        fixed previous status `InProgress` is pushed (the kitchen copy is
        always in progress), and `orders` takes the served copy. The list's
        `remove` works by value; `RemoveFoundOrder` shows that it takes out
        exactly the position `findIndex` found. */
    method MoveOrderToServed(orderId: string, now: int)
      requires Valid()
      modifies this, kitchenOrdersList.Repr, servedOrdersList.Repr, changesStack
      ensures Valid()
      ensures var k := old(kitchenOrdersList.Contents);
        var i := IndexOfId(k, orderId);
        if i == |k| then
          && kitchenOrdersList.Contents == k && servedOrdersList.Contents == old(servedOrdersList.Contents)
          && changesStack.items == old(changesStack.items) && orders == old(orders)
        else
          var done := k[i].(status := Served, updatedAt := now);
          && kitchenOrdersList.Contents == RemoveFirst(k, k[i])
          && servedOrdersList.Contents == old(servedOrdersList.Contents) + [done]
          && k[i].status == InProgress
          && changesStack.items == old(changesStack.items) + [Change(now, orderId, InProgress, Served)]
          && orders == Replaced(old(orders), orderId, done)
      ensures waiters == old(waiters) && tables == old(tables)
      ensures pendingOrdersQueue.items == old(pendingOrdersQueue.items)
    {
      var kitchenOrders := kitchenOrdersList.ToArray();
      var i := IndexOfId(kitchenOrders, orderId);
      if i == |kitchenOrders| {
        return;
      }
      var order := kitchenOrders[i];
      RemoveFromKitchen(order);
      var updatedOrder := order.(status := Served, updatedAt := now);
      AppendToServed(updatedOrder);
      Record(Change(now, updatedOrder.id, InProgress, Served));
      SetOrders(Replaced(orders, orderId, updatedOrder));
    }

    /** `updateOrderStatus` (src/context/AppContext.tsx:315-339): each order
        with the id gets the new status, and for each one a record holding
        its actual previous status is pushed. */
    method UpdateOrderStatus(orderId: string, status: OrderStatus, now: int)
      requires Valid()
      modifies this, changesStack
      ensures Valid()
      ensures orders == SetStatus(old(orders), orderId, status, now)
      ensures changesStack.items == old(changesStack.items) + ChangesFor(old(orders), orderId, status, now)
      ensures waiters == old(waiters) && tables == old(tables)
      ensures pendingOrdersQueue.items == old(pendingOrdersQueue.items)
    {
      var updatedOrders := Restatus(orders, orderId, status, now, changesStack);
      SetOrders(updatedOrders);
    }

    /** The `map` of `updateOrderStatus`, pushing a record for each order it
        changes. */
    static method Restatus(os: seq<Order>, orderId: string, status: OrderStatus, now: int, changes: Stack<Change>)
      returns (updatedOrders: seq<Order>)
      modifies changes
      ensures updatedOrders == SetStatus(os, orderId, status, now)
      ensures changes.items == old(changes.items) + ChangesFor(os, orderId, status, now)
    {
      updatedOrders := [];
      var i := 0;
      while i < |os|
        invariant 0 <= i <= |os|
        invariant updatedOrders == SetStatus(os[..i], orderId, status, now)
        invariant changes.items == old(changes.items) + ChangesFor(os[..i], orderId, status, now)
      {
        var order := os[i];
        assert os[..i + 1][..i] == os[..i];
        if order.id == orderId {
          changes.Push(Change(now, order.id, order.status, status));
          updatedOrders := updatedOrders + [order.(status := status, updatedAt := now)];
        } else {
          updatedOrders := updatedOrders + [order];
        }
        i := i + 1;
      }
      assert os[..i] == os;
    }

    /** `undoLastChange` (src/context/AppContext.tsx:341-359): with no
        history nothing happens; otherwise the latest record is popped and
        the orders with its id get its previous status back. Which
        container holds the order is not undone. */
    method UndoLastChange(now: int)
      requires Valid()
      modifies this, changesStack
      ensures Valid()
      ensures var h := old(changesStack.items);
        if h == [] then changesStack.items == [] && orders == old(orders)
        else
          var last := h[|h| - 1];
          && changesStack.items == h[..|h| - 1]
          && orders == SetStatus(old(orders), last.orderId, last.previousStatus, now)
      ensures waiters == old(waiters) && tables == old(tables)
      ensures pendingOrdersQueue.items == old(pendingOrdersQueue.items)
    {
      var lastChange := changesStack.Pop();
      if lastChange.None? {
        return;
      }
      SetOrders(SetStatus(orders, lastChange.value.orderId, lastChange.value.previousStatus, now));
    }

    /** `assignWaiterToOrder` (src/context/AppContext.tsx:361-393): with no
        waiters nothing happens; otherwise the ring advances one step and
        the waiter now under it takes the order. */
    method AssignWaiterToOrder(orderId: string, now: int)
      requires Valid()
      modifies this, waitersRotation
      ensures Valid()
      ensures waitersRotation.Contents == old(waitersRotation.Contents)
      ensures old(waitersRotation.Contents) == [] ==> orders == old(orders) && waiters == old(waiters)
      ensures old(waitersRotation.Contents) != [] ==>
        var n := |waitersRotation.Contents|;
        var w := waitersRotation.Contents[waitersRotation.Cursor];
        && waitersRotation.Cursor == (if old(waitersRotation.Cursor) + 1 < n then old(waitersRotation.Cursor) + 1 else 0)
        && orders == SetWaiter(old(orders), orderId, w.id, now)
        && waiters == WithCurrentOrder(old(waiters), w.id, orderId)
      ensures tables == old(tables) && changesStack.items == old(changesStack.items)
    {
      var nextWaiter := waitersRotation.Rotate();
      if nextWaiter.None? {
        return;
      }
      SetOrders(SetWaiter(orders, orderId, nextWaiter.value.id, now));
      SetWaiters(WithCurrentOrder(waiters, nextWaiter.value.id, orderId));
    }
  }

  /** What the fixed previous status in `moveOrderToKitchen`'s record
      means: an order cancelled while still queued (the queue keeps the
      pending copy) goes to the kitchen on a record saying it was pending,
      and undoing the move makes it pending again, while it stays in the
      kitchen list. */
  method CancelMoveUndo(req: OrderRequest, id: string)
    returns (beforeMove: OrderStatus, recorded: OrderStatus, afterUndo: OrderStatus, kitchen: seq<Order>)
    ensures beforeMove == Cancelled && recorded == Pending && afterUndo == Pending
    ensures |kitchen| == 1 && kitchen[0].id == id && kitchen[0].status == InProgress
  {
    var app := new AppState([], []);
    app.AddOrder(req, id, 1);
    app.UpdateOrderStatus(id, Cancelled, 2);
    beforeMove := app.orders[0].status;
    app.MoveOrderToKitchen(id, 3);
    var history := app.changesStack.GetAll();
    recorded := history[|history| - 1].previousStatus;
    app.UndoLastChange(4);
    afterUndo := app.orders[0].status;
    kitchen := app.kitchenOrdersList.ToArray();
  }
}
