/** The order list page (src/pages/Orders.tsx): the status filter, the
    newest-first ordering and the table of statuses offered for each order. */
module OrdersPage {
  import opened Domain

  datatype StatusFilter = All | Only(status: OrderStatus)

  /** `statusFilter === 'ALL' ? orders : orders.filter(...)`
      (src/pages/Orders.tsx:9-11). */
  function Filtered(orders: seq<Order>, filter: StatusFilter): seq<Order>
  {
    if filter.All? then orders else WithStatus(orders, filter.status)
  }

  function WithStatus(orders: seq<Order>, s: OrderStatus): seq<Order>
  {
    if orders == [] then []
    else (if orders[0].status == s then [orders[0]] else []) + WithStatus(orders[1..], s)
  }

  /** 'ALL' keeps every order; any other filter keeps each order of that
      status as often as it occurs and drops every other order. */
  lemma {:induction false} FilteredFacts(orders: seq<Order>, filter: StatusFilter)
    ensures filter.All? ==> Filtered(orders, filter) == orders
    ensures filter.Only? ==>
              (forall o :: multiset(Filtered(orders, filter))[o] == if o.status == filter.status then multiset(orders)[o] else 0)
  {
    if filter.Only? && orders != [] {
      FilteredFacts(orders[1..], filter);
      assert orders == [orders[0]] + orders[1..];
    }
  }

  /** Non-increasing creation time: newest first. */
  ghost predicate NewestFirstOrder(s: seq<Order>)
  {
    forall i, j :: 0 <= i < j < |s| ==> s[i].createdAt >= s[j].createdAt
  }

  /** The orders created at instant `t`, in the order they occur. */
  function CreatedAt(s: seq<Order>, t: int): seq<Order>
  {
    if s == [] then []
    else (if s[0].createdAt == t then [s[0]] else []) + CreatedAt(s[1..], t)
  }

  /** Place `o` before the first order that is not newer than it. */
  function Insert(o: Order, s: seq<Order>): seq<Order>
  {
    if s == [] || s[0].createdAt <= o.createdAt then [o] + s
    else [s[0]] + Insert(o, s[1..])
  }

  /** The result of `[...filteredOrders].sort((a, b) => b.createdAt - a.createdAt)`
      (src/pages/Orders.tsx:13-15): the sort of JavaScript engines is stable,
      so orders created at the same instant keep their relative order. */
  function NewestFirst(s: seq<Order>): seq<Order>
  {
    if s == [] then [] else Insert(s[0], NewestFirst(s[1..]))
  }

  /** Inserting keeps the list newest first. */
  lemma {:induction false} InsertSorted(o: Order, s: seq<Order>)
    requires NewestFirstOrder(s)
    ensures NewestFirstOrder(Insert(o, s))
  {
    if s == [] || s[0].createdAt <= o.createdAt {
      var r := [o] + s;
      assert forall j :: 0 < j < |r| ==> r[j] == s[j - 1];
    } else {
      var rest := s[1..];
      assert forall i :: 0 <= i < |rest| ==> rest[i] == s[i + 1];
      InsertSorted(o, rest);
      var ins := Insert(o, rest);
      assert ins[0] == o || ins[0] == rest[0];
      var r := [s[0]] + ins;
      assert forall j :: 0 < j < |r| ==> r[j] == ins[j - 1];
    }
  }

  /** Inserting adds exactly the one order. */
  lemma {:induction false} InsertPermutes(o: Order, s: seq<Order>)
    ensures multiset(Insert(o, s)) == multiset(s) + multiset{o}
  {
    if s != [] && s[0].createdAt > o.createdAt {
      InsertPermutes(o, s[1..]);
      assert s == [s[0]] + s[1..];
    }
  }

  /** Into a newest-first list, an order goes ahead of every order created
      at the same instant. */
  lemma {:induction false} InsertStable(o: Order, s: seq<Order>, t: int)
    ensures CreatedAt(Insert(o, s), t) == if o.createdAt == t then [o] + CreatedAt(s, t) else CreatedAt(s, t)
  {
    if s != [] && s[0].createdAt > o.createdAt {
      InsertStable(o, s[1..], t);
      assert CreatedAt([s[0]] + Insert(o, s[1..]), t)
          == (if s[0].createdAt == t then [s[0]] else []) + CreatedAt(Insert(o, s[1..]), t) by {
        assert ([s[0]] + Insert(o, s[1..]))[1..] == Insert(o, s[1..]);
      }
    } else {
      assert ([o] + s)[1..] == s;
    }
  }

  /** The newest-first list is ordered and holds exactly the given orders. */
  lemma {:induction false} NewestFirstFacts(s: seq<Order>)
    ensures NewestFirstOrder(NewestFirst(s))
    ensures multiset(NewestFirst(s)) == multiset(s)
  {
    if s != [] {
      NewestFirstFacts(s[1..]);
      InsertSorted(s[0], NewestFirst(s[1..]));
      InsertPermutes(s[0], NewestFirst(s[1..]));
      assert s == [s[0]] + s[1..];
    }
  }

  /** Orders created at the same instant keep their given order. */
  lemma {:induction false} NewestFirstStable(s: seq<Order>, t: int)
    ensures CreatedAt(NewestFirst(s), t) == CreatedAt(s, t)
  {
    if s != [] {
      NewestFirstStable(s[1..], t);
      InsertStable(s[0], NewestFirst(s[1..]), t);
    }
  }

  /** The orders the page lists for a filter. */
  function Listed(orders: seq<Order>, filter: StatusFilter): seq<Order>
  {
    NewestFirst(Filtered(orders, filter))
  }

  /** What the page lists: newest first, and with each order of the
      filter's status (every order, for 'ALL') exactly as often as it
      occurs in `orders`. */
  lemma {:induction false} ListedFacts(orders: seq<Order>, filter: StatusFilter)
    ensures NewestFirstOrder(Listed(orders, filter))
    ensures forall t :: CreatedAt(Listed(orders, filter), t) == CreatedAt(Filtered(orders, filter), t)
    ensures forall o :: multiset(Listed(orders, filter))[o] ==
              (if filter.All? || o.status == filter.status then multiset(orders)[o] else 0)
  {
    FilteredFacts(orders, filter);
    NewestFirstFacts(Filtered(orders, filter));
    forall t
      ensures CreatedAt(Listed(orders, filter), t) == CreatedAt(Filtered(orders, filter), t)
    {
      NewestFirstStable(Filtered(orders, filter), t);
    }
  }

  /** The choices `getStatusActions` offers for an order's status
      (src/pages/Orders.tsx:27-91), in the order of the options; the
      last two statuses get a badge and no choice. */
  function StatusActions(s: OrderStatus): seq<OrderStatus>
  {
    match s
    case Pending => [Pending, InProgress, Cancelled]
    case InProgress => [InProgress, Ready, Cancelled]
    case Ready => [Ready, Served, Cancelled]
    case Served => [Served, Completed]
    case Completed => []
    case Cancelled => []
  }

  /** The forward lifecycle of an order. */
  function Rank(s: OrderStatus): nat
  {
    match s
    case Pending => 0
    case InProgress => 1
    case Ready => 2
    case Served => 3
    case Completed => 4
    case Cancelled => 5
  }

  /** The one forward step from `s`, when there is one. */
  predicate Successor(s: OrderStatus, c: OrderStatus)
  {
    s != Cancelled && c != Cancelled && Rank(c) == Rank(s) + 1
  }

  predicate Terminal(s: OrderStatus)
  {
    s == Completed || s == Cancelled
  }

  /** A live order is offered exactly its own status, its forward step,
      and cancellation until it is served; a finished one is offered
      nothing; and no offered choice moves backwards. */
  lemma {:induction false} StatusActionsFacts(s: OrderStatus, c: OrderStatus)
    ensures Terminal(s) <==> StatusActions(s) == []
    ensures c in StatusActions(s) <==>
              !Terminal(s) && (c == s || Successor(s, c) || (c == Cancelled && Rank(s) < Rank(Served)))
    ensures c in StatusActions(s) ==> c == Cancelled || Rank(c) >= Rank(s)
    ensures StatusActions(s) != [] ==> StatusActions(s)[0] == s
  {
  }
}
