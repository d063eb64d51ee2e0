/** The cart of the new-order form (src/components/OrderForm.tsx): adding
    and removing menu items line by line, and the guard that keeps an empty
    cart from becoming an order. Each handler builds a new cart from the old
    one, so they are functions here. */
module OrderForm {
  import opened Wrappers
  import opened Domain

  /** `selectedItems.find(item => item.menuItemId === id)`, as an index:
      the first line for `id`, or `|cart|` when there is none. */
  function FindLine(cart: seq<OrderItem>, id: string): (i: nat)
    ensures i <= |cart|
    ensures i < |cart| ==> cart[i].menuItemId == id
    ensures forall j :: 0 <= j < i ==> cart[j].menuItemId != id
  {
    if cart == [] then 0
    else if cart[0].menuItemId == id then 0
    else 1 + FindLine(cart[1..], id)
  }

  /** How many of menu item `id` the cart holds. */
  function Quantity(cart: seq<OrderItem>, id: string): int
  {
    var i := FindLine(cart, id);
    if i < |cart| then cart[i].quantity else 0
  }

  /** At most one line per menu item. */
  ghost predicate UniqueIds(cart: seq<OrderItem>)
  {
    forall i, j :: 0 <= i < j < |cart| ==> cart[i].menuItemId != cart[j].menuItemId
  }

  /** At most one line per menu item, and every line holds at least one. */
  ghost predicate CartInv(cart: seq<OrderItem>)
  {
    UniqueIds(cart) && forall i :: 0 <= i < |cart| ==> cart[i].quantity >= 1
  }

  /** The `map` that adds `delta` to the quantity of every line for `id`. */
  function Bump(cart: seq<OrderItem>, id: string, delta: int): (r: seq<OrderItem>)
  {
    seq(|cart|, i requires 0 <= i < |cart| =>
      if cart[i].menuItemId == id then cart[i].(quantity := cart[i].quantity + delta) else cart[i])
  }

  /** The `filter` that drops every line for `id`. */
  function Without(cart: seq<OrderItem>, id: string): (r: seq<OrderItem>)
  {
    if cart == [] then []
    else (if cart[0].menuItemId == id then [] else [cart[0]]) + Without(cart[1..], id)
  }

  /** `handleAddItem` (src/components/OrderForm.tsx:21-46). */
  function AddItem(cart: seq<OrderItem>, item: MenuItem): seq<OrderItem>
  {
    if FindLine(cart, item.id) < |cart| then Bump(cart, item.id, 1)
    else cart + [OrderItem(item.id, item.name, 1, ItemPending)]
  }

  /** `handleRemoveItem` (src/components/OrderForm.tsx:48-64). */
  function RemoveItem(cart: seq<OrderItem>, id: string): seq<OrderItem>
  {
    var i := FindLine(cart, id);
    if i < |cart| && cart[i].quantity > 1 then Bump(cart, id, -1) else Without(cart, id)
  }

  /** With one line per item, the bumped cart has the same lines in the same
      places, and only the line for `id` changes. */
  lemma {:induction false} BumpFacts(cart: seq<OrderItem>, id: string, delta: int)
    requires CartInv(cart)
    ensures var r := Bump(cart, id, delta);
      && |r| == |cart|
      && (forall j :: 0 <= j < |r| ==> r[j].menuItemId == cart[j].menuItemId)
      && Quantity(r, id) == (if FindLine(cart, id) < |cart| then Quantity(cart, id) + delta else 0)
      && (forall other :: other != id ==> Quantity(r, other) == Quantity(cart, other))
  {
    var r := Bump(cart, id, delta);
    forall x
      ensures FindLine(r, x) == FindLine(cart, x)
    {
      SameIdsSameLine(r, cart, x);
    }
  }

  /** Finding a line looks only at the menu item ids. */
  lemma {:induction false} SameIdsSameLine(a: seq<OrderItem>, b: seq<OrderItem>, id: string)
    requires |a| == |b| && forall j :: 0 <= j < |a| ==> a[j].menuItemId == b[j].menuItemId
    ensures FindLine(a, id) == FindLine(b, id)
  {
    if a != [] && a[0].menuItemId != id {
      SameIdsSameLine(a[1..], b[1..], id);
    }
  }

  /** Filtering out an item with one line per item removes exactly that
      line and keeps the others in order; an absent item leaves the cart
      as it is. */
  lemma {:induction false} WithoutFacts(cart: seq<OrderItem>, id: string)
    requires UniqueIds(cart)
    ensures var i := FindLine(cart, id);
      Without(cart, id) == if i < |cart| then cart[..i] + cart[i + 1..] else cart
  {
    if cart != [] {
      var tail := cart[1..];
      assert forall j :: 0 <= j < |tail| ==> tail[j] == cart[j + 1];
      if cart[0].menuItemId == id {
        WithoutAbsent(tail, id);
        assert cart[..0] + cart[1..] == tail;
      } else {
        WithoutFacts(tail, id);
        WithoutStep(cart, id);
      }
    }
  }

  /** The inductive step of `WithoutFacts` when the first line is kept. */
  lemma {:induction false} WithoutStep(cart: seq<OrderItem>, id: string)
    requires cart != [] && cart[0].menuItemId != id
    requires var tail, i := cart[1..], FindLine(cart[1..], id);
      Without(tail, id) == if i < |tail| then tail[..i] + tail[i + 1..] else tail
    ensures var i := FindLine(cart, id);
      Without(cart, id) == if i < |cart| then cart[..i] + cart[i + 1..] else cart
  {
    var tail := cart[1..];
    var i := FindLine(tail, id);
    assert Without(cart, id) == [cart[0]] + Without(tail, id);
    assert FindLine(cart, id) == i + 1;
    if i < |tail| {
      assert cart[..i + 1] == [cart[0]] + tail[..i];
      assert cart[i + 2..] == tail[i + 1..];
    } else {
      assert [cart[0]] + tail == cart;
    }
  }

  lemma {:induction false} WithoutAbsent(cart: seq<OrderItem>, id: string)
    requires forall j :: 0 <= j < |cart| ==> cart[j].menuItemId != id
    ensures Without(cart, id) == cart
  {
    if cart != [] {
      WithoutAbsent(cart[1..], id);
    }
  }

  /** Adding an item: a new item gets a line of one at the end; an item
      already there gets one more and no new line; nothing else changes,
      and the cart keeps one line per item with positive quantities. */
  lemma {:induction false} AddItemFacts(cart: seq<OrderItem>, item: MenuItem)
    requires CartInv(cart)
    ensures var r := AddItem(cart, item);
      && CartInv(r)
      && Quantity(r, item.id) == Quantity(cart, item.id) + 1
      && (forall other :: other != item.id ==> Quantity(r, other) == Quantity(cart, other))
      && (Quantity(cart, item.id) == 0 ==> r == cart + [OrderItem(item.id, item.name, 1, ItemPending)])
      && (Quantity(cart, item.id) > 0 ==> |r| == |cart|)
  {
    var r := AddItem(cart, item);
    if FindLine(cart, item.id) < |cart| {
      BumpFacts(cart, item.id, 1);
    } else {
      forall x
        ensures Quantity(r, x) == if x == item.id then 1 else Quantity(cart, x)
      {
        AppendedLine(cart, OrderItem(item.id, item.name, 1, ItemPending), x);
      }
    }
  }

  /** Finding a line after appending one. */
  lemma {:induction false} AppendedLine(cart: seq<OrderItem>, line: OrderItem, id: string)
    ensures FindLine(cart + [line], id) ==
      if FindLine(cart, id) < |cart| then FindLine(cart, id)
      else if line.menuItemId == id then |cart| else |cart| + 1
  {
    if cart != [] {
      assert (cart + [line])[1..] == cart[1..] + [line];
      AppendedLine(cart[1..], line, id);
    }
  }

  /** Removing an item: one fewer of it, its line dropped when it held a
      single one, the other lines unchanged and in order, and the cart keeps
      one line per item with positive quantities. */
  lemma {:induction false} RemoveItemFacts(cart: seq<OrderItem>, id: string)
    requires CartInv(cart)
    ensures var r := RemoveItem(cart, id);
      && CartInv(r)
      && Quantity(r, id) == (if Quantity(cart, id) > 1 then Quantity(cart, id) - 1 else 0)
      && (forall other :: other != id ==> Quantity(r, other) == Quantity(cart, other))
      && (Quantity(cart, id) == 0 ==> r == cart)
      && (Quantity(cart, id) == 1 ==> r == cart[..FindLine(cart, id)] + cart[FindLine(cart, id) + 1..])
  {
    var i := FindLine(cart, id);
    if i < |cart| && cart[i].quantity > 1 {
      BumpFacts(cart, id, -1);
    } else {
      WithoutFacts(cart, id);
      if i < |cart| {
        DropFacts(cart, i);
      }
    }
  }

  /** Dropping line `i` of a well-formed cart: the rest stays well formed,
      that item is gone, and every other item keeps its quantity. */
  lemma {:induction false} DropFacts(cart: seq<OrderItem>, i: nat)
    requires CartInv(cart) && i < |cart|
    ensures var r := cart[..i] + cart[i + 1..];
      && CartInv(r)
      && Quantity(r, cart[i].menuItemId) == 0
      && (forall other :: other != cart[i].menuItemId ==> Quantity(r, other) == Quantity(cart, other))
  {
    var r := cart[..i] + cart[i + 1..];
    assert forall j :: 0 <= j < |r| ==> r[j] == cart[if j < i then j else j + 1];
    forall x
      ensures Quantity(r, x) == if x == cart[i].menuItemId then 0 else Quantity(cart, x)
    {
      DroppedLine(cart, i, x);
    }
  }

  /** Finding a line after dropping line `i` of a cart with one line per item. */
  lemma {:induction false} DroppedLine(cart: seq<OrderItem>, i: nat, id: string)
    requires i < |cart|
    requires UniqueIds(cart)
    ensures var r := cart[..i] + cart[i + 1..];
      FindLine(r, id) ==
        if id == cart[i].menuItemId then |r|
        else if FindLine(cart, id) < i then FindLine(cart, id)
        else FindLine(cart, id) - 1
  {
    var r := cart[..i] + cart[i + 1..];
    var k := FindLine(cart, id);
    var m := FindLine(r, id);
    assert forall j :: 0 <= j < |r| ==> r[j] == cart[if j < i then j else j + 1];
    if id == cart[i].menuItemId {
      NoLineMeans(r, id);
    } else if k < i {
      assert r[k] == cart[k];
      LineBound(r, id, k);
    } else if k < |cart| {
      assert r[k - 1] == cart[k];
      LineBound(r, id, k - 1);
    } else {
      NoLineMeans(r, id);
    }
  }

  /** The first line for `id` is at index `k` when `k` holds it and no
      earlier line does. */
  lemma {:induction false} LineBound(cart: seq<OrderItem>, id: string, k: nat)
    requires k < |cart| && cart[k].menuItemId == id
    requires forall j :: 0 <= j < k ==> cart[j].menuItemId != id
    ensures FindLine(cart, id) == k
  {
  }

  lemma {:induction false} NoLineMeans(cart: seq<OrderItem>, id: string)
    requires forall j :: 0 <= j < |cart| ==> cart[j].menuItemId != id
    ensures FindLine(cart, id) == |cart|
  {
  }

  /** Removing an item just added gives back the cart as it was. */
  lemma {:induction false} RemoveUndoesAdd(cart: seq<OrderItem>, item: MenuItem)
    requires CartInv(cart)
    ensures RemoveItem(AddItem(cart, item), item.id) == cart
  {
    var i := FindLine(cart, item.id);
    var added := AddItem(cart, item);
    if i < |cart| {
      BumpFacts(cart, item.id, 1);
      var r := RemoveItem(added, item.id);
      assert FindLine(added, item.id) == i by {
        SameIdsSameLine(added, cart, item.id);
      }
      assert added[i].quantity > 1;
      assert |r| == |cart|;
      forall j | 0 <= j < |cart|
        ensures r[j] == cart[j]
      {
      }
    } else {
      var line := OrderItem(item.id, item.name, 1, ItemPending);
      AppendedLine(cart, line, item.id);
      assert UniqueIds(added);
      WithoutFacts(added, item.id);
      assert added[..|cart|] == cart;
    }
  }

  /** The form's fields that `handleSubmit` reads and resets. */
  datatype Form = Form(tableNumber: int, selectedItems: seq<OrderItem>, specialInstructions: string)

  /** `handleSubmit` (src/components/OrderForm.tsx:73-92): an empty cart is
      refused and the form is left as it is; otherwise the order request is
      handed on and the cart and instructions are cleared, keeping the
      table. */
  function Submit(form: Form): (r: (Form, Option<OrderRequest>))
    ensures form.selectedItems == [] <==> r.1.None?
    ensures r.1.None? ==> r.0 == form
    ensures r.1.Some? ==> r.1.value.items == form.selectedItems && r.1.value.tableNumber == form.tableNumber
                          && r.1.value.specialInstructions == Some(form.specialInstructions)
                          && r.1.value.waiterId.None?
                          && r.0 == Form(form.tableNumber, [], "")
  {
    if |form.selectedItems| == 0 then (form, None)
    else
      (Form(form.tableNumber, [], ""),
       Some(OrderRequest(form.tableNumber, form.selectedItems, None, Some(form.specialInstructions))))
  }
}
