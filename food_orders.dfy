/** The `food_orders` table: the cart actions of `menu` (app.py:464-532),
    the totals of `menu` and `food_payment` (app.py:542, 599-601) and the
    confirmation of `food_payment` (app.py:608-611). */
module FoodOrders {
  import opened Wrappers

  /** A row of `food_orders`; `paid` is the column `food_paid` (0 or 1). */
  datatype FoodOrder = FoodOrder(id: nat, bookingId: nat, itemName: string, price: int, quantity: int, paid: bool)

  /** A POST to the menu: the form fields `action`, `order_id`, `item_name`
      and `item_price`; `None` and `""` stand for a missing or empty field. */
  datatype CartRequest = CartRequest(action: string, orderId: Option<nat>, itemName: string, itemPrice: Option<int>)

  ghost predicate IdsBelow(rows: seq<FoodOrder>, nextId: nat) {
    forall k :: 0 <= k < |rows| ==> rows[k].id < nextId
  }

  ghost predicate UniqueIds(rows: seq<FoodOrder>) {
    forall i, j :: 0 <= i < j < |rows| ==> rows[i].id != rows[j].id
  }

  predicate SameItem(o: FoodOrder, bookingId: nat, itemName: string) {
    o.bookingId == bookingId && o.itemName == itemName
  }

  /** At most one row per (booking_id, item_name). */
  ghost predicate OneRowPerItem(rows: seq<FoodOrder>) {
    forall i, j :: 0 <= i < j < |rows| ==> !SameItem(rows[j], rows[i].bookingId, rows[i].itemName)
  }

  ghost predicate QuantitiesPositive(rows: seq<FoodOrder>) {
    forall k :: 0 <= k < |rows| ==> rows[k].quantity >= 1
  }

  ghost predicate WellFormed(rows: seq<FoodOrder>, nextId: nat) {
    IdsBelow(rows, nextId) && UniqueIds(rows) && OneRowPerItem(rows) && QuantitiesPositive(rows)
  }

  /** `SELECT * FROM food_orders WHERE id=%s`: the position of the row. */
  function FindOrder(rows: seq<FoodOrder>, orderId: nat): (r: Option<nat>)
    ensures r.Some? ==> r.value < |rows| && rows[r.value].id == orderId
    ensures r.None? ==> forall k :: 0 <= k < |rows| ==> rows[k].id != orderId
  {
    if rows == [] then None
    else if rows[0].id == orderId then Some(0)
    else match FindOrder(rows[1..], orderId)
      case None => None
      case Some(k) => Some(k + 1)
  }

  /** `SELECT * FROM food_orders WHERE booking_id=%s AND item_name=%s`. */
  function FindItem(rows: seq<FoodOrder>, bookingId: nat, itemName: string): (r: Option<nat>)
    ensures r.Some? ==> r.value < |rows| && SameItem(rows[r.value], bookingId, itemName)
    ensures r.None? ==> forall k :: 0 <= k < |rows| ==> !SameItem(rows[k], bookingId, itemName)
  {
    if rows == [] then None
    else if SameItem(rows[0], bookingId, itemName) then Some(0)
    else match FindItem(rows[1..], bookingId, itemName)
      case None => None
      case Some(k) => Some(k + 1)
  }

  /** The row a menu action leaves in place of `o`, its quantity changed. */
  function WithQuantity(o: FoodOrder, quantity: int): FoodOrder {
    o.(quantity := quantity)
  }

  /** Lines 472-495, `add`: one more of an item already in the booking's
      cart, its price left as it was; otherwise a new row with quantity 1,
      unpaid, under the id `nextId`. Rows of other items do not change. */
  function AddItem(rows: seq<FoodOrder>, nextId: nat, bookingId: nat, itemName: string, price: int): (r: seq<FoodOrder>)
    ensures forall x: FoodOrder :: !SameItem(x, bookingId, itemName) ==> (x in r <==> x in rows)
    ensures FindItem(rows, bookingId, itemName).None? ==> r == rows + [FoodOrder(nextId, bookingId, itemName, price, 1, false)]
    ensures FindItem(rows, bookingId, itemName).Some? ==>
      var k := FindItem(rows, bookingId, itemName).value;
      |r| == |rows| && r[k] == WithQuantity(rows[k], rows[k].quantity + 1) && r[k].price == rows[k].price
  {
    match FindItem(rows, bookingId, itemName)
    case Some(k) =>
      var r := rows[k := WithQuantity(rows[k], rows[k].quantity + 1)];
      OthersKept(rows, k, r[k]);
      r
    case None =>
      rows + [FoodOrder(nextId, bookingId, itemName, price, 1, false)]
  }

  /** The id the table gives its next row after `add`. */
  function NextIdAfterAdd(rows: seq<FoodOrder>, nextId: nat, bookingId: nat, itemName: string): nat {
    if FindItem(rows, bookingId, itemName).Some? then nextId else nextId + 1
  }

  /** Lines 498-506, `increase`: one more of the row with this id, whatever
      booking it belongs to; an unknown id changes nothing. */
  function IncreaseQuantity(rows: seq<FoodOrder>, orderId: nat): (r: seq<FoodOrder>)
    ensures forall x: FoodOrder :: x.id != orderId ==> (x in r <==> x in rows)
    ensures FindOrder(rows, orderId).None? ==> r == rows
    ensures FindOrder(rows, orderId).Some? ==>
      var k := FindOrder(rows, orderId).value;
      |r| == |rows| && r[k] == WithQuantity(rows[k], rows[k].quantity + 1)
  {
    match FindOrder(rows, orderId)
    case Some(k) =>
      var r := rows[k := WithQuantity(rows[k], rows[k].quantity + 1)];
      OthersKept(rows, k, r[k]);
      r
    case None => rows
  }

  /** Lines 509-520, `decrease`: one fewer of the row with this id while
      more than one is ordered, and the row deleted otherwise. */
  function DecreaseQuantity(rows: seq<FoodOrder>, orderId: nat): (r: seq<FoodOrder>)
    ensures forall x: FoodOrder :: x.id != orderId ==> (x in r <==> x in rows)
    ensures FindOrder(rows, orderId).None? ==> r == rows
    ensures FindOrder(rows, orderId).Some? ==>
      var k := FindOrder(rows, orderId).value;
      if rows[k].quantity > 1 then |r| == |rows| && r[k] == WithQuantity(rows[k], rows[k].quantity - 1)
      else r == rows[..k] + rows[k + 1..]
  {
    match FindOrder(rows, orderId)
    case Some(k) =>
      if rows[k].quantity > 1 then
        var r := rows[k := WithQuantity(rows[k], rows[k].quantity - 1)];
        OthersKept(rows, k, r[k]);
        r
      else
        RemovalKeepsOthers(rows, k);
        rows[..k] + rows[k + 1..]
    case None => rows
  }

  /** Lines 523-524, `delete`: the row with this id is removed. */
  function DeleteOrder(rows: seq<FoodOrder>, orderId: nat): (r: seq<FoodOrder>)
    ensures forall x: FoodOrder :: x.id != orderId ==> (x in r <==> x in rows)
    ensures FindOrder(rows, orderId).None? ==> r == rows
    ensures FindOrder(rows, orderId).Some? ==>
      var k := FindOrder(rows, orderId).value;
      r == rows[..k] + rows[k + 1..]
  {
    match FindOrder(rows, orderId)
    case Some(k) =>
      RemovalKeepsOthers(rows, k);
      rows[..k] + rows[k + 1..]
    case None => rows
  }

  /** Replacing the row at `k` by `y` keeps every other row. */
  lemma OthersKept(rows: seq<FoodOrder>, k: nat, y: FoodOrder)
    requires k < |rows|
    ensures forall x :: x != rows[k] && x != y ==> (x in rows[k := y] <==> x in rows)
  {
    forall x | x != rows[k] && x != y ensures x in rows[k := y] <==> x in rows {
      if x in rows {
        var j :| 0 <= j < |rows| && rows[j] == x;
        assert rows[k := y][j] == x;
      }
      if x in rows[k := y] {
        var j :| 0 <= j < |rows| && rows[k := y][j] == x;
        assert rows[j] == x;
      }
    }
  }

  /** Removing the row at `k` keeps every row of another id. */
  lemma RemovalKeepsOthers(rows: seq<FoodOrder>, k: nat)
    requires k < |rows|
    ensures forall x: FoodOrder :: x.id != rows[k].id ==> (x in rows[..k] + rows[k + 1..] <==> x in rows)
  {
    assert rows == rows[..k] + [rows[k]] + rows[k + 1..];
  }

  /** Lines 464-532 without the storage failures: the `if/elif` chain on the
      action. `increase`, `decrease` and `delete` act on the order id alone,
      not scoped to the session's booking. */
  function ApplyRequest(rows: seq<FoodOrder>, nextId: nat, bookingId: nat, req: CartRequest): (r: seq<FoodOrder>)
    ensures |rows| - 1 <= |r| <= |rows| + 1
    ensures req.action == "add" && (req.itemName == "" || req.itemPrice.None?) ==> r == rows
    ensures req.action != "add" && req.orderId.None? ==> r == rows
    ensures req.action !in ["add", "increase", "decrease", "delete"] ==> r == rows
    ensures forall x: FoodOrder :: x.bookingId != bookingId && (x in r) != (x in rows) ==>
      req.action != "add" && req.orderId == Some(x.id)
  {
    if req.action == "add" && req.itemName != "" && req.itemPrice.Some? then
      AddItem(rows, nextId, bookingId, req.itemName, req.itemPrice.value)
    else if req.action == "increase" && req.orderId.Some? then IncreaseQuantity(rows, req.orderId.value)
    else if req.action == "decrease" && req.orderId.Some? then DecreaseQuantity(rows, req.orderId.value)
    else if req.action == "delete" && req.orderId.Some? then DeleteOrder(rows, req.orderId.value)
    else rows
  }

  function NextIdAfterRequest(rows: seq<FoodOrder>, nextId: nat, bookingId: nat, req: CartRequest): nat {
    if req.action == "add" && req.itemName != "" && req.itemPrice.Some? then
      NextIdAfterAdd(rows, nextId, bookingId, req.itemName)
    else nextId
  }

  /** Line 611: `UPDATE food_orders SET food_paid=1 WHERE booking_id=%s`. */
  function MarkPaid(rows: seq<FoodOrder>, bookingId: nat): (r: seq<FoodOrder>)
    ensures |r| == |rows|
    ensures forall k :: 0 <= k < |rows| ==> r[k].paid == (rows[k].paid || rows[k].bookingId == bookingId)
    ensures forall k :: 0 <= k < |rows| ==> r[k].(paid := rows[k].paid) == rows[k]
  {
    seq(|rows|, k requires 0 <= k < |rows| => if rows[k].bookingId == bookingId then rows[k].(paid := true) else rows[k])
  }

  /** What one row adds to its booking's total. */
  function LineTotal(o: FoodOrder): int {
    o.price * o.quantity
  }

  /** What one row adds to the total of `bookingId`. */
  function Contribution(o: FoodOrder, bookingId: nat): int {
    if o.bookingId == bookingId then LineTotal(o) else 0
  }

  /** Lines 542 and 601: the sum of price times quantity over every row of
      the booking, paid or not. */
  function Total(rows: seq<FoodOrder>, bookingId: nat): (t: int)
    ensures (forall k :: 0 <= k < |rows| ==> rows[k].price >= 0 && rows[k].quantity >= 0) ==> t >= 0
    ensures (forall k :: 0 <= k < |rows| ==> rows[k].bookingId != bookingId) ==> t == 0
  {
    if rows == [] then 0
    else
      assert forall k :: 1 <= k < |rows| ==> rows[1..][k - 1] == rows[k];
      Contribution(rows[0], bookingId) + Total(rows[1..], bookingId)
  }

  // ---------------------------------------------------------------------
  // The table invariant is kept by every action.

  /** Replacing a row by one with the same id, booking and item and a
      positive quantity keeps the invariant. */
  lemma ReplaceKeepsWellFormed(rows: seq<FoodOrder>, nextId: nat, k: nat, y: FoodOrder)
    requires WellFormed(rows, nextId)
    requires k < |rows|
    requires y.id == rows[k].id && y.bookingId == rows[k].bookingId && y.itemName == rows[k].itemName
    requires y.quantity >= 1
    ensures WellFormed(rows[k := y], nextId)
  {
    var r := rows[k := y];
    assert forall i :: 0 <= i < |r| ==> r[i].id == rows[i].id && r[i].bookingId == rows[i].bookingId && r[i].itemName == rows[i].itemName;
  }

  /** Removing a row keeps the invariant. */
  lemma RemoveKeepsWellFormed(rows: seq<FoodOrder>, nextId: nat, k: nat)
    requires WellFormed(rows, nextId)
    requires k < |rows|
    ensures WellFormed(rows[..k] + rows[k + 1..], nextId)
  {
    var r := rows[..k] + rows[k + 1..];
    assert forall i :: 0 <= i < |r| ==> r[i] == rows[if i < k then i else i + 1];
  }

  /** With unique ids, removing the row at `k` leaves no row with its id. */
  lemma RemovedIdGone(rows: seq<FoodOrder>, k: nat)
    requires UniqueIds(rows)
    requires k < |rows|
    ensures forall x :: x in rows[..k] + rows[k + 1..] ==> x.id != rows[k].id
  {
    var r := rows[..k] + rows[k + 1..];
    assert forall i :: 0 <= i < |r| ==> r[i] == rows[if i < k then i else i + 1];
  }

  /** `add` keeps at most one row per (booking, item), ids unique and
      below the next id, and every quantity positive. */
  lemma AddKeepsWellFormed(rows: seq<FoodOrder>, nextId: nat, bookingId: nat, itemName: string, price: int)
    requires WellFormed(rows, nextId)
    ensures WellFormed(AddItem(rows, nextId, bookingId, itemName, price), NextIdAfterAdd(rows, nextId, bookingId, itemName))
  {
    match FindItem(rows, bookingId, itemName)
    case Some(k) =>
      ReplaceKeepsWellFormed(rows, nextId, k, WithQuantity(rows[k], rows[k].quantity + 1));
    case None =>
      var r := rows + [FoodOrder(nextId, bookingId, itemName, price, 1, false)];
      assert forall i :: 0 <= i < |rows| ==> r[i] == rows[i];
  }

  lemma IncreaseKeepsWellFormed(rows: seq<FoodOrder>, nextId: nat, orderId: nat)
    requires WellFormed(rows, nextId)
    ensures WellFormed(IncreaseQuantity(rows, orderId), nextId)
  {
    if FindOrder(rows, orderId).Some? {
      var k := FindOrder(rows, orderId).value;
      ReplaceKeepsWellFormed(rows, nextId, k, WithQuantity(rows[k], rows[k].quantity + 1));
    }
  }

  /** `decrease` keeps every quantity at least 1: a row at 1 is deleted,
      and afterwards no row has the order's id. */
  lemma DecreaseKeepsWellFormed(rows: seq<FoodOrder>, nextId: nat, orderId: nat)
    requires WellFormed(rows, nextId)
    ensures WellFormed(DecreaseQuantity(rows, orderId), nextId)
    ensures FindOrder(rows, orderId).Some? && rows[FindOrder(rows, orderId).value].quantity == 1 ==>
      forall x :: x in DecreaseQuantity(rows, orderId) ==> x.id != orderId
  {
    if FindOrder(rows, orderId).Some? {
      var k := FindOrder(rows, orderId).value;
      if rows[k].quantity > 1 {
        ReplaceKeepsWellFormed(rows, nextId, k, WithQuantity(rows[k], rows[k].quantity - 1));
      } else {
        RemoveKeepsWellFormed(rows, nextId, k);
        RemovedIdGone(rows, k);
      }
    }
  }

  /** `delete` keeps the invariant and leaves no row with the order's id. */
  lemma DeleteKeepsWellFormed(rows: seq<FoodOrder>, nextId: nat, orderId: nat)
    requires WellFormed(rows, nextId)
    ensures WellFormed(DeleteOrder(rows, orderId), nextId)
    ensures forall x :: x in DeleteOrder(rows, orderId) ==> x.id != orderId
  {
    if FindOrder(rows, orderId).Some? {
      var k := FindOrder(rows, orderId).value;
      RemoveKeepsWellFormed(rows, nextId, k);
      RemovedIdGone(rows, k);
    }
  }

  lemma MarkPaidKeepsWellFormed(rows: seq<FoodOrder>, nextId: nat, bookingId: nat)
    requires WellFormed(rows, nextId)
    ensures WellFormed(MarkPaid(rows, bookingId), nextId)
  {
    var r := MarkPaid(rows, bookingId);
    assert forall i :: 0 <= i < |r| ==> r[i].id == rows[i].id && r[i].bookingId == rows[i].bookingId
                                        && r[i].itemName == rows[i].itemName && r[i].quantity == rows[i].quantity;
  }

  /** Every menu request keeps the invariant. */
  lemma RequestKeepsWellFormed(rows: seq<FoodOrder>, nextId: nat, bookingId: nat, req: CartRequest)
    requires WellFormed(rows, nextId)
    ensures WellFormed(ApplyRequest(rows, nextId, bookingId, req), NextIdAfterRequest(rows, nextId, bookingId, req))
  {
    if req.action == "add" && req.itemName != "" && req.itemPrice.Some? {
      AddKeepsWellFormed(rows, nextId, bookingId, req.itemName, req.itemPrice.value);
    } else if req.action == "increase" && req.orderId.Some? {
      IncreaseKeepsWellFormed(rows, nextId, req.orderId.value);
    } else if req.action == "decrease" && req.orderId.Some? {
      DecreaseKeepsWellFormed(rows, nextId, req.orderId.value);
    } else if req.action == "delete" && req.orderId.Some? {
      DeleteKeepsWellFormed(rows, nextId, req.orderId.value);
    }
  }

  /** Adding an item twice to a cart that lacks it gives one row with
      quantity 2 at the first price. */
  lemma AddTwiceOneRow(rows: seq<FoodOrder>, nextId: nat, bookingId: nat, itemName: string, price: int, price2: int)
    requires FindItem(rows, bookingId, itemName).None?
    ensures var once := AddItem(rows, nextId, bookingId, itemName, price);
      AddItem(once, nextId + 1, bookingId, itemName, price2) == rows + [FoodOrder(nextId, bookingId, itemName, price, 2, false)]
  {
    var once := AddItem(rows, nextId, bookingId, itemName, price);
    assert forall k :: 0 <= k < |rows| ==> once[k] == rows[k];
    assert SameItem(once[|rows|], bookingId, itemName);
    assert FindItem(once, bookingId, itemName) == Some(|rows|);
  }

  // ---------------------------------------------------------------------
  // Totals.

  lemma {:induction false} TotalAppend(rows: seq<FoodOrder>, o: FoodOrder, bookingId: nat)
    ensures Total(rows + [o], bookingId) == Total(rows, bookingId) + Contribution(o, bookingId)
  {
    if rows == [] {
      assert ([] + [o])[1..] == [];
    } else {
      assert (rows + [o])[1..] == rows[1..] + [o];
      TotalAppend(rows[1..], o, bookingId);
    }
  }

  lemma {:induction false} TotalUpdate(rows: seq<FoodOrder>, k: nat, y: FoodOrder, bookingId: nat)
    requires k < |rows|
    ensures Total(rows[k := y], bookingId) == Total(rows, bookingId) - Contribution(rows[k], bookingId) + Contribution(y, bookingId)
  {
    if k == 0 {
      assert rows[k := y][1..] == rows[1..];
    } else {
      assert rows[k := y][1..] == rows[1..][k - 1 := y];
      TotalUpdate(rows[1..], k - 1, y, bookingId);
    }
  }

  lemma {:induction false} TotalRemove(rows: seq<FoodOrder>, k: nat, bookingId: nat)
    requires k < |rows|
    ensures Total(rows[..k] + rows[k + 1..], bookingId) == Total(rows, bookingId) - Contribution(rows[k], bookingId)
  {
    if k == 0 {
      assert rows[..0] + rows[1..] == rows[1..];
    } else {
      var r := rows[..k] + rows[k + 1..];
      assert r[1..] == rows[1..][..k - 1] + rows[1..][k..];
      TotalRemove(rows[1..], k - 1, bookingId);
    }
  }

  /** The price `add` puts on the bill: that of the existing row, if any. */
  function AddedPrice(rows: seq<FoodOrder>, bookingId: nat, itemName: string, price: int): int {
    match FindItem(rows, bookingId, itemName)
    case Some(k) => rows[k].price
    case None => price
  }

  /** `add` raises its booking's total by one unit price (the stored price
      of an existing row) and no other booking's total. */
  lemma TotalAfterAdd(rows: seq<FoodOrder>, nextId: nat, bookingId: nat, itemName: string, price: int, b: nat)
    ensures Total(AddItem(rows, nextId, bookingId, itemName, price), b) ==
      Total(rows, b) + (if b == bookingId then AddedPrice(rows, bookingId, itemName, price) else 0)
  {
    match FindItem(rows, bookingId, itemName)
    case Some(k) =>
      var y := WithQuantity(rows[k], rows[k].quantity + 1);
      TotalUpdate(rows, k, y, b);
      OneMore(rows[k]);
    case None =>
      TotalAppend(rows, FoodOrder(nextId, bookingId, itemName, price, 1, false), b);
  }

  /** The unit price that `increase` or `decrease` of `orderId` moves on the
      total of booking `b`: that of the selected row if it belongs to `b`. */
  function MovedPrice(rows: seq<FoodOrder>, orderId: nat, b: nat): int {
    match FindOrder(rows, orderId)
    case Some(k) => if rows[k].bookingId == b then rows[k].price else 0
    case None => 0
  }

  /** `increase` raises the total of the row's own booking by its price. */
  lemma TotalAfterIncrease(rows: seq<FoodOrder>, orderId: nat, b: nat)
    ensures Total(IncreaseQuantity(rows, orderId), b) == Total(rows, b) + MovedPrice(rows, orderId, b)
  {
    if FindOrder(rows, orderId).Some? {
      var k := FindOrder(rows, orderId).value;
      var y := WithQuantity(rows[k], rows[k].quantity + 1);
      TotalUpdate(rows, k, y, b);
      OneMore(rows[k]);
    }
  }

  /** `decrease` lowers the total of the row's own booking by its price,
      whether it decrements the row or deletes it. */
  lemma TotalAfterDecrease(rows: seq<FoodOrder>, orderId: nat, b: nat)
    requires QuantitiesPositive(rows)
    ensures Total(DecreaseQuantity(rows, orderId), b) == Total(rows, b) - MovedPrice(rows, orderId, b)
  {
    if FindOrder(rows, orderId).Some? {
      var k := FindOrder(rows, orderId).value;
      if rows[k].quantity > 1 {
        var y := WithQuantity(rows[k], rows[k].quantity - 1);
        TotalUpdate(rows, k, y, b);
        OneFewer(rows[k]);
      } else {
        TotalRemove(rows, k, b);
        assert rows[k].quantity == 1;
      }
    }
  }

  lemma OneMore(o: FoodOrder)
    ensures LineTotal(WithQuantity(o, o.quantity + 1)) == LineTotal(o) + o.price
  {
    calc {
      LineTotal(WithQuantity(o, o.quantity + 1));
      o.price * (o.quantity + 1);
      o.price * o.quantity + o.price;
    }
  }

  lemma OneFewer(o: FoodOrder)
    ensures LineTotal(WithQuantity(o, o.quantity - 1)) == LineTotal(o) - o.price
  {
    calc {
      LineTotal(WithQuantity(o, o.quantity - 1));
      o.price * (o.quantity - 1);
      o.price * o.quantity - o.price;
    }
  }

  /** `delete` lowers the total of the row's own booking by the row's line total. */
  lemma TotalAfterDelete(rows: seq<FoodOrder>, orderId: nat, b: nat)
    ensures Total(DeleteOrder(rows, orderId), b) ==
      Total(rows, b) - (match FindOrder(rows, orderId) case Some(k) => Contribution(rows[k], b) case None => 0)
  {
    if FindOrder(rows, orderId).Some? {
      TotalRemove(rows, FindOrder(rows, orderId).value, b);
    }
  }

  /** Marking a booking paid changes no price or quantity, so no total moves;
      in particular the food-payment total of a paid cart stays what it was. */
  lemma {:induction false} MarkPaidKeepsTotal(rows: seq<FoodOrder>, bookingId: nat, b: nat)
    ensures Total(MarkPaid(rows, bookingId), b) == Total(rows, b)
  {
    if rows != [] {
      assert MarkPaid(rows, bookingId)[1..] == MarkPaid(rows[1..], bookingId);
      MarkPaidKeepsTotal(rows[1..], bookingId, b);
    }
  }

  /** With positive prices and quantities, a booking's total is 0 exactly
      when it has no rows: only an empty cart cannot be confirmed. */
  lemma {:induction false} TotalZeroIffEmpty(rows: seq<FoodOrder>, bookingId: nat)
    requires QuantitiesPositive(rows)
    requires forall k :: 0 <= k < |rows| ==> rows[k].price > 0
    ensures Total(rows, bookingId) == 0 <==> forall k :: 0 <= k < |rows| ==> rows[k].bookingId != bookingId
    ensures Total(rows, bookingId) >= 0
  {
    if rows != [] {
      var tail := rows[1..];
      assert forall k :: 0 <= k < |tail| ==> tail[k] == rows[k + 1];
      TotalZeroIffEmpty(tail, bookingId);
      if rows[0].bookingId == bookingId {
        assert LineTotal(rows[0]) >= rows[0].price;
      }
    }
  }

  // ---------------------------------------------------------------------
  // The table and the handlers that change it.

  /** The `food_orders` table, with the id the next insert receives. */
  class FoodOrderTable {
    var rows: seq<FoodOrder>
    var nextId: nat

    ghost predicate Valid()
      reads this
    {
      WellFormed(rows, nextId)
    }

    constructor ()
      ensures Valid() && rows == [] && nextId == 1
    {
      rows := [];
      nextId := 1;
    }

    /** Lines 476-495: look the item up in the booking's cart, then update
        its quantity or insert a new row. */
    method Add(bookingId: nat, itemName: string, price: int)
      requires Valid()
      modifies this
      ensures Valid()
      ensures rows == AddItem(old(rows), old(nextId), bookingId, itemName, price)
      ensures nextId == NextIdAfterAdd(old(rows), old(nextId), bookingId, itemName)
    {
      AddKeepsWellFormed(rows, nextId, bookingId, itemName, price);
      var existing := FindItem(rows, bookingId, itemName);
      if existing.Some? {
        var k := existing.value;
        rows := rows[k := WithQuantity(rows[k], rows[k].quantity + 1)];
      } else {
        rows := rows + [FoodOrder(nextId, bookingId, itemName, price, 1, false)];
        nextId := nextId + 1;
      }
    }

    /** Lines 498-506. */
    method Increase(orderId: nat)
      requires Valid()
      modifies this
      ensures Valid() && nextId == old(nextId)
      ensures rows == IncreaseQuantity(old(rows), orderId)
    {
      IncreaseKeepsWellFormed(rows, nextId, orderId);
      var order := FindOrder(rows, orderId);
      if order.Some? {
        var k := order.value;
        rows := rows[k := WithQuantity(rows[k], rows[k].quantity + 1)];
      }
    }

    /** Lines 509-520. */
    method Decrease(orderId: nat)
      requires Valid()
      modifies this
      ensures Valid() && nextId == old(nextId)
      ensures rows == DecreaseQuantity(old(rows), orderId)
    {
      DecreaseKeepsWellFormed(rows, nextId, orderId);
      var order := FindOrder(rows, orderId);
      if order.Some? {
        var k := order.value;
        if rows[k].quantity > 1 {
          rows := rows[k := WithQuantity(rows[k], rows[k].quantity - 1)];
        } else {
          rows := rows[..k] + rows[k + 1..];
        }
      }
    }

    /** Lines 523-524. */
    method Delete(orderId: nat)
      requires Valid()
      modifies this
      ensures Valid() && nextId == old(nextId)
      ensures rows == DeleteOrder(old(rows), orderId)
    {
      DeleteKeepsWellFormed(rows, nextId, orderId);
      var order := FindOrder(rows, orderId);
      if order.Some? {
        var k := order.value;
        rows := rows[..k] + rows[k + 1..];
      }
    }

    /** The POST branch of `menu` (lines 464-532) for the session's booking. */
    method HandleMenuPost(bookingId: nat, req: CartRequest)
      requires Valid()
      modifies this
      ensures Valid()
      ensures rows == ApplyRequest(old(rows), old(nextId), bookingId, req)
      ensures nextId == NextIdAfterRequest(old(rows), old(nextId), bookingId, req)
    {
      if req.action == "add" && req.itemName != "" && req.itemPrice.Some? {
        Add(bookingId, req.itemName, req.itemPrice.value);
      } else if req.action == "increase" && req.orderId.Some? {
        Increase(req.orderId.value);
      } else if req.action == "decrease" && req.orderId.Some? {
        Decrease(req.orderId.value);
      } else if req.action == "delete" && req.orderId.Some? {
        Delete(req.orderId.value);
      }
    }

    /** `food_payment` (lines 593-615) for the session's booking: the total
        over all its rows, and on a confirmation with a positive total every
        row of the booking marked paid. */
    method ConfirmFoodPayment(bookingId: nat) returns (total: int, confirmed: bool)
      requires Valid()
      modifies this
      ensures Valid() && nextId == old(nextId)
      ensures total == Total(old(rows), bookingId)
      ensures confirmed <==> total > 0
      ensures rows == if confirmed then MarkPaid(old(rows), bookingId) else old(rows)
    {
      total := Total(rows, bookingId);
      confirmed := total > 0;
      if confirmed {
        MarkPaidKeepsWellFormed(rows, nextId, bookingId);
        rows := MarkPaid(rows, bookingId);
      }
    }
  }
}
