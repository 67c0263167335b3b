/**
  The food pre-ordering tables (stalls' menu items, break slots, orders with their
  line items, and the hourly demand counters) and the derived properties that the
  models compute from them.
 */
module FoodModels {
  import opened Wrappers
  import opened Dict

  type StallId = nat
  type ItemId = nat
  type SlotId = nat
  type OrderId = nat
  type StudentId = nat

  /** A calendar date as its proleptic Gregorian ordinal (Python's `date.toordinal()`). */
  type Date = int

  /** An amount of money in paise: a two-decimal rupee DecimalField times 100. */
  type Paise = int

  /** The codes of `Order.STATUS_CHOICES`, in declaration order. */
  const STATUS_CHOICES: seq<string> := ["P", "C", "R", "X", "N"]

  /** The default status of a new order (Pending). */
  const PENDING: string := "P"

  /** The statuses that still occupy a place in a break slot: Pending, Confirmed, Ready. */
  const HOLDING_STATUSES: seq<string> := ["P", "C", "R"]

  /** `date.weekday()`: 0 for Monday up to 6 for Sunday. Ordinal 1 (1 January of year 1) is a Monday. */
  function Weekday(d: Date): (w: int)
    ensures 0 <= w < 7
    ensures d == 1 ==> w == 0
  {
    (d + 6) % 7
  }

  datatype MenuItem = MenuItem(stall: StallId, price: Paise, isAvailable: bool)

  /** A pick-up window of a stall with its capacity (`max_orders`, 30 by default). */
  datatype BreakSlot = BreakSlot(stall: StallId, maxOrders: int)

  /** A line of an order; `price` is the menu price at the time of ordering. */
  datatype OrderItem = OrderItem(menuItem: ItemId, quantity: nat, price: Paise)

  datatype Order = Order(
    student: StudentId,
    stall: StallId,
    slot: SlotId,
    orderDate: Date,
    status: string,
    total: Paise,
    items: seq<OrderItem>,
    note: string)

  /** The unique key of a DemandRecord: one counter per stall, date and hour of day. */
  datatype DemandKey = DemandKey(stall: StallId, date: Date, hour: int)

  datatype DemandRecord = DemandRecord(orderCount: int, dayOfWeek: int)

  /** `OrderItem.subtotal`: price times quantity, so a line of a positive quantity costs at least its unit price. */
  function Subtotal(item: OrderItem): (s: Paise)
    ensures item.quantity == 0 ==> s == 0
    ensures item.price >= 0 ==> s >= 0 && (item.quantity >= 1 ==> s >= item.price)
  {
    item.price * item.quantity
  }

  /** The sum of the subtotals of `items`, in order. */
  function ItemsTotal(items: seq<OrderItem>): Paise {
    if items == [] then 0 else ItemsTotal(items[..|items| - 1]) + Subtotal(items[|items| - 1])
  }

  /** The total of a concatenation is the sum of the totals: the order of the lines does not matter. */
  lemma {:induction false} ItemsTotalAppend(a: seq<OrderItem>, b: seq<OrderItem>)
    ensures ItemsTotal(a + b) == ItemsTotal(a) + ItemsTotal(b)
  {
    if b == [] {
      assert a + b == a;
    } else {
      assert (a + b)[..|a + b| - 1] == a + b[..|b| - 1];
      ItemsTotalAppend(a, b[..|b| - 1]);
    }
  }

  /** Lines with a non-negative price and a positive quantity never lower the total, and each adds at least its price. */
  lemma {:induction false} ItemsTotalBounds(items: seq<OrderItem>)
    requires forall i :: 0 <= i < |items| ==> items[i].price >= 0 && items[i].quantity >= 1
    ensures ItemsTotal(items) >= 0
    ensures forall i :: 0 <= i < |items| ==> ItemsTotal(items) >= items[i].price
  {
    if items != [] {
      var init := items[..|items| - 1];
      ItemsTotalBounds(init);
      var last := items[|items| - 1];
      assert Subtotal(last) >= last.price by {
        assert last.price * last.quantity == last.price + last.price * (last.quantity - 1);
      }
      forall i | 0 <= i < |items| ensures ItemsTotal(items) >= items[i].price {
        if i < |items| - 1 { assert items[i] == init[i]; }
      }
    }
  }

  /** True when order `o` is booked for slot `slot` today and not yet collected or cancelled. */
  predicate HoldsPlace(o: Order, slot: SlotId, today: Date) {
    o.slot == slot && o.orderDate == today && o.status in HOLDING_STATUSES
  }

  /** `BreakSlot.current_order_count`: today's orders of the slot with status P, C or R. */
  function CurrentOrderCount(orders: Dict<OrderId, Order>, slot: SlotId, today: Date): (n: nat)
    ensures n <= |orders|
    ensures n == 0 <== forall i :: 0 <= i < |orders| ==> !HoldsPlace(orders[i].1, slot, today)
  {
    if orders == [] then 0
    else (if HoldsPlace(orders[0].1, slot, today) then 1 else 0) + CurrentOrderCount(orders[1..], slot, today)
  }

  lemma {:induction false} CountUpdate(orders: Dict<OrderId, Order>, i: nat, e: (OrderId, Order), slot: SlotId, today: Date)
    requires i < |orders|
    ensures CurrentOrderCount(orders[i := e], slot, today)
         == CurrentOrderCount(orders, slot, today)
            - (if HoldsPlace(orders[i].1, slot, today) then 1 else 0)
            + (if HoldsPlace(e.1, slot, today) then 1 else 0)
  {
    if i == 0 {
      assert orders[i := e][1..] == orders[1..];
    } else {
      assert orders[i := e][1..] == orders[1..][i - 1 := e];
      CountUpdate(orders[1..], i - 1, e, slot, today);
    }
  }

  lemma {:induction false} CountAppend(orders: Dict<OrderId, Order>, e: (OrderId, Order), slot: SlotId, today: Date)
    ensures CurrentOrderCount(orders + [e], slot, today)
         == CurrentOrderCount(orders, slot, today) + (if HoldsPlace(e.1, slot, today) then 1 else 0)
  {
    if orders == [] {
      assert ([] + [e])[1..] == [];
    } else {
      assert (orders + [e])[1..] == orders[1..] + [e];
      CountAppend(orders[1..], e, slot, today);
    }
  }

  /**
    Writing an order changes the slot's count by whether the old row held a place and
    whether the new one does: a new Pending order takes a place, and moving an order to
    Collected or Cancelled frees the place it held.
   */
  lemma CountAfterPut(orders: Dict<OrderId, Order>, id: OrderId, o: Order, slot: SlotId, today: Date)
    requires DistinctKeys(orders)
    ensures CurrentOrderCount(Put(orders, id, o), slot, today)
         == CurrentOrderCount(orders, slot, today)
            - (if Get(orders, id).Some? && HoldsPlace(Get(orders, id).value, slot, today) then 1 else 0)
            + (if HoldsPlace(o, slot, today) then 1 else 0)
  {
    match IndexOf(orders, id)
    case Some(i) => CountUpdate(orders, i, (id, o), slot, today);
    case None => CountAppend(orders, (id, o), slot, today);
  }

  /** `BreakSlot.is_full`. */
  predicate IsFull(orders: Dict<OrderId, Order>, slotId: SlotId, slot: BreakSlot, today: Date) {
    CurrentOrderCount(orders, slotId, today) >= slot.maxOrders
  }

  /** `BreakSlot.slots_left`: never negative, zero exactly when the slot is full, and otherwise what fills it to capacity. */
  function SlotsLeft(orders: Dict<OrderId, Order>, slotId: SlotId, slot: BreakSlot, today: Date): (r: int)
    ensures r >= 0
    ensures r == 0 <==> IsFull(orders, slotId, slot, today)
    ensures !IsFull(orders, slotId, slot, today) ==> CurrentOrderCount(orders, slotId, today) + r == slot.maxOrders
  {
    var left := slot.maxOrders - CurrentOrderCount(orders, slotId, today);
    if 0 >= left then 0 else left
  }

  /**
    A full slot whose count is exactly its capacity is no longer full once one of its
    places is released, by moving an order holding it to Collected or Cancelled: one
    place becomes free.
   */
  lemma ReleasingFreesFullSlot(orders: Dict<OrderId, Order>, id: OrderId, slotId: SlotId, slot: BreakSlot,
                               today: Date, status: string)
    requires DistinctKeys(orders)
    requires Get(orders, id).Some? && HoldsPlace(Get(orders, id).value, slotId, today)
    requires CurrentOrderCount(orders, slotId, today) == slot.maxOrders
    requires status in STATUS_CHOICES && status !in HOLDING_STATUSES
    ensures IsFull(orders, slotId, slot, today)
    ensures !IsFull(Put(orders, id, Get(orders, id).value.(status := status)), slotId, slot, today)
    ensures SlotsLeft(Put(orders, id, Get(orders, id).value.(status := status)), slotId, slot, today) == 1
  {
    CountAfterPut(orders, id, Get(orders, id).value.(status := status), slotId, today);
  }

  /**
    The food database: the menu and the break slots are read here, orders and demand
    counters are written. Orders are keyed by id in creation order; demand counters
    by their unique (stall, date, hour) key.
   */
  class FoodDb {
    var menu: map<ItemId, MenuItem>
    var slots: map<SlotId, BreakSlot>
    var orders: Dict<OrderId, Order>
    var demand: Dict<DemandKey, DemandRecord>
    var nextOrderId: OrderId

    /** Keys are unique (`unique_together` for demand), ids stay below the next one,
        and statuses are codes of STATUS_CHOICES. */
    ghost predicate Valid()
      reads this
    {
      && OrdersValid(orders, nextOrderId)
      && DistinctKeys(demand)
    }

    constructor (menu: map<ItemId, MenuItem>, slots: map<SlotId, BreakSlot>)
      ensures Valid()
      ensures this.menu == menu && this.slots == slots
      ensures orders == [] && demand == [] && nextOrderId == 0
    {
      this.menu := menu;
      this.slots := slots;
      orders := [];
      demand := [];
      nextOrderId := 0;
    }

    /** `Order.calculate_total`: store the sum of the order's line subtotals as its total and return it. */
    method CalculateTotal(id: OrderId) returns (total: Paise)
      requires Valid() && HasKey(orders, id)
      modifies this`orders
      ensures Valid()
      ensures total == ItemsTotal(Get(old(orders), id).value.items)
      ensures orders == Put(old(orders), id, Get(old(orders), id).value.(total := total))
    {
      var order := Get(orders, id).value;
      total := ItemsTotal(order.items);
      var i := IndexOf(orders, id).value;
      assert orders[i].1 == order;
      OrdersPutValid(orders, nextOrderId, id, order.(total := total));
      orders := Put(orders, id, order.(total := total));
    }
  }

  /** The order-table part of FoodDb.Valid(). */
  ghost predicate OrdersValid(orders: Dict<OrderId, Order>, nextOrderId: OrderId) {
    && DistinctKeys(orders)
    && (forall i :: 0 <= i < |orders| ==> orders[i].0 < nextOrderId && orders[i].1.status in STATUS_CHOICES)
  }

  /** Writing an order with a valid status under an id below the next one keeps the table valid. */
  lemma OrdersPutValid(orders: Dict<OrderId, Order>, nextOrderId: OrderId, id: OrderId, o: Order)
    requires OrdersValid(orders, nextOrderId)
    requires id < nextOrderId && o.status in STATUS_CHOICES
    ensures OrdersValid(Put(orders, id, o), nextOrderId)
  {
    var r := Put(orders, id, o);
    forall i | 0 <= i < |r| ensures r[i].0 < nextOrderId && r[i].1.status in STATUS_CHOICES {
      match IndexOf(orders, id)
      case Some(j) => if i != j { assert r[i] == orders[i]; }
      case None => if i < |orders| { assert r[i] == orders[i]; }
    }
  }
}
