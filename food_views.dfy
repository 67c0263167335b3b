/**
  The request handlers of the food module with their guards and table updates:
  placing an order from the session cart, the hourly demand counter, the stall
  owner's status changes and dashboard figures, and the order progress step.
 */
module FoodViews {
  import opened Wrappers
  import opened Dict
  import opened FoodModels
  import opened FoodCart

  /** The order lines checkout creates from `cart`: one per entry whose item is on the
      stall's menu, in cart order, at the current menu price; other entries are skipped. */
  function CartLines(cart: Cart, menu: map<ItemId, MenuItem>, stall: StallId): (lines: seq<OrderItem>)
    requires AllPositive(cart)
    ensures |lines| <= |cart|
  {
    if cart == [] then []
    else
      var k := cart[|cart| - 1].0;
      assert AllPositive(cart[..|cart| - 1]) by {
        forall i | 0 <= i < |cart| - 1 ensures cart[i].1 >= 1 { }
      }
      var lines := CartLines(cart[..|cart| - 1], menu, stall);
      if k in menu && menu[k].stall == stall then lines + [OrderItem(k, cart[|cart| - 1].1, menu[k].price)] else lines
  }

  /** Every line checkout creates is for an item of the cart on the stall's menu, with a
      positive quantity and the current menu price. */
  lemma {:induction false} CartLinesSound(cart: Cart, menu: map<ItemId, MenuItem>, stall: StallId)
    requires AllPositive(cart)
    ensures forall line :: line in CartLines(cart, menu, stall) ==>
              line.quantity >= 1 && line.menuItem in menu && menu[line.menuItem].stall == stall
              && line.price == menu[line.menuItem].price
              && HasKey(cart, line.menuItem)
  {
    if cart != [] {
      var init := cart[..|cart| - 1];
      assert AllPositive(init);
      CartLinesSound(init, menu, stall);
      forall k | HasKey(init, k) ensures HasKey(cart, k) {
        var j :| 0 <= j < |init| && init[j].0 == k;
        assert cart[j] == init[j];
      }
      assert HasKey(cart, cart[|cart| - 1].0);
    }
  }

  /** An entry of the cart whose item belongs to the stall always yields a line. */
  lemma {:induction false} CartLinesComplete(cart: Cart, menu: map<ItemId, MenuItem>, stall: StallId, i: nat)
    requires AllPositive(cart) && i < |cart|
    requires cart[i].0 in menu && menu[cart[i].0].stall == stall
    ensures OrderItem(cart[i].0, cart[i].1, menu[cart[i].0].price) in CartLines(cart, menu, stall)
  {
    var init := cart[..|cart| - 1];
    if i < |cart| - 1 {
      assert init[i] == cart[i];
      CartLinesComplete(init, menu, stall, i);
    }
  }

  /** What checkout did: the guard that refused, or the new order's id and total. */
  datatype CheckoutOutcome =
    | StallNotFound        // 404
    | NoStudentProfile     // redirect to the stall list
    | EmptyCart            // redirect to the menu
    | NotPost              // redirect to the cart page
    | InvalidForm          // no slot of this stall chosen
    | SlotFull             // redirect to the cart page
    | Placed(orderId: OrderId, total: Paise)

  /**
    `update_demand_record`: get-or-create the counter of (stall, today, hour) with
    day_of_week = weekday(today) and order_count = 0, then add one to it.
   */
  method UpdateDemandRecord(db: FoodDb, stall: StallId, today: Date, hour: int)
    requires db.Valid()
    modifies db`demand
    ensures db.Valid()
    ensures Get(db.demand, DemandKey(stall, today, hour))
         == Some(match Get(old(db.demand), DemandKey(stall, today, hour))
                 case Some(r) => r.(orderCount := r.orderCount + 1)
                 case None => DemandRecord(1, Weekday(today)))
    ensures forall k :: k != DemandKey(stall, today, hour) ==> Get(db.demand, k) == Get(old(db.demand), k)
  {
    var key := DemandKey(stall, today, hour);
    var record := match Get(db.demand, key)
                  case Some(r) => r
                  case None => DemandRecord(0, Weekday(today));
    record := record.(orderCount := record.orderCount + 1);
    db.demand := Put(db.demand, key, record);
  }

  /** A checkout form is valid when it names one of the stall's break slots. */
  predicate SlotChoiceValid(slots: map<SlotId, BreakSlot>, stall: StallId, choice: Option<SlotId>) {
    choice.Some? && choice.value in slots && slots[choice.value].stall == stall
  }

  /**
    `checkout`: the guards in order (stall, student profile, non-empty cart, POST,
    valid slot, slot not full); then a Pending order for today whose lines are the
    cart's items of this stall and whose total is the sum of their price times
    quantity, one more demand count for this hour, and an empty cart.
   */
  method Checkout(db: FoodDb, session: SessionCart, stalls: set<StallId>, stall: StallId,
                  student: Option<StudentId>, isPost: bool, slotChoice: Option<SlotId>, note: string,
                  today: Date, hour: int)
    returns (outcome: CheckoutOutcome)
    requires db.Valid() && session.Valid()
    modifies db, session
    ensures db.Valid() && session.Valid()
    ensures db.menu == old(db.menu) && db.slots == old(db.slots)
    ensures outcome.Placed? <==>
              stall in stalls && student.Some? && old(session.cart) != [] && isPost
              && SlotChoiceValid(db.slots, stall, slotChoice)
              && !IsFull(old(db.orders), slotChoice.value, db.slots[slotChoice.value], today)
    ensures !outcome.Placed? ==>
              db.orders == old(db.orders) && db.demand == old(db.demand)
              && db.nextOrderId == old(db.nextOrderId) && session.cart == old(session.cart)
    ensures stall !in stalls ==> outcome == StallNotFound
    ensures stall in stalls && student.None? ==> outcome == NoStudentProfile
    ensures stall in stalls && student.Some? && old(session.cart) == [] ==> outcome == EmptyCart
    ensures stall in stalls && student.Some? && old(session.cart) != [] && !isPost ==> outcome == NotPost
    ensures (stall in stalls && student.Some? && old(session.cart) != [] && isPost
             && !SlotChoiceValid(db.slots, stall, slotChoice))
            ==> outcome == InvalidForm
    ensures (stall in stalls && student.Some? && old(session.cart) != [] && isPost
             && SlotChoiceValid(db.slots, stall, slotChoice)
             && IsFull(old(db.orders), slotChoice.value, db.slots[slotChoice.value], today))
            ==> outcome == SlotFull
    ensures outcome.Placed? ==>
              var lines := CartLines(old(session.cart), db.menu, stall);
              && outcome.orderId == old(db.nextOrderId)
              && outcome.total == ItemsTotal(lines)
              && db.orders == old(db.orders)
                   + [(outcome.orderId, Order(student.value, stall, slotChoice.value, today, PENDING, outcome.total, lines, note))]
              && db.nextOrderId == old(db.nextOrderId) + 1
              && Get(db.demand, DemandKey(stall, today, hour)).Some?
              && Get(db.demand, DemandKey(stall, today, hour)).value.orderCount
                 == (match Get(old(db.demand), DemandKey(stall, today, hour))
                     case Some(r) => r.orderCount + 1
                     case None => 1)
              && (forall k :: k != DemandKey(stall, today, hour) ==> Get(db.demand, k) == Get(old(db.demand), k))
              && session.cart == []
  {
    if stall !in stalls {
      return StallNotFound;
    }
    if student.None? {
      return NoStudentProfile;
    }
    var cart := session.cart;
    if cart == [] {
      return EmptyCart;
    }
    if !isPost {
      return NotPost;
    }
    if !SlotChoiceValid(db.slots, stall, slotChoice) {
      return InvalidForm;
    }
    var slotId := slotChoice.value;
    if IsFull(db.orders, slotId, db.slots[slotId], today) {
      return SlotFull;
    }

    var orderId, grandTotal := PlaceOrder(db, session, student.value, stall, slotId, note, today, hour);
    outcome := Placed(orderId, grandTotal);
  }

  /**
    What `checkout` does once every guard has passed: a Pending order for today under the
    next id, its lines and total from the cart, one more demand count for this hour, and
    an empty cart.
   */
  method PlaceOrder(db: FoodDb, session: SessionCart, student: StudentId, stall: StallId, slotId: SlotId,
                    note: string, today: Date, hour: int)
    returns (orderId: OrderId, total: Paise)
    requires db.Valid() && session.Valid()
    modifies db`orders, db`nextOrderId, db`demand, session
    ensures db.Valid() && session.Valid()
    ensures var lines := CartLines(old(session.cart), db.menu, stall);
            && orderId == old(db.nextOrderId)
            && total == ItemsTotal(lines)
            && db.orders == old(db.orders) + [(orderId, Order(student, stall, slotId, today, PENDING, total, lines, note))]
            && db.nextOrderId == old(db.nextOrderId) + 1
    ensures Get(db.demand, DemandKey(stall, today, hour)).Some?
    ensures Get(db.demand, DemandKey(stall, today, hour)).value.orderCount
            == (match Get(old(db.demand), DemandKey(stall, today, hour))
                case Some(r) => r.orderCount + 1
                case None => 1)
    ensures forall k :: k != DemandKey(stall, today, hour) ==> Get(db.demand, k) == Get(old(db.demand), k)
    ensures session.cart == []
  {
    orderId := db.nextOrderId;
    var lines;
    lines, total := CollectLines(session.cart, db.menu, stall);
    var order := Order(student, stall, slotId, today, PENDING, total, lines, note);
    assert !HasKey(db.orders, orderId);
    AppendOrderValid(db.orders, db.nextOrderId, order);
    db.orders := db.orders + [(orderId, order)];
    db.nextOrderId := db.nextOrderId + 1;

    UpdateDemandRecord(db, stall, today, hour);
    session.Clear();
  }

  /**
    The item loop of `checkout`: one line per cart entry whose item is on the stall's
    menu, at the menu price, skipping the others, while `grand_total` adds up price
    times quantity.
   */
  method CollectLines(cart: Cart, menu: map<ItemId, MenuItem>, stall: StallId)
    returns (lines: seq<OrderItem>, grandTotal: Paise)
    requires AllPositive(cart)
    ensures lines == CartLines(cart, menu, stall)
    ensures grandTotal == ItemsTotal(lines)
  {
    lines := [];
    grandTotal := 0;
    var i := 0;
    while i < |cart|
      invariant 0 <= i <= |cart|
      invariant AllPositive(cart[..i])
      invariant lines == CartLines(cart[..i], menu, stall)
      invariant grandTotal == ItemsTotal(lines)
    {
      CartLinesStep(cart, menu, stall, i);
      if cart[i].0 in menu && menu[cart[i].0].stall == stall {
        var line := OrderItem(cart[i].0, cart[i].1, menu[cart[i].0].price);
        assert (lines + [line])[..|lines|] == lines;
        lines := lines + [line];
        grandTotal := grandTotal + line.price * line.quantity;
      }
      i := i + 1;
    }
    assert cart[..i] == cart;
  }

  /** Taking one more cart entry adds its line when the item is on the stall's menu, and nothing otherwise. */
  lemma CartLinesStep(cart: Cart, menu: map<ItemId, MenuItem>, stall: StallId, i: nat)
    requires AllPositive(cart) && i < |cart|
    ensures AllPositive(cart[..i]) && AllPositive(cart[..i + 1])
    ensures CartLines(cart[..i + 1], menu, stall)
            == if cart[i].0 in menu && menu[cart[i].0].stall == stall
               then CartLines(cart[..i], menu, stall) + [OrderItem(cart[i].0, cart[i].1, menu[cart[i].0].price)]
               else CartLines(cart[..i], menu, stall)
  {
    assert cart[..i + 1][..i] == cart[..i];
    assert cart[..i + 1][i] == cart[i];
  }

  lemma AppendOrderValid(orders: Dict<OrderId, Order>, next: OrderId, o: Order)
    requires OrdersValid(orders, next) && o.status in STATUS_CHOICES
    ensures OrdersValid(orders + [(next, o)], next + 1)
  {
    var r := orders + [(next, o)];
    forall i, j | 0 <= i < j < |r| ensures r[i].0 != r[j].0 {
      if j < |orders| { assert r[i] == orders[i] && r[j] == orders[j]; } else { assert r[i] == orders[i]; }
    }
    forall i | 0 <= i < |r| ensures r[i].0 < next + 1 && r[i].1.status in STATUS_CHOICES {
      if i < |orders| { assert r[i] == orders[i]; }
    }
  }

  /** The answer of `update_order_status`. */
  datatype StatusResponse =
    | OrderNotFound                // 404: not an order of the caller's stall
    | StatusChanged(code: string)  // 200 with the new code
    | BadRequest                   // 400: not POST, or not a code of STATUS_CHOICES

  /**
    `update_order_status`: the stall owner sets an order's status, only to one of the
    codes of STATUS_CHOICES; anything else leaves the order as it was and answers 400.
   */
  method UpdateOrderStatus(db: FoodDb, ownerStall: Option<StallId>, orderId: OrderId,
                           isPost: bool, newStatus: Option<string>)
    returns (resp: StatusResponse)
    requires db.Valid()
    modifies db`orders
    ensures db.Valid()
    ensures var found := Get(old(db.orders), orderId);
            if found.None? || ownerStall != Some(found.value.stall) then
              resp == OrderNotFound && db.orders == old(db.orders)
            else if isPost && newStatus.Some? && newStatus.value in STATUS_CHOICES then
              resp == StatusChanged(newStatus.value)
              && db.orders == Put(old(db.orders), orderId, found.value.(status := newStatus.value))
            else
              resp == BadRequest && db.orders == old(db.orders)
  {
    var found := Get(db.orders, orderId);
    if found.None? || ownerStall != Some(found.value.stall) {
      return OrderNotFound;
    }
    if isPost && newStatus.Some? && newStatus.value in STATUS_CHOICES {
      var order := found.value.(status := newStatus.value);
      assert db.orders[IndexOf(db.orders, orderId).value].0 == orderId;
      OrdersPutValid(db.orders, db.nextOrderId, orderId, order);
      db.orders := Put(db.orders, orderId, order);
      return StatusChanged(newStatus.value);
    }
    return BadRequest;
  }

  /** The progress-bar step of `order_detail`: P 1, C 2, R 3, X 4, N 0, any other code 1. */
  function StatusStep(status: string): (step: nat)
    ensures step <= 4
    ensures step == 0 <==> status == "N"
  {
    if status == "P" then 1
    else if status == "C" then 2
    else if status == "R" then 3
    else if status == "X" then 4
    else if status == "N" then 0
    else 1
  }

  /** The steps follow the order's life: Pending, Confirmed, Ready, Collected rise strictly,
      Cancelled is step 0, the five codes get different steps, and an unknown code shows as Pending. */
  lemma StatusStepsFollowProgress(other: string)
    requires other !in STATUS_CHOICES
    ensures StatusStep("P") < StatusStep("C") < StatusStep("R") < StatusStep("X")
    ensures StatusStep("N") == 0
    ensures forall a, b :: a in STATUS_CHOICES && b in STATUS_CHOICES && a != b ==> StatusStep(a) != StatusStep(b)
    ensures StatusStep(other) == StatusStep(PENDING)
  {
  }

  /** Today's orders of a stall, in table order. */
  function TodayOrders(orders: Dict<OrderId, Order>, stall: StallId, today: Date): (os: seq<Order>)
    ensures |os| <= |orders|
    ensures forall o :: o in os <==> o in Values(orders) && o.stall == stall && o.orderDate == today
  {
    if orders == [] then []
    else
      var rest := TodayOrders(orders[1..], stall, today);
      assert Values(orders) == [orders[0].1] + Values(orders[1..]);
      var o := orders[0].1;
      if o.stall == stall && o.orderDate == today then [o] + rest else rest
  }

  /** A newly appended order shows on its stall's dashboard for its date, after the earlier ones. */
  lemma {:induction false} TodayOrdersAppend(orders: Dict<OrderId, Order>, e: (OrderId, Order), stall: StallId, today: Date)
    ensures TodayOrders(orders + [e], stall, today)
         == TodayOrders(orders, stall, today) + (if e.1.stall == stall && e.1.orderDate == today then [e.1] else [])
  {
    if orders == [] {
      assert ([] + [e])[1..] == [];
    } else {
      assert (orders + [e])[1..] == orders[1..] + [e];
      TodayOrdersAppend(orders[1..], e, stall, today);
    }
  }

  /** Number of orders with status `code`. */
  function CountStatus(os: seq<Order>, code: string): nat {
    if os == [] then 0 else (if os[0].status == code then 1 else 0) + CountStatus(os[1..], code)
  }

  /** Sum of the totals of the orders with status `code`. */
  function StatusTotal(os: seq<Order>, code: string): Paise {
    if os == [] then 0 else (if os[0].status == code then os[0].total else 0) + StatusTotal(os[1..], code)
  }

  /** Sum of the totals of the confirmed, ready and collected orders (`or 0` when there are none). */
  function Revenue(os: seq<Order>): Paise {
    if os == [] then 0
    else (if os[0].status in ["C", "R", "X"] then os[0].total else 0) + Revenue(os[1..])
  }

  datatype DashboardStats = DashboardStats(
    totalOrders: nat, pending: nat, confirmed: nat, ready: nat, collected: nat, totalRevenue: Paise)

  /** The figures of `owner_dashboard` for today's orders of the caller's stall; None when the caller owns no stall. */
  function OwnerDashboard(orders: Dict<OrderId, Order>, owner: Option<StallId>, today: Date): (r: Option<DashboardStats>)
    ensures r.None? <==> owner.None?
    ensures r.Some? ==> r.value.totalOrders <= |orders|
    ensures r.Some? && (forall i :: 0 <= i < |orders| ==> orders[i].1.status in STATUS_CHOICES) ==>
              r.value.pending + r.value.confirmed + r.value.ready + r.value.collected <= r.value.totalOrders
  {
    match owner
    case None => None
    case Some(stall) =>
      var os := TodayOrders(orders, stall, today);
      assert (forall i :: 0 <= i < |orders| ==> orders[i].1.status in STATUS_CHOICES) ==>
               CountStatus(os, "P") + CountStatus(os, "C") + CountStatus(os, "R") + CountStatus(os, "X") <= |os| by {
        if forall i :: 0 <= i < |orders| ==> orders[i].1.status in STATUS_CHOICES {
          forall i | 0 <= i < |os| ensures os[i].status in STATUS_CHOICES {
            assert os[i] in os;
            var j :| 0 <= j < |Values(orders)| && Values(orders)[j] == os[i];
          }
          DashboardCountsPartition(os);
        }
      }
      Some(DashboardStats(|os|, CountStatus(os, "P"), CountStatus(os, "C"), CountStatus(os, "R"),
                          CountStatus(os, "X"), Revenue(os)))
  }

  /**
    On a table whose statuses are codes of STATUS_CHOICES the five per-status counts add
    up to the number of orders, so the dashboard's total minus its four shown counts is
    the number of cancelled orders; and the revenue is the confirmed, ready and collected
    totals, never the pending or cancelled ones.
   */
  lemma {:induction false} DashboardCountsPartition(os: seq<Order>)
    requires forall i :: 0 <= i < |os| ==> os[i].status in STATUS_CHOICES
    ensures |os| == CountStatus(os, "P") + CountStatus(os, "C") + CountStatus(os, "R")
                    + CountStatus(os, "X") + CountStatus(os, "N")
    ensures Revenue(os) == StatusTotal(os, "C") + StatusTotal(os, "R") + StatusTotal(os, "X")
  {
    if os != [] {
      DashboardCountsPartition(os[1..]);
    }
  }

  /** A new Pending order adds one to the pending count and nothing to the revenue. */
  lemma {:induction false} PendingOrderEarnsNothing(os: seq<Order>, o: Order)
    requires o.status == PENDING
    ensures Revenue(os + [o]) == Revenue(os)
    ensures CountStatus(os + [o], "P") == CountStatus(os, "P") + 1
  {
    if os == [] {
      assert ([] + [o])[1..] == [];
    } else {
      assert (os + [o])[1..] == os[1..] + [o];
      PendingOrderEarnsNothing(os[1..], o);
    }
  }
}
