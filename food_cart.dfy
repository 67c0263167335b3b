/**
  The session cart of the food views: a dictionary from menu item to quantity kept in
  the user's session (`request.session['cart']`), changed in place by the add and
  remove handlers and emptied by checkout.
 */
module FoodCart {
  import opened Wrappers
  import opened Dict
  import opened FoodModels

  /** Item id to quantity. The session keys are `str(item_id)`; `str` is injective on ids,
      so the id itself stands for its key. */
  type Cart = Dict<ItemId, int>

  /** Every stored quantity is at least 1. */
  predicate AllPositive(c: Cart) {
    forall i :: 0 <= i < |c| ==> c[i].1 >= 1
  }

  /** With every quantity at least 1, the quantities add up to at least the number of entries. */
  lemma {:induction false} PositiveSumBounds(c: Cart)
    requires AllPositive(c)
    ensures SumValues(c) >= |c|
  {
    if c != [] {
      assert AllPositive(c[1..]) by {
        forall i | 0 <= i < |c| - 1 ensures c[1..][i].1 >= 1 { assert c[1..][i] == c[i + 1]; }
      }
      PositiveSumBounds(c[1..]);
    }
  }

  /** `cart[key] = cart.get(key, 0) + 1`. */
  function Increment(c: Cart, k: ItemId): (r: Cart)
    requires DistinctKeys(c)
    ensures DistinctKeys(r)
    ensures Get(r, k) == Some(Get(c, k).GetOr(0) + 1)
    ensures forall k' :: k' != k ==> Get(r, k') == Get(c, k')
    ensures SumValues(r) == SumValues(c) + 1
    ensures AllPositive(c) ==> AllPositive(r)
  {
    var q := Get(c, k).GetOr(0);
    assert AllPositive(c) ==> q >= 0 by {
      if AllPositive(c) && HasKey(c, k) { assert c[IndexOf(c, k).value].1 >= 1; }
    }
    PutSum(c, k, q + 1);
    PutPositive(c, k, q + 1);
    Put(c, k, q + 1)
  }

  /** `cart[key] -= 1`, then `del cart[key]` once it is 0 or less; a key that is not in the cart changes nothing. */
  function Decrement(c: Cart, k: ItemId): (r: Cart)
    requires DistinctKeys(c)
    ensures DistinctKeys(r)
    ensures !HasKey(c, k) ==> r == c
    ensures HasKey(c, k) && Get(c, k).value <= 1 ==> !HasKey(r, k)
    ensures HasKey(c, k) && Get(c, k).value > 1 ==> Get(r, k) == Some(Get(c, k).value - 1)
    ensures forall k' :: k' != k ==> Get(r, k') == Get(c, k')
    ensures AllPositive(c) && HasKey(c, k) ==> SumValues(r) == SumValues(c) - 1
    ensures AllPositive(c) ==> AllPositive(r)
  {
    match Get(c, k)
    case None => c
    case Some(q) =>
      if q - 1 <= 0 then
        RemoveSum(c, k);
        RemovePositive(c, k);
        Remove(c, k)
      else
        PutSum(c, k, q - 1);
        PutPositive(c, k, q - 1);
        Put(c, k, q - 1)
  }

  lemma PutPositive(c: Cart, k: ItemId, v: int)
    requires DistinctKeys(c)
    ensures AllPositive(c) && v >= 1 ==> AllPositive(Put(c, k, v))
  {
    var r := Put(c, k, v);
    if AllPositive(c) && v >= 1 {
      forall i | 0 <= i < |r| ensures r[i].1 >= 1 {
        match IndexOf(c, k)
        case Some(j) => if i != j { assert r[i] == c[i]; }
        case None => if i < |c| { assert r[i] == c[i]; }
      }
    }
  }

  lemma {:induction false} RemovePositive(c: Cart, k: ItemId)
    ensures AllPositive(c) ==> AllPositive(Remove(c, k))
  {
    if c != [] && AllPositive(c) {
      RemovePositive(c[1..], k);
      assert AllPositive(c[1..]) by {
        forall i | 0 <= i < |c[1..]| ensures c[1..][i].1 >= 1 { assert c[1..][i] == c[i + 1]; }
      }
      if c[0].0 != k {
        var rest := Remove(c[1..], k);
        forall i | 0 <= i < |[c[0]] + rest| ensures ([c[0]] + rest)[i].1 >= 1 {
          if i > 0 { assert ([c[0]] + rest)[i] == rest[i - 1]; }
        }
      }
    }
  }

  /**
    Adding an item and then removing the same item restores the cart exactly, including
    the order of its entries, provided every stored quantity is positive.
   */
  lemma AddThenRemoveRestores(c: Cart, k: ItemId)
    requires DistinctKeys(c) && AllPositive(c)
    ensures Decrement(Increment(c, k), k) == c
  {
    match IndexOf(c, k)
    case Some(i) =>
      IncrementInPlace(c, k, i);
      var up := c[i := (k, c[i].1 + 1)];
      DecrementInPlace(up, k, i);
      assert up[i := (k, c[i].1)] == c;
    case None =>
      var up := c + [(k, 1)];
      assert Increment(c, k) == up;
      assert Get(up, k) == Some(1);
      assert Decrement(up, k) == Remove(up, k);
      RemoveAppended(c, k, 1);
  }

  /** Incrementing a present item changes its entry in place. */
  lemma IncrementInPlace(c: Cart, k: ItemId, i: nat)
    requires DistinctKeys(c) && i < |c| && c[i].0 == k
    ensures Increment(c, k) == c[i := (k, c[i].1 + 1)]
  {
    assert Get(c, k) == Some(c[i].1);
    assert IndexOf(c, k) == Some(i);
  }

  /** Decrementing an item whose quantity stays positive changes its entry in place. */
  lemma DecrementInPlace(c: Cart, k: ItemId, i: nat)
    requires DistinctKeys(c) && i < |c| && c[i].0 == k && c[i].1 > 1
    ensures Decrement(c, k) == c[i := (k, c[i].1 - 1)]
  {
    assert Get(c, k) == Some(c[i].1);
    assert IndexOf(c, k) == Some(i);
    assert Decrement(c, k) == Put(c, k, c[i].1 - 1);
  }

  /** The responses of the two cart handlers (the JSON bodies, with their HTTP statuses). */
  datatype CartResponse =
    | MethodNotAllowed              // 405, only POST is accepted
    | ItemNotFound                  // 404 from get_object_or_404
    | Added(quantity: int, cartCount: int)
    | Removed(cartCount: int)

  /** The cart stored in one user's session. */
  class SessionCart {
    var cart: Cart

    ghost predicate Valid()
      reads this
    {
      DistinctKeys(cart) && AllPositive(cart)
    }

    /** `get_cart` of a session that has no cart yet: `{}`. */
    constructor ()
      ensures Valid() && cart == []
    {
      cart := [];
    }

    /** `cart_total_items`: the sum of all quantities; in a valid cart at least one per entry, so 0 exactly for the empty cart. */
    function TotalItems(): (n: int)
      reads this
      ensures AllPositive(cart) ==> n >= |cart| && (n == 0 <==> cart == [])
    {
      assert AllPositive(cart) ==> SumValues(cart) >= |cart| by {
        if AllPositive(cart) { PositiveSumBounds(cart); }
      }
      SumValues(cart)
    }

    /** `add_to_cart`: one more of an available menu item; answers with its quantity and the new cart count. */
    method AddToCart(isPost: bool, itemId: ItemId, menu: map<ItemId, MenuItem>) returns (resp: CartResponse)
      requires Valid()
      modifies this
      ensures Valid()
      ensures !isPost ==> resp == MethodNotAllowed && cart == old(cart)
      ensures isPost && !(itemId in menu && menu[itemId].isAvailable) ==> resp == ItemNotFound && cart == old(cart)
      ensures isPost && itemId in menu && menu[itemId].isAvailable ==>
                cart == Increment(old(cart), itemId)
                && resp == Added(Get(cart, itemId).value, old(TotalItems()) + 1)
                && TotalItems() == old(TotalItems()) + 1
    {
      if !isPost {
        return MethodNotAllowed;
      }
      if !(itemId in menu && menu[itemId].isAvailable) {
        return ItemNotFound;
      }
      cart := Increment(cart, itemId);
      resp := Added(Get(cart, itemId).value, TotalItems());
    }

    /** `remove_from_cart`: one fewer of an item, deleting it at zero; answers with the new cart count. */
    method RemoveFromCart(isPost: bool, itemId: ItemId) returns (resp: CartResponse)
      requires Valid()
      modifies this
      ensures Valid()
      ensures !isPost ==> resp == MethodNotAllowed && cart == old(cart)
      ensures isPost ==> cart == Decrement(old(cart), itemId) && resp == Removed(TotalItems())
      ensures isPost && HasKey(old(cart), itemId) ==> TotalItems() == old(TotalItems()) - 1
      ensures isPost && !HasKey(old(cart), itemId) ==> cart == old(cart)
    {
      if !isPost {
        return MethodNotAllowed;
      }
      cart := Decrement(cart, itemId);
      resp := Removed(TotalItems());
    }

    /** The session cart set to `{}` (as checkout and clear_cart do). */
    method Clear()
      modifies this
      ensures Valid() && cart == []
    {
      cart := [];
    }
  }
}
