/** The shopper's page: the cart updaters and totals, the classification of a
    checkout's settled purchases, and the greeting name read from the cookies. */
module UserDashboard {
  import opened Common
  import opened Dashboard
  import Inventory

  /** A cart line: the sweet as it was added, and how many of it are wanted. */
  datatype CartItem = CartItem(product: Product, cartQuantity: int)

  predicate InCart(cart: seq<CartItem>, id: string) {
    exists i :: 0 <= i < |cart| && cart[i].product.id == id
  }

  predicate UniqueIds(cart: seq<CartItem>) {
    forall i, j :: 0 <= i < j < |cart| ==> cart[i].product.id != cart[j].product.id
  }

  function Min(a: int, b: int): int {
    if a <= b then a else b
  }

  /** cart.find(item => item._id === id). */
  function Find(cart: seq<CartItem>, id: string): (r: Option<CartItem>)
    ensures r.None? <==> !InCart(cart, id)
    ensures r.Some? ==> r.value.product.id == id && r.value == cart[FindIndex(cart, id)]
  {
    if cart == [] then None
    else if cart[0].product.id == id then Some(cart[0])
    else
      var r := Find(cart[1..], id);
      assert InCart(cart[1..], id) ==> InCart(cart, id) by {
        if InCart(cart[1..], id) {
          var i :| 0 <= i < |cart[1..]| && cart[1..][i].product.id == id;
          assert cart[i + 1].product.id == id;
        }
      }
      assert InCart(cart, id) && cart[0].product.id != id ==> InCart(cart[1..], id) by {
        if InCart(cart, id) && cart[0].product.id != id {
          var i :| 0 <= i < |cart| && cart[i].product.id == id;
          assert cart[1..][i - 1].product.id == id;
        }
      }
      r
  }

  /** The position of the first line with the id. */
  function FindIndex(cart: seq<CartItem>, id: string): (i: nat)
    ensures InCart(cart, id) ==> i < |cart| && cart[i].product.id == id
    ensures InCart(cart, id) ==> forall k :: 0 <= k < i ==> cart[k].product.id != id
  {
    if cart == [] || cart[0].product.id == id then 0
    else
      assert InCart(cart, id) ==> InCart(cart[1..], id) by {
        if InCart(cart, id) {
          var i :| 0 <= i < |cart| && cart[i].product.id == id;
          assert cart[1..][i - 1].product.id == id;
        }
      }
      1 + FindIndex(cart[1..], id)
  }

  /** The map of addToCart: every line with the id goes up by one, capped at cap. */
  function Bump(cart: seq<CartItem>, id: string, cap: int): (r: seq<CartItem>)
    ensures |r| == |cart|
    ensures forall i :: 0 <= i < |cart| ==> r[i].product == cart[i].product
    ensures forall i :: 0 <= i < |cart| ==>
      r[i].cartQuantity == if cart[i].product.id == id then Min(cart[i].cartQuantity + 1, cap) else cart[i].cartQuantity
  {
    if cart == [] then []
    else
      var item := cart[0];
      [if item.product.id == id then item.(cartQuantity := Min(item.cartQuantity + 1, cap)) else item]
      + Bump(cart[1..], id, cap)
  }

  /** The map of removeFromCart: every line with the id goes down by one. */
  function Decrement(cart: seq<CartItem>, id: string): (r: seq<CartItem>)
    ensures |r| == |cart|
    ensures forall i :: 0 <= i < |cart| ==> r[i].product == cart[i].product
    ensures forall i :: 0 <= i < |cart| ==>
      r[i].cartQuantity == if cart[i].product.id == id then cart[i].cartQuantity - 1 else cart[i].cartQuantity
  {
    if cart == [] then []
    else
      var item := cart[0];
      [if item.product.id == id then item.(cartQuantity := item.cartQuantity - 1) else item]
      + Decrement(cart[1..], id)
  }

  /** The filter of removeFromCart: the lines with other ids, in order. */
  function Without(cart: seq<CartItem>, id: string): (r: seq<CartItem>)
    ensures |r| <= |cart|
    ensures forall x :: x in r <==> x in cart && x.product.id != id
  {
    if cart == [] then []
    else if cart[0].product.id == id then Without(cart[1..], id)
    else [cart[0]] + Without(cart[1..], id)
  }

  /** addToCart: a sweet already in the cart has its quantity raised by one, capped at
      the sweet's stock; a new sweet is appended with quantity 1. */
  function AddToCart(cart: seq<CartItem>, sweet: Product): (r: seq<CartItem>)
    ensures !InCart(cart, sweet.id) ==> r == cart + [CartItem(sweet, 1)]
    ensures InCart(cart, sweet.id) ==> r == Bump(cart, sweet.id, sweet.quantity)
  {
    if Find(cart, sweet.id).Some? then Bump(cart, sweet.id, sweet.quantity)
    else cart + [CartItem(sweet, 1)]
  }

  /** removeFromCart: a line with more than one is decremented, otherwise the sweet
      leaves the cart. */
  function RemoveFromCart(cart: seq<CartItem>, id: string): (r: seq<CartItem>)
    ensures InCart(cart, id) && Find(cart, id).value.cartQuantity > 1 ==> r == Decrement(cart, id)
    ensures !(InCart(cart, id) && Find(cart, id).value.cartQuantity > 1) ==> r == Without(cart, id)
  {
    var existing := Find(cart, id);
    if existing.Some? && existing.value.cartQuantity > 1 then Decrement(cart, id)
    else Without(cart, id)
  }

  /** getCartQuantity: the wanted quantity of the sweet, 0 when it is not in the cart. */
  function CartQuantity(cart: seq<CartItem>, id: string): (q: int)
    ensures !InCart(cart, id) ==> q == 0
    ensures InCart(cart, id) ==> q == cart[FindIndex(cart, id)].cartQuantity
  {
    var existing := Find(cart, id);
    if existing.Some? then existing.value.cartQuantity else 0
  }

  /** getTotalCartItems: the sum of the wanted quantities, so at least one item per
      line when every line wants at least one. */
  function TotalItems(cart: seq<CartItem>): (n: int)
    ensures (forall i :: 0 <= i < |cart| ==> cart[i].cartQuantity >= 1) ==> n >= |cart|
  {
    if cart == [] then 0 else cart[0].cartQuantity + TotalItems(cart[1..])
  }

  /** getCartTotal: the sum of price times wanted quantity, in cents; never negative
      when no price or quantity is. */
  function CartTotal(cart: seq<CartItem>): (t: int)
    ensures (forall i :: 0 <= i < |cart| ==> cart[i].product.price >= 0 && cart[i].cartQuantity >= 0) ==> t >= 0
  {
    if cart == [] then 0 else cart[0].product.price * cart[0].cartQuantity + CartTotal(cart[1..])
  }

  // ---------------------------------------------------------------------------
  // Cart properties

  lemma {:induction false} TotalsAppend(cart: seq<CartItem>, item: CartItem)
    ensures TotalItems(cart + [item]) == TotalItems(cart) + item.cartQuantity
    ensures CartTotal(cart + [item]) == CartTotal(cart) + item.product.price * item.cartQuantity
  {
    if cart != [] {
      assert (cart + [item])[1..] == cart[1..] + [item];
      TotalsAppend(cart[1..], item);
    }
  }

  lemma {:induction false} WithoutAbsent(cart: seq<CartItem>, id: string)
    requires !InCart(cart, id)
    ensures Without(cart, id) == cart
  {
    if cart != [] {
      forall k | 0 <= k < |cart[1..]| ensures cart[1..][k].product.id != id {
        assert cart[1..][k] == cart[k + 1];
      }
      WithoutAbsent(cart[1..], id);
      assert cart == [cart[0]] + cart[1..];
    }
  }

  lemma {:induction false} WithoutAppend(cart: seq<CartItem>, item: CartItem)
    ensures Without(cart + [item], item.product.id) == Without(cart, item.product.id)
  {
    if cart == [] {
      assert [item][1..] == [];
    } else {
      assert (cart + [item])[1..] == cart[1..] + [item];
      WithoutAppend(cart[1..], item);
    }
  }

  /** Adding a sweet that is not in the cart and then removing it gives back the cart. */
  lemma AddThenRemoveFresh(cart: seq<CartItem>, sweet: Product)
    requires !InCart(cart, sweet.id)
    ensures RemoveFromCart(AddToCart(cart, sweet), sweet.id) == cart
  {
    var added := cart + [CartItem(sweet, 1)];
    assert added[|cart|].product.id == sweet.id;
    assert Find(added, sweet.id).value.cartQuantity == 1 by {
      assert FindIndex(added, sweet.id) == |cart|;
    }
    WithoutAppend(cart, CartItem(sweet, 1));
    WithoutAbsent(cart, sweet.id);
  }

  /** Adding a new sweet adds one item and its price to the totals. */
  lemma AddFreshTotals(cart: seq<CartItem>, sweet: Product)
    requires !InCart(cart, sweet.id)
    ensures TotalItems(AddToCart(cart, sweet)) == TotalItems(cart) + 1
    ensures CartTotal(AddToCart(cart, sweet)) == CartTotal(cart) + sweet.price
  {
    TotalsAppend(cart, CartItem(sweet, 1));
  }

  /** The cart never holds two lines for the same sweet. */
  lemma AddKeepsIdsUnique(cart: seq<CartItem>, sweet: Product)
    requires UniqueIds(cart)
    ensures UniqueIds(AddToCart(cart, sweet))
  {
  }

  lemma {:induction false} WithoutKeepsIdsUnique(cart: seq<CartItem>, id: string)
    requires UniqueIds(cart)
    ensures UniqueIds(Without(cart, id))
  {
    if cart != [] {
      WithoutKeepsIdsUnique(cart[1..], id);
      var rest := Without(cart[1..], id);
      forall x | x in rest ensures x.product.id != cart[0].product.id {
        var j :| 0 <= j < |cart[1..]| && cart[1..][j] == x;
        assert cart[j + 1] == x;
      }
    }
  }

  lemma RemoveKeepsIdsUnique(cart: seq<CartItem>, id: string)
    requires UniqueIds(cart)
    ensures UniqueIds(RemoveFromCart(cart, id))
  {
    WithoutKeepsIdsUnique(cart, id);
  }

  /** With unique ids, the quantity shown for the added sweet is its old quantity
      plus one, capped at its stock, or 1 if it is new. */
  lemma QuantityAfterAdd(cart: seq<CartItem>, sweet: Product)
    requires UniqueIds(cart)
    ensures CartQuantity(AddToCart(cart, sweet), sweet.id)
         == if InCart(cart, sweet.id) then Min(CartQuantity(cart, sweet.id) + 1, sweet.quantity) else 1
  {
    var r := AddToCart(cart, sweet);
    if InCart(cart, sweet.id) {
      var i := FindIndex(cart, sweet.id);
      assert r[i].product.id == sweet.id;
      assert InCart(r, sweet.id);
      assert FindIndex(r, sweet.id) == i by {
        FindIndexUnique(r, sweet.id, i);
      }
    } else {
      assert r[|cart|].product.id == sweet.id;
      assert FindIndex(r, sweet.id) == |cart| by {
        FindIndexUnique(r, sweet.id, |cart|);
      }
    }
  }

  lemma FindIndexUnique(cart: seq<CartItem>, id: string, i: nat)
    requires i < |cart| && cart[i].product.id == id
    requires forall k :: 0 <= k < i ==> cart[k].product.id != id
    ensures FindIndex(cart, id) == i
  {
    assert InCart(cart, id);
  }

  lemma {:induction false} TotalWithout(cart: seq<CartItem>, id: string)
    requires UniqueIds(cart)
    ensures TotalItems(Without(cart, id)) == TotalItems(cart) - CartQuantity(cart, id)
  {
    if cart != [] {
      TotalWithout(cart[1..], id);
      if cart[0].product.id == id {
        forall k | 0 <= k < |cart[1..]| ensures cart[1..][k].product.id != id {
          assert cart[1..][k] == cart[k + 1];
        }
        assert Find(cart, id) == Some(cart[0]);
      } else {
        assert Find(cart, id) == Find(cart[1..], id);
      }
    }
  }

  lemma {:induction false} TotalDecrement(cart: seq<CartItem>, id: string)
    requires UniqueIds(cart) && InCart(cart, id)
    ensures TotalItems(Decrement(cart, id)) == TotalItems(cart) - 1
  {
    if cart[0].product.id == id {
      forall k | 0 <= k < |cart[1..]| ensures cart[1..][k].product.id != id {
        assert cart[1..][k] == cart[k + 1];
      }
      DecrementAbsent(cart[1..], id);
    } else {
      assert InCart(cart[1..], id) by {
        var i :| 0 <= i < |cart| && cart[i].product.id == id;
        assert cart[1..][i - 1].product.id == id;
      }
      TotalDecrement(cart[1..], id);
    }
  }

  lemma {:induction false} DecrementAbsent(cart: seq<CartItem>, id: string)
    requires !InCart(cart, id)
    ensures Decrement(cart, id) == cart
  {
    if cart != [] {
      forall k | 0 <= k < |cart[1..]| ensures cart[1..][k].product.id != id {
        assert cart[1..][k] == cart[k + 1];
      }
      DecrementAbsent(cart[1..], id);
      assert cart == [cart[0]] + cart[1..];
    }
  }

  /** Removing a sweet lowers the item count by one when more than one is wanted, and
      by its whole quantity otherwise. */
  lemma TotalAfterRemove(cart: seq<CartItem>, id: string)
    requires UniqueIds(cart)
    ensures TotalItems(RemoveFromCart(cart, id))
         == TotalItems(cart) - (if CartQuantity(cart, id) > 1 then 1 else CartQuantity(cart, id))
  {
    if InCart(cart, id) && Find(cart, id).value.cartQuantity > 1 {
      TotalDecrement(cart, id);
    } else {
      TotalWithout(cart, id);
    }
  }

  // ---------------------------------------------------------------------------
  // Checkout

  /** The purchase requests of a checkout, one per line and in cart order: the
      sweet's id and a body asking for the wanted quantity. */
  function PurchaseRequests(cart: seq<CartItem>): (rs: seq<(string, Inventory.QuantityBody)>)
    ensures |rs| == |cart|
    ensures forall i :: 0 <= i < |cart| ==>
      rs[i] == (cart[i].product.id, Inventory.QuantityBody(Some(Inventory.Num(cart[i].cartQuantity * 100))))
  {
    if cart == [] then []
    else
      var request := (cart[0].product.id, Inventory.QuantityBody(Some(Inventory.Num(cart[0].cartQuantity * 100))));
      [request] + PurchaseRequests(cart[1..])
  }

  datatype CheckoutOutcome =
    | EmptyCart
    | NoToken
    | AllPurchased
    | SomePurchased(successful: nat, failed: nat)
    | NonePurchased

  datatype CheckoutResult = CheckoutResult(outcome: CheckoutOutcome, cart: seq<CartItem>)

  function CountFulfilled(settled: seq<bool>): (n: nat)
    ensures n <= |settled|
  {
    if settled == [] then 0 else (if settled[0] then 1 else 0) + CountFulfilled(settled[1..])
  }

  lemma {:induction false} AllFulfilled(settled: seq<bool>)
    ensures CountFulfilled(settled) == |settled| <==> forall i :: 0 <= i < |settled| ==> settled[i]
  {
    if settled != [] {
      AllFulfilled(settled[1..]);
      assert forall i :: 1 <= i < |settled| ==> settled[i] == settled[1..][i - 1];
    }
  }

  lemma {:induction false} NoneFulfilled(settled: seq<bool>)
    ensures CountFulfilled(settled) == 0 <==> forall i :: 0 <= i < |settled| ==> !settled[i]
  {
    if settled != [] {
      NoneFulfilled(settled[1..]);
      assert forall i :: 1 <= i < |settled| ==> settled[i] == settled[1..][i - 1];
    }
  }

  /** handleCheckout's decision once every purchase has settled (settled[i] tells
      whether line i's purchase was fulfilled): nothing happens on an empty cart or
      without a token; the cart is cleared only when every purchase went through. */
  function Checkout(cart: seq<CartItem>, token: Option<string>, settled: seq<bool>): (r: CheckoutResult)
    requires |settled| == |cart|
    ensures r.outcome == EmptyCart <==> cart == []
    ensures r.outcome == NoToken <==> cart != [] && !HasToken(token)
    ensures r.outcome.SomePurchased? <==> cart != [] && HasToken(token) && 0 < CountFulfilled(settled) < |cart|
    ensures r.outcome.SomePurchased? ==>
      r.outcome.successful == CountFulfilled(settled) && r.outcome.failed == |cart| - CountFulfilled(settled)
    ensures r.outcome == AllPurchased <==>
      cart != [] && HasToken(token) && forall i :: 0 <= i < |settled| ==> settled[i]
    ensures r.outcome == NonePurchased <==>
      cart != [] && HasToken(token) && forall i :: 0 <= i < |settled| ==> !settled[i]
    ensures r.outcome.SomePurchased? ==>
      0 < r.outcome.successful < |cart| && r.outcome.successful + r.outcome.failed == |cart|
    ensures r.cart == [] <==> cart == [] || r.outcome == AllPurchased
    ensures r.outcome != AllPurchased ==> r.cart == cart
  {
    AllFulfilled(settled);
    NoneFulfilled(settled);
    if cart == [] then CheckoutResult(EmptyCart, cart)
    else if !HasToken(token) then CheckoutResult(NoToken, cart)
    else
      var successful := CountFulfilled(settled);
      if successful == |settled| then CheckoutResult(AllPurchased, [])
      else if successful > 0 then CheckoutResult(SomePurchased(successful, |settled| - successful), cart)
      else CheckoutResult(NonePurchased, cart)
  }

  // ---------------------------------------------------------------------------
  // Greeting

  /** getUserName: the URI-decoded value of the "userName" cookie, "User" when there
      is none; an entry without '=' decodes the text "undefined". */
  method UserName(jar: string, decode: string -> string) returns (name: string)
    ensures CookieLookup(Split(jar, ';'), "userName") == NoCookie ==> name == "User"
    ensures CookieLookup(Split(jar, ';'), "userName") == Bare ==> name == decode("undefined")
    ensures CookieLookup(Split(jar, ';'), "userName").Valued? ==>
      name == decode(CookieLookup(Split(jar, ';'), "userName").value)
  {
    var v := FindCookie(jar, "userName");
    match v
    case NoCookie => name := "User";
    case Bare => name := decode("undefined");
    case Valued(value) => name := decode(value);
  }
}
