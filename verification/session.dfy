/**
  A shopping session: the storefront's cart buttons as a stream of events
  applied to the cart in order. Whatever the events, the cart keeps one line
  per product id and a positive quantity on every line.
 */
module Session {
  import opened Catalog
  import opened Cart
  import opened Config
  import opened Checkout

  datatype Event =
    | AddPressed(id: string)
    | QtyPressed(id: string, delta: int)
    | RemovePressed(id: string)
    | CheckoutPressed

  /** One event on the cart, under the catalog and promotion settings of the moment. */
  function Step(catalog: seq<Product>, combo: ComboConfig, bulk: BulkDoc, cart: seq<LineItem>, e: Event): seq<LineItem> {
    match e
    case AddPressed(id) => AddToCart(catalog, cart, id).0
    case QtyPressed(id, delta) => ChangeQty(cart, id, delta)
    case RemovePressed(id) => RemoveFromCart(cart, id)
    case CheckoutPressed => FinalizePurchase(cart, combo, bulk).cartAfter
  }

  /** The cart after the events, in order; a session that ends with a checkout ends with an empty cart. */
  function Run(catalog: seq<Product>, combo: ComboConfig, bulk: BulkDoc, cart: seq<LineItem>, events: seq<Event>): (r: seq<LineItem>)
    ensures |events| == 0 ==> r == cart
    ensures |events| > 0 && events[|events| - 1] == CheckoutPressed ==> r == []
    decreases |events|
  {
    if |events| == 0 then cart
    else
      assert |events| > 1 ==> events[1..][|events| - 2] == events[|events| - 1];
      Run(catalog, combo, bulk, Step(catalog, combo, bulk, cart, events[0]), events[1..])
  }

  /**
    Starting from a well-formed cart (the empty cart is one), every sequence
    of events leaves a well-formed cart, so the badge is shown exactly when
    the cart has lines.
   */
  lemma {:induction false} RunKeepsCartWellFormed(catalog: seq<Product>, combo: ComboConfig, bulk: BulkDoc,
                                                  cart: seq<LineItem>, events: seq<Event>)
    requires WellFormed(cart)
    ensures WellFormed(Run(catalog, combo, bulk, cart, events))
    ensures UnitCount(Run(catalog, combo, bulk, cart, events)) > 0
      <==> |Run(catalog, combo, bulk, cart, events)| > 0
    decreases |events|
  {
    if |events| == 0 {
      UnitCountBounds(cart);
    } else {
      var next := Step(catalog, combo, bulk, cart, events[0]);
      if events[0].RemovePressed? {
        RemoveFromCartKeepsWellFormed(cart, events[0].id);
      }
      assert WellFormed(next);
      RunKeepsCartWellFormed(catalog, combo, bulk, next, events[1..]);
    }
  }

  /** A session that ends at checkout always ends with an empty cart. */
  lemma CheckoutEmptiesCart(catalog: seq<Product>, combo: ComboConfig, bulk: BulkDoc,
                            cart: seq<LineItem>, events: seq<Event>)
    ensures Run(catalog, combo, bulk, cart, events + [CheckoutPressed]) == []
  {
    RunAppend(catalog, combo, bulk, cart, events, [CheckoutPressed]);
  }

  lemma {:induction false} RunAppend(catalog: seq<Product>, combo: ComboConfig, bulk: BulkDoc,
                                     cart: seq<LineItem>, a: seq<Event>, b: seq<Event>)
    ensures Run(catalog, combo, bulk, cart, a + b)
      == Run(catalog, combo, bulk, Run(catalog, combo, bulk, cart, a), b)
    decreases |a|
  {
    if |a| == 0 {
      assert a + b == b;
    } else {
      assert (a + b)[1..] == a[1..] + b;
      RunAppend(catalog, combo, bulk, Step(catalog, combo, bulk, cart, a[0]), a[1..], b);
    }
  }
}
