/**
  The two places the storefront prices a cart: the cart page (`renderCart`)
  and the checkout message (`finalizePurchase`). Each carries its own copy of
  the pricing code. The cart page's copy is modelled here loop for loop; the
  proof that it computes `Pricing.Price` shows the two copies agree.
 */
module Checkout {
  import opened Wrappers
  import opened Cart
  import opened Config
  import opened Pricing

  /** What a checkout leaves behind: the charged breakdown, if any, and the cart afterwards. */
  datatype CheckoutResult = CheckoutResult(charged: Option<Breakdown>, cartAfter: seq<LineItem>)

  /**
    `finalizePurchase`: an empty cart is left alone and nothing is charged;
    otherwise the message carries the priced cart and the cart is emptied.
   */
  function FinalizePurchase(cart: seq<LineItem>, combo: ComboConfig, bulk: BulkDoc): (r: CheckoutResult)
    ensures |cart| == 0 ==> r == CheckoutResult(None, cart)
    ensures |cart| > 0 ==> r.cartAfter == [] && r.charged == Some(Price(cart, combo, ReadBulk(bulk)))
  {
    if |cart| == 0 then CheckoutResult(None, cart)
    else CheckoutResult(Some(Price(cart, combo, ReadBulk(bulk))), [])
  }

  /**
    `renderCart`'s pricing, step by step as the page computes it: nothing is
    shown for an empty cart; otherwise the shown breakdown is exactly what
    checkout charges.
   */
  method RenderCartTotal(cart: seq<LineItem>, combo: ComboConfig, bulk: BulkDoc) returns (shown: Option<Breakdown>)
    ensures shown.None? <==> |cart| == 0
    ensures shown == FinalizePurchase(cart, combo, bulk).charged
  {
    if |cart| == 0 {
      return None;
    }
    var subtotal := SumLoop(cart, LineTotal);
    var baseTotal := subtotal;

    var comboApplied := false;
    var comboDiscount := 0;
    if combo.enabled {
      var units := CollectEligibleUnits(cart, combo.eligibles);
      if |units| >= 3 {
        comboDiscount := Smallest(units);
        comboApplied := true;
        baseTotal := baseTotal - comboDiscount;
      }
    }
    assert ComboStep(cart, combo) == ComboOutcome(comboApplied, comboDiscount);

    var rules := ReadBulk(bulk);
    var bulkApplied := false;
    var bulkAmt := 0;
    if rules.enabled {
      var itemsCount := 0;
      if rules.scope == AllItems {
        itemsCount := SumLoop(cart, Qty);
      } else if rules.scope == EligibleItems {
        itemsCount := SumLoop(cart, EligibleQty(combo.eligibles));
      }
      assert itemsCount == BulkCount(cart, combo, rules.scope);
      if itemsCount >= rules.minItems && rules.percent > 0 {
        bulkAmt := (baseTotal * rules.percent + 50) / 100;
        bulkApplied := true;
        baseTotal := baseTotal - bulkAmt;
      }
    }
    shown := Some(Breakdown(subtotal, comboApplied, comboDiscount, bulkApplied, bulkAmt, baseTotal));
  }

  /** `cart.reduce((acc, p) => acc + f(p), 0)` and the `forEach` counting loop. */
  method SumLoop(cart: seq<LineItem>, f: LineItem -> int) returns (total: int)
    ensures total == SumOf(cart, f)
  {
    total := 0;
    var i := 0;
    while i < |cart|
      invariant 0 <= i <= |cart|
      invariant total == SumOf(cart[..i], f)
    {
      assert cart[..i + 1][..i] == cart[..i];
      total := total + f(cart[i]);
      i := i + 1;
    }
    assert cart[..|cart|] == cart;
  }

  /** The `forEach` that pushes each eligible line's price once per unit. */
  method CollectEligibleUnits(cart: seq<LineItem>, eligibles: seq<string>) returns (units: seq<int>)
    ensures units == EligibleUnitPrices(cart, eligibles)
  {
    units := [];
    var i := 0;
    while i < |cart|
      invariant 0 <= i <= |cart|
      invariant units == EligibleUnitPrices(cart[..i], eligibles)
    {
      var line := cart[i];
      assert cart[..i + 1][..i] == cart[..i];
      if line.id in eligibles {
        var j := 0;
        while j < line.qty
          invariant 0 <= j
          invariant j <= line.qty || j == 0
          invariant units == EligibleUnitPrices(cart[..i], eligibles) + Repeat(line.unitPrice, j)
        {
          units := units + [line.unitPrice];
          j := j + 1;
        }
        assert Repeat(line.unitPrice, j) == Repeat(line.unitPrice, line.qty);
      }
      i := i + 1;
    }
    assert cart[..|cart|] == cart;
  }

  /** The first element after an ascending numeric sort: the smallest. */
  method Smallest(s: seq<int>) returns (m: int)
    requires |s| > 0
    ensures m in s
    ensures forall i :: 0 <= i < |s| ==> m <= s[i]
  {
    m := s[0];
    var k := 1;
    while k < |s|
      invariant 1 <= k <= |s|
      invariant m in s[..k]
      invariant forall i :: 0 <= i < k ==> m <= s[i]
    {
      if s[k] < m {
        m := s[k];
      }
      k := k + 1;
    }
    assert s[..|s|] == s;
  }
}
