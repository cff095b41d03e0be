/**
  The pricing engine: base subtotal, then the 3x2 combo (one cheapest
  eligible unit free), then the bulk percentage on the post-combo total.
  `Price` is the pure statement of the computation; the cart page's copy
  of the same code is the method in module Checkout, proved equal to it.
 */
module Pricing {
  import opened Wrappers
  import opened Catalog
  import opened Cart
  import opened Config

  function LineTotal(l: LineItem): int {
    l.unitPrice * l.qty
  }

  /** `cart.reduce((acc, p) => acc + p.precio * p.cantidad, 0)`. */
  function Subtotal(cart: seq<LineItem>): int {
    SumOf(cart, LineTotal)
  }

  /** Units of a line that count as eligible for the combo. */
  function EligibleQty(eligibles: seq<string>): LineItem -> int {
    (l: LineItem) => if l.id in eligibles then l.qty else 0
  }

  /** Sum of the quantities of the lines whose id is in `eligibles`. */
  function EligibleCount(cart: seq<LineItem>, eligibles: seq<string>): int {
    SumOf(cart, EligibleQty(eligibles))
  }

  /** `for (let i = 0; i < n; i++) list.push(x)`: `x` repeated, nothing when `n` is not positive. */
  function Repeat(x: int, n: int): (r: seq<int>)
    ensures |r| == if n > 0 then n else 0
    ensures forall i :: 0 <= i < |r| ==> r[i] == x
  {
    if n <= 0 then [] else Repeat(x, n - 1) + [x]
  }

  /** `eligiblesInCart`: the unit price of every eligible line, once per unit, in cart order. */
  function EligibleUnitPrices(cart: seq<LineItem>, eligibles: seq<string>): seq<int> {
    if |cart| == 0 then []
    else
      var last := cart[|cart| - 1];
      EligibleUnitPrices(cart[..|cart| - 1], eligibles)
        + (if last.id in eligibles then Repeat(last.unitPrice, last.qty) else [])
  }

  /** `list.sort((a, b) => a - b)[0]`: the smallest element. */
  function MinOf(s: seq<int>): (m: int)
    requires |s| > 0
    ensures m in s
    ensures forall i :: 0 <= i < |s| ==> m <= s[i]
  {
    if |s| == 1 then s[0]
    else
      var front := MinOf(s[..|s| - 1]);
      assert forall i :: 0 <= i < |s| - 1 ==> s[..|s| - 1][i] == s[i];
      if s[|s| - 1] < front then s[|s| - 1] else front
  }

  /** The outcome of the combo step. */
  datatype ComboOutcome = ComboOutcome(applied: bool, discount: int)

  /** The combo step: with the rule on and at least three eligible units, the cheapest unit is free. */
  function ComboStep(cart: seq<LineItem>, combo: ComboConfig): (o: ComboOutcome)
    ensures o.applied <==> combo.enabled && |EligibleUnitPrices(cart, combo.eligibles)| >= 3
    ensures o.applied ==> o.discount in EligibleUnitPrices(cart, combo.eligibles)
    ensures o.applied ==> forall x :: x in EligibleUnitPrices(cart, combo.eligibles) ==> o.discount <= x
    ensures !o.applied ==> o.discount == 0
  {
    var units := EligibleUnitPrices(cart, combo.eligibles);
    if combo.enabled && |units| >= 3 then ComboOutcome(true, MinOf(units)) else ComboOutcome(false, 0)
  }

  /** `Math.round(t * p / 100)` on integers: half-way cases go up. */
  function RoundPercent(t: int, p: int): (r: int)
    ensures 100 * r - 50 <= t * p < 100 * r + 50
  {
    (t * p + 50) / 100
  }

  /** The units counted against the bulk threshold. The eligible scope reads the combo list even when the combo is off. */
  function BulkCount(cart: seq<LineItem>, combo: ComboConfig, scope: Scope): int {
    match scope
    case AllItems => UnitCount(cart)
    case EligibleItems => EligibleCount(cart, combo.eligibles)
    case NoItems => 0
  }

  /** Everything the cart page shows and the checkout message carries. */
  datatype Breakdown = Breakdown(
    subtotal: int,
    comboApplied: bool,
    comboDiscount: int,
    bulkApplied: bool,
    bulkDiscount: int,
    total: int)

  /** The priced cart, in the code's order of steps. */
  function Price(cart: seq<LineItem>, combo: ComboConfig, rules: BulkRules): (b: Breakdown)
    ensures b.subtotal == Subtotal(cart)
    ensures b.comboApplied == ComboStep(cart, combo).applied && b.comboDiscount == ComboStep(cart, combo).discount
    ensures b.bulkApplied <==> rules.enabled && rules.percent > 0 && BulkCount(cart, combo, rules.scope) >= rules.minItems
    ensures b.bulkApplied ==> b.bulkDiscount == RoundPercent(b.subtotal - b.comboDiscount, rules.percent)
    ensures !b.bulkApplied ==> b.bulkDiscount == 0
    ensures b.total == b.subtotal - b.comboDiscount - b.bulkDiscount
  {
    var sub := Subtotal(cart);
    var c := ComboStep(cart, combo);
    var afterCombo := sub - c.discount;
    var bulkOn := rules.enabled && BulkCount(cart, combo, rules.scope) >= rules.minItems && rules.percent > 0;
    var bulk := if bulkOn then RoundPercent(afterCombo, rules.percent) else 0;
    Breakdown(sub, c.applied, c.discount, bulkOn, bulk, afterCombo - bulk)
  }

  // ---------------------------------------------------------------------------
  // The eligible unit list
  // ---------------------------------------------------------------------------

  /** Units a line contributes to the eligible list. */
  function EligibleUnits(eligibles: seq<string>): LineItem -> int {
    (l: LineItem) => if l.id in eligibles && l.qty > 0 then l.qty else 0
  }

  lemma {:induction false} EligibleUnitPricesLength(cart: seq<LineItem>, eligibles: seq<string>)
    ensures |EligibleUnitPrices(cart, eligibles)| == SumOf(cart, EligibleUnits(eligibles))
  {
    if |cart| > 0 {
      EligibleUnitPricesLength(cart[..|cart| - 1], eligibles);
    }
  }

  lemma {:induction false} EligibleUnitsIsEligibleQty(cart: seq<LineItem>, eligibles: seq<string>)
    requires forall i :: 0 <= i < |cart| ==> cart[i].qty >= 0
    ensures SumOf(cart, EligibleUnits(eligibles)) == EligibleCount(cart, eligibles)
  {
    if |cart| > 0 {
      EligibleUnitsIsEligibleQty(cart[..|cart| - 1], eligibles);
    }
  }

  /** The eligible list holds exactly the unit prices of eligible lines that have units. */
  lemma {:induction false} EligibleUnitPricesMembers(cart: seq<LineItem>, eligibles: seq<string>, x: int)
    ensures x in EligibleUnitPrices(cart, eligibles) <==>
      exists l :: l in cart && l.id in eligibles && l.qty > 0 && l.unitPrice == x
  {
    if |cart| > 0 {
      var front := cart[..|cart| - 1];
      var last := cart[|cart| - 1];
      EligibleUnitPricesMembers(front, eligibles, x);
      assert cart == front + [last];
      if x in EligibleUnitPrices(cart, eligibles) && x !in EligibleUnitPrices(front, eligibles) {
        assert last in cart;
      }
      if exists l :: l in cart && l.id in eligibles && l.qty > 0 && l.unitPrice == x {
        var l :| l in cart && l.id in eligibles && l.qty > 0 && l.unitPrice == x;
        if l != last {
          assert l in front;
        } else {
          assert Repeat(x, l.qty)[0] == x;
        }
      }
    }
  }

  // ---------------------------------------------------------------------------
  // Combo properties
  // ---------------------------------------------------------------------------

  /**
    With no negative quantities, the combo applies iff it is switched on and
    the eligible lines hold at least three units; when it does not apply it
    discounts nothing.
   */
  lemma ComboAppliesIff(cart: seq<LineItem>, combo: ComboConfig)
    requires forall i :: 0 <= i < |cart| ==> cart[i].qty >= 0
    ensures ComboStep(cart, combo).applied <==> combo.enabled && EligibleCount(cart, combo.eligibles) >= 3
    ensures !ComboStep(cart, combo).applied ==> ComboStep(cart, combo).discount == 0
  {
    EligibleUnitPricesLength(cart, combo.eligibles);
    EligibleUnitsIsEligibleQty(cart, combo.eligibles);
  }

  /**
    An applied combo discounts exactly one unit: the unit price of some
    eligible line, and no eligible line in the cart is cheaper.
   */
  lemma ComboFreesCheapestEligibleUnit(cart: seq<LineItem>, combo: ComboConfig)
    requires ComboStep(cart, combo).applied
    ensures exists i :: (0 <= i < |cart| && cart[i].id in combo.eligibles && cart[i].qty > 0
      && ComboStep(cart, combo).discount == cart[i].unitPrice)
    ensures forall i :: 0 <= i < |cart| && cart[i].id in combo.eligibles && cart[i].qty > 0 ==>
      ComboStep(cart, combo).discount <= cart[i].unitPrice
  {
    var units := EligibleUnitPrices(cart, combo.eligibles);
    var d := ComboStep(cart, combo).discount;
    EligibleUnitPricesMembers(cart, combo.eligibles, d);
    var l :| l in cart && l.id in combo.eligibles && l.qty > 0 && l.unitPrice == d;
    var k :| 0 <= k < |cart| && cart[k] == l;
    forall i | 0 <= i < |cart| && cart[i].id in combo.eligibles && cart[i].qty > 0
      ensures d <= cart[i].unitPrice
    {
      EligibleUnitPricesMembers(cart, combo.eligibles, cart[i].unitPrice);
      var j :| 0 <= j < |units| && units[j] == cart[i].unitPrice;
    }
  }

  // ---------------------------------------------------------------------------
  // Bulk properties
  // ---------------------------------------------------------------------------

  /**
    The bulk step: it applies iff the rule is on, the counted units reach the
    minimum and the percent is positive; its amount is the rounded percentage
    of the total left after the combo, not of the base subtotal.
   */
  lemma BulkAppliesAfterCombo(cart: seq<LineItem>, combo: ComboConfig, rules: BulkRules)
    ensures var b := Price(cart, combo, rules);
      && (b.bulkApplied <==> rules.enabled && BulkCount(cart, combo, rules.scope) >= rules.minItems && rules.percent > 0)
      && (b.bulkApplied ==> b.bulkDiscount == RoundPercent(b.subtotal - b.comboDiscount, rules.percent))
      && (!b.bulkApplied ==> b.bulkDiscount == 0)
      && b.total == b.subtotal - b.comboDiscount - b.bulkDiscount
  {
  }

  /**
    The "eligibles" scope counts the combo's eligible units whether or not
    the combo itself is switched on.
   */
  lemma EligibleScopeIgnoresComboSwitch(cart: seq<LineItem>, eligibles: seq<string>, on: bool, rules: BulkRules)
    requires rules.scope == EligibleItems
    ensures Price(cart, ComboConfig(on, eligibles), rules).bulkApplied
      <==> rules.enabled && EligibleCount(cart, eligibles) >= rules.minItems && rules.percent > 0
  {
  }

  /** An `applyTo` other than "all" or "eligibles" counts no units, so a positive minimum is never met. */
  lemma UnknownScopeCountsNothing(cart: seq<LineItem>, combo: ComboConfig, rules: BulkRules)
    requires rules.scope == NoItems && rules.minItems > 0
    ensures !Price(cart, combo, rules).bulkApplied
  {
  }

  // ---------------------------------------------------------------------------
  // Bounds
  // ---------------------------------------------------------------------------

  predicate NonNegativeLines(cart: seq<LineItem>) {
    forall i :: 0 <= i < |cart| ==> cart[i].unitPrice >= 0 && cart[i].qty >= 0
  }

  lemma SumOfAtLeastTerm(s: seq<LineItem>, f: LineItem -> int, k: nat)
    requires k < |s|
    requires forall i :: 0 <= i < |s| ==> f(s[i]) >= 0
    ensures f(s[k]) <= SumOf(s, f)
  {
    SumOfRemoveAt(s, f, k);
    var rest := s[..k] + s[k + 1..];
    forall i | 0 <= i < |rest| ensures f(rest[i]) >= 0 {
      if i < k { assert rest[i] == s[i]; } else { assert rest[i] == s[i + 1]; }
    }
    SumOfNonNegative(rest, f);
  }

  lemma RoundPercentBounds(t: int, p: int)
    requires t >= 0 && 0 <= p <= 100
    ensures 0 <= RoundPercent(t, p) <= t
  {
    MulWithinHundred(t, p);
    RoundedHundredthWithin(t * p, t);
  }

  lemma MulWithinHundred(t: int, p: int)
    requires t >= 0 && 0 <= p <= 100
    ensures 0 <= t * p <= 100 * t
  {
    assert t * (100 - p) >= 0;
  }

  lemma RoundedHundredthWithin(x: int, t: int)
    requires 0 <= x <= 100 * t
    ensures 0 <= (x + 50) / 100 <= t
  {
  }

  lemma UnitPriceWithinLineTotal(l: LineItem)
    requires l.unitPrice >= 0 && l.qty >= 1
    ensures l.unitPrice <= LineTotal(l)
  {
    assert l.unitPrice * (l.qty - 1) >= 0;
  }

  /** With non-negative lines the combo discount lies between zero and the subtotal. */
  lemma ComboWithinSubtotal(cart: seq<LineItem>, combo: ComboConfig)
    requires NonNegativeLines(cart)
    ensures 0 <= ComboStep(cart, combo).discount <= Subtotal(cart)
  {
    var c := ComboStep(cart, combo);
    forall j | 0 <= j < |cart| ensures LineTotal(cart[j]) >= 0 {
      assert cart[j].unitPrice >= 0 && cart[j].qty >= 0;
    }
    SumOfNonNegative(cart, LineTotal);
    if c.applied {
      ComboFreesCheapestEligibleUnit(cart, combo);
      var i :| 0 <= i < |cart| && cart[i].id in combo.eligibles && cart[i].qty > 0
        && c.discount == cart[i].unitPrice;
      assert cart[i].unitPrice >= 0;
      UnitPriceWithinLineTotal(cart[i]);
      SumOfAtLeastTerm(cart, LineTotal, i);
    }
  }

  /**
    With non-negative prices and quantities and a percent in 0..100 (which
    the admin form enforces), neither discount exceeds the running total, so
    the final total is never negative.
   */
  lemma DiscountsStayWithinTotal(cart: seq<LineItem>, combo: ComboConfig, rules: BulkRules)
    requires NonNegativeLines(cart)
    requires 0 <= rules.percent <= 100
    ensures var b := Price(cart, combo, rules);
      && 0 <= b.comboDiscount <= b.subtotal
      && 0 <= b.bulkDiscount <= b.subtotal - b.comboDiscount
      && b.total >= 0
  {
    var b := Price(cart, combo, rules);
    ComboWithinSubtotal(cart, combo);
    assert b.subtotal == Subtotal(cart) && b.comboDiscount == ComboStep(cart, combo).discount;
    if b.bulkApplied {
      RoundPercentBounds(b.subtotal - b.comboDiscount, rules.percent);
    }
  }

  // ---------------------------------------------------------------------------
  // Order independence
  // ---------------------------------------------------------------------------

  lemma MinOfSameElements(a: seq<int>, b: seq<int>)
    requires |a| > 0 && |b| > 0
    requires forall x :: x in a <==> x in b
    ensures MinOf(a) == MinOf(b)
  {
    var ma, mb := MinOf(a), MinOf(b);
    assert ma in b;
    assert mb in a;
  }

  lemma SameLines(a: seq<LineItem>, b: seq<LineItem>)
    requires multiset(a) == multiset(b)
    ensures forall l :: l in a <==> l in b
  {
    forall l ensures l in a <==> l in b {
      assert l in a <==> l in multiset(a);
      assert l in b <==> l in multiset(b);
    }
  }

  lemma ComboStepOrderIndependent(a: seq<LineItem>, b: seq<LineItem>, combo: ComboConfig)
    requires multiset(a) == multiset(b)
    ensures ComboStep(a, combo) == ComboStep(b, combo)
  {
    SumOfPermutation(a, b, EligibleUnits(combo.eligibles));
    EligibleUnitPricesLength(a, combo.eligibles);
    EligibleUnitPricesLength(b, combo.eligibles);
    var ua, ub := EligibleUnitPrices(a, combo.eligibles), EligibleUnitPrices(b, combo.eligibles);
    assert |ua| == |ub|;
    if |ua| > 0 {
      SameLines(a, b);
      forall x ensures x in ua <==> x in ub {
        EligibleUnitPricesMembers(a, combo.eligibles, x);
        EligibleUnitPricesMembers(b, combo.eligibles, x);
      }
      MinOfSameElements(ua, ub);
    }
  }

  lemma BulkCountOrderIndependent(a: seq<LineItem>, b: seq<LineItem>, combo: ComboConfig, scope: Scope)
    requires multiset(a) == multiset(b)
    ensures BulkCount(a, combo, scope) == BulkCount(b, combo, scope)
  {
    match scope
    case AllItems => SumOfPermutation(a, b, Qty);
    case EligibleItems => SumOfPermutation(a, b, EligibleQty(combo.eligibles));
    case NoItems =>
  }

  /**
    The price depends only on which lines the cart holds, not on their order:
    carts reached by different sequences of operations price the same.
   */
  lemma PriceOrderIndependent(a: seq<LineItem>, b: seq<LineItem>, combo: ComboConfig, rules: BulkRules)
    requires multiset(a) == multiset(b)
    ensures Price(a, combo, rules) == Price(b, combo, rules)
  {
    SumOfPermutation(a, b, LineTotal);
    ComboStepOrderIndependent(a, b, combo);
    BulkCountOrderIndependent(a, b, combo, rules.scope);
  }

  // ---------------------------------------------------------------------------
  // Cart operations and the subtotal
  // ---------------------------------------------------------------------------

  /**
    A successful add raises the subtotal by one unit at the price captured in
    the cart: the existing line's price if there is one, otherwise the
    product's current effective price.
   */
  lemma AddToCartRaisesSubtotal(catalog: seq<Product>, cart: seq<LineItem>, id: string)
    requires AddToCart(catalog, cart, id).1 == Added
    ensures FindLine(cart, id).Some? ==>
      Subtotal(AddToCart(catalog, cart, id).0) == Subtotal(cart) + cart[FindLine(cart, id).value].unitPrice
    ensures FindLine(cart, id).None? ==>
      Subtotal(AddToCart(catalog, cart, id).0) == Subtotal(cart) + EffectivePrice(catalog[FindProduct(catalog, id).value])
  {
    var r := AddToCart(catalog, cart, id).0;
    match FindLine(cart, id)
    case Some(k) =>
      var l := cart[k];
      SumOfUpdate(cart, LineTotal, k, l.(qty := l.qty + 1));
      assert LineTotal(l.(qty := l.qty + 1)) == LineTotal(l) + l.unitPrice;
    case None =>
      assert r[..|r| - 1] == cart;
  }

  /** Removing an id present at position `k` of a well-formed cart takes that line's total off the subtotal. */
  lemma RemoveFromCartLowersSubtotal(cart: seq<LineItem>, id: string, k: nat)
    requires UniqueLineIds(cart)
    requires k < |cart| && cart[k].id == id
    ensures Subtotal(RemoveFromCart(cart, id)) == Subtotal(cart) - cart[k].unitPrice * cart[k].qty
  {
    RemoveFromCartDropsOneLine(cart, id, k);
    SumOfRemoveAt(cart, LineTotal, k);
  }

  // ---------------------------------------------------------------------------
  // Worked examples
  // ---------------------------------------------------------------------------

  /** Three single units at 1000, 2000 and 1500. */
  function ExampleCart(): seq<LineItem> {
    [LineItem("a", "A", 1000, 1), LineItem("b", "B", 2000, 1), LineItem("c", "C", 1500, 1)]
  }

  /**
    With all three eligible and a 10% bulk rule from three units, the 1000
    unit is free, and the bulk discount is 10% of the remaining 3500, not of
    the 4500 subtotal.
   */
  lemma ComboThenBulkExample()
    ensures Price(ExampleCart(), ComboConfig(true, ["a", "b", "c"]), BulkRules(true, 3, 10, AllItems))
      == Breakdown(4500, true, 1000, true, 350, 3150)
  {
    ExampleSums();
    ExampleCombo();
  }

  lemma ExampleCombo()
    ensures ComboStep(ExampleCart(), ComboConfig(true, ["a", "b", "c"])) == ComboOutcome(true, 1000)
  {
    ExampleUnits();
    var units := [1000, 2000, 1500];
    assert units[..2] == [1000, 2000] && units[..2][..1] == [1000];
  }

  lemma ExampleSums()
    ensures Subtotal(ExampleCart()) == 4500 && UnitCount(ExampleCart()) == 3
  {
    var cart := ExampleCart();
    var c1, c2 := [cart[0]], [cart[0], cart[1]];
    assert cart[..2] == c2 && c2[..1] == c1 && c1[..0] == [];
    assert SumOf(c1, LineTotal) == 1000 && SumOf(c2, LineTotal) == 3000;
    assert SumOf(c1, Qty) == 1 && SumOf(c2, Qty) == 2;
  }

  lemma ExampleUnits()
    ensures EligibleUnitPrices(ExampleCart(), ["a", "b", "c"]) == [1000, 2000, 1500]
  {
    var cart := ExampleCart();
    var e := ["a", "b", "c"];
    var c1, c2 := [cart[0]], [cart[0], cart[1]];
    assert cart[..2] == c2 && c2[..1] == c1 && c1[..0] == [];
    assert EligibleUnitPrices(c1, e) == [1000];
    assert EligibleUnitPrices(c2, e) == [1000, 2000];
  }

  /** `Math.round` of 15% of 12515 (1877.25) is 1877; the half-way case 0.5 rounds up. */
  lemma RoundingExample()
    ensures RoundPercent(12515, 15) == 1877
    ensures RoundPercent(5, 10) == 1
    ensures RoundPercent(4, 10) == 0
  {
  }

  /**
    The total is not clamped: a stored percent above 100 (possible when the
    document is written other than through the admin form) makes it negative.
   */
  lemma UnclampedPercentGoesNegative()
    ensures Price([LineItem("a", "A", 1000, 1)], ComboConfig(false, []), BulkRules(true, 1, 150, AllItems)).total == -500
  {
    var cart := [LineItem("a", "A", 1000, 1)];
    assert Subtotal(cart) == 1000;
    assert UnitCount(cart) == 1;
  }
}
