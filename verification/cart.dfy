/**
  The session's cart: line items and the three cart operations
  (add, change quantity, remove), plus the badge count.
 */
module Cart {
  import opened Wrappers
  import opened Catalog

  /** A cart line: id and name copied from the product, the unit price captured at add time, a quantity. */
  datatype LineItem = LineItem(id: string, name: string, unitPrice: int, qty: int)

  predicate UniqueLineIds(cart: seq<LineItem>) {
    forall i, j :: 0 <= i < j < |cart| ==> cart[i].id != cart[j].id
  }

  predicate PositiveQuantities(cart: seq<LineItem>) {
    forall i :: 0 <= i < |cart| ==> cart[i].qty >= 1
  }

  /** What the cart operations maintain: one line per id, every quantity at least 1. */
  predicate WellFormed(cart: seq<LineItem>) {
    UniqueLineIds(cart) && PositiveQuantities(cart)
  }

  // ---------------------------------------------------------------------------
  // Sums over lines (the `reduce((acc, p) => acc + f(p), 0)` pattern)
  // ---------------------------------------------------------------------------

  /** Sum of `f` over the lines, accumulated left to right. */
  function SumOf(s: seq<LineItem>, f: LineItem -> int): int {
    if |s| == 0 then 0 else SumOf(s[..|s| - 1], f) + f(s[|s| - 1])
  }

  function Qty(l: LineItem): int {
    l.qty
  }

  /** The quantity held under `id`. */
  function QtyFor(id: string): LineItem -> int {
    (l: LineItem) => if l.id == id then l.qty else 0
  }

  function QtyOf(cart: seq<LineItem>, id: string): int {
    SumOf(cart, QtyFor(id))
  }

  lemma {:induction false} SumOfConcat(a: seq<LineItem>, b: seq<LineItem>, f: LineItem -> int)
    ensures SumOf(a + b, f) == SumOf(a, f) + SumOf(b, f)
  {
    if |b| == 0 {
      assert a + b == a;
    } else {
      assert (a + b)[..|a + b| - 1] == a + b[..|b| - 1];
      SumOfConcat(a, b[..|b| - 1], f);
    }
  }

  lemma SumOfRemoveAt(s: seq<LineItem>, f: LineItem -> int, k: nat)
    requires k < |s|
    ensures SumOf(s, f) == SumOf(s[..k] + s[k + 1..], f) + f(s[k])
  {
    var front, back := s[..k + 1], s[k + 1..];
    assert s == front + back;
    SumOfConcat(front, back, f);
    assert front[..|front| - 1] == s[..k];
    SumOfConcat(s[..k], back, f);
  }

  lemma SumOfUpdate(s: seq<LineItem>, f: LineItem -> int, k: nat, x: LineItem)
    requires k < |s|
    ensures SumOf(s[k := x], f) == SumOf(s, f) - f(s[k]) + f(x)
  {
    SumOfRemoveAt(s, f, k);
    SumOfRemoveAt(s[k := x], f, k);
    assert s[k := x][..k] + s[k := x][k + 1..] == s[..k] + s[k + 1..];
  }

  /** A sum over lines does not depend on their order. */
  lemma {:induction false} SumOfPermutation(a: seq<LineItem>, b: seq<LineItem>, f: LineItem -> int)
    requires multiset(a) == multiset(b)
    ensures SumOf(a, f) == SumOf(b, f)
    decreases |a|
  {
    if |a| > 0 {
      var n := |a| - 1;
      var x := a[n];
      assert x in multiset(b);
      var k :| 0 <= k < |b| && b[k] == x;
      MultisetRemoveAt(a, n);
      MultisetRemoveAt(b, k);
      assert a[..n] + a[n + 1..] == a[..n];
      SumOfPermutation(a[..n], b[..k] + b[k + 1..], f);
      SumOfRemoveAt(b, f, k);
    } else {
      assert |b| == 0;
    }
  }

  lemma MultisetRemoveAt(s: seq<LineItem>, k: nat)
    requires k < |s|
    ensures multiset(s[..k] + s[k + 1..]) == multiset(s) - multiset{s[k]}
  {
    assert s == s[..k] + [s[k]] + s[k + 1..];
    assert multiset(s) == multiset(s[..k]) + multiset{s[k]} + multiset(s[k + 1..]);
  }

  /** A sum of a non-negative quantity is non-negative. */
  lemma {:induction false} SumOfNonNegative(s: seq<LineItem>, f: LineItem -> int)
    requires forall i :: 0 <= i < |s| ==> f(s[i]) >= 0
    ensures SumOf(s, f) >= 0
  {
    if |s| > 0 {
      SumOfNonNegative(s[..|s| - 1], f);
    }
  }

  /** A line id that is absent contributes nothing to `QtyOf`. */
  lemma {:induction false} QtyOfAbsent(cart: seq<LineItem>, id: string)
    requires forall i :: 0 <= i < |cart| ==> cart[i].id != id
    ensures QtyOf(cart, id) == 0
  {
    if |cart| > 0 {
      QtyOfAbsent(cart[..|cart| - 1], id);
    }
  }

  // ---------------------------------------------------------------------------
  // Operations
  // ---------------------------------------------------------------------------

  /** `cart.find(p => String(p.id) === String(id))`, as a position. */
  function FindLine(cart: seq<LineItem>, id: string): (r: Option<nat>)
    ensures r.Some? ==> r.value < |cart| && cart[r.value].id == id
    ensures r.Some? ==> forall j :: 0 <= j < r.value ==> cart[j].id != id
    ensures r.None? ==> forall j :: 0 <= j < |cart| ==> cart[j].id != id
  {
    if |cart| == 0 then None
    else if cart[0].id == id then Some(0)
    else match FindLine(cart[1..], id)
      case None => None
      case Some(k) => Some(k + 1)
  }

  /** The notice `addToCart` shows. */
  datatype AddNotice = ProductNotFound | ProductSoldOut | Added

  /**
    `addToCart(id)`: an unknown or sold-out product leaves the cart as it is;
    otherwise the line for that id gains one unit, or a new line with one
    unit at the product's effective price is appended.
   */
  function AddToCart(catalog: seq<Product>, cart: seq<LineItem>, id: string): (r: (seq<LineItem>, AddNotice))
    ensures FindProduct(catalog, id).None? ==> r == (cart, ProductNotFound)
    ensures FindProduct(catalog, id).Some? && IsSoldOut(catalog[FindProduct(catalog, id).value]) ==> r == (cart, ProductSoldOut)
    ensures r.1 == Added <==> FindProduct(catalog, id).Some? && !IsSoldOut(catalog[FindProduct(catalog, id).value])
    ensures r.1 == Added && FindLine(cart, id).Some? ==>
      var k := FindLine(cart, id).value;
      r.0 == cart[k := cart[k].(qty := cart[k].qty + 1)]
    ensures r.1 == Added && FindLine(cart, id).None? ==>
      var p := catalog[FindProduct(catalog, id).value];
      r.0 == cart + [LineItem(id, p.name, EffectivePrice(p), 1)]
    ensures WellFormed(cart) ==> WellFormed(r.0)
  {
    match FindProduct(catalog, id)
    case None => (cart, ProductNotFound)
    case Some(i) =>
      var p := catalog[i];
      if IsSoldOut(p) then (cart, ProductSoldOut)
      else match FindLine(cart, id)
        case Some(k) => (cart[k := cart[k].(qty := cart[k].qty + 1)], Added)
        case None => (cart + [LineItem(id, p.name, EffectivePrice(p), 1)], Added)
  }

  /**
    A successful add puts exactly one more unit under `id` and leaves the
    quantity of every other id unchanged.
   */
  lemma AddToCartCountsOneUnit(catalog: seq<Product>, cart: seq<LineItem>, id: string, other: string)
    requires AddToCart(catalog, cart, id).1 == Added
    requires other != id
    ensures QtyOf(AddToCart(catalog, cart, id).0, id) == QtyOf(cart, id) + 1
    ensures QtyOf(AddToCart(catalog, cart, id).0, other) == QtyOf(cart, other)
  {
    var r := AddToCart(catalog, cart, id).0;
    match FindLine(cart, id)
    case Some(k) =>
      SumOfUpdate(cart, QtyFor(id), k, cart[k].(qty := cart[k].qty + 1));
      SumOfUpdate(cart, QtyFor(other), k, cart[k].(qty := cart[k].qty + 1));
    case None =>
      var p := catalog[FindProduct(catalog, id).value];
      var line := LineItem(id, p.name, EffectivePrice(p), 1);
      assert r == cart + [line];
      assert r[..|r| - 1] == cart;
  }

  /** `Math.max(1, qty + delta)`. */
  function ClampQty(q: int): (r: int)
    ensures r >= 1 && r >= q
    ensures q >= 1 ==> r == q
    ensures q < 1 ==> r == 1
  {
    if q >= 1 then q else 1
  }

  /**
    `changeQty(id, delta)`: the line for `id` gets `max(1, qty + delta)`; no
    line is ever removed, and an absent id changes nothing.
   */
  function ChangeQty(cart: seq<LineItem>, id: string, delta: int): (r: seq<LineItem>)
    ensures |r| == |cart|
    ensures forall i :: 0 <= i < |cart| ==> r[i] == cart[i].(qty := r[i].qty)
    ensures FindLine(cart, id).None? ==> r == cart
    ensures FindLine(cart, id).Some? ==>
      var k := FindLine(cart, id).value;
      && r[k].qty >= 1
      && (cart[k].qty + delta >= 1 ==> r[k].qty == cart[k].qty + delta)
      && (cart[k].qty + delta < 1 ==> r[k].qty == 1)
      && forall i :: 0 <= i < |cart| && i != k ==> r[i] == cart[i]
    ensures WellFormed(cart) ==> WellFormed(r)
  {
    match FindLine(cart, id)
    case None => cart
    case Some(k) => cart[k := cart[k].(qty := ClampQty(cart[k].qty + delta))]
  }

  /**
    `removeFromCart(id)`: keeps, in their original order, exactly the lines
    with another id.
   */
  function RemoveFromCart(cart: seq<LineItem>, id: string): (r: seq<LineItem>)
    ensures forall l :: l in r <==> l in cart && l.id != id
    ensures |r| <= |cart|
    ensures UniqueLineIds(cart) ==> UniqueLineIds(r)
  {
    if |cart| == 0 then []
    else
      var rest := RemoveFromCart(cart[1..], id);
      ConsKeepsUnique(cart, rest);
      if cart[0].id == id then rest else [cart[0]] + rest
  }

  lemma ConsKeepsUnique(cart: seq<LineItem>, rest: seq<LineItem>)
    requires |cart| > 0
    requires forall l :: l in rest ==> l in cart[1..]
    requires UniqueLineIds(cart[1..]) ==> UniqueLineIds(rest)
    ensures UniqueLineIds(cart) ==> UniqueLineIds([cart[0]] + rest)
  {
    if UniqueLineIds(cart) {
      assert UniqueLineIds(cart[1..]);
      var r := [cart[0]] + rest;
      forall i, j | 0 <= i < j < |r| ensures r[i].id != r[j].id {
        if i == 0 {
          assert r[j] in cart[1..];
        }
      }
    }
  }

  /** The filter works piece by piece, so the kept lines stay in their order, duplicates included. */
  lemma {:induction false} RemoveFromCartConcat(a: seq<LineItem>, b: seq<LineItem>, id: string)
    ensures RemoveFromCart(a + b, id) == RemoveFromCart(a, id) + RemoveFromCart(b, id)
  {
    if |a| > 0 {
      assert (a + b)[1..] == a[1..] + b;
      RemoveFromCartConcat(a[1..], b, id);
    } else {
      assert a + b == b;
    }
  }

  /** In a well-formed cart, removing an id present at position `k` removes exactly that line. */
  lemma {:induction false} RemoveFromCartDropsOneLine(cart: seq<LineItem>, id: string, k: nat)
    requires UniqueLineIds(cart)
    requires k < |cart| && cart[k].id == id
    ensures RemoveFromCart(cart, id) == cart[..k] + cart[k + 1..]
  {
    if k == 0 {
      RemoveFirstOfUnique(cart, id);
    } else {
      UniqueTail(cart);
      assert cart[1..][k - 1] == cart[k];
      RemoveFromCartDropsOneLine(cart[1..], id, k - 1);
      assert cart[0].id != cart[k].id;
      RemoveKeepsHead(cart, id, k);
    }
  }

  lemma RemoveFirstOfUnique(cart: seq<LineItem>, id: string)
    requires UniqueLineIds(cart)
    requires |cart| > 0 && cart[0].id == id
    ensures RemoveFromCart(cart, id) == cart[1..]
  {
    var tail := cart[1..];
    forall i | 0 <= i < |tail| ensures tail[i].id != id {
      assert tail[i] == cart[i + 1];
    }
    RemoveAbsent(tail, id);
  }

  lemma RemoveKeepsHead(cart: seq<LineItem>, id: string, k: nat)
    requires 0 < k < |cart| && cart[0].id != id
    requires RemoveFromCart(cart[1..], id) == cart[1..][..k - 1] + cart[1..][k..]
    ensures RemoveFromCart(cart, id) == cart[..k] + cart[k + 1..]
  {
    var rest := RemoveFromCart(cart[1..], id);
    var want := cart[..k] + cart[k + 1..];
    assert |rest| == |cart| - 2;
    forall i | 0 <= i < |want| ensures ([cart[0]] + rest)[i] == want[i] {
      if i > 0 {
        assert ([cart[0]] + rest)[i] == rest[i - 1];
        if i < k {
          assert rest[i - 1] == cart[i];
        } else {
          assert rest[i - 1] == cart[i + 1];
        }
      }
    }
    assert [cart[0]] + rest == want;
  }

  lemma UniqueTail(cart: seq<LineItem>)
    requires |cart| > 0 && UniqueLineIds(cart)
    ensures UniqueLineIds(cart[1..])
  {
    forall i, j | 0 <= i < j < |cart[1..]| ensures cart[1..][i].id != cart[1..][j].id {
      assert cart[1..][i] == cart[i + 1] && cart[1..][j] == cart[j + 1];
    }
  }

  /** Removing an id the cart does not hold leaves it unchanged. */
  lemma {:induction false} RemoveAbsent(cart: seq<LineItem>, id: string)
    requires forall i :: 0 <= i < |cart| ==> cart[i].id != id
    ensures RemoveFromCart(cart, id) == cart
  {
    if |cart| > 0 {
      assert cart[0].id != id;
      forall i | 0 <= i < |cart[1..]| ensures cart[1..][i].id != id {
        assert cart[1..][i] == cart[i + 1];
      }
      RemoveAbsent(cart[1..], id);
    }
  }

  /** Removing twice is the same as removing once, and the id is gone afterwards. */
  lemma RemoveFromCartIdempotent(cart: seq<LineItem>, id: string)
    ensures RemoveFromCart(RemoveFromCart(cart, id), id) == RemoveFromCart(cart, id)
    ensures QtyOf(RemoveFromCart(cart, id), id) == 0
  {
    var r := RemoveFromCart(cart, id);
    assert forall i :: 0 <= i < |r| ==> r[i] in r;
    RemoveAbsent(r, id);
    QtyOfAbsent(r, id);
  }

  /** Removal keeps a well-formed cart well-formed. */
  lemma RemoveFromCartKeepsWellFormed(cart: seq<LineItem>, id: string)
    requires WellFormed(cart)
    ensures WellFormed(RemoveFromCart(cart, id))
  {
    var r := RemoveFromCart(cart, id);
    forall i | 0 <= i < |r| ensures r[i].qty >= 1 {
      assert r[i] in r;
      var k :| 0 <= k < |cart| && cart[k] == r[i];
    }
  }

  /**
    The number of units in the cart: what the cart badge shows
    (`updateCartBubble`) and what the bulk rule counts for the "all" scope.
   */
  function UnitCount(cart: seq<LineItem>): int {
    SumOf(cart, Qty)
  }

  /**
    In a well-formed cart there is at least one unit per line, so the badge
    (hidden when the count is not positive) is shown iff the cart is non-empty.
   */
  lemma {:induction false} UnitCountBounds(cart: seq<LineItem>)
    requires PositiveQuantities(cart)
    ensures UnitCount(cart) >= |cart|
    ensures UnitCount(cart) > 0 <==> |cart| > 0
  {
    if |cart| > 0 {
      UnitCountBounds(cart[..|cart| - 1]);
    }
  }
}
