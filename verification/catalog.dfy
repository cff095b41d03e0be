/**
  The live catalog: products, availability, the effective price a product
  is sold at, the display ordering, and the order-field updates the admin
  reordering buttons compute.
 */
module Catalog {
  import opened Wrappers
  import opened Js

  /** `Number.MAX_SAFE_INTEGER`, the order key of a product without an `order` field. */
  const MaxSafeInteger: int := 9007199254740991

  /**
    A product document. `offer`, `stock` and `order` are `None` when the
    field is undefined or null; `legacySoldOut` is the old `agotado` flag as
    stored; `name` is "" when missing.
   */
  datatype Product = Product(
    id: string,
    name: string,
    price: int,
    offer: Option<int>,
    stock: Option<int>,
    legacySoldOut: JsValue,
    order: Option<int>)

  predicate UniqueIds(ps: seq<Product>) {
    forall i, j :: 0 <= i < j < |ps| ==> ps[i].id != ps[j].id
  }

  // ---------------------------------------------------------------------------
  // Availability and price
  // ---------------------------------------------------------------------------

  /**
    `isSoldOut`: a present stock count decides alone (sold out iff it is at
    most zero); only without one does the legacy flag count, by truthiness.
   */
  function IsSoldOut(p: Product): (soldOut: bool)
    ensures p.stock.Some? ==> (soldOut <==> p.stock.value <= 0)
    ensures p.stock.None? ==> (soldOut <==> Truthy(p.legacySoldOut))
  {
    match p.stock
    case Some(n) => n <= 0
    case None => Truthy(p.legacySoldOut)
  }

  /** A present stock count overrides the legacy flag, whatever its value. */
  lemma StockOverridesLegacyFlag(p: Product, flag: JsValue)
    requires p.stock.Some?
    ensures IsSoldOut(p.(legacySoldOut := flag)) == IsSoldOut(p)
  {
  }

  /**
    The unit price captured when a product is added: the offer when it is
    truthy (present and non-zero), otherwise the base price. The offer is
    not required to be lower than the base price.
   */
  function EffectivePrice(p: Product): (unit: int)
    ensures p.offer.Some? && p.offer.value != 0 ==> unit == p.offer.value
    ensures p.offer.None? || p.offer == Some(0) ==> unit == p.price
  {
    match p.offer
    case Some(o) => if o != 0 then o else p.price
    case None => p.price
  }

  /** `PRODUCTS.find(p => String(p.id) === String(id))`, as a position. */
  function FindProduct(ps: seq<Product>, id: string): (r: Option<nat>)
    ensures r.Some? ==> r.value < |ps| && ps[r.value].id == id
    ensures r.Some? ==> forall j :: 0 <= j < r.value ==> ps[j].id != id
    ensures r.None? ==> forall j :: 0 <= j < |ps| ==> ps[j].id != id
  {
    if |ps| == 0 then None
    else if ps[0].id == id then Some(0)
    else match FindProduct(ps[1..], id)
      case None => None
      case Some(k) => Some(k + 1)
  }

  // ---------------------------------------------------------------------------
  // Display order
  // ---------------------------------------------------------------------------

  /** `Number(p.order ?? Number.MAX_SAFE_INTEGER)`: `??` replaces only a missing order, never 0. */
  function OrderKey(p: Product): (key: int)
    ensures p.order.Some? ==> key == p.order.value
    ensures p.order.None? ==> key == MaxSafeInteger
  {
    p.order.GetOr(MaxSafeInteger)
  }

  /**
    What the catalog comparator needs of the name comparison (`localeCompare`,
    left abstract): its sign is skew-symmetric and "not after" is transitive.
   */
  ghost predicate IsNameOrder(nameCmp: (string, string) -> int) {
    && (forall x, y :: nameCmp(x, y) < 0 <==> nameCmp(y, x) > 0)
    && (forall x, y, z :: nameCmp(x, y) <= 0 && nameCmp(y, z) <= 0 ==> nameCmp(x, z) <= 0)
  }

  /**
    The sort comparator of the product subscription: by order key, and by
    name when the keys are equal. Negative means `a` is listed first.
   */
  function Compare(a: Product, b: Product, nameCmp: (string, string) -> int): (c: int)
    ensures c < 0 <==> OrderKey(a) < OrderKey(b) || (OrderKey(a) == OrderKey(b) && nameCmp(a.name, b.name) < 0)
    ensures c == 0 <==> OrderKey(a) == OrderKey(b) && nameCmp(a.name, b.name) == 0
  {
    var ao, bo := OrderKey(a), OrderKey(b);
    if ao == bo then nameCmp(a.name, b.name) else ao - bo
  }

  /** A product with an order below the maximum is listed before one without an order. */
  lemma MissingOrderSortsLast(a: Product, b: Product, nameCmp: (string, string) -> int)
    requires a.order.Some? && a.order.value < MaxSafeInteger && b.order.None?
    ensures Compare(a, b, nameCmp) < 0 && Compare(b, a, nameCmp) > 0
  {
  }

  /** The comparator is skew-symmetric whenever the name comparison is. */
  lemma CompareSkew(a: Product, b: Product, nameCmp: (string, string) -> int)
    requires IsNameOrder(nameCmp)
    ensures Compare(a, b, nameCmp) < 0 <==> Compare(b, a, nameCmp) > 0
  {
    assert nameCmp(a.name, b.name) < 0 <==> nameCmp(b.name, a.name) > 0;
  }

  /** "Not after" under the comparator is transitive whenever it is for names. */
  lemma CompareTransitive(a: Product, b: Product, c: Product, nameCmp: (string, string) -> int)
    requires IsNameOrder(nameCmp)
    requires Compare(a, b, nameCmp) <= 0 && Compare(b, c, nameCmp) <= 0
    ensures Compare(a, c, nameCmp) <= 0
  {
    if OrderKey(a) == OrderKey(b) == OrderKey(c) {
      assert nameCmp(a.name, b.name) <= 0 && nameCmp(b.name, c.name) <= 0;
    }
  }

  predicate SortedBy(ps: seq<Product>, nameCmp: (string, string) -> int) {
    forall i, j :: 0 <= i < j < |ps| ==> Compare(ps[i], ps[j], nameCmp) <= 0
  }

  /** Inserts `p` into a list already in display order. */
  function Insert(p: Product, ps: seq<Product>, nameCmp: (string, string) -> int): (r: seq<Product>)
    requires IsNameOrder(nameCmp)
    requires SortedBy(ps, nameCmp)
    ensures multiset(r) == multiset(ps) + multiset{p}
    ensures SortedBy(r, nameCmp)
  {
    if |ps| == 0 then [p]
    else if Compare(p, ps[0], nameCmp) <= 0 then
      InsertFront(p, ps, nameCmp);
      [p] + ps
    else
      SortedTail(ps, nameCmp);
      var rest := Insert(p, ps[1..], nameCmp);
      CompareSkew(p, ps[0], nameCmp);
      InsertBehind(p, ps, rest, nameCmp);
      assert ps == [ps[0]] + ps[1..];
      assert multiset([ps[0]] + rest) == multiset{ps[0]} + multiset(rest);
      [ps[0]] + rest
  }

  lemma SortedTail(ps: seq<Product>, nameCmp: (string, string) -> int)
    requires |ps| > 0 && SortedBy(ps, nameCmp)
    ensures SortedBy(ps[1..], nameCmp)
  {
    forall i, j | 0 <= i < j < |ps[1..]| ensures Compare(ps[1..][i], ps[1..][j], nameCmp) <= 0 {
      assert ps[1..][i] == ps[i + 1] && ps[1..][j] == ps[j + 1];
    }
  }

  lemma InsertFront(p: Product, ps: seq<Product>, nameCmp: (string, string) -> int)
    requires IsNameOrder(nameCmp)
    requires |ps| > 0 && SortedBy(ps, nameCmp) && Compare(p, ps[0], nameCmp) <= 0
    ensures SortedBy([p] + ps, nameCmp)
  {
    var r := [p] + ps;
    forall i, j | 0 <= i < j < |r| ensures Compare(r[i], r[j], nameCmp) <= 0 {
      if i == 0 && j > 1 {
        CompareTransitive(p, ps[0], ps[j - 1], nameCmp);
      }
    }
  }

  lemma InsertBehind(p: Product, ps: seq<Product>, rest: seq<Product>, nameCmp: (string, string) -> int)
    requires IsNameOrder(nameCmp)
    requires |ps| > 0 && SortedBy(ps, nameCmp) && Compare(ps[0], p, nameCmp) < 0
    requires multiset(rest) == multiset(ps[1..]) + multiset{p}
    requires SortedBy(rest, nameCmp)
    ensures SortedBy([ps[0]] + rest, nameCmp)
  {
    var r := [ps[0]] + rest;
    forall i, j | 0 <= i < j < |r| ensures Compare(r[i], r[j], nameCmp) <= 0 {
      if i == 0 {
        var y := rest[j - 1];
        assert y in multiset(rest);
        if y != p {
          assert y in multiset(ps[1..]);
          var k :| 0 <= k < |ps[1..]| && ps[1..][k] == y;
          assert ps[k + 1] == y;
        }
      }
    }
  }

  /** `PRODUCTS.sort(comparator)`: a permutation of the snapshot in display order. */
  function SortProducts(ps: seq<Product>, nameCmp: (string, string) -> int): (r: seq<Product>)
    requires IsNameOrder(nameCmp)
    ensures multiset(r) == multiset(ps)
    ensures SortedBy(r, nameCmp)
  {
    if |ps| == 0 then []
    else
      assert ps == [ps[0]] + ps[1..];
      Insert(ps[0], SortProducts(ps[1..], nameCmp), nameCmp)
  }

  // ---------------------------------------------------------------------------
  // Reordering: move up, move down, normalise
  // ---------------------------------------------------------------------------

  /** One `order` field write of a batch. */
  datatype OrderUpdate = OrderUpdate(id: string, order: int)

  /** The order value a batch leaves on document `id`: the last write to it, if any. */
  function LastUpdateFor(updates: seq<OrderUpdate>, id: string): (r: Option<int>)
    ensures r.None? ==> forall k :: 0 <= k < |updates| ==> updates[k].id != id
    ensures r.Some? ==> exists k :: (0 <= k < |updates| && updates[k] == OrderUpdate(id, r.value)
      && forall m :: k < m < |updates| ==> updates[m].id != id)
  {
    if |updates| == 0 then None
    else if updates[|updates| - 1].id == id then Some(updates[|updates| - 1].order)
    else
      var r := LastUpdateFor(updates[..|updates| - 1], id);
      assert forall k :: 0 <= k < |updates| - 1 ==> updates[..|updates| - 1][k] == updates[k];
      r
  }

  /** The catalog after a committed batch: each product takes the last order written to its id. */
  function ApplyUpdates(ps: seq<Product>, updates: seq<OrderUpdate>): (r: seq<Product>)
    ensures |r| == |ps|
    ensures forall i :: 0 <= i < |ps| ==> r[i] == ps[i].(order := r[i].order)
    ensures forall i :: 0 <= i < |ps| && LastUpdateFor(updates, ps[i].id).None? ==> r[i] == ps[i]
    ensures forall i :: 0 <= i < |ps| && LastUpdateFor(updates, ps[i].id).Some? ==>
      r[i].order == Some(LastUpdateFor(updates, ps[i].id).value)
  {
    seq(|ps|, i requires 0 <= i < |ps| =>
      match LastUpdateFor(updates, ps[i].id)
      case Some(o) => ps[i].(order := Some(o))
      case None => ps[i])
  }

  /** `adminMoveUp`: swap order values with the product listed just above; nothing at the top or for an unknown id. */
  function MoveUp(ps: seq<Product>, id: string, now: int): (updates: seq<OrderUpdate>)
    ensures updates == [] <==> FindProduct(ps, id).None? || FindProduct(ps, id).value == 0
    ensures updates != [] ==>
      var idx := FindProduct(ps, id).value;
      && |updates| == 2
      && updates[0] == OrderUpdate(id, ps[idx - 1].order.GetOr(now - 1))
      && updates[1] == OrderUpdate(ps[idx - 1].id, ps[idx].order.GetOr(now))
  {
    match FindProduct(ps, id)
    case None => []
    case Some(idx) =>
      if idx == 0 then []
      else
        var current, above := ps[idx], ps[idx - 1];
        [OrderUpdate(current.id, above.order.GetOr(now - 1)), OrderUpdate(above.id, current.order.GetOr(now))]
  }

  /** `adminMoveDown`: swap order values with the product listed just below; nothing at the bottom or for an unknown id. */
  function MoveDown(ps: seq<Product>, id: string, now: int): (updates: seq<OrderUpdate>)
    ensures updates == [] <==> FindProduct(ps, id).None? || FindProduct(ps, id).value == |ps| - 1
    ensures updates != [] ==>
      var idx := FindProduct(ps, id).value;
      && |updates| == 2
      && updates[0] == OrderUpdate(id, ps[idx + 1].order.GetOr(now + 1))
      && updates[1] == OrderUpdate(ps[idx + 1].id, ps[idx].order.GetOr(now))
  {
    match FindProduct(ps, id)
    case None => []
    case Some(idx) =>
      if idx >= |ps| - 1 then []
      else
        var current, below := ps[idx], ps[idx + 1];
        [OrderUpdate(current.id, below.order.GetOr(now + 1)), OrderUpdate(below.id, current.order.GetOr(now))]
  }

  /** Moving the first product up, the last product down, or an unknown id writes nothing. */
  lemma MoveAtEndsIsNoOp(ps: seq<Product>, id: string, now: int)
    ensures FindProduct(ps, id).None? ==> MoveUp(ps, id, now) == [] && MoveDown(ps, id, now) == []
    ensures |ps| > 0 && ps[0].id == id ==> MoveUp(ps, id, now) == []
    ensures UniqueIds(ps) && |ps| > 0 && ps[|ps| - 1].id == id ==> MoveDown(ps, id, now) == []
    ensures ApplyUpdates(ps, []) == ps
  {
  }

  /** A two-write batch on two distinct products sets those two orders and nothing else. */
  lemma ApplyPairOfUpdates(ps: seq<Product>, i: nat, j: nat, a: int, b: int)
    requires UniqueIds(ps)
    requires i < |ps| && j < |ps| && i != j
    ensures var r := ApplyUpdates(ps, [OrderUpdate(ps[i].id, a), OrderUpdate(ps[j].id, b)]);
      && r[i] == ps[i].(order := Some(a))
      && r[j] == ps[j].(order := Some(b))
      && forall k :: 0 <= k < |ps| && k != i && k != j ==> r[k] == ps[k]
  {
    var u := [OrderUpdate(ps[i].id, a), OrderUpdate(ps[j].id, b)];
    assert LastUpdateFor(u, ps[j].id) == Some(b);
    assert LastUpdateFor(u, ps[i].id) == Some(a);
    forall k | 0 <= k < |ps| && k != i && k != j
      ensures LastUpdateFor(u, ps[k].id).None?
    {
      assert ps[k].id != ps[i].id && ps[k].id != ps[j].id;
    }
  }

  /**
    Moving a product up exchanges its order value with its upper neighbour's
    and touches no other product.
   */
  lemma MoveUpSwapsWithNeighbour(ps: seq<Product>, idx: nat, now: int)
    requires UniqueIds(ps)
    requires 0 < idx < |ps|
    ensures var r := ApplyUpdates(ps, MoveUp(ps, ps[idx].id, now));
      && r[idx] == ps[idx].(order := Some(ps[idx - 1].order.GetOr(now - 1)))
      && r[idx - 1] == ps[idx - 1].(order := Some(ps[idx].order.GetOr(now)))
      && forall k :: 0 <= k < |ps| && k != idx && k != idx - 1 ==> r[k] == ps[k]
  {
    assert FindProduct(ps, ps[idx].id) == Some(idx);
    ApplyPairOfUpdates(ps, idx, idx - 1, ps[idx - 1].order.GetOr(now - 1), ps[idx].order.GetOr(now));
  }

  /**
    Moving a product down exchanges its order value with its lower neighbour's
    and touches no other product.
   */
  lemma MoveDownSwapsWithNeighbour(ps: seq<Product>, idx: nat, now: int)
    requires UniqueIds(ps)
    requires idx + 1 < |ps|
    ensures var r := ApplyUpdates(ps, MoveDown(ps, ps[idx].id, now));
      && r[idx] == ps[idx].(order := Some(ps[idx + 1].order.GetOr(now + 1)))
      && r[idx + 1] == ps[idx + 1].(order := Some(ps[idx].order.GetOr(now)))
      && forall k :: 0 <= k < |ps| && k != idx && k != idx + 1 ==> r[k] == ps[k]
  {
    assert FindProduct(ps, ps[idx].id) == Some(idx);
    ApplyPairOfUpdates(ps, idx, idx + 1, ps[idx + 1].order.GetOr(now + 1), ps[idx].order.GetOr(now));
  }

  /**
    When both neighbours carry an order, moving a product up and then moving
    its former upper neighbour down (before the list is re-sorted) restores
    the catalog.
   */
  lemma MoveDownUndoesMoveUp(ps: seq<Product>, idx: nat, now: int, later: int)
    requires UniqueIds(ps)
    requires 0 < idx < |ps|
    requires ps[idx].order.Some? && ps[idx - 1].order.Some?
    ensures var moved := ApplyUpdates(ps, MoveUp(ps, ps[idx].id, now));
      ApplyUpdates(moved, MoveDown(moved, ps[idx - 1].id, later)) == ps
  {
    MoveUpSwapsWithNeighbour(ps, idx, now);
    var moved := ApplyUpdates(ps, MoveUp(ps, ps[idx].id, now));
    assert forall k :: 0 <= k < |ps| ==> moved[k].id == ps[k].id;
    assert UniqueIds(moved);
    MoveDownSwapsWithNeighbour(moved, idx - 1, later);
    var back := ApplyUpdates(moved, MoveDown(moved, ps[idx - 1].id, later));
    forall k | 0 <= k < |ps| ensures back[k] == ps[k] {
      if k != idx - 1 && k != idx {
        assert moved[k] == ps[k];
      }
    }
    assert |back| == |ps|;
  }

  /** `adminNormalizeOrder`: write `i + 1` as the order of the product at position `i`. */
  function NormalizeUpdates(ps: seq<Product>): (updates: seq<OrderUpdate>)
    ensures |updates| == |ps|
    ensures forall i :: 0 <= i < |ps| ==> updates[i] == OrderUpdate(ps[i].id, i + 1)
  {
    seq(|ps|, i requires 0 <= i < |ps| => OrderUpdate(ps[i].id, i + 1))
  }

  /**
    After normalising, the order values are 1, 2, 3, ... in the current
    display order, so the comparator lists the products exactly in that
    order whatever their names.
   */
  lemma NormalizeNumbersConsecutively(ps: seq<Product>, nameCmp: (string, string) -> int)
    requires UniqueIds(ps)
    ensures var r := ApplyUpdates(ps, NormalizeUpdates(ps));
      && (forall i :: 0 <= i < |ps| ==> r[i] == ps[i].(order := Some(i + 1)))
      && (forall i, j :: 0 <= i < j < |ps| ==> Compare(r[i], r[j], nameCmp) < 0)
  {
    var u := NormalizeUpdates(ps);
    var r := ApplyUpdates(ps, u);
    forall i | 0 <= i < |ps| ensures r[i] == ps[i].(order := Some(i + 1)) {
      var v := LastUpdateFor(u, ps[i].id);
      assert u[i].id == ps[i].id;
      var k :| 0 <= k < |u| && u[k] == OrderUpdate(ps[i].id, v.value)
        && forall m :: k < m < |u| ==> u[m].id != ps[i].id;
      assert k == i;
    }
  }
}
