# Storefront cart and pricing engine, in Dafny

This project models the core of `app.js`, the single-page storefront of an
electronics shop. The model covers:

- the shopping cart: adding a product, changing a quantity, removing a line,
  and the unit count shown on the cart badge;
- the two promotions applied at checkout. The "Combo 3x2" makes the cheapest
  eligible unit free once three eligible units are in the cart. The bulk
  discount takes a rounded percentage off once enough items are in the cart;
- the two copies of the pricing code: the cart view (`renderCart`) and the
  checkout (`finalizePurchase`);
- the helpers those rely on: `isSoldOut`, the offer price, `htmlEscape`,
  `parseDescriptionToArray`, `cleanPayload`, and `String.prototype.trim` with
  its whitespace set;
- the admin operations on promos and on product order: save, edit, delete,
  move up, move down and normalise;
- reading the combo, bulk-discount and promo documents from their snapshots;
- the contact form's e-mail check.

Everything is pure data and pure functions. A Firestore snapshot is a value
passed in; a batched write is a list of `OrderUpdate`s that `ApplyUpdates`
commits; `Date.now()` is a parameter `now`. The method `Checkout.RenderCartTotal`
mirrors the JavaScript loops of `renderCart` through three smaller methods:
`SumLoop` for the reduce, `CollectEligibleUnits` for the nested push of
eligible unit prices, and `Smallest` for the sort-then-take-first. Its
contract proves that it gives the same breakdown as the pure `Pricing.Price`.

Files, one module each: `wrappers.dfy` (Option, Result), `js.dfy`
(JavaScript values, truthiness, `trim`, `String(n)`), `text.dfy` (escaping,
description parsing, e-mail pattern), `payload.dfy`, `catalog.dfy`,
`cart.dfy`, `config.dfy`, `pricing.dfy`, `checkout.dfy`, `promos.dfy`,
`session.dfy` (a sequence of shopper events folded over the cart).

Two behaviours of the code are worth stating plainly, because a reader
might expect otherwise:

- The offer price is used whenever it is truthy, even when it is higher
  than the base price, and an offer of 0 falls back to the base price
  (`app.js:446`). `Catalog.EffectivePrice` states this rule.
- A `stock` of `null` falls back to the legacy `agotado` sold-out flag, just
  as an absent `stock` does (`app.js:160-163`). `Catalog.IsSoldOut` follows
  this: `stock: None` stands for both.

## Model

| member | source | states |
|---|---|---|
| Js.Trim | app.js:153 | `trim()` keeps the slice between the leading and the trailing whitespace: everything before and after it is whitespace, its two ends are not, and it is "" exactly when the input is all whitespace |
| Js.TrimIdempotent | app.js:153 | trimming an already trimmed string changes nothing |
| Js.DecimalRoundTrip | app.js:437 | reading back `String(n)` for a natural `n` gives `n` |
| Js.IntToDecimalInjective | app.js:437 | two integer ids with equal `String(...)` forms are equal, so string id comparison agrees with numeric comparison |
| Text.EscapeEach | app.js:143-147 | the escaped text contains none of `<`, `>`, `"` and `'` |
| Text.EscapeChainIsEscapeEach | app.js:142-147 | the chain of five global replaces (`EscapeChain`), `&` first, equals escaping each character once in a single pass (nothing is double-escaped) |
| Text.UnescapeEscapeEach | app.js:143-147 | decoding the five entities restores the original text |
| Text.HtmlEscape | app.js:140-148 | falsy values other than 0 give "", 0 gives "0"; anything else gives the one-pass escape of `String(v)` (so every `&` becomes `&amp;`), which holds no markup character and decodes back to `String(v)` |
| Text.Split | app.js:152 | `split(';')` returns at least one piece, no piece holds the separator, and joining the pieces with the separator rebuilds the input |
| Text.SplitOfJoin | app.js:152 | splitting a join of separator-free pieces returns those pieces |
| Text.TrimAndKeep | app.js:153-154 | after trimming and dropping empty pieces, every kept piece is non-empty, has no edge whitespace and holds no `;` |
| Text.ParseDescription | app.js:149-155 | `undefined`/`null` give no pieces; a string gives its parsed pieces (any other value is converted with `String` first and only the cleanliness of its pieces is stated); every piece returned is clean |
| Text.TrimAndKeepOne | app.js:153-154 | a single `;`-free piece is kept as its trim, or dropped exactly when the trim is empty |
| Text.TrimAndKeepConcat | app.js:153-154 | trimming and filtering works piece by piece: a concatenation of piece lists gives the concatenation of the results, so the input order is kept |
| Text.TrimAndKeepMembers | app.js:153-154 | the kept pieces are exactly the non-blank trims of the input pieces |
| Text.ParsePiecesOfPiece | app.js:151-154 | a text without `;` parses to its trim, or to nothing when it is blank |
| Text.ParsePiecesAtSeparator | app.js:151-154 | parsing cuts at the first `;`: the pieces of the text before it, then those of the text after it; with the previous row this fixes the parse of every text |
| Text.ParsePiecesMembers | app.js:151-154 | the parse of a text holds exactly the non-blank trims of its `;`-separated parts |
| Text.ParseOfJoin | app.js:801-802 | joining clean pieces with "; " (what the edit form shows) and parsing that text again gives the same pieces |
| Text.IndexOf | app.js:1148 | finds the first occurrence of a character, or reports that none exists |
| Text.EmailCheckMatchesPattern | app.js:1148 | the scanner accepts exactly the strings the regular expression `^[^@\s]+@[^@\s]+\.[^@\s]+$` matches |
| Text.ContactFormAccepted | app.js:1144-1148 | the form is accepted exactly when trimmed name and message are non-empty and the trimmed e-mail matches the pattern |
| Payload.CleanPayload | app.js:30-40 | keeps a subset of the keys with unchanged values, and drops a key exactly when its value is undefined, null, a blank string or an empty array |
| Payload.CleanPayloadIdempotent | app.js:30-40 | cleaning a cleaned payload changes nothing |
| Catalog.IsSoldOut | app.js:158-164 | a present (non-null) stock decides alone (`stock <= 0`); otherwise the legacy flag decides by truthiness |
| Catalog.StockOverridesLegacyFlag | app.js:160-162 | when stock is present, the legacy flag has no effect |
| Catalog.EffectivePrice | app.js:446 | a non-zero offer wins; a missing or zero offer falls back to the base price |
| Catalog.FindProduct | app.js:437 | returns the index of the first product with the id, or none when no product has it |
| Catalog.MissingOrderSortsLast | app.js:50-51 | a product without `order` sorts after any product whose order is below `MAX_SAFE_INTEGER` |
| Catalog.Compare | app.js:49-54 | the comparator is negative exactly when the order key is smaller, or equal with the name before; zero exactly when both tie |
| Catalog.CompareSkew | app.js:49-54 | swapping the arguments flips the comparator's sign |
| Catalog.CompareTransitive | app.js:49-54 | the comparator is transitive, so the sort is well defined |
| Catalog.Insert | app.js:49-54 | inserting into a sorted list keeps it sorted and adds exactly one element |
| Catalog.SortProducts | app.js:49-54 | the result is a permutation of the snapshot and is sorted by the comparator |
| Catalog.LastUpdateFor | app.js:1055-1057 | the value found for a document is the one its last update in the batch writes; none is found exactly when no update names it |
| Catalog.ApplyUpdates | app.js:1050-1057 | committing a batch changes only `order` fields, only of the documents it names, and sets each named document's order to the last value written to it |
| Catalog.MoveUp | app.js:1045-1058 | nothing is written exactly when the id is unknown or the product is first; otherwise two writes: the product takes its upper neighbour's order (or `now - 1`), the neighbour takes the product's order (or `now`) |
| Catalog.MoveDown | app.js:1060-1073 | nothing is written exactly when the id is unknown or the product is last; otherwise two writes: the product takes its lower neighbour's order (or `now + 1`), the neighbour takes the product's order (or `now`) |
| Catalog.MoveAtEndsIsNoOp | app.js:1045-1073 | an unknown id, moving the first product up, or moving the last product down writes nothing |
| Catalog.MoveUpSwapsWithNeighbour | app.js:1045-1058 | moving up gives the product its upper neighbour's order and the neighbour the product's order; the rest is untouched |
| Catalog.MoveDownSwapsWithNeighbour | app.js:1060-1073 | moving down swaps the orders of the product and its lower neighbour; the rest is untouched |
| Catalog.MoveDownUndoesMoveUp | app.js:1045-1073 | the swap is its own inverse: when both orders were set, applying the up-swap's writes and then the down-swap's writes for the former upper neighbour, both computed on the list in its pre-sort positions, restores the catalog |
| Catalog.NormalizeUpdates | app.js:1077-1081 | one update per product, giving the product at position `i` the order `i + 1` |
| Catalog.NormalizeNumbersConsecutively | app.js:1075-1089 | after normalising, the products carry orders 1, 2, 3, … in their current order, with all other fields unchanged, so the comparator lists them exactly in that order whatever their names |
| Cart.FindLine | app.js:447 | returns the index of the first line with the id, or none when no line has it |
| Cart.AddToCart | app.js:436-456 | an unknown product or a sold-out product leaves the cart unchanged with the matching notice; otherwise it adds one unit to the existing line, or appends a new line at the effective price with quantity 1; well-formedness is kept |
| Cart.AddToCartCountsOneUnit | app.js:447-452 | a successful add raises the quantity of that id by exactly one and leaves every other id's quantity alone |
| Cart.ClampQty | app.js:460 | `Math.max(1, q)`: the clamped quantity is at least 1 and at least the input; it equals the input when the input is at least 1, and is exactly 1 otherwise |
| Cart.ChangeQty | app.js:457-464 | only the quantity of the first matching line changes, to `max(1, qty + delta)`; an absent id changes nothing; well-formedness is kept |
| Cart.RemoveFromCart | app.js:465-469 | the lines kept are exactly those with a different id, and unique ids stay unique |
| Cart.RemoveAbsent | app.js:466 | removing an id the cart does not hold leaves it unchanged |
| Cart.RemoveFromCartConcat | app.js:466 | the filter works piece by piece: removing from two carts joined equals joining the two removals, so the kept lines keep their order and their multiplicity even without unique ids |
| Cart.RemoveFromCartDropsOneLine | app.js:466 | in a cart with unique ids, removing drops exactly the one matching line and keeps the order of the rest |
| Cart.RemoveFromCartIdempotent | app.js:466 | removing twice equals removing once, and afterwards the id has quantity 0 |
| Cart.RemoveFromCartKeepsWellFormed | app.js:466 | removal keeps ids unique and quantities positive |
| Cart.SumOfPermutation | app.js:483 | a reduce over the cart does not depend on the order of its lines |
| Cart.UnitCountBounds | app.js:1288-1293 | with positive quantities the badge count is at least the number of lines, and it is positive exactly when the cart is non-empty |
| Config.ComboFromSnapshot | app.js:62-77 | a missing document gives the disabled default; a present one gives `enabled` by truthiness and the eligible ids as strings (a non-array gives none) |
| Config.ComboDocumentRoundTrip | app.js:64-72 | reading back a combo document that was written from a configuration gives that configuration |
| Config.NumericEligibleMatchesStringId | app.js:68 | a numeric eligible id is stored as its decimal string, so it matches the product id string |
| Config.BulkFromSnapshot | app.js:79-89 | a missing document resets to the defaults; a document without data keeps the current rules; otherwise the document is taken as it is |
| Config.ScopeOf | app.js:509-520 | a missing or empty `applyTo` and "all" count every unit; "eligibles" counts combo units; any other value counts nothing |
| Config.ReadBulk | app.js:506-509 | `enabled` by truthiness; a missing minimum or percentage reads as 0; the scope as above |
| Config.SaveBulkPayload | app.js:1116-1121 | the saved minimum is `max(1, minItems)` and the saved percentage is clamped to 0..100; in-range values are kept |
| Config.PromosFromSnapshot | app.js:91-99 | a missing document or a non-array `promos` field gives no promos; otherwise the array is taken as it is |
| Pricing.Repeat | app.js:492 | pushing a price `qty` times gives `qty` copies of it (none when `qty <= 0`) |
| Pricing.MinOf | app.js:496-497 | the first element after an ascending sort is an element of the list and no larger than any element |
| Pricing.ComboStep | app.js:486-501 | the combo applies exactly when it is enabled and there are at least three eligible units; the discount is then an eligible unit price no larger than any other, and 0 otherwise |
| Pricing.Price | app.js:558-597 | the breakdown starts from the cart subtotal, takes the combo step, applies the bulk discount exactly when it is enabled with a positive percentage and enough counted units, computes that discount on the post-combo total, and the total is the subtotal minus both discounts |
| Pricing.RoundPercent | app.js:523 | `Math.round(t*p/100)` is the integer within half a unit of `t*p/100`, with halves rounded up |
| Pricing.EligibleUnitPricesLength | app.js:489-494 | the list of eligible unit prices has one entry per eligible unit |
| Pricing.EligibleUnitPricesMembers | app.js:489-494 | a price is in the list exactly when some eligible line with positive quantity has it |
| Pricing.ComboAppliesIff | app.js:486-501 | the combo applies exactly when it is enabled and the cart holds at least three eligible units; otherwise it takes nothing |
| Pricing.ComboFreesCheapestEligibleUnit | app.js:495-498 | an applied combo takes off the price of an eligible line, and that price is no larger than the price of any eligible line |
| Pricing.BulkAppliesAfterCombo | app.js:503-527 | the bulk discount applies exactly when enabled, the percentage is positive and the counted units reach the minimum, and it is the rounded percentage of the post-combo total |
| Pricing.EligibleScopeIgnoresComboSwitch | app.js:514-519 | the "eligibles" bulk scope counts combo-eligible units even while the combo itself is switched off |
| Pricing.UnknownScopeCountsNothing | app.js:511-520 | an unrecognised `applyTo` counts no units, so a positive minimum is never met |
| Pricing.BulkCountOrderIndependent | app.js:511-520 | the number of units counted towards the bulk minimum does not depend on the order of the cart lines |
| Pricing.RoundPercentBounds | app.js:523 | for a non-negative total and a percentage in 0..100, the rounded discount lies between 0 and the total |
| Pricing.ComboWithinSubtotal | app.js:495-498 | the combo discount is between 0 and the subtotal |
| Pricing.DiscountsStayWithinTotal | app.js:482-527 | with non-negative prices and a clamped percentage, each discount is non-negative and the final total lies between 0 and the subtotal |
| Pricing.PriceOrderIndependent | app.js:482-527 | the price breakdown depends only on the multiset of cart lines, not on their order |
| Pricing.AddToCartRaisesSubtotal | app.js:446-452 | a successful add raises the subtotal by exactly one unit price: the existing line's price, or the product's effective price for a new line |
| Pricing.RemoveFromCartLowersSubtotal | app.js:466 | removing a line from a cart with unique ids lowers the subtotal by exactly that line's total |
| Pricing.ComboThenBulkExample | app.js:482-527 | a worked cart: subtotal 4500, combo frees 1000, then 10% bulk takes 350 of the remaining 3500, total 3150 |
| Pricing.RoundingExample | app.js:523 | half-way rounding goes up (0.5 → 1) and below half goes down (0.4 → 0) |
| Pricing.UnclampedPercentGoesNegative | app.js:522-524 | a stored percentage above 100 that bypassed the admin clamp drives the total below zero |
| Checkout.FinalizePurchase | app.js:550-605 | an empty cart charges nothing and is kept; otherwise the charged breakdown is the price of the cart and the cart is emptied |
| Checkout.RenderCartTotal | app.js:470-527 | the loop-by-loop cart view shows nothing for an empty cart, and otherwise shows exactly the breakdown checkout charges |
| Checkout.SumLoop | app.js:483 | the accumulating loop computes the cart sum |
| Checkout.CollectEligibleUnits | app.js:488-494 | the nested push loop builds exactly the list of eligible unit prices |
| Checkout.Smallest | app.js:496-497 | the scan returns an element of the list that is no larger than any element |
| Promos.DeletePromo | app.js:813-816 | keeps exactly the promos with a different id; unique ids stay unique |
| Promos.DeleteAbsent | app.js:815 | deleting an id no promo has changes nothing |
| Promos.DeletePromoConcat | app.js:815 | the filter works piece by piece: deleting from two lists joined equals joining the two deletions, so the survivors keep their order |
| Promos.DeletePromoIdempotent | app.js:815 | deleting twice equals deleting once |
| Promos.DeletePromoDropsOne | app.js:815 | with unique ids, deleting the id at position `k` removes exactly that promo and keeps the others in order |
| Promos.DeleteOneOfUnique | app.js:815 | with unique ids, deleting a present id removes exactly one promo |
| Promos.UpsertPromo | app.js:773 | the saved promo comes last, replaces every promo with its id, and keeps the others; unique ids stay unique |
| Promos.UpsertPromoReplacesAtEnd | app.js:773 | with unique ids, saving over an existing id removes the old version from its place, keeps the others in order and appends the new one |
| Promos.UpsertPromoAppendsNew | app.js:773 | saving a promo with a new id appends it to the unchanged list |
| Promos.UpsertPromoIdempotent | app.js:773 | saving the same promo twice equals saving it once |
| Promos.DeleteUndoesUpsert | app.js:773 | deleting a just-saved promo leaves what deleting its id from the original list leaves |
| Promos.UpsertExistingKeepsLength | app.js:773 | saving over an existing id keeps the number of promos |
| Promos.SavePromo | app.js:756-773 | the save is refused exactly when the trimmed title or text is blank; otherwise the promo built from the form is upserted |
| Promos.PromoFromForm | app.js:757-771 | the id is the form id or `String(now)`; title, text and target are trimmed; the description is the parsed text; the numbers are the form values or 0; `applyTo` is the form value or "all"; the image is the trimmed form value, stored exactly when it is non-blank |
| Promos.EditPromoForm | app.js:795-811 | no form when no promo has the id; otherwise the form of the first promo with that id |
| Promos.EditThenSaveKeepsPromo | app.js:795-811 | editing a saved promo and saving it again keeps its id, title, numbers, target, image and description pieces |
| Promos.JoinOfCleanIsTrimmed | app.js:801-802 | the "; "-joined description shown in the edit form survives `trim()` unchanged |
| Session.RunKeepsCartWellFormed | app.js:436-469 | any sequence of add, change, remove and checkout events keeps cart ids unique and quantities positive; the badge is positive exactly when the cart is non-empty |
| Session.Run | app.js:436-469 | no events leave the cart as it was; a session whose last event is a checkout ends with an empty cart |
| Session.CheckoutEmptiesCart | app.js:601 | after checkout the cart is empty, whatever came before |
| Session.RunAppend | app.js:436-469 | running two event sequences one after the other equals running their concatenation |

## Left out

- Rendering: the DOM, HTML strings, toasts, `precioCOP` currency formatting, and the WhatsApp message text and `window.open` are not modelled. Pricing stops at the numbers the message prints.
- Firestore I/O: subscriptions, `set`, `update` and `commit` are left out. A snapshot is an input value and a batch is a list of updates applied at once. Failed writes and `.catch` handlers are not modelled.
- Admin login, the site title, timers (`setTimeout`) and the tutorial script (`tutorial.js`) are not part of this model.
- Number coercion: numeric fields are integers or missing. `Number(...)` parsing of strings, NaN, fractions and floating-point rounding of `t*p/100` are not modelled. `Math.round` is exact integer rounding, with halves rounded up.
- Catalog.SortProducts: the result is a sorted permutation, but the order among products the comparator ties is not stated. JavaScript's `sort` is stable and keeps their snapshot order. `localeCompare` is an abstract comparator parameter, assumed to be skew-symmetric and transitive.
- Prices and quantities are unbounded integers, but in the source they are JavaScript doubles. Sums beyond 2^53 would lose precision, and `String(n)` switches to exponent form from 1e21. Neither is modelled.
- The `confirm()` prompts that guard `deletePromo` and `adminNormalizeOrder` are not modelled. The model describes what happens once the admin confirms.
- Config.BulkDoc: the stored `applyTo` field is assumed to be a string or absent. A number or other non-string value stored there, which the source would compare as it is, is not modelled.
- Text.ParseDescription: for a number, boolean or array the value goes through `String` first. The contract states only that the resulting pieces are clean; the only caller passes a string.
- Session.Run: the catalog and the promotion settings are fixed for the whole run. The live snapshots can change them between two events, and that is not modelled.
- Catalog.MoveUp: `Date.now()` is read twice in the source and once here. Both fallbacks use the same `now`, which is then offset by 1 as in the source.
- Catalog.MoveDown: the same single `now`, as for `MoveUp`.
- Payload.CleanPayload: object key order is not modelled, because a `map` has none.
- `clearPromoForm` and the admin form defaults of `loadBulkIntoAdmin` (4 and 20) only fill DOM inputs and are not modelled. The runtime defaults of the bulk document are (`Config.DefaultBulk`).
- Checkout.RenderCartTotal: the empty-cart branch only writes a message, so the method returns `None` there.
- Cart.RemoveFromCart: the "absent id changes nothing" property is the separate lemma `Cart.RemoveAbsent`, not an `ensures` of the function.
