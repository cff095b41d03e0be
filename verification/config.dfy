/**
  The live configuration documents and how the storefront normalises them:
  the 3x2 combo rule, the bulk (quantity) discount rule and the promotion
  list. Each snapshot replaces the previous value wholesale.
 */
module Config {
  import opened Wrappers
  import opened Js

  /** A document snapshot: the document is missing, or present with its `data()` (`None` when that reads as falsy). */
  datatype Snapshot<T> = Missing | Present(data: Option<T>)

  // ---------------------------------------------------------------------------
  // Combo 3x2
  // ---------------------------------------------------------------------------

  /** The normalised combo rule: a Boolean switch and eligible product ids as strings. */
  datatype ComboConfig = ComboConfig(enabled: bool, eligibles: seq<string>)

  /** The combo rule before any snapshot arrives and when its document is missing. */
  const DefaultCombo := ComboConfig(false, [])

  /**
    The combo subscription: a missing document gives the disabled default;
    otherwise `enabled` is taken by truthiness and `eligibles` is the array
    mapped through `String`, or empty when it is not an array.
   */
  function ComboFromSnapshot(snap: Snapshot<map<string, JsValue>>): (c: ComboConfig)
    ensures snap.Missing? ==> c == DefaultCombo
    ensures snap.Present? ==>
      var data := snap.data.GetOr(map[]);
      var raw := Get(data, "eligibles");
      && (c.enabled <==> Truthy(Get(data, "enabled")))
      && (!raw.Arr? ==> c.eligibles == [])
      && (raw.Arr? ==> |c.eligibles| == |raw.items|)
      && (raw.Arr? ==> forall i :: 0 <= i < |raw.items| ==> c.eligibles[i] == ToJsString(raw.items[i]))
  {
    match snap
    case Missing => DefaultCombo
    case Present(d) =>
      var data := d.GetOr(map[]);
      var eligibles := match Get(data, "eligibles")
        case Arr(items) => seq(|items|, i requires 0 <= i < |items| => ToJsString(items[i]))
        case _ => [];
      ComboConfig(Truthy(Get(data, "enabled")), eligibles)
  }

  /** The document the admin panel writes for a combo rule. */
  function ComboDocument(c: ComboConfig): map<string, JsValue> {
    map["enabled" := Bool(c.enabled), "eligibles" := Arr(seq(|c.eligibles|, i requires 0 <= i < |c.eligibles| => Str(c.eligibles[i])))]
  }

  /** Writing a combo rule and reading the snapshot back gives the same rule. */
  lemma ComboDocumentRoundTrip(c: ComboConfig)
    ensures ComboFromSnapshot(Present(Some(ComboDocument(c)))) == c
  {
    var back := ComboFromSnapshot(Present(Some(ComboDocument(c))));
    assert back.eligibles == c.eligibles;
  }

  /**
    A numeric id stored in the eligible list is normalised to its decimal
    string, so it matches the product whose id is that string.
   */
  lemma NumericEligibleMatchesStringId(data: map<string, JsValue>, i: nat, n: int)
    requires Get(data, "eligibles").Arr? && i < |Get(data, "eligibles").items|
    requires Get(data, "eligibles").items[i] == Num(n)
    ensures IntToDecimal(n) in ComboFromSnapshot(Present(Some(data))).eligibles
  {
    var c := ComboFromSnapshot(Present(Some(data)));
    assert c.eligibles[i] == IntToDecimal(n);
  }

  // ---------------------------------------------------------------------------
  // Bulk discount
  // ---------------------------------------------------------------------------

  /**
    The bulk discount document as stored: numeric fields are `None` when
    undefined or null.
   */
  datatype BulkDoc = BulkDoc(enabled: JsValue, minItems: Option<int>, percent: Option<int>, applyTo: Option<string>)

  /** The bulk rule before any snapshot arrives and when its document is missing. */
  const DefaultBulk := BulkDoc(Bool(false), Some(4), Some(20), Some("all"))

  /**
    The bulk subscription: a missing document gives the default, a present one
    replaces the rule with its data as stored, and a document whose data reads
    as falsy keeps the current rule.
   */
  function BulkFromSnapshot(current: BulkDoc, snap: Snapshot<BulkDoc>): (b: BulkDoc)
    ensures snap.Missing? ==> b == DefaultBulk
    ensures snap == Present(None) ==> b == current
    ensures snap.Present? && snap.data.Some? ==> b == snap.data.value
  {
    match snap
    case Missing => DefaultBulk
    case Present(d) => d.GetOr(current)
  }

  /** Which units count toward the bulk threshold. */
  datatype Scope = AllItems | EligibleItems | NoItems

  /** The bulk rule as the pricing code reads it, with its defaults applied. */
  datatype BulkRules = BulkRules(enabled: bool, minItems: int, percent: int, scope: Scope)

  /** `applyTo || 'all'`, then "all" or "eligibles"; any other text counts nothing. */
  function ScopeOf(applyTo: Option<string>): (s: Scope)
    ensures s == AllItems <==> applyTo == None || applyTo == Some("") || applyTo == Some("all")
    ensures s == EligibleItems <==> applyTo == Some("eligibles")
  {
    var a := match applyTo
      case Some(t) => if t != "" then t else "all"
      case None => "all";
    if a == "all" then AllItems else if a == "eligibles" then EligibleItems else NoItems
  }

  /**
    The bulk rule at pricing time: `enabled` by truthiness, `minItems || 0`,
    `percent || 0`, `applyTo || 'all'`.
   */
  function ReadBulk(d: BulkDoc): (r: BulkRules)
    ensures r.enabled <==> Truthy(d.enabled)
    ensures d.minItems.None? ==> r.minItems == 0
    ensures d.minItems.Some? ==> r.minItems == d.minItems.value
    ensures d.percent.None? ==> r.percent == 0
    ensures d.percent.Some? ==> r.percent == d.percent.value
    ensures r.scope == ScopeOf(d.applyTo)
  {
    BulkRules(Truthy(d.enabled), d.minItems.GetOr(0), d.percent.GetOr(0), ScopeOf(d.applyTo))
  }

  /**
    `saveBulkFromAdmin`: the minimum is raised to at least 1 and the percent
    clamped to 0..100 before the document is written.
   */
  function SaveBulkPayload(enabled: bool, minItems: int, percent: int, applyTo: string): (d: BulkDoc)
    ensures ReadBulk(d).enabled == enabled
    ensures ReadBulk(d).minItems >= 1 && (minItems >= 1 ==> ReadBulk(d).minItems == minItems)
    ensures minItems < 1 ==> ReadBulk(d).minItems == 1
    ensures 0 <= ReadBulk(d).percent <= 100
    ensures 0 <= percent <= 100 ==> ReadBulk(d).percent == percent
    ensures percent > 100 ==> ReadBulk(d).percent == 100
    ensures percent < 0 ==> ReadBulk(d).percent == 0
    ensures ReadBulk(d).scope == ScopeOf(Some(applyTo))
  {
    var m := if minItems >= 1 then minItems else 1;
    var p := if percent < 0 then 0 else if percent > 100 then 100 else percent;
    BulkDoc(Bool(enabled), Some(m), Some(p), Some(applyTo))
  }

  // ---------------------------------------------------------------------------
  // Promotions list
  // ---------------------------------------------------------------------------

  /** The promotions subscription: the `promos` array, or no promotions when it is missing or not an array. */
  function PromosFromSnapshot(snap: Snapshot<map<string, JsValue>>): (promos: seq<JsValue>)
    ensures snap.Missing? ==> promos == []
    ensures snap.Present? && Get(snap.data.GetOr(map[]), "promos").Arr? ==>
      promos == Get(snap.data.GetOr(map[]), "promos").items
    ensures snap.Present? && !Get(snap.data.GetOr(map[]), "promos").Arr? ==> promos == []
  {
    match snap
    case Missing => []
    case Present(d) =>
      match Get(d.GetOr(map[]), "promos")
      case Arr(items) => items
      case _ => []
  }
}
