/**
  The promotions list kept in the site document: the admin form's save
  (an upsert by id), the edit form that loads a promotion back, and delete.
 */
module Promos {
  import opened Wrappers
  import opened Js
  import opened Text

  datatype Promo = Promo(
    id: string,
    title: string,
    text: string,
    descripcion: seq<string>,
    minItems: int,
    percent: int,
    applyTo: string,
    targetProductId: string,
    image: Option<string>)

  predicate UniquePromoIds(promos: seq<Promo>) {
    forall i, j :: 0 <= i < j < |promos| ==> promos[i].id != promos[j].id
  }

  /** `promos.filter(p => String(p.id) !== String(id))`: drops every promotion with that id, keeping the order of the rest. */
  function DeletePromo(promos: seq<Promo>, id: string): (r: seq<Promo>)
    ensures forall q :: q in r <==> q in promos && q.id != id
    ensures |r| <= |promos|
    ensures UniquePromoIds(promos) ==> UniquePromoIds(r)
  {
    if |promos| == 0 then []
    else
      var rest := DeletePromo(promos[1..], id);
      DeleteKeepsUnique(promos, rest);
      if promos[0].id == id then rest else [promos[0]] + rest
  }

  lemma DeleteKeepsUnique(promos: seq<Promo>, rest: seq<Promo>)
    requires |promos| > 0
    requires forall q :: q in rest ==> q in promos[1..]
    requires UniquePromoIds(promos[1..]) ==> UniquePromoIds(rest)
    ensures UniquePromoIds(promos) ==> UniquePromoIds(rest) && UniquePromoIds([promos[0]] + rest)
  {
    if UniquePromoIds(promos) {
      UniqueTail(promos);
      var r := [promos[0]] + rest;
      forall i, j | 0 <= i < j < |r| ensures r[i].id != r[j].id {
        if i == 0 {
          assert r[j] in promos[1..];
        }
      }
    }
  }

  lemma UniqueTail(promos: seq<Promo>)
    requires |promos| > 0 && UniquePromoIds(promos)
    ensures UniquePromoIds(promos[1..])
  {
    forall i, j | 0 <= i < j < |promos[1..]| ensures promos[1..][i].id != promos[1..][j].id {
      assert promos[1..][i] == promos[i + 1] && promos[1..][j] == promos[j + 1];
    }
  }

  /** Deleting an id the list does not hold changes nothing. */
  lemma {:induction false} DeleteAbsent(promos: seq<Promo>, id: string)
    requires forall i :: 0 <= i < |promos| ==> promos[i].id != id
    ensures DeletePromo(promos, id) == promos
  {
    if |promos| > 0 {
      assert promos[0].id != id;
      forall i | 0 <= i < |promos[1..]| ensures promos[1..][i].id != id {
        assert promos[1..][i] == promos[i + 1];
      }
      DeleteAbsent(promos[1..], id);
    }
  }

  /** Deleting twice is the same as deleting once. */
  lemma DeletePromoIdempotent(promos: seq<Promo>, id: string)
    ensures DeletePromo(DeletePromo(promos, id), id) == DeletePromo(promos, id)
  {
    var r := DeletePromo(promos, id);
    forall i | 0 <= i < |r| ensures r[i].id != id {
      assert r[i] in r;
    }
    DeleteAbsent(r, id);
  }

  lemma {:induction false} DeletePromoConcat(a: seq<Promo>, b: seq<Promo>, id: string)
    ensures DeletePromo(a + b, id) == DeletePromo(a, id) + DeletePromo(b, id)
  {
    if |a| > 0 {
      assert (a + b)[1..] == a[1..] + b;
      DeletePromoConcat(a[1..], b, id);
    } else {
      assert a + b == b;
    }
  }

  /** With unique ids, deleting the id at position `k` removes exactly that promotion and keeps the others in order. */
  lemma {:induction false} DeletePromoDropsOne(promos: seq<Promo>, id: string, k: nat)
    requires UniquePromoIds(promos)
    requires k < |promos| && promos[k].id == id
    ensures DeletePromo(promos, id) == promos[..k] + promos[k + 1..]
  {
    if k == 0 {
      DeleteFirstOfUnique(promos, id);
    } else {
      UniqueTail(promos);
      assert promos[1..][k - 1] == promos[k];
      DeletePromoDropsOne(promos[1..], id, k - 1);
      assert promos[0].id != promos[k].id;
      DeleteKeepsHead(promos, id, k);
    }
  }

  lemma DeleteFirstOfUnique(promos: seq<Promo>, id: string)
    requires UniquePromoIds(promos)
    requires |promos| > 0 && promos[0].id == id
    ensures DeletePromo(promos, id) == promos[1..]
  {
    var tail := promos[1..];
    forall i | 0 <= i < |tail| ensures tail[i].id != id {
      assert tail[i] == promos[i + 1];
    }
    DeleteAbsent(tail, id);
  }

  lemma DeleteKeepsHead(promos: seq<Promo>, id: string, k: nat)
    requires 0 < k < |promos| && promos[0].id != id
    requires DeletePromo(promos[1..], id) == promos[1..][..k - 1] + promos[1..][k..]
    ensures DeletePromo(promos, id) == promos[..k] + promos[k + 1..]
  {
    assert DeletePromo(promos, id) == [promos[0]] + DeletePromo(promos[1..], id);
    ConsDropAt(promos, k);
  }

  /** `promos.filter(...).concat([p])`: the new version replaces any earlier one with the same id and goes last. */
  function UpsertPromo(promos: seq<Promo>, p: Promo): (r: seq<Promo>)
    ensures |r| > 0 && r[|r| - 1] == p
    ensures forall q :: q in r <==> q == p || (q in promos && q.id != p.id)
    ensures forall i :: 0 <= i < |r| - 1 ==> r[i].id != p.id
    ensures UniquePromoIds(promos) ==> UniquePromoIds(r)
  {
    var kept := DeletePromo(promos, p.id);
    assert forall i :: 0 <= i < |kept| ==> kept[i] in kept;
    kept + [p]
  }

  /**
    Saving over the id held at position `k` of a list with unique ids drops
    the old version from its place and appends the new one; the others keep
    their order.
   */
  lemma UpsertPromoReplacesAtEnd(promos: seq<Promo>, p: Promo, k: nat)
    requires UniquePromoIds(promos)
    requires k < |promos| && promos[k].id == p.id
    ensures UpsertPromo(promos, p) == promos[..k] + promos[k + 1..] + [p]
  {
    DeletePromoDropsOne(promos, p.id, k);
  }

  /** Saving a promotion with a new id appends it to the unchanged list. */
  lemma UpsertPromoAppendsNew(promos: seq<Promo>, p: Promo)
    requires forall i :: 0 <= i < |promos| ==> promos[i].id != p.id
    ensures UpsertPromo(promos, p) == promos + [p]
  {
    DeleteAbsent(promos, p.id);
  }

  /** Saving the same promotion twice is the same as saving it once. */
  lemma UpsertPromoIdempotent(promos: seq<Promo>, p: Promo)
    ensures UpsertPromo(UpsertPromo(promos, p), p) == UpsertPromo(promos, p)
  {
    var kept := DeletePromo(promos, p.id);
    DeletePromoConcat(kept, [p], p.id);
    DeletePromoIdempotent(promos, p.id);
  }

  /** Deleting a promotion right after saving it leaves the list as if it had never existed. */
  lemma DeleteUndoesUpsert(promos: seq<Promo>, p: Promo)
    ensures DeletePromo(UpsertPromo(promos, p), p.id) == DeletePromo(promos, p.id)
  {
    var kept := DeletePromo(promos, p.id);
    DeletePromoConcat(kept, [p], p.id);
    DeletePromoIdempotent(promos, p.id);
  }

  /** In a list with unique ids, saving over an existing id keeps the list's length. */
  lemma {:induction false} UpsertExistingKeepsLength(promos: seq<Promo>, p: Promo, k: nat)
    requires UniquePromoIds(promos)
    requires k < |promos| && promos[k].id == p.id
    ensures |UpsertPromo(promos, p)| == |promos|
  {
    DeleteOneOfUnique(promos, p.id, k);
  }

  lemma {:induction false} DeleteOneOfUnique(promos: seq<Promo>, id: string, k: nat)
    requires UniquePromoIds(promos)
    requires k < |promos| && promos[k].id == id
    ensures |DeletePromo(promos, id)| == |promos| - 1
  {
    if k == 0 {
      forall i | 0 <= i < |promos[1..]| ensures promos[1..][i].id != id {
        assert promos[1..][i] == promos[i + 1];
      }
      DeleteAbsent(promos[1..], id);
    } else {
      UniqueTail(promos);
      DeleteOneOfUnique(promos[1..], id, k - 1);
    }
  }

  // ---------------------------------------------------------------------------
  // The admin form
  // ---------------------------------------------------------------------------

  /**
    The promotion form's fields as text, with the two number fields already
    read as numbers (`None` for an empty or non-numeric field).
   */
  datatype PromoForm = PromoForm(
    id: string,
    title: string,
    text: string,
    minItems: Option<int>,
    percent: Option<int>,
    applyTo: string,
    targetProductId: string,
    image: string)

  /**
    `savePromoFromAdmin`: a blank title or text is refused and the list is
    left alone; otherwise the form becomes a promotion (a new id from the
    clock `now` when the id field is empty) and is upserted.
   */
  function SavePromo(promos: seq<Promo>, form: PromoForm, now: int): (r: Result<seq<Promo>, string>)
    ensures r.Err? <==> Trim(form.title) == "" || Trim(form.text) == ""
    ensures r.Ok? ==> r.value == UpsertPromo(promos, PromoFromForm(form, now))
  {
    if Trim(form.title) == "" || Trim(form.text) == "" then Err("title and text are required")
    else Ok(UpsertPromo(promos, PromoFromForm(form, now)))
  }

  /** The promotion a filled-in form describes. */
  function PromoFromForm(form: PromoForm, now: int): (p: Promo)
    ensures p.id == if form.id != "" then form.id else IntToDecimal(now)
    ensures p.title == Trim(form.title) && p.text == Trim(form.text)
    ensures p.descripcion == ParsePieces(Trim(form.text))
    ensures form.minItems.Some? ==> p.minItems == form.minItems.value
    ensures form.minItems.None? ==> p.minItems == 0
    ensures form.percent.Some? ==> p.percent == form.percent.value
    ensures form.percent.None? ==> p.percent == 0
    ensures p.applyTo != ""
    ensures form.applyTo != "" ==> p.applyTo == form.applyTo
    ensures form.applyTo == "" ==> p.applyTo == "all"
    ensures p.targetProductId == Trim(form.targetProductId)
    ensures p.image.Some? <==> Trim(form.image) != ""
    ensures p.image.Some? ==> p.image.value == Trim(form.image)
  {
    var text := Trim(form.text);
    var image := Trim(form.image);
    Promo(
      if form.id != "" then form.id else IntToDecimal(now),
      Trim(form.title),
      text,
      ParseDescription(Str(text)),
      form.minItems.GetOr(0),
      form.percent.GetOr(0),
      if form.applyTo != "" then form.applyTo else "all",
      Trim(form.targetProductId),
      if image != "" then Some(image) else None)
  }

  /**
    `editPromoForm`: the form for the first promotion with that id, if any.
    A non-empty description list is shown joined with "; ", otherwise the
    stored text; zero numbers show as empty fields.
   */
  function EditPromoForm(promos: seq<Promo>, id: string): (r: Option<PromoForm>)
    ensures r.None? <==> forall i :: 0 <= i < |promos| ==> promos[i].id != id
    ensures r.Some? ==> exists i :: (0 <= i < |promos| && promos[i].id == id
      && (forall j :: 0 <= j < i ==> promos[j].id != id) && r.value == FormOf(promos[i]))
  {
    if |promos| == 0 then None
    else if promos[0].id == id then Some(FormOf(promos[0]))
    else
      var r := EditPromoForm(promos[1..], id);
      assert forall i :: 0 <= i < |promos| - 1 ==> promos[1..][i] == promos[i + 1];
      r
  }

  function FormOf(p: Promo): PromoForm {
    PromoForm(
      p.id,
      p.title,
      if |p.descripcion| > 0 then Join(p.descripcion, "; ") else p.text,
      if p.minItems != 0 then Some(p.minItems) else None,
      if p.percent != 0 then Some(p.percent) else None,
      if p.applyTo != "" then p.applyTo else "all",
      p.targetProductId,
      match p.image case Some(s) => s case None => "")
  }

  /** A promotion as saving a form leaves it: trimmed fields and a clean description. */
  predicate IsSavedShape(p: Promo) {
    && p.id != ""
    && p.title != "" && Trim(p.title) == p.title
    && p.text != "" && Trim(p.text) == p.text
    && p.applyTo != ""
    && Trim(p.targetProductId) == p.targetProductId
    && (p.image.Some? ==> p.image.value != "" && Trim(p.image.value) == p.image.value)
    && (forall k :: 0 <= k < |p.descripcion| ==> IsCleanPiece(p.descripcion[k]))
  }

  /**
    Opening a saved promotion in the edit form and saving it unchanged keeps
    its id, title, numbers, target, image and description pieces; only the
    free text is replaced by the description joined with "; " when the
    description is non-empty.
   */
  lemma EditThenSaveKeepsPromo(p: Promo, now: int)
    requires IsSavedShape(p)
    requires p.descripcion == ParsePieces(p.text)
    ensures var q := PromoFromForm(FormOf(p), now);
      && q.id == p.id && q.title == p.title
      && q.minItems == p.minItems && q.percent == p.percent
      && q.applyTo == p.applyTo && q.targetProductId == p.targetProductId && q.image == p.image
      && q.descripcion == p.descripcion
      && q.text == if |p.descripcion| > 0 then Join(p.descripcion, "; ") else p.text
  {
    var f := FormOf(p);
    if |p.descripcion| > 0 {
      ParseOfJoin(p.descripcion);
      JoinOfCleanIsTrimmed(p.descripcion);
    }
  }

  /** A "; "-join of clean pieces starts and ends with a non-blank character. */
  lemma JoinOfCleanIsTrimmed(xs: seq<string>)
    requires |xs| > 0
    requires forall k :: 0 <= k < |xs| ==> IsCleanPiece(xs[k])
    ensures Trim(Join(xs, "; ")) == Join(xs, "; ")
  {
    var s := Join(xs, "; ");
    JoinEnds(xs);
    TrimOfTrimmed(s);
  }

  lemma {:induction false} JoinEnds(xs: seq<string>)
    requires |xs| > 0
    requires forall k :: 0 <= k < |xs| ==> IsCleanPiece(xs[k])
    ensures |Join(xs, "; ")| > 0
    ensures !IsWhitespace(Join(xs, "; ")[0])
    ensures !IsWhitespace(Join(xs, "; ")[|Join(xs, "; ")| - 1])
  {
    assert IsCleanPiece(xs[0]);
    if |xs| > 1 {
      JoinEnds(xs[1..]);
    }
  }
}
