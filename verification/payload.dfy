/** `cleanPayload`: strips empty fields from an object before it is written to the store. */
module Payload {
  import opened Js

  /** The values `cleanPayload` leaves out: undefined, null, a blank-after-trim string, an empty array. */
  predicate IsEmptyField(v: JsValue) {
    || v.Undefined?
    || v.Null?
    || (v.Str? && Trim(v.s) == "")
    || (v.Arr? && |v.items| == 0)
  }

  /**
    Keeps exactly the keys whose value is not empty, each with its value
    unchanged. Note `false`, `0` and `{}` are kept: only the four empty
    shapes are dropped, not every falsy value.
   */
  function CleanPayload(obj: map<string, JsValue>): (out: map<string, JsValue>)
    ensures out.Keys <= obj.Keys
    ensures forall k :: k in out ==> out[k] == obj[k]
    ensures forall k :: k in obj ==>
      (k !in out <==>
        || obj[k].Undefined?
        || obj[k].Null?
        || (obj[k].Str? && AllWhitespace(obj[k].s))
        || (obj[k].Arr? && obj[k].items == []))
  {
    map k | k in obj && !IsEmptyField(obj[k]) :: obj[k]
  }

  /** Cleaning a cleaned payload changes nothing. */
  lemma CleanPayloadIdempotent(obj: map<string, JsValue>)
    ensures CleanPayload(CleanPayload(obj)) == CleanPayload(obj)
  {
    var once := CleanPayload(obj);
    assert forall k :: k in once ==> !IsEmptyField(once[k]);
  }
}
