/** Failure-compatible wrappers shared by the storefront modules. */
module Wrappers {

  /** An optional value: the model's stand-in for JavaScript's `undefined`/`null`. */
  datatype Option<+T> = None | Some(value: T) {
    function GetOr(default: T): T {
      match this
      case Some(v) => v
      case None => default
    }
  }

  /** A value or an error. */
  datatype Result<+R, +E> = Ok(value: R) | Err(error: E)

  /** Dropping position `k > 0` of `s` is keeping its head and dropping position `k - 1` of its tail. */
  lemma ConsDropAt<T>(s: seq<T>, k: nat)
    requires 0 < k < |s|
    ensures [s[0]] + (s[1..][..k - 1] + s[1..][k..]) == s[..k] + s[k + 1..]
  {
    var lhs := [s[0]] + (s[1..][..k - 1] + s[1..][k..]);
    forall i | 0 <= i < |lhs| ensures lhs[i] == (s[..k] + s[k + 1..])[i] {
    }
  }
}
