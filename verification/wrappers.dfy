/** Wrappers shared by the model: an optional value (a
    JavaScript property that may be absent, `null` or `undefined`) and a
    result that is either a value or the error a handler throws. */
module Wrappers {

  datatype Option<+T> = None | Some(value: T) {

    /** The wrapped value, or `default` when there is none. */
    function GetOr(default: T): (r: T) {
      match this
      case Some(v) => v
      case None => default
    }

    /** The value this field has after the object spread `{...base, ...this}`:
        a present key overrides, an absent one keeps the base. */
    function OrElse(base: Option<T>): (r: Option<T>) {
      match this
      case Some(_) => this
      case None => base
    }
  }

  datatype Result<+R, +E> = Success(value: R) | Failure(error: E)
}
