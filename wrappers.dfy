/** Small value wrappers shared by every module of the model. */
module Wrappers {

  /** An optional value; `None` stands for a JavaScript `undefined` argument or field. */
  datatype Option<+T> = None | Some(value: T) {
    function GetOr(default: T): T {
      if Some? then value else default
    }
  }

  /** A value or the error a JavaScript call would throw instead of returning. */
  datatype Result<+T, +E> = Success(value: T) | Failure(error: E)

  /** What a JavaScript function hands back when it may answer `undefined`, `null` or a value. */
  datatype JsValue<+T> = Undefined | Null | Value(value: T)

  /** JavaScript truthiness of a number that may be `undefined`: present and not 0. */
  predicate IsTruthy(n: Option<int>) {
    n.Some? && n.value != 0
  }
}
