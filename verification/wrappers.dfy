/** Optional values, used for every field or response that JavaScript may leave
    `undefined` or `null`. */
module Wrappers {

  datatype Option<+T> = None | Some(value: T) {

    /** The wrapped value, or `default` when there is none (JavaScript's `x ?? d`). */
    function GetOr(default: T): T {
      match this
      case Some(v) => v
      case None => default
    }
  }

  /** JavaScript truthiness of an optional string: present and not empty. */
  predicate Truthy(s: Option<string>) {
    s.Some? && s.value != ""
  }

  /** How an HTTP request ended: a response with `ok` set and the parsed body,
      a response whose `ok` is false, or a rejected `fetch`. */
  datatype Response<+T> = Ok(body: T) | NotOk | Threw
}
