/** The few JavaScript value rules the switcher depends on: attribute
    values that may be missing (`null` or `undefined`), truthiness of
    strings, the `||` operator, and how a value becomes a property key. */
module Js {

  /** A value that may be `null`/`undefined` (None) or present (Some). */
  datatype Option<+T> = None | Some(value: T)
  {
    /** `value` when present, `default` otherwise. */
    function GetOr(default: T): T {
      match this
      case Some(v) => v
      case None => default
    }
  }

  /** The one fault the switcher raises on purpose. */
  datatype Error = MissingGroupKey

  /** A call that returns a value or throws. */
  datatype Result<+T> = Ok(value: T) | Fail(error: Error)

  /** A possibly missing string is truthy when it is present and non-empty. */
  predicate Truthy(v: Option<string>) {
    v.Some? && v.value != ""
  }

  /** JavaScript's `a || b` on two possibly missing strings. */
  function Or(a: Option<string>, b: Option<string>): (r: Option<string>)
    ensures Truthy(r) <==> Truthy(a) || Truthy(b)
    ensures Truthy(a) ==> r == a
    ensures !Truthy(a) ==> r == b
  {
    if Truthy(a) then a else b
  }

  /** The property name a possibly missing string turns into when it indexes
      an object (`obj[null]` reads the property "null"). */
  function PropKey(v: Option<string>): string {
    match v
    case Some(s) => s
    case None => "null"
  }

  /** The property name of a value that is `undefined` when missing
      (`obj[undefined]` reads the property "undefined"). */
  function UndefinedPropKey(v: Option<string>): string {
    match v
    case Some(s) => s
    case None => "undefined"
  }

  /** The filter `x == filter || filter == null`: a missing filter admits
      every value. */
  predicate Admits(filter: Option<string>, x: Option<string>) {
    filter.None? || x == filter
  }
}
