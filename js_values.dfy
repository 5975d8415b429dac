/** JavaScript values the component relies on: `null`/`undefined` as Option,
    a string field that may be missing, null or present, and the `||` operator
    on strings (an empty string is falsy). */
module JsValues {

  datatype Option<+T> = None | Some(value: T) {
    function GetOr(default: T): T {
      match this
      case Some(v) => v
      case None => default
    }
  }

  /** A string-valued property as JSON from the provider can carry it: left out
      of the object, set to `null`, or a string. */
  datatype Field = Absent | Null | Str(s: string)

  /** JavaScript truthiness of such a property. */
  predicate Truthy(f: Field) {
    f.Str? && f.s != ""
  }

  /** `a || b` on optional strings: `a` when it is a non-empty string, else `b`. */
  function Or(a: Option<string>, b: Option<string>): (r: Option<string>)
    ensures r == a || r == b
    ensures (a.Some? && a.value != "") <==> (r == a && r.Some? && r.value != "")
    ensures r != a ==> r == b
    ensures !(a.Some? && a.value != "") ==> r == b
  {
    if a.Some? && a.value != "" then a else b
  }

  /** `x === y` where either side may be `undefined` (None): two undefined
      values are strictly equal. */
  predicate StrictEq<T(==)>(x: Option<T>, y: Option<T>) {
    x == y
  }
}
