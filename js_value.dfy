/**
 * The dynamically typed values that flow through the application: what
 * `JSON.parse` produces, what the backend sends back to the browser and
 * what the database rows hold.  The operations are the JavaScript ones the
 * source applies to them: truthiness, `a || b`, `String(x)` (and template
 * literals, which convert the same way) and property reads.
 */
module JsValue {
  import opened Wrappers
  import opened Text

  datatype Value =
    | Undefined
    | Null
    | Bool(b: bool)
      /** A number, carried as the text `String(n)` renders it. */
    | Number(repr: string)
    | Str(s: string)
    | Array(items: seq<Value>)
    | Object(fields: map<string, Value>)

  /** JavaScript truthiness: `undefined`, `null`, `false`, `0`, `NaN` and `""` are falsy. */
  predicate Truthy(v: Value) {
    match v
    case Undefined => false
    case Null => false
    case Bool(b) => b
    case Number(repr) => repr != "0" && repr != "NaN"
    case Str(s) => s != ""
    case Array(_) => true
    case Object(_) => true
  }

  /** `a || b`: the first operand when it is truthy, else the second. */
  function Or(a: Value, b: Value): (r: Value)
    ensures Truthy(r) <==> Truthy(a) || Truthy(b)
    ensures Truthy(a) ==> r == a
    ensures !Truthy(a) ==> r == b
  {
    if Truthy(a) then a else b
  }

  /**
   * `String(v)`.  An array renders as its elements joined by commas, with
   * `null` and `undefined` elements rendered as empty text; a plain object
   * renders as "[object Object]".
   */
  function ToJsString(v: Value): string
    decreases v
  {
    match v
    case Undefined => "undefined"
    case Null => "null"
    case Bool(b) => if b then "true" else "false"
    case Number(repr) => repr
    case Str(s) => s
    case Array(items) =>
      Join(seq(|items|, i requires 0 <= i < |items| =>
                 if items[i].Undefined? || items[i].Null? then "" else ToJsString(items[i])), ",")
    case Object(_) => "[object Object]"
  }

  /** `null` and `undefined`, whose properties cannot be read. */
  predicate IsNullish(v: Value) {
    v.Null? || v.Undefined?
  }

  /**
   * `v[key]` for the property names the application reads, on a value that
   * is not nullish (reading a property of `null` or `undefined` throws a
   * TypeError, which the callers model as an error first): a missing
   * property of an object, and any such property of a primitive or an
   * array, is `undefined`.
   */
  function Get(v: Value, key: string): Value
    requires !IsNullish(v)
  {
    if v.Object? && key in v.fields then v.fields[key] else Undefined
  }
}
