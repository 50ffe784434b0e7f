/**
  The JavaScript values that travel through the message channel, with the
  three pieces of JavaScript semantics the dispatcher relies on: truthiness,
  property reads, and conversion to a string (used for property keys and
  template literals).
 */
module JsValues {

  /** A decoded message value. Numbers are integers: floating point is not modelled. */
  datatype Value =
    | Undefined
    | Null
    | Bool(b: bool)
    | Num(n: int)
    | Str(s: string)
    | Obj(fields: map<string, Value>)

  /** Reading a property of one of these throws a TypeError. */
  predicate Nullish(v: Value) {
    v.Undefined? || v.Null?
  }

  /** JavaScript truthiness: `if (v)` takes the branch exactly when this holds. */
  predicate Truthy(v: Value) {
    match v
    case Undefined => false
    case Null => false
    case Bool(b) => b
    case Num(n) => n != 0
    case Str(s) => s != ""
    case Obj(_) => true
  }

  /**
    `v.name` on a value that is not null or undefined: an own field of an
    object, and undefined otherwise (primitives carry none of the property
    names the protocol uses).
   */
  function Get(v: Value, name: string): (r: Value) {
    if v.Obj? && name in v.fields then v.fields[name] else Undefined
  }

  function DigitChar(d: nat): (c: char)
    requires d < 10
  {
    "0123456789"[d]
  }

  function NatText(n: nat): (s: string)
    decreases n
  {
    if n < 10 then [DigitChar(n)] else NatText(n / 10) + [DigitChar(n % 10)]
  }

  /** `String(v)`: what a property key or a template literal makes of `v`. */
  function ToText(v: Value): (s: string) {
    match v
    case Undefined => "undefined"
    case Null => "null"
    case Bool(b) => if b then "true" else "false"
    case Num(n) => if n < 0 then "-" + NatText(-n) else NatText(n)
    case Str(s) => s
    case Obj(_) => "[object Object]"
  }
}
