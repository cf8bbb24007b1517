/**
 Request fields arrive as loosely typed JSON values. This module gives them a
 shape and states JavaScript's truthiness, which is what the create handler's
 "all fields present" test really checks.
 */
module JsValue {

  /** The values a JSON body field can hold after parsing. Numbers are kept as
      integers; NaN is its own case because it is falsy. Arrays and objects are
      lumped together as `Composite`: every one of them is truthy. */
  datatype Value =
    | Undefined
    | Null
    | Bool(b: bool)
    | Num(n: int)
    | NaN
    | Str(s: string)
    | Composite

  /** `!v` in JavaScript: false, 0, NaN, the empty string, null and a missing
      field are falsy; everything else is truthy. */
  predicate Falsy(v: Value): (r: bool)
    ensures r <==> v == Undefined || v == Null || v == Bool(false) || v == Num(0)
                   || v == NaN || v == Str("")
  {
    match v
    case Undefined => true
    case Null => true
    case Bool(b) => !b
    case Num(n) => n == 0
    case NaN => true
    case Str(s) => s == []
    case Composite => false
  }
}
