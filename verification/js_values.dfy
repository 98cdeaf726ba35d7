/**
  The request values a handler can receive (`req.body?.value`,
  `req.params?.value`) and the two JavaScript tests applied to them:
  truthiness (`!value`) and `typeof value !== "string"`.
 */
module JsValues {

  /** A JavaScript value, as far as the handlers can tell values apart.
      Finite numbers are modelled as reals; `Other` stands for objects,
      arrays, functions, symbols and the infinities, all of which are
      truthy and none of which is a string. */
  datatype JsValue =
    | Undefined
    | Null
    | Boolean(b: bool)
    | Number(x: real)
    | NaN
    | BigInt(n: int)
    | Str(s: string)
    | Other

  /** ECMAScript ToBoolean: the falsy values are exactly `undefined`,
      `null`, `false`, `0`, `NaN`, `0n` and `""`. */
  predicate Truthy(v: JsValue): (r: bool)
    ensures !r <==> v == Undefined || v == Null || v == Boolean(false) || v == Number(0.0)
                    || v == NaN || v == BigInt(0) || v == Str("")
  {
    match v
    case Undefined => false
    case Null => false
    case Boolean(b) => b
    case Number(x) => x != 0.0
    case NaN => false
    case BigInt(n) => n != 0
    case Str(s) => |s| > 0
    case Other => true
  }

  /** `typeof v === "string"`. The only falsy string is the empty one, so
      a string passes the `!value` check exactly when it is non-empty. */
  predicate IsString(v: JsValue): (r: bool)
    ensures r <==> exists s :: v == Str(s)
    ensures r ==> (Truthy(v) <==> |v.s| > 0)
  {
    v.Str?
  }
}
