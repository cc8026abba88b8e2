/**
 * The JSON-shaped values the plugins keep their preferences in, with the
 * JavaScript operators they apply to them: truthiness, `typeof`, property
 * access, `||`, `&&` and strict equality.
 */
module JsValues {
  import opened JsText

  /**
   * A value produced by JSON.parse (plus `undefined`, which property access
   * yields for a missing key). Numbers are exact reals: doubles, their
   * rounding, infinities and NaN are not represented.
   */
  datatype JsValue =
    | JUndefined
    | JNull
    | JBool(b: bool)
    | JNumber(x: real)
    | JString(s: JsString)
    | JArray(items: seq<JsValue>)
    | JObject(props: map<JsString, JsValue>)

  /** ToBoolean. Arrays and objects are always truthy, even when empty. */
  predicate Truthy(v: JsValue) {
    match v
    case JUndefined => false
    case JNull => false
    case JBool(b) => b
    case JNumber(x) => x != 0.0
    case JString(s) => s != []
    case JArray(_) => true
    case JObject(_) => true
  }

  /** `typeof v === "object"` (true for null as well). */
  predicate TypeofObject(v: JsValue) {
    v.JNull? || v.JArray? || v.JObject?
  }

  /** The own enumerable properties of an array: its indices written in decimal. */
  function IndexProps(items: seq<JsValue>): (m: map<JsString, JsValue>)
    ensures forall i :: 0 <= i < |items| ==> Decimal(i) in m
    ensures forall k :: k in m ==> AllDigits(k) && k != []
    decreases |items|
  {
    if items == [] then map[]
    else IndexProps(items[..|items| - 1])[Decimal(|items| - 1) := items[|items| - 1]]
  }

  /**
   * The keys `for (const key in v)` and the spread `{...v}` visit, with
   * their values (an object's keys, or an array's indices).
   */
  function OwnProps(v: JsValue): map<JsString, JsValue> {
    match v
    case JObject(m) => m
    case JArray(items) => IndexProps(items)
    case _ => map[]
  }

  /** `v[k]` for a key that names no built-in property. */
  function Prop(v: JsValue, k: JsString): JsValue {
    var m := OwnProps(v);
    if k in m then m[k] else JUndefined
  }

  /** `a || b`: the first operand when it is truthy, otherwise the second. */
  function Or(a: JsValue, b: JsValue): (r: JsValue)
    ensures Truthy(r) <==> Truthy(a) || Truthy(b)
  {
    if Truthy(a) then a else b
  }

  /** `a && a[k]`: the operand itself when falsy, otherwise its property. */
  function AndProp(a: JsValue, k: JsString): (r: JsValue)
    ensures !Truthy(a) ==> r == a
  {
    if Truthy(a) then Prop(a, k) else a
  }

  /**
   * `a === b` between values that come from two separate JSON parses: two
   * objects or arrays are never the same object.
   */
  predicate StrictEq(a: JsValue, b: JsValue) {
    match (a, b)
    case (JUndefined, JUndefined) => true
    case (JNull, JNull) => true
    case (JBool(x), JBool(y)) => x == y
    case (JNumber(x), JNumber(y)) => x == y
    case (JString(x), JString(y)) => x == y
    case _ => false
  }

  /** `===` does not depend on the order of its operands. */
  lemma StrictEqSymmetric(a: JsValue, b: JsValue)
    ensures StrictEq(a, b) == StrictEq(b, a)
  {
  }

  /** Strict equality with a primitive is equality of the values. */
  lemma StrictEqPrimitive(a: JsValue, b: JsValue)
    requires !a.JArray? && !a.JObject?
    ensures StrictEq(a, b) <==> a == b
  {
  }
}
