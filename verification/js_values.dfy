/**
  JSON values as the client receives them from `res.json()`, together with the
  two JavaScript operators the client uses to pick among them: `||` (first
  truthy operand) and `??` (first operand that is neither `null` nor `undefined`).
  A missing property (`undefined`) is `None` of an `Option<Json>`.
*/
module JsValues {
  import opened Wrappers

  /** A JSON value; numbers are reals, so NaN and the infinities are not represented. */
  datatype Json =
    | JNull
    | JBool(b: bool)
    | JNum(n: real)
    | JStr(s: string)
    | JArr(items: seq<Json>)
    | JObj(fields: map<string, Json>)

  /** `obj.key` for a value that is not `null` (and `obj?.key` for any value): a property of an
      object; no other value has any of the keys the client reads. */
  function Get(v: Json, key: string): (r: Option<Json>)
    ensures r.Some? <==> v.JObj? && key in v.fields
    ensures r.Some? ==> r.value == v.fields[key]
  {
    match v
    case JObj(fields) => if key in fields then Some(fields[key]) else None
    case _ => None
  }

  /** The message of the `TypeError` thrown by reading `key` off `null`, in V8's wording. */
  function NullReadMessage(key: string): string {
    "Cannot read properties of null (reading '" + key + "')"
  }

  /** `obj.key` on a value `res.json()` produced: reading a property of `null` throws a `TypeError`
      (`Err` with its message); any other value yields the property or `undefined`. */
  function Read(v: Json, key: string): (r: Result<Option<Json>>)
    ensures r.Err? <==> v == JNull
    ensures r.Err? ==> r.message == NullReadMessage(key)
    ensures r.Ok? ==> (r.value.Some? <==> v.JObj? && key in v.fields)
    ensures r.Ok? && r.value.Some? ==> r.value.value == v.fields[key]
  {
    if v == JNull then Err(NullReadMessage(key)) else Ok(Get(v, key))
  }

  /** JavaScript truthiness of a present value: `null`, `false`, `0` and `""` are falsy;
      arrays and objects are truthy even when empty. */
  predicate Truthy(v: Json) {
    match v
    case JNull => false
    case JBool(b) => b
    case JNum(n) => n != 0.0
    case JStr(s) => s != ""
    case JArr(_) => true
    case JObj(_) => true
  }

  /** Truthiness of a possibly `undefined` value. */
  predicate Present(v: Option<Json>) {
    v.Some? && Truthy(v.value)
  }

  /** `a || b`. */
  function Or(a: Option<Json>, b: Json): (r: Json)
    ensures Present(a) ==> r == a.value
    ensures !Present(a) ==> r == b
  {
    if Present(a) then a.value else b
  }

  /** A value that `??` passes over: `undefined` or `null`. */
  predicate Nullish(v: Option<Json>) {
    v.None? || v.value == JNull
  }

  /** `a ?? b`. */
  function Coalesce(a: Option<Json>, b: Json): (r: Json)
    ensures !Nullish(a) ==> r == a.value
    ensures Nullish(a) ==> r == b
  {
    if Nullish(a) then b else a.value
  }
}
