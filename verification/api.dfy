/**
  `API.req` from src/App.jsx, reduced to the part that is not I/O: how one
  finished `fetch` becomes either the parsed body or the message of the thrown
  `Error`. The request itself (URL, credentials, headers) is not modelled.
*/
module Api {
  import opened Wrappers
  import opened JsValues
  import opened Strings

  /** What one `fetch` yields: a response whose body is `None` when it is not JSON,
      or a transport failure carrying the browser's message. */
  datatype Exchange =
    | Response(status: nat, body: Option<Json>)
    | TransportFailure(message: string)

  /** `res.ok`. */
  predicate IsOk(status: nat) {
    200 <= status <= 299
  }

  /** `await res.json().catch(() => ({}))`: a body that is not JSON reads as an empty object. */
  function BodyOf(body: Option<Json>): Json {
    body.GetOr(JObj(map[]))
  }

  const ErrorPrefix: string := "Error "

  /** The server's message: a non-empty string under `message`. A truthy non-string there is
      not modelled as a message. */
  predicate HasMessage(data: Json) {
    Get(data, "message").Some? && Get(data, "message").value.JStr? && Get(data, "message").value.s != ""
  }

  /** The message of the error a failed status throws: `data.message || `Error ${res.status}``,
      or, for a `null` body, the `TypeError` that reading `data.message` raises first. */
  function ErrorMessage(data: Json, status: nat): (m: string)
    ensures data == JNull ==> m == NullReadMessage("message")
    ensures data != JNull && HasMessage(data) ==> Get(data, "message") == Some(JStr(m))
    ensures data != JNull && !HasMessage(data) ==> m == ErrorPrefix + Decimal(status)
  {
    match Read(data, "message")
    case Err(thrown) => thrown
    case Ok(_) => if HasMessage(data) then Get(data, "message").value.s else ErrorPrefix + Decimal(status)
  }

  /** The fallback message names the status: its digits read back as the status code. */
  lemma FallbackNamesStatus(data: Json, status: nat)
    requires data != JNull && !HasMessage(data)
    ensures |ErrorMessage(data, status)| > |ErrorPrefix|
    ensures ErrorMessage(data, status)[..|ErrorPrefix|] == ErrorPrefix
    ensures var digits := ErrorMessage(data, status)[|ErrorPrefix|..];
            (forall i :: 0 <= i < |digits| ==> IsDigit(digits[i])) && DecimalValue(digits) == status
  {
    var m := ErrorMessage(data, status);
    assert m == ErrorPrefix + Decimal(status);
    assert m[|ErrorPrefix|..] == Decimal(status);
    DecimalRoundTrip(status);
  }

  /** One call of `API.req`: the body on a 2xx status, otherwise the message the caller's `catch` sees. */
  function Interpret(e: Exchange): (r: Result<Json>)
    ensures r.Ok? <==> e.Response? && IsOk(e.status)
    ensures r.Ok? ==> r.value == BodyOf(e.body)
    ensures e.TransportFailure? ==> r == Err(e.message)
    ensures e.Response? && !IsOk(e.status) ==> r == Err(ErrorMessage(BodyOf(e.body), e.status))
    // A failed status whose body is JSON `null` reports the `TypeError`, not the status.
    ensures e.Response? && !IsOk(e.status) && e.body == Some(JNull) ==> r == Err(NullReadMessage("message"))
  {
    match e
    case TransportFailure(m) => Err(m)
    case Response(status, body) =>
      if IsOk(status) then Ok(BodyOf(body)) else Err(ErrorMessage(BodyOf(body), status))
  }
}
