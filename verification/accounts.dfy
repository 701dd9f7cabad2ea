/**
  The account logic of src/App.jsx: an `AccountCard`'s balance after a fetch
  and its close guard, the status label, and how `Dashboard.loadAccounts` and
  `createAccount` replace the account list.
*/
module Accounts {
  import opened Wrappers
  import opened JsValues
  import opened Strings
  import opened Toasts

  /** The text a card shows when its balance could not be fetched. */
  const Dash: string := "\U{2014}"

  /** `data.data?.balance`. */
  function NestedBalance(data: Json): Option<Json> {
    match Get(data, "data")
    case Some(inner) => Get(inner, "balance")
    case None => None
  }

  /** `data.balance ?? data.data?.balance ?? 0`: never `null`, except that a `null` reply
      throws at `data.balance`. */
  function BalanceOf(data: Json): (b: Result<Json>)
    ensures b.Err? <==> data == JNull
    ensures b.Err? ==> b.message == NullReadMessage("balance")
    ensures b.Ok? ==> b.value != JNull
    ensures b.Ok? && !Nullish(Get(data, "balance")) ==> b.value == Get(data, "balance").value
    ensures b.Ok? && Nullish(Get(data, "balance")) && !Nullish(NestedBalance(data)) ==> b.value == NestedBalance(data).value
    ensures b.Ok? && Nullish(Get(data, "balance")) && Nullish(NestedBalance(data)) ==> b.value == JNum(0.0)
  {
    match Read(data, "balance")
    case Err(thrown) => Err(thrown)
    case Ok(balance) => Ok(Coalesce(balance, Coalesce(NestedBalance(data), JNum(0.0))))
  }

  /** The balance a card holds once `fetchBalance` settles: the server's value, or the dash when
      the fetch or the read of its reply threw. The card starts from `JNull` and never returns to it. */
  function FetchBalance(fetched: Result<Json>): (b: Json)
    ensures b != JNull
    ensures fetched.Err? || fetched == Ok(JNull) ==> b == JStr(Dash)
    ensures fetched.Ok? && fetched.value != JNull ==> b == BalanceOf(fetched.value).value
  {
    match fetched
    case Ok(data) =>
      (match BalanceOf(data)
       case Ok(balance) => balance
       case Err(_) => JStr(Dash))
    case Err(_) => JStr(Dash)
  }

  /** The guard of `handleCloseAccount`: closing proceeds past it for a balance that is
      exactly `0`, still `null`, or the failure dash, and for nothing else. No non-zero number,
      and no string but the dash, gets through. */
  predicate MayClose(balance: Json)
    ensures MayClose(balance) && balance.JNum? ==> balance.n == 0.0
    ensures MayClose(balance) && balance.JStr? ==> balance.s == Dash
    ensures MayClose(balance) ==> balance.JNum? || balance.JNull? || balance.JStr?
  {
    balance == JNum(0.0) || balance == JNull || balance == JStr(Dash)
  }

  datatype CloseOutcome =
    | Refused           // error toast, no confirmation asked, no delete call
    | Cancelled         // the user declined `window.confirm`, no delete call
    | Closed            // delete succeeded: success toast and a list reload
    | CloseFailed(message: string)

  /** Whether the outcome involved a `DELETE /accounts/:id` call. */
  predicate DeleteIssued(o: CloseOutcome) {
    o.Closed? || o.CloseFailed?
  }

  /** `handleCloseAccount`, with the user's answer to the confirmation and the delete call's result as inputs. */
  function Close(balance: Json, confirmed: bool, deletion: Result<Json>): (o: CloseOutcome)
    ensures o.Refused? <==> !MayClose(balance)
    ensures DeleteIssued(o) <==> MayClose(balance) && confirmed
    ensures o.Closed? ==> deletion.Ok?
    ensures o.CloseFailed? ==> deletion == Err(o.message)
  {
    if !MayClose(balance) then Refused
    else if !confirmed then Cancelled
    else match deletion
      case Ok(_) => Closed
      case Err(m) => CloseFailed(m)
  }

  /** After a fetch, the guard lets a close through exactly for a zero balance or a failed fetch
      (a `null` reply included, or a server that itself answered with the dash). An unknown
      balance is not refused. */
  lemma CloseAfterFetch(fetched: Result<Json>, confirmed: bool, deletion: Result<Json>)
    ensures Close(FetchBalance(fetched), confirmed, deletion).Refused?
            <==> && fetched.Ok? && BalanceOf(fetched.value).Ok?
                 && BalanceOf(fetched.value).value != JNum(0.0) && BalanceOf(fetched.value).value != JStr(Dash)
    ensures fetched.Err? || fetched == Ok(JNull) ==> !Close(FetchBalance(fetched), confirmed, deletion).Refused?
  {
  }

  /** A non-zero numeric balance is always refused, whatever the user answers. */
  lemma NonZeroBalanceRefused(n: real, confirmed: bool, deletion: Result<Json>)
    requires n != 0.0
    ensures Close(JNum(n), confirmed, deletion) == Refused
    ensures !DeleteIssued(Close(JNum(n), confirmed, deletion))
  {
  }

  /** `(account.status || "active").toLowerCase()`, for a status that is a string or absent. */
  function StatusLabel(status: Option<string>): (text: string)
    ensures forall i :: 0 <= i < |text| ==> !IsUpper(text[i])
    ensures status.None? || status == Some("") ==> text == "active"
    ensures status.Some? && status.value != "" ==> text == Lower(status.value)
  {
    LowerNormalises("active");
    match status
    case Some(s) => LowerNormalises(s); if s != "" then Lower(s) else Lower("active")
    case None => Lower("active")
  }

  predicate IsActive(status: Option<string>) {
    StatusLabel(status) == "active"
  }

  /** The "Active" tile: accounts whose label is `active`. */
  function ActiveCount(statuses: seq<Option<string>>): nat {
    if statuses == [] then 0
    else (if IsActive(statuses[0]) then 1 else 0) + ActiveCount(statuses[1..])
  }

  /** The "Frozen" tile: every account whose label is not `active`, closed ones included. */
  function FrozenCount(statuses: seq<Option<string>>): nat {
    if statuses == [] then 0
    else (if IsActive(statuses[0]) then 0 else 1) + FrozenCount(statuses[1..])
  }

  /** The two tiles split the "Total Accounts" tile: every account is counted in exactly one. */
  lemma {:induction false} TilesPartition(statuses: seq<Option<string>>)
    ensures ActiveCount(statuses) + FrozenCount(statuses) == |statuses|
  {
    if statuses != [] {
      TilesPartition(statuses[1..]);
    }
  }

  /** `data.accounts || data.data || data || []`: always truthy, except that a `null` reply
      throws at `data.accounts`. */
  function AccountList(data: Json): (list: Result<Json>)
    ensures list.Err? <==> data == JNull
    ensures list.Err? ==> list.message == NullReadMessage("accounts")
    ensures list.Ok? ==> Truthy(list.value)
    ensures list.Ok? && Present(Get(data, "accounts")) ==> list.value == Get(data, "accounts").value
    ensures list.Ok? && !Present(Get(data, "accounts")) && Present(Get(data, "data")) ==> list.value == Get(data, "data").value
    ensures list.Ok? && !Present(Get(data, "accounts")) && !Present(Get(data, "data")) ==>
              list.value == (if Truthy(data) then data else JArr([]))
  {
    match Read(data, "accounts")
    case Err(thrown) => Err(thrown)
    case Ok(accounts) => Ok(Or(accounts, Or(Get(data, "data"), Or(Some(data), JArr([])))))
  }

  /** The three envelopes the client tolerates all yield the carried list, an empty one included. */
  lemma EnvelopeShapes(items: seq<Json>, other: map<string, Json>)
    ensures AccountList(JObj(other["accounts" := JArr(items)])) == Ok(JArr(items))
    ensures "accounts" !in other ==> AccountList(JObj(other["data" := JArr(items)])) == Ok(JArr(items))
    ensures AccountList(JArr(items)) == Ok(JArr(items))
  {
  }

  /** An object carrying neither list comes back whole: the empty-list default applies only
      to a falsy body, never to an object. */
  lemma ObjectWithoutListKept(fields: map<string, Json>)
    requires !Present(Get(JObj(fields), "accounts")) && !Present(Get(JObj(fields), "data"))
    ensures AccountList(JObj(fields)) == Ok(JObj(fields))
    ensures AccountList(JObj(fields)) != Ok(JArr([]))
  {
  }

  /** `loadAccounts`: a successful read replaces the list outright; a failed fetch, or a `null`
      reply that throws while the list is read out of it, keeps the list and raises an error toast. */
  function LoadAccounts(current: Json, fetched: Result<Json>): (r: (Json, Option<Toast>))
    ensures fetched.Ok? && fetched.value != JNull ==> r.0 == AccountList(fetched.value).value && r.1.None?
    ensures fetched.Err? ==> r.0 == current && r.1 == Some(Toast(fetched.message, Error))
    ensures fetched == Ok(JNull) ==> r.0 == current && r.1 == Some(Toast(NullReadMessage("accounts"), Error))
  {
    match fetched
    case Ok(data) =>
      (match AccountList(data)
       case Ok(list) => (list, None)
       case Err(thrown) => (current, Some(Toast(thrown, Error))))
    case Err(m) => (current, Some(Toast(m, Error)))
  }

  /** A load that reads a list never depends on what the list was before; one that throws
      leaves it as it was. */
  lemma LoadReplaces(a: Json, b: Json, data: Json)
    ensures data != JNull ==> LoadAccounts(a, Ok(data)).0 == LoadAccounts(b, Ok(data)).0
    ensures LoadAccounts(a, Ok(JNull)).0 == a
  {
  }

  const CreatedMessage: string := "New account created!"

  /** `createAccount`: the creation call, then (on success) a reload whose own failure is
      reported but does not stop the success toast. */
  function CreateAccount(current: Json, created: Result<Json>, reloaded: Result<Json>): (r: (Json, seq<Toast>))
    ensures created.Err? ==> r == (current, [Toast(created.message, Error)])
    ensures created.Ok? ==> r.0 == LoadAccounts(current, reloaded).0
    ensures created.Ok? ==> |r.1| >= 1 && r.1[|r.1| - 1] == Toast(CreatedMessage, Success)
    ensures created.Ok? && reloaded.Err? ==> r.1 == [Toast(reloaded.message, Error), Toast(CreatedMessage, Success)]
    // `loadAccounts` catches its own failures, so a reload that throws still ends in the success toast.
    ensures created.Ok? && reloaded == Ok(JNull) ==>
              r == (current, [Toast(NullReadMessage("accounts"), Error), Toast(CreatedMessage, Success)])
  {
    match created
    case Err(m) => (current, [Toast(m, Error)])
    case Ok(_) =>
      var (list, notice) := LoadAccounts(current, reloaded);
      (list, if notice.Some? then [notice.value, Toast(CreatedMessage, Success)] else [Toast(CreatedMessage, Success)])
  }
}
